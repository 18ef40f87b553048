/** Bitwise operators on unbounded naturals, and when they coincide with arithmetic. */
module Bits {
  import opened Arith

  function Or(a: nat, b: nat): nat {
    if a == 0 then b
    else if b == 0 then a
    else (if a % 2 == 1 || b % 2 == 1 then 1 else 0) + 2 * Or(a / 2, b / 2)
  }

  function Xor(a: nat, b: nat): nat {
    if a == 0 then b
    else if b == 0 then a
    else (a + b) % 2 + 2 * Xor(a / 2, b / 2)
  }

  /** Joining a word whose low k bits are clear with a k-bit word is addition. */
  lemma {:induction false} OrIsSum(h: nat, b: nat, k: nat)
    requires b < Pow(2, k)
    ensures Or(h * Pow(2, k), b) == h * Pow(2, k) + b
  {
    if k > 0 {
      var x := h * Pow(2, k - 1);
      OrIsSum(h, b / 2, k - 1);
      DoubleOut(h, Pow(2, k - 1));
      OrDoubled(x, b);
    }
  }

  lemma DoubleOut(h: int, w: int)
    ensures h * (2 * w) == 2 * (h * w)
  {}

  lemma OrDoubled(x: nat, b: nat)
    ensures Or(2 * x, b) == b % 2 + 2 * Or(x, b / 2)
  {
    assert (2 * x) / 2 == x;
  }

  /** A left shift by k of an n-bit register keeps the low n - k bits. */
  lemma ShiftTruncated(x: nat, k: nat, n: nat)
    requires k <= n
    ensures Pow(2, k) > 0 && Pow(2, n - k) > 0 && Pow(2, n) > 0
    ensures (x * Pow(2, k)) % Pow(2, n) == (x % Pow(2, n - k)) * Pow(2, k)
  {
    PowPos(2, k);
    PowPos(2, n - k);
    PowPos(2, n);
    PowAdd(2, n - k, k);
    var w, v := Pow(2, n - k), Pow(2, k);
    DivMod(x, w);
    var q, r := x / w, x % w;
    assert x * v == q * Pow(2, n) + r * v by {
      Distribute(q * w, r, v);
      MulAssoc(q, w, v);
    }
    MulMono(r, w - 1, v);
    Distribute(w, -1, v);
    MulMono(0, r, v);
    DivModUnique(x * v, Pow(2, n), q, r * v);
  }

  lemma {:induction false} XorSelf(a: nat)
    ensures Xor(a, a) == 0
  {
    if a > 0 {
      XorSelf(a / 2);
    }
  }

  lemma {:induction false} XorCommutes(a: nat, b: nat)
    ensures Xor(a, b) == Xor(b, a)
  {
    if a > 0 && b > 0 {
      XorCommutes(a / 2, b / 2);
    }
  }

  lemma XorParts(a: nat, b: nat)
    ensures Xor(a, b) % 2 == (a + b) % 2 && Xor(a, b) / 2 == Xor(a / 2, b / 2)
  {}

  lemma {:induction false} XorAssociates(a: nat, b: nat, c: nat)
    ensures Xor(Xor(a, b), c) == Xor(a, Xor(b, c))
  {
    if a > 0 && b > 0 && c > 0 {
      XorAssociates(a / 2, b / 2, c / 2);
      XorParts(a, b);
      XorParts(b, c);
      XorParts(Xor(a, b), c);
      XorParts(a, Xor(b, c));
      ParityAssociates(Xor(a, b), Xor(b, c), a, b, c);
      SameHalves(Xor(Xor(a, b), c), Xor(a, Xor(b, c)));
    }
  }

  lemma ParityAssociates(x: nat, y: nat, a: nat, b: nat, c: nat)
    requires x % 2 == (a + b) % 2 && y % 2 == (b + c) % 2
    ensures (x + c) % 2 == (a + y) % 2
  {}

  lemma SameHalves(x: nat, y: nat)
    requires x % 2 == y % 2 && x / 2 == y / 2
    ensures x == y
  {}

  /** Masking twice with the same key restores the message. */
  lemma XorCancel(a: nat, k: nat)
    ensures Xor(Xor(a, k), k) == a
  {
    XorAssociates(a, k, k);
    XorSelf(k);
  }

  lemma {:induction false} XorBound(a: nat, b: nat, k: nat)
    requires a < Pow(2, k) && b < Pow(2, k)
    ensures Xor(a, b) < Pow(2, k)
  {
    if a > 0 && b > 0 {
      XorBound(a / 2, b / 2, k - 1);
    }
  }

  lemma TwoPowers()
    ensures Pow(2, 8) == 0x100 && Pow(2, 16) == 0x1_0000 && Pow(2, 24) == 0x100_0000
    ensures Pow(2, 30) == 0x4000_0000 && Pow(2, 32) == WORD
  {
    assert Pow(2, 8) == 0x100;
    PowAdd(2, 8, 8);
    PowAdd(2, 16, 8);
    PowAdd(2, 24, 6);
    PowAdd(2, 16, 16);
  }
}
