/** Bitsliced words: bit l of word k is coefficient k of the field element in lane l. */
module BitSlice {
  import opened Arith
  import opened Bits
  import opened Gf256

  // ---- single bits -----------------------------------------------------------------------

  function And(a: nat, b: nat): nat {
    if a == 0 || b == 0 then 0
    else (if a % 2 == 1 && b % 2 == 1 then 1 else 0) + 2 * And(a / 2, b / 2)
  }

  /** Bit l of w. */
  predicate Bit(w: nat, l: nat) {
    if l == 0 then w % 2 == 1 else Bit(w / 2, l - 1)
  }

  lemma {:induction false} BitZero(l: nat)
    ensures !Bit(0, l)
  {
    if l > 0 { BitZero(l - 1); }
  }

  lemma ParityOfSum(a: nat, b: nat)
    ensures (a + b) % 2 == 1 <==> (a % 2 == 1) != (b % 2 == 1)
  {}

  lemma {:induction false} BitXor(a: nat, b: nat, l: nat)
    ensures Bit(Xor(a, b), l) == (Bit(a, l) != Bit(b, l))
  {
    XorParts(a, b);
    BitZero(l);
    if l == 0 {
      ParityOfSum(a, b);
    } else {
      BitXor(a / 2, b / 2, l - 1);
    }
  }

  lemma AndParts(a: nat, b: nat)
    ensures And(a, b) % 2 == 1 <==> a % 2 == 1 && b % 2 == 1
    ensures And(a, b) / 2 == And(a / 2, b / 2)
  {}

  lemma {:induction false} BitAnd(a: nat, b: nat, l: nat)
    ensures Bit(And(a, b), l) == (Bit(a, l) && Bit(b, l))
  {
    AndParts(a, b);
    if l > 0 {
      BitAnd(a / 2, b / 2, l - 1);
    }
  }

  lemma OrParts(a: nat, b: nat)
    ensures Or(a, b) % 2 == 1 <==> a % 2 == 1 || b % 2 == 1
    ensures Or(a, b) / 2 == Or(a / 2, b / 2)
  {}

  lemma {:induction false} BitOr(a: nat, b: nat, l: nat)
    ensures Bit(Or(a, b), l) == (Bit(a, l) || Bit(b, l))
  {
    OrParts(a, b);
    if l > 0 {
      BitOr(a / 2, b / 2, l - 1);
    }
  }

  lemma {:induction false} AndBound(a: nat, b: nat)
    ensures And(a, b) <= a
  {
    if a > 0 && b > 0 { AndBound(a / 2, b / 2); }
  }

  lemma {:induction false} OrBound(a: nat, b: nat, k: nat)
    requires a < Pow(2, k) && b < Pow(2, k)
    ensures Or(a, b) < Pow(2, k)
  {
    if a > 0 && b > 0 { OrBound(a / 2, b / 2, k - 1); }
  }

  function XorWord(a: uint32, b: uint32): (r: uint32)
    ensures forall l :: Bit(r, l) == (Bit(a, l) != Bit(b, l))
  {
    TwoPowers();
    XorBound(a, b, 32);
    assert forall l :: Bit(Xor(a, b), l) == (Bit(a, l) != Bit(b, l)) by {
      forall l ensures Bit(Xor(a, b), l) == (Bit(a, l) != Bit(b, l)) { BitXor(a, b, l); }
    }
    Xor(a, b)
  }

  function AndWord(a: uint32, b: uint32): (r: uint32)
    ensures forall l :: Bit(r, l) == (Bit(a, l) && Bit(b, l))
  {
    AndBound(a, b);
    assert forall l :: Bit(And(a, b), l) == (Bit(a, l) && Bit(b, l)) by {
      forall l ensures Bit(And(a, b), l) == (Bit(a, l) && Bit(b, l)) { BitAnd(a, b, l); }
    }
    And(a, b)
  }

  function OrWord(a: uint32, b: uint32): (r: uint32)
    ensures forall l :: Bit(r, l) == (Bit(a, l) || Bit(b, l))
  {
    TwoPowers();
    OrBound(a, b, 32);
    assert forall l :: Bit(Or(a, b), l) == (Bit(a, l) || Bit(b, l)) by {
      forall l ensures Bit(Or(a, b), l) == (Bit(a, l) || Bit(b, l)) { BitOr(a, b, l); }
    }
    Or(a, b)
  }

  /** (cur & (1 << k)) >> k: one bit, moved to the bottom. */
  function BottomBit(cur: uint32, k: nat): (r: uint32)
    ensures r == if Bit(cur, k) then 1 else 0
  {
    PowPos(2, k);
    SingleBit(cur, k);
    And(cur, Pow(2, k)) / Pow(2, k)
  }

  lemma {:induction false} SingleBit(x: nat, k: nat)
    ensures Pow(2, k) > 0 && And(x, Pow(2, k)) == if Bit(x, k) then Pow(2, k) else 0
    ensures And(x, Pow(2, k)) / Pow(2, k) == if Bit(x, k) then 1 else 0
  {
    PowPos(2, k);
    BitZero(k);
    if k == 0 {
      assert Pow(2, 0) == 1;
      AndParts(x, 1);
      assert And(x / 2, 0) == 0;
    } else {
      PowPos(2, k - 1);
      SingleBit(x / 2, k - 1);
      DoubledPower(Pow(2, k - 1));
      AndParts(x, Pow(2, k));
    }
    DivModUnique(Pow(2, k), Pow(2, k), 1, 0);
    DivModUnique(0, Pow(2, k), 0, 0);
  }

  lemma DoubledPower(p: nat)
    ensures (2 * p) % 2 == 0 && (2 * p) / 2 == p
  {}

  /** 1 << k has exactly bit k. */
  lemma {:induction false} BitOfPower(k: nat, l: nat)
    ensures Pow(2, k) > 0 && (Bit(Pow(2, k), l) <==> k == l)
  {
    PowPos(2, k);
    if k > 0 {
      DoubledPower(Pow(2, k - 1));
      if l > 0 { BitOfPower(k - 1, l - 1); }
    } else if l > 0 {
      BitZero(l - 1);
    }
  }

  /** All 32 bits of a mask are equal. */
  lemma {:induction false} BitOfOnes(k: nat, l: nat)
    requires l < k
    ensures Pow(2, k) > 0 && Bit(Pow(2, k) - 1, l)
  {
    PowPos(2, k);
    PowPos(2, k - 1);
    OnesHalved(Pow(2, k - 1));
    if l > 0 { BitOfOnes(k - 1, l - 1); }
  }

  lemma OnesHalved(p: int)
    requires p > 0
    ensures (2 * p - 1) % 2 == 1 && (2 * p - 1) / 2 == p - 1
  {}

  // ---- lanes -----------------------------------------------------------------------------

  function Lane(r: seq<uint32>, l: nat): Elem
    requires |r| == 8
  {
    Elem(Bit(r[0], l), Bit(r[1], l), Bit(r[2], l), Bit(r[3], l), Bit(r[4], l), Bit(r[5], l), Bit(r[6], l), Bit(r[7], l))
  }

  /** The field element a byte stands for. */
  function ElemOf(b: uint8): Elem {
    Elem(Bit(b, 0), Bit(b, 1), Bit(b, 2), Bit(b, 3), Bit(b, 4), Bit(b, 5), Bit(b, 6), Bit(b, 7))
  }

  /** Bytes with the same bits are equal. */
  lemma {:induction false} BitsDetermine(a: nat, b: nat, k: nat)
    requires a < Pow(2, k) && b < Pow(2, k) && forall l :: 0 <= l < k ==> Bit(a, l) == Bit(b, l)
    ensures a == b
  {
    if k > 0 {
      forall l | 0 <= l < k - 1 ensures Bit(a / 2, l) == Bit(b / 2, l) {
        assert Bit(a, l + 1) == Bit(b, l + 1);
      }
      BitsDetermine(a / 2, b / 2, k - 1);
      assert Bit(a, 0) == Bit(b, 0);
    }
  }

  lemma ElemOfInjective(a: uint8, b: uint8)
    requires ElemOf(a) == ElemOf(b)
    ensures a == b
  {
    TwoPowers();
    BitsDetermine(a, b, 8);
  }

  lemma {:induction false} BitBelow(h: nat, c: nat, k: nat, l: nat)
    requires l < k
    ensures Bit(h + c * Pow(2, k), l) == Bit(h, l)
  {
    var w := c * Pow(2, k - 1);
    assert c * Pow(2, k) == 2 * w;
    assert (h + 2 * w) % 2 == h % 2 && (h + 2 * w) / 2 == h / 2 + w;
    if l > 0 { BitBelow(h / 2, c, k - 1, l - 1); }
  }

  lemma BitSeven(b: uint8)
    ensures Bit(b, 7) <==> b >= 128
  {
    var b1 := b / 2;
    var b2 := b1 / 2;
    var b3 := b2 / 2;
    var b4 := b3 / 2;
    var b5 := b4 / 2;
    var b6 := b5 / 2;
    assert Bit(b, 7) == Bit(b1, 6) == Bit(b2, 5) == Bit(b3, 4) == Bit(b4, 3) == Bit(b5, 2) == Bit(b6, 1);
  }

  lemma DoubledBits(b: uint8)
    ensures ElemOf((2 * b) % 256)
      == Elem(false, Bit(b, 0), Bit(b, 1), Bit(b, 2), Bit(b, 3), Bit(b, 4), Bit(b, 5), Bit(b, 6))
  {
    var d: nat := (2 * b) % 256;
    forall l: nat | l < 8 ensures Bit(d, l) == (l > 0 && Bit(b, l - 1)) {
      DoubledBit(b, l);
    }
  }

  lemma DoubledBit(b: uint8, l: nat)
    requires l < 8
    ensures Bit((2 * b) % 256, l) == (l > 0 && Bit(b, l - 1))
  {
    var d: nat, c: nat := (2 * b) % 256, (2 * b) / 256;
    TwoPowers();
    BitBelow(d, c, 8, l);
    assert d + c * 256 == 2 * b;
  }

  /** The field is that of x^8 + x^4 + x^3 + x + 1: multiplying by x doubles the byte, and the bit shifted out comes
      back as 0x1B. */
  lemma TimesX(b: uint8)
    ensures Mul(ElemOf(b), ElemOf(2)) == Plus(ElemOf((2 * b) % 256), if b >= 128 then ElemOf(0x1B) else ZERO)
  {
    hide Bit, Mul;
    DoubledBits(b);
    BitSeven(b);
    SmallElems();
    ByX(ElemOf(b));
  }

  lemma SmallElems()
    ensures ElemOf(2) == Elem(false, true, false, false, false, false, false, false)
    ensures ElemOf(0x1B) == Elem(true, true, false, true, true, false, false, false)
  {}
}
