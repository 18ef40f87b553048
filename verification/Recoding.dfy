/** The signed odd-digit recoding of point_multiply: 64 windows of five bits, read limb by limb. */
module Recoding {
  import opened Arith
  import opened Bits
  import opened Digits
  import opened Residues

  /** x with its lowest bit set. */
  function OddUp(x: int): int {
    if x % 2 == 0 then x + 1 else x
  }

  /** Window i: five bits from bit 4*i on. */
  ghost function Window(a: nat, i: nat): (w: int)
    ensures 0 <= w < 32
  {
    PowPos(16, i);
    (a / Pow(16, i)) % 32
  }

  /** The signed digit a window stands for. */
  function SignedDigit(w: int): int {
    OddUp(w) - 16
  }

  ghost function Digit(a: nat, i: nat): int {
    SignedDigit(Window(a, i))
  }

  /** The number formed by digits i..63, most significant first. */
  ghost function Upper(a: nat, i: nat): int
    requires i <= 64
    decreases 64 - i
  {
    if i == 64 then 0 else 16 * Upper(a, i + 1) + Digit(a, i)
  }

  lemma {:induction false} UpperValue(a: nat, i: nat)
    requires i <= 64 && a < 2 * Pow(16, 64)
    ensures Pow(16, i) > 0 && Upper(a, i) == OddUp(a / Pow(16, i)) - Pow(16, 64 - i)
    decreases 64 - i
  {
    PowPos(16, i);
    if i == 64 {
      DivBounds(a, Pow(16, 64), 2);
      assert Pow(16, 0) == 1;
    } else {
      UpperValue(a, i + 1);
      assert Pow(16, i + 1) == Pow(16, i) * 16;
      DivDiv(a, Pow(16, i), 16);
      assert Pow(16, 64 - i) == 16 * Pow(16, 63 - i);
      OddUpStep(a / Pow(16, i));
    }
  }

  lemma OddUpStep(x: int)
    ensures OddUp(x) == 16 * OddUp(x / 16) + SignedDigit(x % 32)
  {
    DivMod(x, 32);
    var q, r := x / 32, x % 32;
    var h := if r < 16 then 0 else 1;
    DivModUnique(x, 16, 2 * q + h, r - 16 * h);
    OddUpAbove(q, h);
    OddUpAbove(16 * q, r);
  }

  lemma OddUpAbove(k: int, r: int)
    ensures OddUp(2 * k + r) == 2 * k + OddUp(r)
  {}

  lemma OddUpRange(x: int, n: int)
    requires 0 <= x < 2 * n && n % 2 == 0
    ensures (OddUp(x) - n) % 2 == 1 && -n < OddUp(x) - n < n
  {}

  /** No upper part is even, and each is bounded by its length. */
  lemma UpperBounds(a: nat, i: nat)
    requires i <= 63 && a < 2 * Pow(16, 64)
    ensures Upper(a, i) % 2 == 1 && Upper(a, i) < Pow(16, 64 - i) && Upper(a, i) + Pow(16, 64 - i) > 0
  {
    UpperValue(a, i);
    UpperQuotient(a, i);
    OddUpRange(a / Pow(16, i), Pow(16, 64 - i));
  }

  lemma UpperQuotient(a: nat, i: nat)
    requires i <= 63 && a < 2 * Pow(16, 64)
    ensures Pow(16, i) > 0 && 0 <= a / Pow(16, i) < 2 * Pow(16, 64 - i) && Pow(16, 64 - i) % 2 == 0
  {
    PowPos(16, i);
    PowAdd(16, 64 - i, i);
    MulAssoc(2, Pow(16, 64 - i), Pow(16, i));
    DivBounds(a, Pow(16, i), 2 * Pow(16, 64 - i));
    EvenMultiple(Pow(16, 63 - i));
  }

  lemma EvenMultiple(k: int)
    ensures (16 * k) % 2 == 0
  {}

  lemma SixteenPowers()
    ensures Pow(16, 64) == TWO256 && Pow(16, 63) < TWO256 - TWO224
  {
    assert Pow(16, 1) == 16 && Pow(16, 2) == 256;
    PowAdd(16, 2, 2);
    PowAdd(16, 4, 4);
    PowAdd(16, 8, 8);
    PowAdd(16, 16, 16);
    PowAdd(16, 32, 32);
    PowAdd(16, 63, 1);
  }

  /** The digits of an odd number a = 2^256 + k add up to k. */
  lemma UpperTotal(a: nat)
    requires a % 2 == 1 && a < 2 * TWO256
    ensures Upper(a, 0) == a - TWO256
  {
    SixteenPowers();
    UpperValue(a, 0);
    assert Pow(16, 0) == 1;
    DivModUnique(a, 1, a, 0);
  }

  /** Upper parts other than the whole stay below every order in range. */
  lemma UpperBelowOrder(a: nat, i: nat, n: int)
    requires 1 <= i <= 63 && a < 2 * TWO256 && Modulus(n)
    ensures Upper(a, i) % 2 == 1 && -n < Upper(a, i) < n
  {
    SixteenPowers();
    UpperBounds(a, i);
    PowMono(16, 64 - i, 63);
  }

  // ---- reading a window from the limbs ---------------------------------------------------

  lemma AddThirtyTwos(q: int, k: int)
    ensures (q + 32 * k) % 32 == q % 32
  {}

  lemma SmallPowers()
    ensures Pow(2, 5) == 32 && Pow(2, 25) == 0x200_0000 && Pow(2, 30) == LIMB
  {
    assert Pow(2, 5) == 32;
    PowAdd(2, 5, 5);
    PowAdd(2, 10, 10);
    PowAdd(2, 20, 5);
    PowAdd(2, 20, 10);
  }

  /** Window i starts in limb j at bit t. */
  lemma WindowInLimbs(s: seq<int>, i: nat, j: nat, t: nat)
    requires IsDigits(s, LIMB) && j <= |s| && 4 * i == 30 * j + t
    ensures Num(s, LIMB) >= 0 && Num(s[j..], LIMB) >= 0 && Pow(2, t) > 0
    ensures Window(Num(s, LIMB), i) == (Num(s[j..], LIMB) / Pow(2, t)) % 32
  {
    NumBound(s, LIMB);
    NumBound(s[j..], LIMB);
    PowPos(2, t);
    NumDivMod(s, j, LIMB);
    PowPos(LIMB, j);
    DivDiv(Num(s, LIMB), Pow(LIMB, j), Pow(2, t));
    SmallPowers();
    PowMul(2, 30, j);
    PowMul(2, 4, i);
    assert Pow(2, 4) == 16;
    PowAdd(2, 30 * j, t);
  }

  /** A window that lies inside one limb. */
  lemma WindowInside(x: nat, h: nat, t: nat)
    requires t <= 25
    ensures Pow(2, t) > 0 && ((x + LIMB * h) / Pow(2, t)) % 32 == (x / Pow(2, t)) % 32
  {
    PowPos(2, t);
    var m, g := Pow(2, t), Pow(2, 25 - t);
    PowAdd(2, t, 25 - t);
    SmallPowers();
    DivMod(x, m);
    var q, r := x / m, x % m;
    LiftedQuotient(x, h, m, g, q, r);
    DivModUnique(x + LIMB * h, m, q + 32 * (g * h), r);
    AddThirtyTwos(q, g * h);
  }

  lemma LiftedQuotient(x: int, h: int, m: int, g: int, q: int, r: int)
    requires m * g == 0x200_0000 && x == q * m + r
    ensures x + LIMB * h == (q + 32 * (g * h)) * m + r
  {
    Distribute(q, 32 * (g * h), m);
    MulAssoc(g, h, m);
    assert (32 * (g * h)) * m == 32 * ((m * g) * h) by { assert (g * h) * m == (m * g) * h; }
  }

  /** A window whose upper bits come from the next limb y. */
  lemma WindowAcross(x: nat, y: nat, h: nat, s: nat)
    requires x < LIMB && 1 <= s <= 4
    ensures Pow(2, 30 - s) > 0 && x / Pow(2, 30 - s) < Pow(2, s)
    ensures ((x + LIMB * (y + LIMB * h)) / Pow(2, 30 - s)) % 32 == (y * Pow(2, s) + x / Pow(2, 30 - s)) % 32
  {
    PowPos(2, 30 - s);
    var m, g := Pow(2, 30 - s), Pow(2, s);
    PowAdd(2, 30 - s, s);
    SmallPowers();
    DivMod(x, m);
    var q, r := x / m, x % m;
    var k := y + LIMB * h;
    assert x + LIMB * k == (q + k * g) * m + r by {
      assert LIMB * k == (k * g) * m by { assert (k * g) * m == k * (m * g); }
      Distribute(q, k * g, m);
    }
    DivModUnique(x + LIMB * k, m, q + k * g, r);
    DivBounds(x, m, g);
    Distribute(y, LIMB * h, g);
    MulAssoc(LIMB, h, g);
    AddThirtyTwos(y * g + q, 0x200_0000 * (h * g));
  }

  // ---- the word operations of the loop ---------------------------------------------------

  /** sign is all ones for a negative digit; then bits are complemented. */
  function SignWord(w: uint32): uint32
    requires w < 32
  {
    if w >= 16 then 0 else 0xffff_ffff
  }

  /** One bit of a complement. */
  lemma XorOdd(b: nat, s: nat)
    requires s % 2 == 1
    ensures Xor(b, s) == 1 - b % 2 + 2 * Xor(b / 2, s / 2)
  {
    if b == 0 {
      assert Xor(0, s / 2) == s / 2;
    } else {
      OddParity(b, s);
    }
  }

  lemma OddParity(b: int, s: int)
    requires s % 2 == 1
    ensures (b + s) % 2 == 1 - b % 2
  {}

  lemma XorLowBits(b: nat)
    requires b < 32
    ensures Xor(b, 0) == b
    ensures Xor(b, 0xffff_ffff) % 16 == 15 - b % 16
  {
    XorZero(b);
    XorOdd(b, 0xffff_ffff);
    XorOdd(b / 2, 0x7fff_ffff);
    XorOdd(b / 2 / 2, 0x3fff_ffff);
    XorOdd(b / 2 / 2 / 2, 0x1fff_ffff);
    SixteenSplit(b, Xor(b / 2 / 2 / 2 / 2, 0x0fff_ffff));
  }

  lemma SixteenSplit(b: nat, x: nat)
    requires b < 32
    ensures (1 - b % 2 + 2 * (1 - b / 2 % 2 + 2 * (1 - b / 2 / 2 % 2 + 2 * (1 - b / 2 / 2 / 2 % 2 + 2 * x)))) % 16
      == 15 - b % 16
  {
    var c := b % 2 + 2 * (b / 2 % 2) + 4 * (b / 2 / 2 % 2) + 8 * (b / 2 / 2 / 2 % 2);
    assert b == c + 16 * (b / 16);
    assert 0 <= c < 16;
    DivModUnique(15 - c + 16 * x, 16, x, 15 - c);
  }

  lemma {:induction false} XorZero(b: nat)
    ensures Xor(b, 0) == b
  {}

  /** The table index bits >> 1 selects the odd multiple |digit|. */
  lemma TableIndex(w: nat, sign: uint32)
    requires w < 32 && sign == SignWord(w)
    ensures var k := (Xor(w, sign) % 16) / 2;
      2 * k + 1 == if sign == 0 then SignedDigit(w) else 0 - SignedDigit(w)
  {
    XorLowBits(w);
    TableDigit(w);
  }

  lemma TableDigit(w: nat)
    requires w < 32
    ensures w >= 16 ==> 2 * (w % 16 / 2) + 1 == SignedDigit(w)
    ensures w < 16 ==> 2 * ((15 - w % 16) / 2) + 1 == 0 - SignedDigit(w)
  {}
}
