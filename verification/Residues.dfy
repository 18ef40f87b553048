/** What each bignum routine computes, as a function of the numbers its limbs stand for.
    The limb loops in `Bignum` are proved to compute exactly these functions; the curve layer calls them. */
module Residues {
  import opened Arith
  import opened Digits

  const LIMB: nat := 0x4000_0000
  const TWO224: nat := 0x1_00000000_00000000_00000000_00000000_00000000_00000000_00000000
  const TWO240: nat := 0x10000_00000000_00000000_00000000_00000000_00000000_00000000_00000000
  const TWO256: nat := 0x1_00000000_00000000_00000000_00000000_00000000_00000000_00000000_00000000
  const TWO257: nat := 0x2_00000000_00000000_00000000_00000000_00000000_00000000_00000000_00000000
  const TWO270: nat := 0x4000_00000000_00000000_00000000_00000000_00000000_00000000_00000000_00000000

  /** The moduli the library supports: slightly below 2^256. */
  ghost predicate Modulus(p: int) {
    TWO256 - TWO224 < p < TWO256
  }

  lemma LimbPowers()
    ensures Pow(LIMB, 0) == 1 && Pow(LIMB, 1) == LIMB
    ensures Pow(LIMB, 8) == TWO240 && Pow(LIMB, 9) == TWO270
  {
    assert Pow(LIMB, 0) == 1;
    assert Pow(LIMB, 1) == LIMB;
    assert Pow(LIMB, 2) == 0x1000_0000_0000_0000;
    PowAdd(LIMB, 2, 2);
    PowAdd(LIMB, 4, 4);
    PowAdd(LIMB, 8, 1);
  }

  /** Subtracting c multiples of p, where c underestimates v / 2^256 by little, leaves less than 2p. */
  lemma PartlyReduced(v: int, c: int, slack: int, p: int)
    requires Modulus(p) && 0 <= c < 0x1_0000_0000
    requires 0 <= v - c * TWO256 < TWO256 + slack
    requires c * TWO224 + slack <= TWO256 - 2 * TWO224
    ensures 0 <= v - c * p < 2 * p
    ensures Cong(v - c * p, v, p)
  {
    assert c * TWO256 - c * p == c * (TWO256 - p);
    MulMono(0, TWO256 - p, c);
    MulMono(TWO256 - p, TWO224, c);
    CongShift(v, c, p);
  }

  /** bn_fast_mod on a normalized number: subtract (v >> 256) * p. */
  function FastMod(v: int, p: int): (r: int)
    requires Modulus(p) && 0 <= v < TWO270
    ensures 0 <= r < 2 * p
    ensures Cong(r, v, p)
  {
    DivMod(v, TWO256);
    PartlyReduced(v, v / TWO256, 0, p);
    v - (v / TWO256) * p
  }

  /** A positive multiple of p normalizes to p itself, never to 0. */
  lemma FastModOfMultiple(v: int, p: int)
    requires Modulus(p) && 0 < v < TWO270
    ensures FastMod(v, p) == p <==> Cong(v, 0, p)
  {
    var r := FastMod(v, p);
    CongIntro(p, 0, 1, p);
    if Cong(v, 0, p) {
      var q := CongQuotient(v, 0, p);
      var e := v / TWO256;
      DivMod(v, TWO256);
      assert q > 0 by { if q <= 0 { MulMono(q, 0, p); } }
      assert e < q by {
        if e >= q { MulMono(q, e, TWO256); MulStrict(p, TWO256, q); }
      }
      assert r == (q - e) * p;
      if q - e > 1 { MulMono(2, q - e, p); }
    }
  }

  /** bn_addmod on normalized numbers: the coefficient only sees the two top limbs. */
  function AddMod(a: int, b: int, p: int): (r: int)
    requires Modulus(p) && 0 <= a < TWO270 && 0 <= b < TWO270
    ensures 0 <= r < 2 * p
    ensures Cong(r, a + b, p)
  {
    AddModFacts(a, b, p);
    a + b - ((a / TWO240 + b / TWO240) / 0x10000) * p
  }

  lemma AddModFacts(a: int, b: int, p: int)
    requires Modulus(p) && 0 <= a < TWO270 && 0 <= b < TWO270
    ensures 0 <= a + b - ((a / TWO240 + b / TWO240) / 0x10000) * p < 2 * p
    ensures Cong(a + b - ((a / TWO240 + b / TWO240) / 0x10000) * p, a + b, p)
  {
    var t := a / TWO240 + b / TWO240;
    DivMod(a, TWO240);
    DivMod(b, TWO240);
    DivMod(t, 0x10000);
    PartlyReduced(a + b, t / 0x10000, 2 * TWO240, p);
  }

  /** bn_mult_k on a normalized number, k <= 4. */
  function MulSmall(x: int, k: int, p: int): (r: int)
    requires Modulus(p) && 0 <= x < TWO270 && 0 <= k <= 4
    ensures 0 <= r < 2 * p
    ensures Cong(r, k * x, p)
  {
    var t, v := k * (x / TWO240), k * x;
    DivMod(x, TWO240);
    DivMod(t, 0x10000);
    SmallMultiple(k, x, x / TWO240, x % TWO240);
    PartlyReduced(v, t / 0x10000, 4 * TWO240, p);
    v - (t / 0x10000) * p
  }

  /** The multiple, by its top part and the rest. */
  lemma SmallMultiple(k: int, x: int, q: int, r: int)
    requires 0 <= k <= 4 && 0 <= q && 0 <= r && x == q * TWO240 + r
    ensures k * x == (k * q) * TWO240 + k * r && 0 <= k * r <= 4 * r && 0 <= k * q <= 4 * q
  {
    assert k == 0 || k == 1 || k == 2 || k == 3 || k == 4;
  }

  /** bn_subtractmod: a + 2p - b, not reduced. */
  function SubMod(a: int, b: int, p: int): (r: int)
    requires p > 0
    ensures Cong(r, a - b, p)
    ensures b <= 2 * p ==> r >= a
  {
    CongShift(a - b, 2, p);
    a + 2 * p - b
  }

  lemma ModOnce(x: int, p: int)
    requires p > 0
    ensures 0 <= x < p ==> x % p == x
    ensures p <= x < 2 * p ==> x % p == x - p
  {
    if 0 <= x < p {
      DivModUnique(x, p, 0, x);
    } else if p <= x < 2 * p {
      DivModUnique(x, p, 1, x - p);
    }
  }

  /** bn_mod: one conditional subtraction. */
  function Mod(x: int, p: int): (r: int)
    requires p > 0
    ensures 0 <= x < 2 * p ==> 0 <= r < p && r == x % p
    ensures Cong(r, x, p)
  {
    CongShift(x, 1, p);
    ModOnce(x, p);
    if x < p then x else x - p
  }

  /** bn_mult_half: half of x modulo an odd p. */
  function MulHalf(x: int, p: int): (r: int)
    requires p > 0 && p % 2 == 1 && 0 <= x
    ensures Cong(2 * r, x, p)
    ensures 0 <= r && 2 * r <= x + p
  {
    CongIntro(x + p, x, 1, p);
    if x % 2 == 1 then assert 2 * ((x + p) / 2) == x + p; (x + p) / 2 else x / 2
  }

  /** bn_subi: subtract a small number, adding p so that nothing underflows. */
  function SubSmall(x: int, b: int, p: int): (r: int)
    ensures Cong(r, x - b, p)
  {
    CongIntro(x - b + p, x - b, 1, p);
    x - b + p
  }

  // ---- Barrett-like reduction of a 540-bit product --------------------------------------

  /** One reduce step at limb i: remove coef * 2^(30(i-8)) * p. */
  function ReduceStep(r: int, i: nat, p: int): int
    requires i >= 8
  {
    PowPos(LIMB, i - 8);
    MulPos(Pow(LIMB, i - 8), TWO256);
    r - (r / (Pow(LIMB, i - 8) * TWO256)) * (Pow(LIMB, i - 8) * p)
  }

  /** The reduce loop from limb i down to limb 8. */
  function ReduceFrom(r: int, i: nat, p: int): int
    decreases i
  {
    if i < 8 then r else ReduceFrom(ReduceStep(r, i, p), i - 1, p)
  }

  /** The quotient by w * 2^256 fits 31 bits. */
  lemma CoefficientBound(r: int, w: int, p: int)
    requires w > 0 && Modulus(p) && 0 <= r < (LIMB * w) * (2 * p)
    ensures w * TWO256 > 0
    ensures 0 <= r / (w * TWO256) < 0x8000_0000
  {
    MulPos(w, TWO256);
    assert (LIMB * w) * (2 * p) == w * (0x8000_0000 * p);
    MulMono(0x8000_0000 * p, 0x8000_0000 * TWO256, w);
    assert w * (0x8000_0000 * TWO256) == 0x8000_0000 * (w * TWO256);
    DivBounds(r, w * TWO256, 0x8000_0000);
  }

  /** Removing c multiples of w * p, where c is the quotient by w * 2^256, leaves less than w * 2p:
      this is where p > 2^256 - 2^224 is needed. */
  lemma RemainderBound(r: int, c: int, w: int, p: int)
    requires w > 0 && Modulus(p) && 0 <= c < 0x8000_0000
    requires 0 <= r - c * (w * TWO256) < w * TWO256
    ensures 0 <= r - c * (w * p) < w * (2 * p)
  {
    var e := c * (TWO256 - p);
    assert r - c * (w * p) == (r - c * (w * TWO256)) + w * e by {
      assert c * (w * TWO256) == w * (c * TWO256);
      assert c * (w * p) == w * (c * p);
      assert w * (c * TWO256) - w * (c * p) == w * e;
    }
    MulMono(0, c, TWO256 - p);
    MulMono(c, 0x8000_0000, TWO256 - p);
    MulMono(e, TWO256 - 2 * TWO224, w);
    MulMono(0, e, w);
    assert w * TWO256 + w * (TWO256 - 2 * TWO224) == w * (2 * (TWO256 - TWO224));
    MulMono(2 * (TWO256 - TWO224), 2 * p, w);
  }

  /** A step takes a number below 2^(30(i-7)) * 2p to one below 2^(30(i-8)) * 2p, with a 31-bit coefficient. */
  lemma ReduceStepFacts(r: int, i: nat, p: int)
    requires i >= 8 && Modulus(p) && 0 <= r < Pow(LIMB, i - 7) * (2 * p)
    ensures Pow(LIMB, i - 8) * TWO256 > 0
    ensures 0 <= r / (Pow(LIMB, i - 8) * TWO256) < 0x8000_0000
    ensures 0 <= ReduceStep(r, i, p) < Pow(LIMB, i - 8) * (2 * p)
    ensures Cong(ReduceStep(r, i, p), r, p)
  {
    var w := Pow(LIMB, i - 8);
    PowPos(LIMB, i - 8);
    assert Pow(LIMB, i - 7) == LIMB * w;
    CoefficientBound(r, w, p);
    var c := r / (w * TWO256);
    DivMod(r, w * TWO256);
    RemainderBound(r, c, w, p);
    MulAssoc(c, w, p);
    CongShift(r, c * w, p);
  }

  lemma {:induction false} ReduceFromFacts(r: int, i: nat, p: int)
    requires i >= 7 && Modulus(p) && 0 <= r < Pow(LIMB, i - 7) * (2 * p)
    ensures 0 <= ReduceFrom(r, i, p) < 2 * p
    ensures Cong(ReduceFrom(r, i, p), r, p)
    decreases i
  {
    if i == 7 {
      assert Pow(LIMB, 0) == 1;
    } else {
      ReduceStepFacts(r, i, p);
      ReduceFromFacts(ReduceStep(r, i, p), i - 1, p);
    }
  }

  /** The size bound bn_multiply needs from its callers. */
  ghost predicate Fits(k: int, x: int, p: int) {
    0 <= k < TWO270 && 0 <= x < TWO270 && k * x < TWO270 * (2 * p)
  }

  /** bn_multiply: the long product, then nine reduce steps. */
  function MulMod(k: int, x: int, p: int): (r: int)
    requires Modulus(p) && Fits(k, x, p)
    ensures 0 <= r < 2 * p
    ensures Cong(r, k * x, p)
  {
    MulModFacts(k, x, p);
    ReduceFrom(k * x, 16, p)
  }

  lemma MulModFacts(k: int, x: int, p: int)
    requires Modulus(p) && Fits(k, x, p)
    ensures 0 <= ReduceFrom(k * x, 16, p) < 2 * p
    ensures Cong(ReduceFrom(k * x, 16, p), k * x, p)
  {
    LimbPowers();
    MulMono(0, k, x);
    ReduceFromFacts(k * x, 16, p);
  }

  /** The reduce loop ends below 2^256 + 2^31 * (2^256 - p), for a prime close to 2^256 just above 2^256. */
  lemma {:induction false} ReduceFromTight(r: int, i: nat, p: int)
    requires i >= 8 && Modulus(p) && 0 <= r < Pow(LIMB, i - 7) * (2 * p)
    ensures ReduceFrom(r, i, p) < TWO256 + 0x8000_0000 * (TWO256 - p)
    decreases i
  {
    ReduceStepFacts(r, i, p);
    if i == 8 {
      assert Pow(LIMB, 0) == 1;
      var c := r / TWO256;
      DivMod(r, TWO256);
      assert ReduceStep(r, 8, p) == r - c * p;
      MulMono(c, 0x8000_0000, TWO256 - p);
      assert c * TWO256 - c * p == c * (TWO256 - p);
    } else {
      ReduceFromTight(ReduceStep(r, i, p), i - 1, p);
    }
  }

  /** Products whose residue is not tiny come out of bn_multiply fully reduced. */
  lemma ProductReduced(k: int, x: int, p: int)
    requires Modulus(p) && Fits(k, x, p) && (k * x) % p >= 0x8000_0001 * (TWO256 - p)
    ensures MulMod(k, x, p) == (k * x) % p
  {
    LimbPowers();
    MulMono(0, k, x);
    ReduceFromTight(k * x, 16, p);
    var m := MulMod(k, x, p);
    CongIsMod(m, k * x, p);
    ModOnce(m, p);
  }

  /** The documented condition "both inputs smaller than 180 * prime" meets the size bound. */
  lemma FitsBelow180(k: int, x: int, p: int)
    requires Modulus(p) && 0 <= k < 180 * p && 0 <= x < 180 * p
    ensures Fits(k, x, p)
  {
    MulMono(k, 180 * p, x);
    MulMono(x, 180 * p, 180 * p);
    assert (180 * p) * (180 * p) == 32400 * (p * p);
    MulMono(p, TWO256, p);
    assert 32400 * TWO256 <= TWO270 * 2;
    assert 32400 * (p * p) <= 32400 * (TWO256 * p);
    MulMono(32400 * TWO256, 2 * TWO270, p);
  }
}
