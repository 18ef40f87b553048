/** Modular powers and square roots: the library's bn_sqrt on limbs and the client's modPow. */
module Sqrt {
  import opened Arith
  import opened Digits
  import opened Bits
  import opened Residues
  import opened Bignum
  import opened Multiply
  import opened Fermat
  import C = ClientCurve

  // ---- one step of square and multiply -----------------------------------------------------------

  /** What is computed so far and what is still to do make up the power. */
  ghost predicate Powering(res: nat, x: nat, rem: nat, target: int, p: int) {
    Cong(res * Pow(x, rem), target, p)
  }

  lemma {:induction false} PowHalves(x: nat, rem: nat)
    ensures Pow(x, rem) == (if rem % 2 == 1 then x else 1) * Pow(x * x, rem / 2)
  {
    Squares(x, rem / 2);
    if rem % 2 == 1 {
      assert rem / 2 + rem / 2 == rem - 1;
    } else {
      assert rem / 2 + rem / 2 == rem;
    }
  }

  /** The low bit of the exponent is taken into the result, and the base is squared. */
  lemma PowerStep(res: nat, x: nat, rem: nat, res': nat, x': nat, target: int, p: int)
    requires Powering(res, x, rem, target, p)
    requires Cong(res', if rem % 2 == 1 then x * res else res, p) && Cong(x', x * x, p)
    ensures Powering(res', x', rem / 2, target, p)
  {
    hide Pow;
    PowHalves(x, rem);
    CongPow(x', x * x, rem / 2, p);
    var w := Pow(x * x, rem / 2);
    if rem % 2 == 1 {
      CongMul(res', x * res, Pow(x', rem / 2), w, p);
      assert (x * res) * w == res * (x * w);
    } else {
      CongMul(res', res, Pow(x', rem / 2), w, p);
    }
  }

  lemma PowerStart(x: nat, e: nat, p: int)
    ensures Powering(1, x, e, Pow(x, e), p)
  {
    CongIntro(Pow(x, e), Pow(x, e), 0, p);
  }

  lemma PowerDone(res: nat, x: nat, target: int, p: int)
    requires Powering(res, x, 0, target, p)
    ensures Cong(res, target, p)
  {}

  // ---- adding one and halving on limbs -------------------------------------------------------------

  /** bn_addi */
  method BnAddi(a: array<uint32>, b: uint32)
    requires Normalized(a) && b < LIMB && Val(a) + b < TWO270
    modifies a
    ensures Normalized(a) && Val(a) == old(Val(a)) + b
  {
    hide Num;
    ghost var s: seq<int> := a[..];
    ghost var d := s[0 := s[0] + b];
    LowColumn(s, d, b);
    var tmp := b;
    var i := 0;
    RippleStart(a[..], d, LIMB);
    ghost var carry: int := 0;
    while i < 9
      invariant 0 <= i <= 9 && 0 <= tmp <= LIMB && carry == (if i == 0 then 0 else tmp) && (i == 0 ==> tmp == b)
      invariant forall m :: i <= m < 9 ==> a[m] == s[m]
      invariant forall m :: 0 <= m < i ==> a[m] < LIMB
      invariant Rippled(a[..], d, i, carry, LIMB)
    {
      ghost var before := a[..];
      tmp := tmp + a[i];
      a[i] := tmp % 0x4000_0000;
      tmp := tmp / 0x4000_0000;
      RippleLimb(before, a[..], d, i, carry, tmp);
      carry := tmp;
      i := i + 1;
    }
    LimbPowers();
    RippleEnd(a[..], d, carry, LIMB);
  }

  lemma LowColumn(s: seq<int>, d: seq<int>, b: int)
    requires |s| > 0 && d == s[0 := s[0] + b]
    ensures Num(d, LIMB) == Num(s, LIMB) + b
  {
    NumCons(s, LIMB);
    NumCons(d, LIMB);
    assert d[1..] == s[1..];
  }

  /** One limb of a right shift: its top bit comes from the limb above. */
  function RightLimb(x: uint32, above: uint32): (r: uint32)
    requires x < LIMB && above < LIMB
    ensures r == x / 2 + above % 2 * 0x2000_0000 < LIMB
  {
    assert Pow(2, 29) == 0x2000_0000 by { TwentyNine(); }
    OrIsSum(above % 2, x / 2, 29);
    Or(above % 2 * 0x2000_0000, x / 2)
  }

  lemma TwentyNine()
    ensures Pow(2, 29) == 0x2000_0000
  {
    TwoPowers();
    PowAdd(2, 24, 5);
    assert Pow(2, 5) == 32;
  }

  /** bn_rshift */
  method BnRshift(a: array<uint32>)
    requires Normalized(a)
    modifies a
    ensures Normalized(a) && Val(a) == old(Val(a)) / 2
  {
    hide RightLimb, Num;
    ghost var s: seq<int> := a[..];
    var i := 0;
    while i < 8
      invariant 0 <= i <= 8 && forall m :: i <= m < 9 ==> a[m] == s[m]
      invariant forall m :: 0 <= m < i ==> a[m] == s[m] / 2 + s[m + 1] % 2 * 0x2000_0000 && a[m] < LIMB
    {
      assert a[i] == s[i] && a[i + 1] == s[i + 1];
      a[i] := RightLimb(a[i], a[i + 1]);
      i := i + 1;
    }
    a[8] := a[8] / 2;
    Halved(s, a[..], 0);
    assert s[0..] == s && a[..][0..] == a[..];
  }

  lemma {:induction false} Halved(s: seq<int>, t: seq<int>, j: nat)
    requires |s| == |t| == 9 && j <= 8 && IsDigits(s, LIMB)
    requires forall m :: 0 <= m < 8 ==> t[m] == s[m] / 2 + s[m + 1] % 2 * 0x2000_0000
    requires t[8] == s[8] / 2
    ensures 2 * Num(t[j..], LIMB) + s[j] % 2 == Num(s[j..], LIMB)
    decreases 8 - j
  {
    NumCons(s[j..], LIMB);
    NumCons(t[j..], LIMB);
    assert s[j..][1..] == s[j + 1..] && t[j..][1..] == t[j + 1..];
    if j < 8 {
      Halved(s, t, j + 1);
    } else {
      assert s[9..] == [] && t[9..] == [];
    }
  }

  // ---- the square root -------------------------------------------------------------------------

  /** One bit of the exponent. */
  method SqrtBit(x: array<uint32>, res: array<uint32>, prime: array<uint32>, bit: bool, ghost rem: nat,
                 ghost target: int)
    requires GoodPrime(prime) && Normalized(x) && Normalized(res) && x != res && x != prime && res != prime
    requires Val(x) < 180 * Val(prime) && Val(res) < 2 * Val(prime) && (bit <==> rem % 2 == 1)
    requires Powering(Val(res), Val(x), rem, target, Val(prime))
    modifies x, res
    ensures Normalized(x) && Normalized(res) && Val(x) < 180 * Val(prime) && Val(res) < 2 * Val(prime)
    ensures Powering(Val(res), Val(x), rem / 2, target, Val(prime))
  {
    hide Powering, Num, MulMod, Fits;
    ghost var res0, x0 := Val(res), Val(x);
    FitsBelow180(x0, res0, Val(prime));
    FitsBelow180(x0, x0, Val(prime));
    if bit {
      BnMultiply(x, res, prime);
    } else {
      CongIntro(res0, res0, 0, Val(prime));
    }
    BnMultiply(x, x, prime);
    PowerStep(res0, x0, rem, Val(res), Val(x), target, Val(prime));
  }

  /** The bits of one limb of the exponent. */
  method SqrtLimb(x: array<uint32>, res: array<uint32>, prime: array<uint32>, limb0: uint32, isLast: bool,
                  ghost high: nat, ghost target: int)
    requires GoodPrime(prime) && Normalized(x) && Normalized(res) && x != res && x != prime && res != prime
    requires Val(x) < 180 * Val(prime) && Val(res) < 2 * Val(prime) && limb0 < LIMB && (isLast ==> high == 0)
    requires Powering(Val(res), Val(x), limb0 + LIMB * high, target, Val(prime))
    modifies x, res
    ensures Normalized(x) && Normalized(res) && Val(x) < 180 * Val(prime) && Val(res) < 2 * Val(prime)
    ensures Powering(Val(res), Val(x), high, target, Val(prime))
  {
    hide Powering, Num, MulMod, Fits;
    var limb := limb0;
    var j := 0;
    ghost var m: nat := 0x4000_0000;
    ThirtyBits();
    while j < 30
      invariant 0 <= j <= 30 && 0 <= limb < m == Pow(2, 30 - j)
      invariant GoodPrime(prime) && Normalized(x) && Normalized(res)
      invariant Val(x) < 180 * Val(prime) && Val(res) < 2 * Val(prime) && Val(prime) == old(Val(prime))
      invariant Powering(Val(res), Val(x), limb + m * high, target, Val(prime))
    {
      if isLast && limb == 0 { break; }
      HalfLeft(limb, m, high, j);
      SqrtBit(x, res, prime, limb % 2 == 1, limb + m * high, target);
      limb := limb / 2;
      m := m / 2;
      j := j + 1;
    }
  }

  lemma ThirtyBits()
    ensures Pow(2, 30) == 0x4000_0000 && Pow(2, 0) == 1
  {
    TwentyNine();
  }

  lemma HalfLeft(limb: nat, m: nat, high: nat, j: nat)
    requires j < 30 && limb < m == Pow(2, 30 - j)
    ensures m / 2 == Pow(2, 30 - (j + 1)) && limb / 2 < m / 2
    ensures (limb + m * high) % 2 == limb % 2 && (limb + m * high) / 2 == limb / 2 + m / 2 * high
  {
    var k := Pow(2, 30 - j - 1);
    assert m == 2 * k;
    EvenPart(limb, k, high);
  }

  lemma EvenPart(limb: nat, k: nat, high: nat)
    ensures (limb + 2 * k * high) % 2 == limb % 2 && (limb + 2 * k * high) / 2 == limb / 2 + k * high
  {
    assert 2 * k * high == 2 * (k * high);
  }

  /** (prime + 1) / 4, in a number of its own. */
  method SqrtExponent(prime: array<uint32>) returns (p: array<uint32>)
    requires GoodPrime(prime)
    ensures fresh(p) && Normalized(p) && Val(p) == (Val(prime) + 1) / 4
  {
    hide Num;
    p := new uint32[9](i requires 0 <= i < 9 reads prime => prime[i]);
    assert p[..] == prime[..];
    BnAddi(p, 1);
    BnRshift(p);
    BnRshift(p);
    Quarter(Val(prime) + 1);
  }

  /** The loop over the limbs of the exponent. */
  method SqrtLimbs(x: array<uint32>, res: array<uint32>, prime: array<uint32>, p: array<uint32>, ghost target: int)
    requires GoodPrime(prime) && Normalized(x) && Normalized(res) && Normalized(p)
    requires x != res && x != prime && res != prime && p != x && p != res
    requires Val(x) < 180 * Val(prime) && Val(res) < 2 * Val(prime)
    requires Powering(Val(res), Val(x), Val(p), target, Val(prime))
    modifies x, res
    ensures Normalized(res) && Val(res) < 2 * Val(prime) && Cong(Val(res), target, Val(prime))
  {
    hide Powering, Num, Cong, Modulus;
    assert p[0..] == p[..];
    var i := 0;
    while i < 9
      invariant 0 <= i <= 9 && Normalized(x) && Normalized(res)
      invariant Val(x) < 180 * Val(prime) && Val(res) < 2 * Val(prime)
      invariant Num(p[i..], LIMB) >= 0 && Powering(Val(res), Val(x), Num(p[i..], LIMB), target, Val(prime))
    {
      TopLimb(p[..], i);
      assert p[..][i..] == p[i..] && p[..][i + 1..] == p[i + 1..];
      SqrtLimb(x, res, prime, p[i], i == 8, Num(p[i + 1..], LIMB), target);
      i := i + 1;
    }
    assert p[9..] == [];
    NumNothing();
    PowerDone(Val(res), Val(x), target, Val(prime));
  }

  /** bn_sqrt: x^((p+1)/4), fully reduced. */
  method BnSqrt(x: array<uint32>, prime: array<uint32>)
    requires Normalized(x) && GoodPrime(prime) && x != prime && Val(x) < 180 * Val(prime)
    modifies x
    ensures Normalized(x) && Val(x) == Candidate(old(Val(x)), Val(prime)) % Val(prime)
  {
    hide Powering, Num, Candidate;
    ghost var target := Candidate(Val(x), Val(prime));
    var res := NewNumber(1);
    var p := SqrtExponent(prime);
    StartCandidate(Val(x), Val(prime));
    SqrtLimbs(x, res, prime, p, target);
    ghost var v := Val(res);
    BnMod(res, prime);
    CongIsMod(v, target, Val(prime));
    ModOnce(v, Val(prime));
    CopyLimbs(x, res);
  }

  lemma Quarter(n: nat)
    ensures n / 2 / 2 == n / 4
  {}

  lemma StartCandidate(x: nat, n: nat)
    ensures Powering(1, x, (n + 1) / 4, Candidate(x, n), n)
  {
    hide Pow;
    PowerStart(x, (n + 1) / 4, n);
  }

  lemma NumNothing()
    ensures Num([], LIMB) == 0
  {}

  lemma TopLimb(s: seq<int>, i: nat)
    requires |s| == 9 && i < 9 && IsDigits(s, LIMB)
    ensures Num(s[i..], LIMB) == s[i] + LIMB * Num(s[i + 1..], LIMB) && Num(s[i + 1..], LIMB) >= 0
    ensures i == 8 ==> Num(s[i + 1..], LIMB) == 0
  {
    NumCons(s[i..], LIMB);
    assert s[i..][1..] == s[i + 1..];
    NumBound(s[i + 1..], LIMB);
    if i == 8 { assert s[9..] == []; }
  }

  method NewNumber(v: uint32) returns (a: array<uint32>)
    requires v < LIMB
    ensures fresh(a) && Normalized(a) && Val(a) == v
  {
    a := new uint32[9](_ => 0);
    a[0] := v;
    assert a[..] == [v as int] + seq(8, _ => 0);
    NumConcat([v as int], seq(8, _ => 0), LIMB);
    NumZero(seq(8, _ => 0), LIMB);
    NumOne(v);
    LimbPowers();
  }

  /** memcpy of a number */
  method CopyLimbs(a: array<uint32>, b: array<uint32>)
    requires a.Length == b.Length == 9 && a != b
    modifies a
    ensures a[..] == b[..]
  {
    var i := 0;
    while i < 9
      invariant 0 <= i <= 9 && forall m :: 0 <= m < i ==> a[m] == b[m]
    {
      a[i] := b[i];
      i := i + 1;
    }
  }

  // ---- the client's power ------------------------------------------------------------------------

  /** modPow */
  method ModPow(base: int, exponent: int, modulus: int) returns (result: int)
    requires modulus > 1
    ensures result == if exponent <= 0 then 1 else Pow(base % modulus, exponent) % modulus
  {
    hide Powering, Pow;
    result := 1;
    var current: nat := C.NonNegative(base, modulus);
    var power := exponent;
    if exponent <= 0 { return; }
    ghost var target := Pow(current, exponent);
    PowerStart(current, exponent, modulus);
    ModOnce(1, modulus);
    while power > 0
      invariant power >= 0 && 0 <= result < modulus && 0 <= current < modulus
      invariant Powering(result, current, power, target, modulus)
    {
      ghost var res0, x0, rem := result, current, power;
      if power % 2 != 0 {
        CongMod(result * current, modulus);
        DivMod(result * current, modulus);
        result := C.NonNegative(result * current, modulus);
        assert x0 * res0 == res0 * x0;
      } else {
        CongIntro(result, result, 0, modulus);
      }
      power := power / 2;
      CongMod(current * current, modulus);
      DivMod(current * current, modulus);
      current := C.NonNegative(current * current, modulus);
      PowerStep(res0, x0, rem, result, current, target, modulus);
    }
    PowerDone(result, current, target, modulus);
    CongIsMod(result, target, modulus);
    ModOnce(result, modulus);
  }
}
