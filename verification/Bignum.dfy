/** The limb loops of the 256-bit number library: nine 32-bit words holding 30-bit digits.
    Every method is proved to compute the function of `Residues` with its name; assigning to a
    `uint32` or `uint64` variable is checked not to wrap, and intended wrapping is written `%`. */
module Bignum {
  import opened Arith
  import opened Digits
  import opened Bits
  import opened Residues

  ghost function Val(a: array<uint32>): int
    reads a
  {
    Num(a[..], LIMB)
  }

  /** Every limb is a 30-bit digit; the number then has 270 bits. */
  ghost predicate Normalized(a: array<uint32>)
    reads a
    ensures Normalized(a) ==> a.Length == 9 && 0 <= Val(a) < TWO270 && Val(a) / TWO240 == a[8]
  {
    && a.Length == 9
    && IsDigits(a[..], LIMB)
    && (NormalizedBound(a[..]); true)
  }

  lemma NormalizedBound(s: seq<int>)
    requires |s| == 9 && IsDigits(s, LIMB)
    ensures 0 <= Num(s, LIMB) < TWO270
    ensures Num(s, LIMB) / TWO240 == s[8]
  {
    NumBound(s, LIMB);
    NumDivMod(s, 8, LIMB);
    LimbPowers();
    assert s[8..] == [s[8]];
    NumOne(s[8]);
  }

  lemma NumOne(d: int)
    ensures Num([d], LIMB) == d
  {
    NumSnoc([], d, LIMB);
    assert [] + [d] == [d];
  }

  /** A normalized modulus of the supported size. */
  ghost predicate GoodPrime(prime: array<uint32>)
    reads prime
  {
    Normalized(prime) && Modulus(Val(prime))
  }

  /** A carry step in base 2^30. */
  lemma RippleLimb(x: seq<int>, x': seq<int>, d: seq<int>, j: nat, carry: int, carry': int)
    requires Rippled(x, d, j, carry, LIMB) && j < |d|
    requires |x'| == |x| && x'[..j] == x[..j]
    requires x'[j] + carry' * 0x4000_0000 == carry + d[j]
    ensures Rippled(x', d, j + 1, carry', LIMB)
  {
    RippleStep(x, x', d, j, carry, carry', LIMB);
  }

  // ---- reduction -------------------------------------------------------------------------

  /** One word of a multiply-subtract: 2^61 is borrowed from the next limb, so the difference neither
      underflows nor overflows for coefficients below 2^31. */
  lemma BorrowWord(t: int, x: int, p: int, c: int)
    requires 0 <= t <= 0x8000_0008 && 0 <= x < 0x1_0000_0000 && 0 <= p < LIMB && 0 <= c < 0x8000_0000
    ensures 0 <= p * c
    ensures var temp := t + 0x1FFF_FFFF_8000_0000 + x - p * c;
            0 <= temp <= 0x2000_0002_0000_0000
            && temp % 0x4000_0000 + (temp / 0x4000_0000 - 0x8000_0000) * 0x4000_0000 == (t - 0x8000_0000) + (x - c * p)
  {
    MulMono(0, p, c);
    MulMono(p, LIMB - 1, c);
    assert p * c == c * p;
  }

  /** On normalized limbs the coefficient is the true quotient by 2^256. */
  lemma FastModLimbs(s: seq<int>, p: int)
    requires |s| == 9 && Modulus(p)
    ensures IsDigits(s, LIMB) ==> 0 <= Num(s, LIMB) < TWO270
    ensures IsDigits(s, LIMB) ==> Num(s, LIMB) - (s[8] / 0x10000) * p == FastMod(Num(s, LIMB), p)
  {
    if IsDigits(s, LIMB) {
      NormalizedBound(s);
      DivDiv(Num(s, LIMB), TWO240, 0x10000);
    }
  }

  /** Partly reduces x, whose limbs may be any 32-bit words. */
  method BnFastMod(x: array<uint32>, prime: array<uint32>)
    requires x.Length == 9 && GoodPrime(prime) && x != prime
    requires Normalized(x) || 0 <= Val(x) - (x[8] / 0x10000) * Val(prime) < TWO270
    modifies x
    ensures Normalized(x)
    ensures Val(x) == old(Val(x) - (x[8] / 0x10000) * Val(prime))
    ensures old(Normalized(x)) ==> Val(x) == FastMod(old(Val(x)), Val(prime))
  {
    hide Num, Pow, MinusScaled;
    FastModLimbs(x[..], Val(prime));
    var coef: uint32 := x[8] / 0x10000;
    ghost var c: int := coef;
    ghost var x0, p := x[..], prime[..];
    ghost var d := MinusScaled(x0, p, c);
    NumMinusScaled(x0, p, c, LIMB);
    assert p[0] == prime[0] && x0[0] == x[0];
    BorrowWord(0x8000_0000, x[0], prime[0], coef);
    var temp: uint64 := 0x2000_0000_0000_0000 + x[0] - prime[0] * coef;
    x[0] := temp % 0x4000_0000;
    RippleStart(x0, d, LIMB);
    RippleLimb(x0, x[..], d, 0, 0, temp / 0x4000_0000 - 0x8000_0000);
    var j := 1;
    while j < 9
      invariant 1 <= j <= 9
      invariant temp <= 0x2000_0002_0000_0000
      invariant forall m :: j <= m < 9 ==> x[m] == x0[m]
      invariant forall m :: 0 <= m < j ==> x[m] < LIMB
      invariant Rippled(x[..], d, j, temp / 0x4000_0000 - 0x8000_0000, LIMB)
    {
      ghost var carry, before := temp / 0x4000_0000 - 0x8000_0000, x[..];
      temp := temp / 0x4000_0000;
      assert p[j] == prime[j];
      BorrowWord(temp, x[j], prime[j], coef);
      temp := temp + 0x1FFF_FFFF_8000_0000 + x[j] - prime[j] * coef;
      x[j] := temp % 0x4000_0000;
      RippleLimb(before, x[..], d, j, carry, temp / 0x4000_0000 - 0x8000_0000);
      j := j + 1;
    }
    LimbPowers();
    RippleEnd(x[..], d, temp / 0x4000_0000 - 0x8000_0000, LIMB);
  }

  /** Subtracts prime from x once if x >= prime. */
  method BnMod(x: array<uint32>, prime: array<uint32>)
    requires Normalized(x) && GoodPrime(prime) && x != prime
    modifies x
    ensures Normalized(x)
    ensures Val(x) == Mod(old(Val(x)), Val(prime))
  {
    hide Num, Pow;
    var flag := BnIsLess(x, prime);
    var temp := new uint32[9];
    BnSubtract(x, prime, temp);
    NumBound(prime[..], LIMB);
    if !flag {
      DivModUnique(Val(x) - Val(prime), TWO270, 0, Val(x) - Val(prime));
    }
    BnCmov(x, flag, x, temp);
  }

  // ---- comparison and selection ----------------------------------------------------------

  /** The most significant differing limb decides; res1 and res2 collect the two comparisons as bit strings. */
  method BnIsLess(a: array<uint32>, b: array<uint32>) returns (less: bool)
    requires Normalized(a) && Normalized(b)
    ensures less <==> Val(a) < Val(b)
  {
    var i := 8;
    var res1: uint32, res2: uint32 := 0, 0;
    ghost var na, nb := 0, 0;
    assert a[9..] == [] && b[9..] == [];
    while i >= 0
      invariant -1 <= i <= 8
      invariant res1 < Pow(2, 8 - i) && res2 < Pow(2, 8 - i)
      invariant na == Num(a[i + 1..], LIMB) && nb == Num(b[i + 1..], LIMB)
      invariant (res1 < res2 <==> nb < na) && (res2 < res1 <==> na < nb)
    {
      PowMono(2, 9 - i, 9);
      assert Pow(2, 9) == 512;
      TopLimbs(a[..], i);
      TopLimbs(b[..], i);
      assert a[..][i..] == a[i..] && a[..][i + 1..] == a[i + 1..];
      assert b[..][i..] == b[i..] && b[..][i + 1..] == b[i + 1..];
      na, nb := a[i] + LIMB * na, b[i] + LIMB * nb;
      res1 := res1 * 2 + (if a[i] < b[i] then 1 else 0);
      res2 := res2 * 2 + (if a[i] > b[i] then 1 else 0);
      i := i - 1;
    }
    assert a[0..] == a[..] && b[0..] == b[..];
    less := res1 > res2;
  }

  lemma TopLimbs(s: seq<int>, i: nat)
    requires i < |s| && IsDigits(s, LIMB)
    ensures Num(s[i..], LIMB) == s[i] + LIMB * Num(s[i + 1..], LIMB) && 0 <= s[i] < LIMB
  {
    NumSplit(s[i..], 1, LIMB);
    assert s[i..][..1] == [s[i]] && s[i..][1..] == s[i + 1..];
    NumOne(s[i]);
    LimbPowers();
  }

  method BnIsEqual(a: array<uint32>, b: array<uint32>) returns (equal: bool)
    requires Normalized(a) && Normalized(b)
    ensures equal <==> Val(a) == Val(b)
  {
    var i := 0;
    equal := true;
    while i < 9
      invariant 0 <= i <= 9
      invariant equal <==> a[..i] == b[..i]
    {
      assert a[..i + 1] == a[..i] + [a[i]] && b[..i + 1] == b[..i] + [b[i]];
      equal := equal && a[i] == b[i];
      i := i + 1;
    }
    assert a[..9] == a[..] && b[..9] == b[..];
    if Val(a) == Val(b) {
      NumUnique(a[..], b[..], LIMB);
    }
  }

  method BnIsZero(a: array<uint32>) returns (zero: bool)
    requires Normalized(a)
    ensures zero <==> Val(a) == 0
  {
    var i := 0;
    zero := true;
    while i < 9
      invariant 0 <= i <= 9
      invariant zero <==> forall m :: 0 <= m < i ==> a[m] == 0
    {
      zero := zero && a[i] == 0;
      i := i + 1;
    }
    if zero {
      NumZero(a[..], LIMB);
    } else if Val(a) == 0 {
      HighDigitsZero(a[..], 0, LIMB);
      assert false;
    }
  }

  /** res := if cond then truecase else falsecase; res may be either. */
  method BnCmov(res: array<uint32>, cond: bool, truecase: array<uint32>, falsecase: array<uint32>)
    requires res.Length == truecase.Length == falsecase.Length == 9
    modifies res
    ensures res[..] == old(if cond then truecase[..] else falsecase[..])
  {
    var i := 0;
    while i < 9
      invariant 0 <= i <= 9
      invariant forall m :: 0 <= m < i ==> res[m] == old(if cond then truecase[m] else falsecase[m])
      invariant forall m :: i <= m < 9 ==> res[m] == old(res[m])
      invariant truecase != res ==> forall m :: 0 <= m < 9 ==> truecase[m] == old(truecase[m])
      invariant falsecase != res ==> forall m :: 0 <= m < 9 ==> falsecase[m] == old(falsecase[m])
    {
      res[i] := if cond then truecase[i] else falsecase[i];
      i := i + 1;
    }
  }

  // ---- addition and subtraction ----------------------------------------------------------

  /** The carry loop of bn_add; d[i] is the intended column, equal to a[i] + b[i] up to 32-bit wrapping. */
  method AddColumns(a: array<uint32>, b: array<uint32>, ghost d: seq<int>)
    requires a.Length == 9 && b.Length == 9 && |d| == 9
    requires forall i :: 0 <= i < 9 ==> 0 <= d[i] < 0x8000_0000
    requires forall i :: 0 <= i < 9 ==> a[i] as int + b[i] - d[i] == 0 || a[i] as int + b[i] - d[i] == 0x1_0000_0000
    requires 0 <= Num(d, LIMB) < TWO270
    modifies a
    ensures Normalized(a) && Val(a) == Num(d, LIMB)
  {
    ghost var a0, b0 := a[..], b[..];
    RippleStart(a0, d, LIMB);
    var i := 0;
    var tmp: uint32 := 0;
    while i < 9
      invariant 0 <= i <= 9 && tmp <= 2
      invariant forall m :: i <= m < 9 ==> a[m] == a0[m] && b[m] == b0[m]
      invariant forall m :: 0 <= m < i ==> a[m] < LIMB
      invariant Rippled(a[..], d, i, tmp, LIMB)
    {
      ghost var before, carry: int := a[..], tmp;
      assert a[i] == a0[i] && b[i] == b0[i];
      tmp := (tmp as int + a[i] + b[i]) % 0x1_0000_0000;
      assert tmp == carry + d[i];
      a[i] := tmp % 0x4000_0000;
      tmp := tmp / 0x4000_0000;
      RippleLimb(before, a[..], d, i, carry, tmp);
      i := i + 1;
    }
    LimbPowers();
    RippleEnd(a[..], d, tmp, LIMB);
  }

  /** a := a + b; the two may be the same number. */
  method BnAdd(a: array<uint32>, b: array<uint32>)
    requires Normalized(a) && Normalized(b) && Val(a) + Val(b) < TWO270
    modifies a
    ensures Normalized(a) && Val(a) == old(Val(a) + Val(b))
  {
    ghost var d := Combine(a[..], b[..], 1, 1);
    NumCombine(a[..], b[..], 1, 1, LIMB);
    AddColumns(a, b, d);
  }

  /** a := a - b + prime for b <= prime[0]; the underflow of the lowest limb is undone by adding the prime. */
  method BnSubi(a: array<uint32>, b: uint32, prime: array<uint32>)
    requires Normalized(a) && Normalized(prime) && a != prime && b <= prime[0]
    requires Val(a) + Val(prime) < TWO270
    modifies a
    ensures Normalized(a)
    ensures Val(a) == SubSmall(old(Val(a)), b, Val(prime))
  {
    ghost var a0: seq<int>, p: seq<int> := a[..], prime[..];
    ghost var e: seq<int> := a0[0 := a0[0] - b];
    ghost var d := Combine(e, p, 1, 1);
    NumCombine(e, p, 1, 1, LIMB);
    LowLimb(a0, e);
    LowLimbBound(p);
    a[0] := (a[0] as int - b) % 0x1_0000_0000;
    forall i | 0 <= i < 9
      ensures 0 <= d[i] < 0x8000_0000
      ensures a[i] as int + prime[i] - d[i] == 0 || a[i] as int + prime[i] - d[i] == 0x1_0000_0000
    {
      assert p[i] == prime[i] && d[i] == e[i] + p[i];
    }
    AddColumns(a, prime, d);
  }

  lemma LowLimbBound(s: seq<int>)
    requires |s| == 9 && IsDigits(s, LIMB)
    ensures s[0] <= Num(s, LIMB)
  {
    NumSplit(s, 1, LIMB);
    assert s[..1] == [s[0]];
    NumOne(s[0]);
    NumBound(s[1..], LIMB);
  }

  lemma LowLimb(s: seq<int>, t: seq<int>)
    requires |s| == |t| == 9 && s[1..] == t[1..]
    ensures Num(t, LIMB) == Num(s, LIMB) - s[0] + t[0]
  {
    NumSplit(s, 1, LIMB);
    NumSplit(t, 1, LIMB);
    assert s[..1] == [s[0]] && t[..1] == [t[0]];
    NumOne(s[0]);
    NumOne(t[0]);
  }

  /** a := a + b, partly reduced; the limbs are added without carries and fast-reduced. */
  method BnAddMod(a: array<uint32>, b: array<uint32>, prime: array<uint32>)
    requires Normalized(a) && Normalized(b) && GoodPrime(prime) && a != prime
    modifies a
    ensures Normalized(a)
    ensures Val(a) == AddMod(old(Val(a)), old(Val(b)), Val(prime))
  {
    ghost var a0, b0 := a[..], b[..];
    ghost var d := Combine(a0, b0, 1, 1);
    NumCombine(a0, b0, 1, 1, LIMB);
    var i := 0;
    while i < 9
      invariant 0 <= i <= 9
      invariant forall m :: i <= m < 9 ==> a[m] == a0[m] && b[m] == b0[m]
      invariant forall m :: 0 <= m < i ==> a[m] == d[m]
    {
      a[i] := a[i] + b[i];
      i := i + 1;
    }
    assert a[..] == d;
    AddModFacts(Num(a0, LIMB), Num(b0, LIMB), Val(prime));
    BnFastMod(a, prime);
  }

  /** x := k * x, partly reduced, for k <= 4. */
  method BnMultK(x: array<uint32>, k: uint8, prime: array<uint32>)
    requires Normalized(x) && k <= 4 && GoodPrime(prime) && x != prime
    modifies x
    ensures Normalized(x)
    ensures Val(x) == MulSmall(old(Val(x)), k, Val(prime))
  {
    ghost var x0 := x[..];
    ghost var d := Combine(x0, x0, k, 0);
    NumCombine(x0, x0, k, 0, LIMB);
    var j := 0;
    while j < 9
      invariant 0 <= j <= 9
      invariant forall m :: j <= m < 9 ==> x[m] == x0[m]
      invariant forall m :: 0 <= m < j ==> x[m] == d[m]
    {
      MulMono(k, 4, x[j]);
      MulMono(0, k, x[j]);
      x[j] := k * x[j];
      j := j + 1;
    }
    assert x[..] == d;
    ghost var m := MulSmall(Num(x0, LIMB), k, Val(prime));
    BnFastMod(x, prime);
  }

  /** res := a + 2 * prime - b modulo 2^270, where res may be a or b. The running word reaches 2^32 - 1 exactly. */
  method BnSubtractMod(a: array<uint32>, b: array<uint32>, res: array<uint32>, prime: array<uint32>)
    requires Normalized(a) && Normalized(b) && Normalized(prime) && res.Length == 9 && res != prime
    requires Val(prime) > 0
    modifies res
    ensures Normalized(res)
    ensures Val(res) == SubMod(old(Val(a)), old(Val(b)), Val(prime)) % TWO270
    ensures var v := SubMod(old(Val(a)), old(Val(b)), Val(prime)); 0 <= v < TWO270 ==> Val(res) == v
  {
    hide Num, Pow, MinusScaled, Combine;
    ghost var a0, b0, p := a[..], b[..], prime[..];
    ghost var e := Combine(a0, p, 1, 2);
    ghost var d := MinusScaled(e, b0, 1);
    NumCombine(a0, p, 1, 2, LIMB);
    NumMinusScaled(e, b0, 1, LIMB);
    RippleStart(res[..], d, LIMB);
    var i := 0;
    var temp: uint32 := 1;
    while i < 9
      invariant 0 <= i <= 9 && temp <= 4 && (i > 0 ==> temp <= 3) && (i == 0 ==> temp == 1)
      invariant forall m :: i <= m < 9 ==> a[m] == a0[m] && b[m] == b0[m]
      invariant forall m :: 0 <= m < i ==> res[m] < LIMB
      invariant Rippled(res[..], d, i, temp - 1, LIMB)
    {
      ghost var before, carry: int := res[..], temp - 1;
      temp := temp + 0x3FFF_FFFF + a[i] + 2 * prime[i] - b[i];
      res[i] := temp % 0x4000_0000;
      temp := temp / 0x4000_0000;
      RippleLimb(before, res[..], d, i, carry, temp - 1);
      i := i + 1;
    }
    LimbPowers();
    RippleEndMod(res[..], d, temp - 1, LIMB);
    ModOnce(SubMod(Num(a0, LIMB), Num(b0, LIMB), Num(p, LIMB)), TWO270);
  }

  /** a := 2 * prime - a when cond is set; both ends keep the asserted bound on the top limb. */
  method BnConditionalNegate(cond: bool, a: array<uint32>, prime: array<uint32>)
    requires Normalized(a) && GoodPrime(prime) && a != prime && 0 <= Val(a) <= 2 * Val(prime)
    modifies a
    ensures Normalized(a) && a[8] < 0x20000
    ensures Val(a) == if cond then 2 * Val(prime) - old(Val(a)) else old(Val(a))
  {
    TopLimbBelow(a, 2 * Val(prime));
    assert a[8] < 0x20000;
    ghost var a0, p := a[..], prime[..];
    ghost var x := NegateColumns(cond, a, prime);
    ghost var d := MinusScaled(Scaled(p, 2), a0, 1);
    NumScaled(p, 2, LIMB);
    NumMinusScaled(Scaled(p, 2), a0, 1, LIMB);
    LimbPowers();
    RippleEnd(x.0, d, x.1, LIMB);
    assert Normalized(a) by { assert a[..] == if cond then x.0 else a0; }
    TopLimbBelow(a, 2 * Val(prime));
  }

  /** The loop of the conditional negation: x are the limbs of the difference, selected or not. */
  method NegateColumns(cond: bool, a: array<uint32>, prime: array<uint32>) returns (ghost x: (seq<int>, int))
    requires Normalized(a) && GoodPrime(prime) && a != prime && a[8] < 0x20000
    modifies a
    ensures |x.0| == 9 && IsDigits(x.0, LIMB) && a[..] == if cond then x.0 else old(a[..])
    ensures Rippled(x.0, MinusScaled(Scaled(prime[..], 2), old(a[..]), 1), 9, x.1, LIMB)
  {
    ghost var a0, y: seq<int> := a[..], a[..];
    ghost var d := MinusScaled(Scaled(prime[..], 2), a0, 1);
    RippleStart(y, d, LIMB);
    var j := 0;
    var tmp: uint32 := 1;
    while j < 9
      invariant 0 <= j <= 9 && tmp <= 3 && (j == 0 ==> tmp == 1)
      invariant |y| == 9 && IsDigits(y, LIMB)
      invariant forall m :: j <= m < 9 ==> a[m] == a0[m]
      invariant forall m :: 0 <= m < j ==> a[m] == if cond then y[m] else a0[m]
      invariant Rippled(y, d, j, tmp - 1, LIMB)
    {
      ghost var before, carry: int := y, tmp - 1;
      tmp := tmp + 0x3FFF_FFFF + 2 * prime[j] - a[j];
      a[j] := if cond then tmp % 0x4000_0000 else a[j];
      y := y[j := tmp % 0x4000_0000];
      tmp := tmp / 0x4000_0000;
      RippleLimb(before, y, d, j, carry, tmp - 1);
      j := j + 1;
    }
    x := (y, tmp - 1);
  }

  lemma TopLimbBelow(a: array<uint32>, bound: int)
    requires Normalized(a) && Val(a) <= bound < TWO257
    ensures a[8] < 0x20000
  {
    DivMod(Val(a), TWO240);
  }

  /** res := a - b modulo 2^270. */
  method BnSubtract(a: array<uint32>, b: array<uint32>, res: array<uint32>)
    requires Normalized(a) && Normalized(b) && res.Length == 9
    modifies res
    ensures Normalized(res)
    ensures Val(res) == old(Val(a) - Val(b)) % TWO270
  {
    ghost var a0, b0 := a[..], b[..];
    ghost var d := MinusScaled(a0, b0, 1);
    NumMinusScaled(a0, b0, 1, LIMB);
    RippleStart(res[..], d, LIMB);
    var i := 0;
    var tmp: uint32 := 1;
    while i < 9
      invariant 0 <= i <= 9 && tmp <= 2
      invariant forall m :: i <= m < 9 ==> a[m] == a0[m] && b[m] == b0[m]
      invariant forall m :: 0 <= m < i ==> res[m] < LIMB
      invariant Rippled(res[..], d, i, tmp - 1, LIMB)
    {
      ghost var before, carry: int := res[..], tmp - 1;
      tmp := tmp + 0x3FFF_FFFF + a[i] - b[i];
      res[i] := tmp % 0x4000_0000;
      tmp := tmp / 0x4000_0000;
      RippleLimb(before, res[..], d, i, carry, tmp - 1);
      i := i + 1;
    }
    LimbPowers();
    RippleEndMod(res[..], d, tmp - 1, LIMB);
  }

  // ---- doubling and halving --------------------------------------------------------------

  lemma ParityOfLowLimb(s: seq<int>)
    requires |s| > 0
    ensures Num(s, LIMB) % 2 == s[0] % 2
  {
    NumSplit(s, 1, LIMB);
    assert s[..1] == [s[0]];
    NumOne(s[0]);
    LimbPowers();
    AddEven(s[0], Num(s[1..], LIMB));
  }

  lemma AddEven(x: int, h: int)
    ensures (x + LIMB * h) % 2 == x % 2
  {
    assert x + LIMB * h == x + 2 * (0x2000_0000 * h);
  }

  /** One limb of a halving: the low bit of the next column becomes the top bit of this one. */
  lemma HalveWord(t: nat, d: nat)
    requires t <= 0x4000_0000 && d < 0x8000_0000
    ensures var u := t + (d % 2) * 0x2000_0000;
            u / 0x4000_0000 + d / 2 <= 0x4000_0000
            && 2 * (u % 0x4000_0000 + (u / 0x4000_0000 + d / 2) * 0x4000_0000) == 2 * t + d * 0x4000_0000
  {}

  /** x := x / 2 modulo the odd prime. */
  method BnMultHalf(x: array<uint32>, prime: array<uint32>)
    requires Normalized(x) && Normalized(prime) && x != prime && Val(prime) % 2 == 1 && Val(prime) < TWO256
    modifies x
    ensures Normalized(x)
    ensures Val(x) == MulHalf(old(Val(x)), Val(prime))
  {
    hide Num, Pow;
    ghost var x0: seq<int>, p: seq<int> := x[..], prime[..];
    ParityOfLowLimb(x0);
    ParityOfLowLimb(p);
    var odd: uint32 := x[0] % 2;
    ghost var q := if odd == 1 then p else seq(9, _ => 0);
    ghost var d := Combine(x0, q, 1, 1);
    HalvingColumns(x0, p, q);
    var tmp1: uint32 := (x[0] + (if odd == 1 then prime[0] else 0)) / 2;
    DivideStart(x0, d, tmp1, 2, LIMB);
    var j := 0;
    while j < 8
      invariant 0 <= j <= 8
      invariant forall m :: j <= m < 9 ==> x[m] == x0[m]
      invariant forall m :: 0 <= m < j ==> x[m] < LIMB
      invariant tmp1 <= 0x4000_0000
      invariant DividedSoFar(x[..], d, j, tmp1, 2, LIMB)
    {
      ghost var before, t: int := x[..], tmp1;
      var tmp2: uint32 := x[j + 1] + (if odd == 1 then prime[j + 1] else 0);
      assert d[j + 1] == tmp2;
      HalveWord(tmp1, tmp2);
      tmp1 := tmp1 + (tmp2 % 2) * 0x2000_0000;
      x[j] := tmp1 % 0x4000_0000;
      tmp1 := tmp1 / 0x4000_0000;
      tmp1 := tmp1 + tmp2 / 2;
      DivideStep(before, x[..], d, j, t, tmp1, 2, LIMB);
      j := j + 1;
    }
    HalvingEnd(x[..8], tmp1, x0, p, d);
    ghost var low := x[..8];
    x[8] := tmp1;
    assert x[..] == low + [x[8]];
  }

  lemma HalvingColumns(x: seq<int>, p: seq<int>, q: seq<int>)
    requires |x| == |p| == |q| == 9 && Num(p, LIMB) % 2 == 1
    requires q == if x[0] % 2 == 1 then p else seq(9, _ => 0)
    ensures Num(Combine(x, q, 1, 1), LIMB) == Num(x, LIMB) + (if x[0] % 2 == 1 then Num(p, LIMB) else 0)
    ensures (x[0] + q[0]) % 2 == 0
  {
    NumCombine(x, q, 1, 1, LIMB);
    ParityOfLowLimb(p);
    if x[0] % 2 != 1 { NumZero(q, LIMB); }
  }

  lemma HalvingEnd(low: seq<int>, top: int, x: seq<int>, p: seq<int>, d: seq<int>)
    requires |low| == 8 && IsDigits(low, LIMB) && |x| == |d| == 9
    requires 0 <= Num(x, LIMB) < TWO270 && 0 < Num(p, LIMB) < TWO256 && Num(p, LIMB) % 2 == 1
    requires 2 * (Num(low, LIMB) + top * Pow(LIMB, 8)) == Num(d[..9], LIMB)
    requires Num(d, LIMB) == Num(x, LIMB) + (if x[0] % 2 == 1 then Num(p, LIMB) else 0)
    ensures top < LIMB
    ensures Num(low + [top], LIMB) == MulHalf(Num(x, LIMB), Num(p, LIMB))
  {
    assert d[..9] == d;
    NumSnoc(low, top, LIMB);
    ParityOfLowLimb(x);
    LimbPowers();
    NumBound(low, LIMB);
  }

  /** The bit shifted out of limb j - 1 into limb j. */
  function TopBit(s: seq<int>, j: nat): int
    requires j <= |s|
  {
    if j == 0 then 0 else s[j - 1] / 0x2000_0000
  }

  lemma {:induction false} Doubled(s: seq<int>, t: seq<int>, j: nat)
    requires |s| == |t| == 9 && j <= 9
    requires forall i :: 0 <= i < 9 ==> t[i] == 2 * (s[i] % 0x2000_0000) + TopBit(s, i)
    ensures Rippled(t, Combine(s, s, 1, 1), j, TopBit(s, j), LIMB)
  {
    if j > 0 {
      Doubled(s, t, j - 1);
      var d := Combine(s, s, 1, 1);
      assert d[j - 1] == s[j - 1] + s[j - 1];
      assert t[j - 1] + TopBit(s, j) * 0x4000_0000 == TopBit(s, j - 1) + d[j - 1];
      RippleLimb(t, t, d, j - 1, TopBit(s, j - 1), TopBit(s, j));
    }
  }

  /** One limb of a left shift: the new low bit comes from the limb below. */
  function ShiftedLimb(x: uint32, below: uint32): (r: uint32)
    requires x < LIMB && below < LIMB
    ensures r == 2 * (x % 0x2000_0000) + below / 0x2000_0000 < LIMB
  {
    assert Pow(2, 1) == 2;
    OrIsSum(x % 0x2000_0000, below / 0x2000_0000, 1);
    DoubledRemainder(x);
    Or((x as int * 2) % 0x4000_0000, below / 0x2000_0000)
  }

  lemma DoubledRemainder(x: int)
    ensures (x * 2) % 0x4000_0000 == (x % 0x2000_0000) * 2
  {
    DivModUnique(x * 2, 0x4000_0000, x / 0x2000_0000, (x % 0x2000_0000) * 2);
  }

  /** a := 2a for a number below 2^269; the limbs are rewritten from the top. */
  method BnLshift(a: array<uint32>)
    requires Normalized(a) && 2 * Val(a) < TWO270
    modifies a
    ensures Normalized(a) && Val(a) == 2 * old(Val(a))
  {
    hide ShiftedLimb, Num;
    ghost var s: seq<int> := a[..];
    var i := 8;
    while i > 0
      invariant 0 <= i <= 8
      invariant forall m :: 0 <= m <= i ==> a[m] == s[m]
      invariant forall m :: i < m < 9 ==> a[m] == 2 * (s[m] % 0x2000_0000) + TopBit(s, m) && a[m] < LIMB
    {
      assert a[i] == s[i] && a[i - 1] == s[i - 1];
      a[i] := ShiftedLimb(a[i], a[i - 1]);
      i := i - 1;
    }
    assert a[0] == s[0];
    DoubledRemainder(a[0]);
    a[0] := (a[0] as int * 2) % 0x4000_0000;
    ShiftValue(s, a[..]);
  }

  lemma ShiftValue(s: seq<int>, t: seq<int>)
    requires |s| == |t| == 9 && IsDigits(t, LIMB) && 0 <= 2 * Num(s, LIMB) < TWO270
    requires forall i :: 0 <= i < 9 ==> t[i] == 2 * (s[i] % 0x2000_0000) + TopBit(s, i)
    ensures Num(t, LIMB) == 2 * Num(s, LIMB)
  {
    NumCombine(s, s, 1, 1, LIMB);
    Doubled(s, t, 9);
    LimbPowers();
    RippleEnd(t, Combine(s, s, 1, 1), TopBit(s, 9), LIMB);
  }
}
