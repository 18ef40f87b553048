/** bn_multiply: schoolbook product by columns, then nine reduce steps on the 18-limb buffer. */
module Multiply {
  import opened Arith
  import opened Digits
  import opened Residues
  import opened Bignum

  // ---- the product by columns ------------------------------------------------------------

  /** The contribution of limb j of k to column c of the product. */
  ghost function Term(k: seq<int>, x: seq<int>, c: int, j: nat): int
    requires j < |k|
  {
    if 0 <= c - j < |x| then k[j] * x[c - j] else 0
  }

  ghost function Column(k: seq<int>, x: seq<int>, c: int, n: nat): int
    requires n <= |k|
  {
    if n == 0 then 0 else Column(k, x, c, n - 1) + Term(k, x, c, n - 1)
  }

  ghost function Columns(k: seq<int>, x: seq<int>, n: nat, m: nat): (r: seq<int>)
    requires n <= |k|
    ensures |r| == m && forall c :: 0 <= c < m ==> r[c] == Column(k, x, c, n)
  {
    seq(m, c => Column(k, x, c, n))
  }

  /** Row j alone: x shifted by j limbs and scaled by k[j]. */
  ghost function Row(k: seq<int>, x: seq<int>, j: nat, m: nat): (r: seq<int>)
    requires j < |k|
    ensures |r| == m && forall c :: 0 <= c < m ==> r[c] == Term(k, x, c, j)
  {
    seq(m, c => Term(k, x, c, j))
  }

  lemma {:induction false} RowValue(k: seq<int>, x: seq<int>, j: nat, m: nat, b: nat)
    requires j < |k| && m <= j + |x|
    ensures Num(Row(k, x, j, m), b) == if m <= j then 0 else (k[j] * Pow(b, j)) * Num(x[..m - j], b)
  {
    if m > 0 {
      RowValue(k, x, j, m - 1, b);
      assert Row(k, x, j, m)[..m - 1] == Row(k, x, j, m - 1);
      if m > j {
        NumStep(x, m - 1 - j, b);
        PowAdd(b, j, m - 1 - j);
        var w, v, d := Pow(b, j), Pow(b, m - 1 - j), x[m - 1 - j];
        RowDigit(k[j], d, w, v, Num(x[..m - 1 - j], b));
      }
    }
  }

  lemma RowDigit(k: int, d: int, w: int, v: int, n: int)
    ensures (k * w) * n + (k * d) * (w * v) == (k * w) * (n + d * v)
  {
    assert (k * d) * (w * v) == (k * w) * (d * v);
  }

  /** Columns beyond the row's last limb are empty. */
  lemma {:induction false} RowTail(k: seq<int>, x: seq<int>, j: nat, m: nat, b: nat)
    requires j < |k| && j + |x| <= m
    ensures Num(Row(k, x, j, m), b) == (k[j] * Pow(b, j)) * Num(x, b)
  {
    if m == j + |x| {
      RowValue(k, x, j, m, b);
      assert x[..|x|] == x;
      if |x| == 0 { assert Num(x, b) == 0; }
    } else {
      RowTail(k, x, j, m - 1, b);
      assert Row(k, x, j, m)[..m - 1] == Row(k, x, j, m - 1);
    }
  }

  /** Summing the columns gives the product. */
  lemma {:induction false} ColumnsValue(k: seq<int>, x: seq<int>, n: nat, m: nat, b: nat)
    requires n <= |k| && n + |x| <= m + 1 && |x| > 0
    ensures Num(Columns(k, x, n, m), b) == Num(k[..n], b) * Num(x, b)
  {
    if n == 0 {
      NumZero(Columns(k, x, 0, m), b);
    } else {
      ColumnsValue(k, x, n - 1, m, b);
      RowTail(k, x, n - 1, m, b);
      NumLinear(Columns(k, x, n, m), Columns(k, x, n - 1, m), Row(k, x, n - 1, m), 1, 1, b);
      NumStep(k, n - 1, b);
      var low, top := Num(k[..n - 1], b), k[n - 1] * Pow(b, n - 1);
      Distribute(low, top, Num(x, b));
    }
  }

  /** Rows n..n' contribute nothing to a column that lies below or beyond all of them. */
  lemma {:induction false} ColumnEmpty(k: seq<int>, x: seq<int>, c: int, n: nat, n': nat)
    requires n <= n' <= |k| && (n == n' || c < n || n' + |x| <= c + 1)
    ensures Column(k, x, c, n') == Column(k, x, c, n)
  {
    if n < n' {
      ColumnEmpty(k, x, c, n, n' - 1);
    }
  }

  lemma LimbProduct(a: int, b: int)
    requires 0 <= a < LIMB && 0 <= b < LIMB
    ensures 0 <= a * b <= 0x0FFF_FFFF_8000_0001
  {
    MulMono(0, a, b);
    MulMono(a, 0x3FFF_FFFF, b);
    MulMono(b, 0x3FFF_FFFF, 0x3FFF_FFFF);
  }

  /** Adds columns from row `from` to row `to` to the running word; nine products never overflow it. */
  method AddColumn(k: array<uint32>, x: array<uint32>, i: nat, from: nat, to: nat, start: uint64) returns (temp: uint64)
    requires Normalized(k) && Normalized(x) && i <= 16
    requires from == (if i < 9 then 0 else i - 8) && to == (if i < 9 then i + 1 else 9)
    requires start <= 0x4_0000_0000
    ensures temp == start + Column(k[..], x[..], i, 9)
    ensures temp <= 0x4_0000_0000 + 9 * 0x0FFF_FFFF_8000_0001
  {
    temp := start;
    var j := from;
    ColumnEmpty(k[..], x[..], i, 0, from);
    while j < to
      invariant from <= j <= to
      invariant temp == start + Column(k[..], x[..], i, j)
      invariant temp <= start + (j - from) * 0x0FFF_FFFF_8000_0001
    {
      LimbProduct(k[j], x[i - j]);
      temp := temp + (k[j] as int) * x[i - j];
      j := j + 1;
    }
    ColumnEmpty(k[..], x[..], i, to, 9);
  }

  /** res := k * x as a normalized 18-limb number; k and x may be the same. */
  method BnMultiplyLong(k: array<uint32>, x: array<uint32>, res: array<uint32>)
    requires Normalized(k) && Normalized(x) && res.Length == 18
    requires res != k && res != x
    modifies res
    ensures IsDigits(res[..], LIMB)
    ensures Num(res[..], LIMB) == Val(k) * Val(x)
  {
    ghost var d := Columns(k[..], x[..], 9, 17);
    ColumnsValue(k[..], x[..], 9, 17, LIMB);
    assert k[..][..9] == k[..];
    RippleStart(res[..], d, LIMB);
    var temp: uint64 := 0;
    var i := 0;
    while i < 17
      invariant 0 <= i <= 17 && temp <= 0x4_0000_0000
      invariant forall m :: 0 <= m < i ==> res[m] < LIMB
      invariant Rippled(res[..], d, i, temp, LIMB)
    {
      ghost var before, carry: int := res[..], temp;
      if i < 9 {
        temp := AddColumn(k, x, i, 0, i + 1, temp);
      } else {
        temp := AddColumn(k, x, i, i - 8, 9, temp);
      }
      res[i] := temp % 0x4000_0000;
      temp := temp / 0x4000_0000;
      RippleLimb(before, res[..], d, i, carry, temp);
      i := i + 1;
    }
    LastLimb(res[..], d, temp, Val(k), Val(x));
    res[17] := temp;
    assert res[..] == res[..17] + [res[17]];
    NumSnoc(res[..17], res[17], LIMB);
  }

  /** The last carry is itself a 30-bit limb, since the product is below 2^540. */
  lemma LastLimb(res: seq<int>, d: seq<int>, carry: int, k: int, x: int)
    requires |res| == 18 && |d| == 17 && Rippled(res, d, 17, carry, LIMB) && carry >= 0
    requires IsDigits(res[..17], LIMB)
    requires 0 <= k < TWO270 && 0 <= x < TWO270 && Num(d, LIMB) == k * x
    ensures carry < LIMB
    ensures Num(res[..17], LIMB) + carry * Pow(LIMB, 17) == k * x
  {
    assert d[..17] == d;
    NumBound(res[..17], LIMB);
    LimbPowers();
    PowAdd(LIMB, 9, 8);
    MulMono(k, TWO270, x);
    MulStrict(x, TWO270, TWO270);
    if carry >= LIMB { MulMono(LIMB, carry, Pow(LIMB, 17)); }
  }

  // ---- reduction of the 18-limb buffer ---------------------------------------------------

  /** The coefficient read from limbs i and i + 1 is the quotient of the number by 2^(30(i-8)) * 2^256. */
  lemma CoefficientValue(s: seq<int>, i: nat)
    requires 8 <= i <= 16 && |s| == 18 && IsDigits(s, LIMB) && forall m :: i + 2 <= m < 18 ==> s[m] == 0
    ensures Pow(LIMB, i - 8) * TWO256 > 0
    ensures s[i] / 0x10000 + s[i + 1] * 0x4000 == Num(s, LIMB) / (Pow(LIMB, i - 8) * TWO256)
    ensures Num(s[i - 8..i + 2], LIMB) == Num(s, LIMB) / Pow(LIMB, i - 8)
    ensures Num(s[i - 8..i + 2], LIMB) / TWO256 == s[i] / 0x10000 + s[i + 1] * 0x4000
  {
    var k := i - 8;
    var y := s[k..i + 2];
    NumBound(s, LIMB);
    NumSlice(s, k, i + 2, LIMB);
    NumBound(s[..k], LIMB);
    RemQuot(Num(s, LIMB), Pow(LIMB, k), Num(y, LIMB), Num(s[..k], LIMB));
    TenLimbs(y);
    PowPos(LIMB, k);
    DivDiv(Num(s, LIMB), Pow(LIMB, k), TWO256);
  }

  lemma TenLimbs(y: seq<int>)
    requires |y| == 10 && IsDigits(y, LIMB)
    ensures Num(y, LIMB) / TWO256 == y[8] / 0x10000 + y[9] * 0x4000
  {
    NumStep(y, 8, LIMB);
    NumStep(y, 9, LIMB);
    assert y[..10] == y;
    LimbPowers();
    NumBound(y[..8], LIMB);
    var low := Num(y[..8], LIMB);
    assert Num(y, LIMB) == low + y[8] * TWO240 + y[9] * TWO270;
    TopQuotient(low, y[8], y[9]);
  }

  lemma TopQuotient(low: int, a: int, b: int)
    requires 0 <= low < TWO240 && 0 <= a < LIMB && 0 <= b
    ensures (low + a * TWO240 + b * TWO270) / TWO256 == a / 0x10000 + b * 0x4000
  {
    var r := a % 0x10000;
    DivModUnique(low + a * TWO240 + b * TWO270, TWO256, a / 0x10000 + b * 0x4000, low + r * TWO240);
  }

  /** The ten limbs k..k+10 lose coef * prime; the columns d say what each of them should receive. */
  method SubtractScaled(res: array<uint32>, prime: array<uint32>, k: nat, coef: uint32, ghost y0: seq<int>,
                        ghost d: seq<int>)
    returns (ghost y: seq<int>, ghost carry: int)
    requires k <= 8 && res.Length == 18 && GoodPrime(prime) && res != prime && coef < 0x8000_0000
    requires y0 == res[k..k + 10] && IsDigits(y0, LIMB) && d == MinusScaled(y0, prime[..] + [0], coef)
    modifies res
    ensures forall m :: 0 <= m < 18 && !(k <= m < k + 10) ==> res[m] == old(res[m])
    ensures |y| == 10 && IsDigits(y, LIMB) && forall m :: 0 <= m < 10 ==> y[m] == res[k + m]
    ensures Rippled(y, d, 10, carry, LIMB)
  {
    hide Num, Pow;
    ghost var p := prime[..] + [0];
    y := y0;
    assert p[0] == prime[0] && y0[0] == res[k];
    BorrowWord(0x8000_0000, res[k], prime[0], coef);
    var temp: uint64 := 0x2000_0000_0000_0000 + res[k] - (prime[0] as int) * coef;
    res[k] := temp % 0x4000_0000;
    carry := temp / 0x4000_0000 - 0x8000_0000;
    y := y[0 := res[k]];
    RippleStart(y0, d, LIMB);
    RippleLimb(y0, y, d, 0, 0, carry);
    var j := 1;
    while j < 9
      invariant 1 <= j <= 9
      invariant temp <= 0x2000_0002_0000_0000 && carry == temp / 0x4000_0000 - 0x8000_0000
      invariant forall m :: 0 <= m < 18 && !(k <= m < k + j) ==> res[m] == old(res[m])
      invariant |y| == 10 && forall m :: 0 <= m < 10 ==> y[m] == res[k + m]
      invariant forall m :: 0 <= m < j ==> y[m] < LIMB
      invariant Rippled(y, d, j, carry, LIMB)
    {
      temp := temp / 0x4000_0000;
      assert p[j] == prime[j] && y0[j] == res[k + j];
      BorrowWord(temp, res[k + j], prime[j], coef);
      temp := temp + 0x1FFF_FFFF_8000_0000 + res[k + j] - (prime[j] as int) * coef;
      res[k + j] := temp % 0x4000_0000;
      ghost var before, carry0 := y, carry;
      carry := temp / 0x4000_0000 - 0x8000_0000;
      y := y[j := res[k + j]];
      RippleLimb(before, y, d, j, carry0, carry);
      j := j + 1;
    }
    assert p[9] == 0 && y0[9] == res[k + 9];
    temp := temp / 0x4000_0000 + 0x1FFF_FFFF_8000_0000 + res[k + 9];
    res[k + 9] := temp % 0x4000_0000;
    ghost var before, carry0 := y, carry;
    carry := temp / 0x4000_0000 - 0x8000_0000;
    y := y[9 := res[k + 9]];
    RippleLimb(before, y, d, 9, carry0, carry);
  }

  /** Subtracts coef * 2^(30(i-8)) * prime from the buffer in place. */
  method BnMultiplyReduceStep(res: array<uint32>, prime: array<uint32>, i: nat)
    requires 8 <= i <= 16 && res.Length == 18 && IsDigits(res[..], LIMB) && GoodPrime(prime) && res != prime
    requires Num(res[..], LIMB) < Pow(LIMB, i - 7) * (2 * Val(prime))
    modifies res
    ensures IsDigits(res[..], LIMB)
    ensures Num(res[..], LIMB) == ReduceStep(old(Num(res[..], LIMB)), i, Val(prime))
    ensures res[i + 1] == 0
  {
    ghost var s0 := res[..];
    CoefficientWord(s0, i, Val(prime));
    var coef: uint32 := res[i] / 0x10000 + res[i + 1] * 0x4000;
    ghost var y0 := s0[i - 8..i + 2];
    ghost var d := MinusScaled(y0, prime[..] + [0], coef);
    ghost var y, carry := SubtractScaled(res, prime, i - 8, coef, y0, d);
    assert res[..] == s0[..i - 8] + y + s0[i + 2..];
    StepDone(s0, prime[..], y, res[..], i, coef, carry);
  }

  lemma CoefficientWord(s: seq<int>, i: nat, p: int)
    requires 8 <= i <= 16 && |s| == 18 && IsDigits(s, LIMB) && Modulus(p)
    requires Num(s, LIMB) < Pow(LIMB, i - 7) * (2 * p)
    ensures s[i + 1] < 0x20000 && s[i] / 0x10000 + s[i + 1] * 0x4000 < 0x8000_0000
  {
    StepBounds(s, i, p);
    CoefficientValue(s, i);
  }

  lemma StepDone(s0: seq<int>, prime: seq<int>, y: seq<int>, s: seq<int>, i: nat, c: int, carry: int)
    requires 8 <= i <= 16 && |s0| == 18 && IsDigits(s0, LIMB)
    requires |prime| == 9 && Modulus(Num(prime, LIMB)) && |y| == 10 && IsDigits(y, LIMB)
    requires Num(s0, LIMB) < Pow(LIMB, i - 7) * (2 * Num(prime, LIMB))
    requires s == s0[..i - 8] + y + s0[i + 2..] && c == s0[i] / 0x10000 + s0[i + 1] * 0x4000
    requires Rippled(y, MinusScaled(s0[i - 8..i + 2], prime + [0], c), 10, carry, LIMB)
    ensures IsDigits(s, LIMB) && s[i + 1] == 0
    ensures Num(s, LIMB) == ReduceStep(Num(s0, LIMB), i, Num(prime, LIMB))
  {
    hide Num, Pow;
    var y0 := s0[i - 8..i + 2];
    NumSnoc(prime, 0, LIMB);
    NumMinusScaled(y0, prime + [0], c, LIMB);
    StepBounds(s0, i, Num(prime, LIMB));
    CoefficientValue(s0, i);
    StepResult(s0, y, s, i, c, Num(prime, LIMB), MinusScaled(y0, prime + [0], c), carry);
    assert s[i + 1] == y[9];
  }

  lemma StepBounds(s: seq<int>, i: nat, p: int)
    requires 8 <= i <= 16 && |s| == 18 && IsDigits(s, LIMB) && Modulus(p)
    requires Num(s, LIMB) < Pow(LIMB, i - 7) * (2 * p)
    ensures forall m :: i + 2 <= m < 18 ==> s[m] == 0
    ensures Pow(LIMB, i - 8) * TWO256 > 0 && Num(s, LIMB) / (Pow(LIMB, i - 8) * TWO256) < 0x8000_0000
    ensures s[i + 1] < 0x20000
  {
    NumBound(s, LIMB);
    ReduceStepFacts(Num(s, LIMB), i, p);
    LimbPowers();
    PowPos(LIMB, i - 7);
    PowAdd(LIMB, i - 7, 9);
    MulMono(2 * p, TWO270, Pow(LIMB, i - 7));
    HighDigitsZero(s, i + 2, LIMB);
    CoefficientValue(s, i);
  }

  /** The ten rewritten limbs hold the reduced number, whose top limb is therefore zero. */
  lemma StepResult(s0: seq<int>, y: seq<int>, s: seq<int>, i: nat, c: int, p: int, d: seq<int>, carry: int)
    requires 8 <= i <= 16 && |s0| == 18 && forall m :: i + 2 <= m < 18 ==> s0[m] == 0
    requires |y| == 10 && IsDigits(y, LIMB) && IsDigits(s0[i - 8..i + 2], LIMB) && Modulus(p)
    requires s == s0[..i - 8] + y + s0[i + 2..]
    requires Pow(LIMB, i - 8) * TWO256 > 0 && c == Num(s0, LIMB) / (Pow(LIMB, i - 8) * TWO256)
    requires c == Num(s0[i - 8..i + 2], LIMB) / TWO256 && c < 0x8000_0000
    requires |d| == 10 && Num(d, LIMB) == Num(s0[i - 8..i + 2], LIMB) - c * p && Rippled(y, d, 10, carry, LIMB)
    ensures Num(s, LIMB) == ReduceStep(Num(s0, LIMB), i, p)
    ensures y[9] == 0
  {
    hide Num;
    var k := i - 8;
    var low, y0 := s0[..k], s0[k..i + 2];
    SliceResult(y0, y, c, p, d, carry);
    NumSlice(s0, k, i + 2, LIMB);
    assert s[..k] == low && s[k..i + 2] == y;
    assert forall m :: i + 2 <= m < 18 ==> s[m] == s0[m];
    NumSlice(s, k, i + 2, LIMB);
    ShiftedDifference(Pow(LIMB, k), Num(y0, LIMB), c, p);
  }

  lemma SliceResult(y0: seq<int>, y: seq<int>, c: int, p: int, d: seq<int>, carry: int)
    requires |y0| == |y| == |d| == 10 && IsDigits(y0, LIMB) && IsDigits(y, LIMB) && Modulus(p)
    requires c == Num(y0, LIMB) / TWO256 && c < 0x8000_0000
    requires Num(d, LIMB) == Num(y0, LIMB) - c * p && Rippled(y, d, 10, carry, LIMB)
    ensures Num(y, LIMB) == Num(y0, LIMB) - c * p && y[9] == 0
  {
    NumBound(y0, LIMB);
    var r := Num(y0, LIMB);
    DivMod(r, TWO256);
    PartlyReduced(r, c, 0, p);
    LimbPowers();
    PowAdd(LIMB, 9, 1);
    RippleEnd(y, d, carry, LIMB);
    HighDigitsZero(y, 9, LIMB);
  }

  lemma ShiftedDifference(w: int, r: int, c: int, p: int)
    ensures w * (r - c * p) == w * r - c * (w * p)
  {
    assert w * (c * p) == c * (w * p);
  }

  method BnMultiplyReduce(x: array<uint32>, res: array<uint32>, prime: array<uint32>)
    requires x.Length == 9 && res.Length == 18 && GoodPrime(prime) && x != prime && res != prime && x != res
    requires IsDigits(res[..], LIMB) && Num(res[..], LIMB) < TWO270 * (2 * Val(prime))
    modifies x, res
    ensures Normalized(x)
    ensures Val(x) == ReduceFrom(old(Num(res[..], LIMB)), 16, Val(prime))
  {
    ghost var r0, p := Num(res[..], LIMB), Val(prime);
    LimbPowers();
    var i := 16;
    while i >= 8
      invariant 7 <= i <= 16
      invariant IsDigits(res[..], LIMB)
      invariant Num(res[..], LIMB) < Pow(LIMB, i - 7) * (2 * p)
      invariant ReduceFrom(Num(res[..], LIMB), i, p) == ReduceFrom(r0, 16, p)
    {
      NumBound(res[..], LIMB);
      ReduceStepFacts(Num(res[..], LIMB), i, p);
      BnMultiplyReduceStep(res, prime, i);
      assert res[i + 1] == 0;
      i := i - 1;
    }
    HighDigitsZero(res[..], 9, LIMB);
    NumTrim(res[..], 9, LIMB);
    assert res[..][..9] == res[..9];
    ghost var r := res[..];
    i := 0;
    while i < 9
      invariant 0 <= i <= 9 && res[..] == r
      invariant forall m :: 0 <= m < i ==> x[m] == r[m]
    {
      x[i] := res[i];
      i := i + 1;
    }
    assert x[..] == r[..9];
  }

  /** x := k * x modulo prime, partly reduced; k and x may be the same number. */
  method BnMultiply(k: array<uint32>, x: array<uint32>, prime: array<uint32>)
    requires Normalized(k) && Normalized(x) && GoodPrime(prime) && x != prime
    requires Fits(Val(k), Val(x), Val(prime))
    modifies x
    ensures Normalized(x)
    ensures Val(x) == MulMod(old(Val(k)), old(Val(x)), Val(prime))
  {
    var res := new uint32[18](_ => 0);
    BnMultiplyLong(k, x, res);
    BnMultiplyReduce(x, res, prime);
  }
}
