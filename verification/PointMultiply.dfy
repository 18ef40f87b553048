/** Scalar multiplication: table of odd multiples, 64 signed windows, sign-tracking Jacobian accumulator. */
module PointMultiply {
  import opened Arith
  import opened Bits
  import opened Residues
  import opened Bignum
  import opened Curve
  import opened Multiples
  import opened Jacobian
  import opened CurvePoints
  import opened Recoding
  import opened Windows

  /** A curve whose points form a group, and a point of prime order n on it. */
  ghost predicate Setting(c: Params, q: Point) {
    Group(c) && Modulus(c.n) && c.n % 2 == 1 && HasOrder(c, q, c.n)
  }

  // ---- the group steps never degenerate --------------------------------------------------

  /** A non-vanishing multiple can be doubled, and so can its double. */
  lemma DoubleSafe(c: Params, q: Point, m: int)
    requires Setting(c, q) && !Cong(m, 0, c.n)
    ensures var w := Multiple(c, m, q);
      w.Affine? && OnCurve(c, w) && !Opposite(c, w, w) && Add(c, w, w) == Multiple(c, 2 * m, q)
    ensures !Cong(2 * m, 0, c.n)
  {
    var w := Multiple(c, m, q);
    MultipleVanishes(c, q, c.n, m);
    MultipleOnCurve(c, m, q);
    MultipleAdd(c, m, m, q);
    MultipleVanishes(c, q, c.n, 2 * m);
    TwoNotMultiple(c.n);
    if Cong(2 * m, 0, c.n) { EuclidLemma(2, m, c.n); }
    assert m + m == 2 * m;
  }

  /** Multiples whose sum does not vanish are not opposite. */
  lemma AddSafe(c: Params, q: Point, m: int, d: int)
    requires Setting(c, q) && !Cong(m, 0, c.n) && !Cong(d, 0, c.n) && !Cong(m + d, 0, c.n)
    ensures var w, e := Multiple(c, m, q), Multiple(c, d, q);
      && w.Affine? && e.Affine? && OnCurve(c, w) && OnCurve(c, e)
      && !Opposite(c, w, e) && Add(c, w, e) == Multiple(c, m + d, q)
  {
    MultipleVanishes(c, q, c.n, m);
    MultipleVanishes(c, q, c.n, d);
    MultipleVanishes(c, q, c.n, m + d);
    MultipleOnCurve(c, m, q);
    MultipleOnCurve(c, d, q);
    MultipleAdd(c, m, d, q);
  }

  lemma SmallNotMultiple(m: int, n: int)
    requires -n < m < n && m != 0
    ensures !Cong(m, 0, n)
  {
    if Cong(m, 0, n) {
      CongAdd(m, 0, n, n, n);
      CongIntro(n, 0, 1, n);
      if m > 0 { CongUnique(m, 0, n); } else { CongUnique(m + n, 0, n) by { CongAdd(m, 0, n, 0, n); } }
    }
  }

  // ---- conversions -----------------------------------------------------------------------

  /** Jacobian coordinates over an arbitrary non-zero denominator. */
  method CurveToJacobian(c: Params, p: CurvePoint, jp: JacobianPoint, ghost q: Point)
    requires ValidParams(c) && OnCurve(c, q) && q.Affine? && p.Stands(c, q)
    modifies jp
    ensures jp.Stands(c, q)
  {
    var z: int :| 0 < z < c.p;
    jp.z := z;
    var zz := Mul(z, z, c.p);
    var zzz := Mul(z, zz, c.p);
    jp.x := Mul(p.x, zz, c.p);
    jp.y := Mul(p.y, zzz, c.p);
    CongMul(z, z, zz, z * z, c.p);
    CongMul(p.x, p.x, zz, z * z, c.p);
    CongMul(p.y, p.y, zzz, (z * z) * z, c.p);
    if Cong(z, 0, c.p) { CongUnique(z, 0, c.p); }
  }

  /** Back to the affine point, fully reduced. */
  method JacobianToCurve(c: Params, jp: JacobianPoint, p: CurvePoint, ghost q: Point)
    requires ValidParams(c) && jp.Stands(c, q)
    modifies p
    ensures p.Stands(c, q)
  {
    p.y := Invert(jp.z, c.p);
    ghost var i := p.y;
    p.x := p.y;
    p.x := Mul(p.x, p.x, c.p);
    ghost var i2 := p.x;
    p.y := Mul(p.x, p.y, c.p);
    ghost var i3 := p.y;
    p.x := Mul(jp.x, p.x, c.p);
    p.y := Mul(jp.y, p.y, c.p);
    Undone(c.p, jp.x, jp.y, jp.z, q.x, q.y, i, i2, i3, p.x, p.y);
    p.x := Mod(p.x, c.p);
    p.y := Mod(p.y, c.p);
    CongUnique(p.x, q.x, c.p);
    CongUnique(p.y, q.y, c.p);
  }

  lemma Undone(p: int, x: int, y: int, z: int, qx: int, qy: int, i: int, i2: int, i3: int, rx: int, ry: int)
    requires Cong(i * z, 1, p) && Cong(x, qx * (z * z), p) && Cong(y, qy * ((z * z) * z), p)
    requires Cong(i2, i * i, p) && Cong(i3, i2 * i, p) && Cong(rx, x * i2, p) && Cong(ry, y * i3, p)
    ensures Cong(rx, qx, p) && Cong(ry, qy, p)
  {
    CongMul(i * z, 1, i * z, 1, p);
    CongMul((i * z) * (i * z), 1, i * z, 1, p);
    CongMul(x, qx * (z * z), i2, i * i, p);
    CongMul(i2, i * i, i, i, p);
    CongMul(y, qy * ((z * z) * z), i3, (i * i) * i, p);
    CongMul(qx, qx, (i * z) * (i * z), 1, p);
    CongMul(qy, qy, ((i * z) * (i * z)) * (i * z), 1, p);
    InversePowers(qx, qy, z, i);
  }

  lemma InversePowers(qx: int, qy: int, z: int, i: int)
    ensures (qx * (z * z)) * (i * i) == qx * ((i * z) * (i * z))
    ensures (qy * ((z * z) * z)) * ((i * i) * i) == qy * (((i * z) * (i * z)) * (i * z))
  {
    assert (i * z) * (i * z) == (z * z) * (i * i);
    assert ((i * z) * (i * z)) * (i * z) == ((z * z) * z) * ((i * i) * i);
  }

  /** Replacing z by 2p - z negates the point. */
  lemma NegatedDenominator(c: Params, x: int, y: int, z: int, q: Point)
    requires ValidParams(c) && OnCurve(c, q) && Represents(c, x, y, z, q)
    ensures Represents(c, x, y, 2 * c.p - z, Negate(c, q))
  {
    var p, w := c.p, 2 * c.p - z;
    CongIntro(w, -z, 2, p);
    CongMul(w, -z, w, -z, p);
    CongMul(w * w, (-z) * (-z), w, -z, p);
    assert (-z) * (-z) == z * z;
    var zz := z * z;
    var ny := (-q.y) % p;
    CongMod(-q.y, p);
    CongMul(q.x, q.x, w * w, zz, p);
    CongMul(ny, -q.y, (w * w) * w, zz * (-z), p);
    SignsCancel(q.y, zz, z);
    if Cong(w, 0, p) { CongSub(0, 0, w, 0, p); CongSub(0, 0, w, -z, p); }
  }

  lemma SignsCancel(y: int, zz: int, z: int)
    ensures (-y) * (zz * (-z)) == y * (zz * z)
  {
    assert zz * (-z) == -(zz * z);
  }

  /** conditional_negate on the denominator. */
  method NegateIf(c: Params, cond: bool, j: JacobianPoint, ghost q: Point, ghost m: int)
    requires Setting(c, q) && j.Stands(c, Multiple(c, m, q))
    modifies j
    ensures j.Stands(c, Multiple(c, if cond then -m else m, q))
  {
    if cond {
      ghost var w := Multiple(c, m, q);
      NegatedDenominator(c, j.x, j.y, j.z, w);
      MultipleNegated(c, m, q);
      NegateOnCurve(c, w);
      ZeroNotUnit(c, j.z);
      j.z := 2 * c.p - j.z;
    }
  }

  lemma ZeroNotUnit(c: Params, z: int)
    requires !Cong(z, 0, c.p)
    ensures z != 0
  {
    CongIntro(0, 0, 0, c.p);
  }

  // ---- the table -------------------------------------------------------------------------

  ghost predicate Distinct(t: seq<CurvePoint>) {
    forall i, j :: 0 <= i < j < |t| ==> t[i] != t[j]
  }

  method NewTable() returns (t: seq<CurvePoint>)
    ensures |t| == 8 && Distinct(t) && forall i :: 0 <= i < 8 ==> fresh(t[i])
  {
    t := [];
    while |t| < 8
      invariant |t| <= 8 && Distinct(t) && forall i :: 0 <= i < |t| ==> fresh(t[i])
    {
      var e := new CurvePoint(0, 0);
      t := t + [e];
    }
  }

  /** pmult[i] = (2*i + 1) * p; the double of p is kept in the last entry until that is filled. */
  method OddMultiples(c: Params, p: CurvePoint, ghost q: Point) returns (pmult: seq<CurvePoint>)
    requires Setting(c, q) && p.Stands(c, q)
    ensures |pmult| == 8 && forall i :: 0 <= i < 8 ==> fresh(pmult[i])
    ensures forall i :: 0 <= i < 8 ==> pmult[i].Stands(c, Multiple(c, 2 * i + 1, q))
  {
    pmult := NewTable();
    pmult[7].x, pmult[7].y := p.x, p.y;
    PointDouble(c, pmult[7], q);
    pmult[0].x, pmult[0].y := p.x, p.y;
    assert Times(c, 1, q) == Add(c, Times(c, 0, q), q);
    MultipleAdd(c, 1, 1, q);
    var i := 1;
    while i < 8
      invariant 1 <= i <= 8
      invariant forall j :: 0 <= j < i ==> pmult[j].Stands(c, Multiple(c, 2 * j + 1, q))
      invariant i < 8 ==> pmult[7].Stands(c, Multiple(c, 2, q))
    {
      pmult[i].x, pmult[i].y := pmult[7].x, pmult[7].y;
      ghost var odd, two := Multiple(c, 2 * i - 1, q), Multiple(c, 2, q);
      MultipleOnCurve(c, 2 * i - 1, q);
      MultipleOnCurve(c, 2, q);
      assert pmult[i - 1].Stands(c, Multiple(c, 2 * (i - 1) + 1, q));
      PointAdd(c, pmult[i - 1], pmult[i], odd, two);
      MultipleAdd(c, 2 * i - 1, 2, q);
      i := i + 1;
    }
  }

  // ---- the main loop ---------------------------------------------------------------------

  /** m, negated if the current digit is negative. */
  function Signed(m: int, sign: uint32): int {
    if sign == 0 then m else -m
  }

  /** No partial sum of digits is a multiple of the order. */
  lemma UpperNotMultiple(k: int, n: int, i: nat)
    requires 0 < k < n && Modulus(n) && n % 2 == 1 && i <= 63
    ensures Recoded(k, n) >= 0 && !Cong(Upper(Recoded(k, n), i), 0, n)
  {
    RecodedFacts(k, n);
    var a := Recoded(k, n);
    if i == 0 {
      UpperTotal(a);
      if Cong(a - TWO256, 0, n) {
        CongUnique(k, 0, n);
      }
    } else {
      UpperBelowOrder(a, i, n);
      SmallNotMultiple(Upper(a, i), n);
    }
  }

  method DoubleFourTimes(c: Params, j: JacobianPoint, ghost q: Point, ghost m: int)
    requires Setting(c, q) && !Cong(m, 0, c.n) && j.Stands(c, Multiple(c, m, q))
    modifies j
    ensures j.Stands(c, Multiple(c, 16 * m, q)) && !Cong(16 * m, 0, c.n)
  {
    DoubleSafe(c, q, m);
    PointJacobianDouble(c, j, Multiple(c, m, q));
    DoubleSafe(c, q, 2 * m);
    PointJacobianDouble(c, j, Multiple(c, 2 * m, q));
    DoubleSafe(c, q, 4 * m);
    PointJacobianDouble(c, j, Multiple(c, 4 * m, q));
    DoubleSafe(c, q, 8 * m);
    PointJacobianDouble(c, j, Multiple(c, 8 * m, q));
  }

  lemma NegatedNotMultiple(m: int, n: int)
    requires !Cong(m, 0, n)
    ensures !Cong(-m, 0, n)
  {
    if Cong(-m, 0, n) {
      CongSub(0, 0, -m, 0, n);
    }
  }

  /** The table entry for a window, and the sign word it leaves. */
  method SelectDigit(window: uint32) returns (index: nat, sign: uint32)
    requires window < 32
    ensures index < 8 && sign == SignWord(window)
    ensures 2 * index + 1 == Signed(SignedDigit(window), sign)
  {
    sign := if window / 16 >= 1 then 0 else 0xffff_ffff;
    TableIndex(window, sign);
    var bits := Xor(window, sign) % 16;
    index := bits / 2;
  }

  /** One round: sixteen times the accumulator plus the next digit, up to the sign. */
  method Round(c: Params, pmult: seq<CurvePoint>, j: JacobianPoint, window: uint32, sign: uint32, ghost q: Point,
               ghost m: int)
      returns (nsign: uint32)
    requires Setting(c, q) && window < 32 && |pmult| == 8
    requires forall i :: 0 <= i < 8 ==> pmult[i].Stands(c, Multiple(c, 2 * i + 1, q))
    requires !Cong(m, 0, c.n) && !Cong(16 * m + SignedDigit(window), 0, c.n)
    requires sign == 0 || sign == 0xffff_ffff
    requires j.Stands(c, Multiple(c, Signed(m, sign), q))
    modifies j
    ensures nsign == SignWord(window)
    ensures j.Stands(c, Multiple(c, Signed(16 * m + SignedDigit(window), nsign), q))
  {
    hide Multiple, Cong, Xor;
    NegatedNotMultiple(m, c.n);
    DoubleFourTimes(c, j, q, Signed(m, sign));
    var index;
    index, nsign := SelectDigit(window);
    XorSigns(sign, nsign);
    NegateIf(c, Xor(sign, nsign) != 0, j, q, 16 * Signed(m, sign));
    ghost var m', d := Signed(16 * m, nsign), 2 * index + 1;
    assert m' == if Xor(sign, nsign) != 0 then -(16 * Signed(m, sign)) else 16 * Signed(m, sign);
    RoundSafe(m, SignedDigit(window), nsign, d, c.n);
    AddSafe(c, q, m', d);
    PointJacobianAdd(c, pmult[index], j, Multiple(c, d, q), Multiple(c, m', q));
  }

  lemma XorSigns(s: uint32, t: uint32)
    requires (s == 0 || s == 0xffff_ffff) && (t == 0 || t == 0xffff_ffff)
    ensures Xor(s, t) != 0 <==> s != t
  {
    XorSelf(s);
    XorCommutes(s, t);
  }

  lemma RoundSafe(m: int, digit: int, sign: uint32, d: int, n: int)
    requires Modulus(n) && n % 2 == 1 && IsPrime(n) && !Cong(m, 0, n) && !Cong(16 * m + digit, 0, n)
    requires d == Signed(digit, sign) && 0 < d < 16
    ensures var m' := Signed(16 * m, sign);
      !Cong(m', 0, n) && !Cong(d, 0, n) && m' + d == Signed(16 * m + digit, sign) && !Cong(m' + d, 0, n)
  {
    SmallNotMultiple(d, n);
    SmallNotMultiple(16, n);
    if Cong(16 * m, 0, n) { EuclidLemma(16, m, n); }
    NegatedNotMultiple(16 * m, n);
    NegatedNotMultiple(16 * m + digit, n);
  }

  /** res := k * p for every k below the order, whatever denominator is drawn. */
  method PointMultiply(c: Params, k: array<uint32>, order: array<uint32>, p: CurvePoint, res: CurvePoint,
                       ghost q: Point)
    requires Setting(c, q) && p.Stands(c, q)
    requires Normalized(k) && Normalized(order) && Val(order) == c.n && Val(k) < c.n
    modifies res
    ensures res.Stands(c, Multiple(c, Val(k), q))
  {
    var a := new uint32[9];
    MakeOddScalar(k, order, a);
    var isZero := BnIsZero(k);
    if isZero {
      res.x, res.y := 0, 0;
      return;
    }
    var pmult := OddMultiples(c, p, q);
    var jres := new JacobianPoint(0, 0, 0);
    var sign := Accumulate(c, a, pmult, jres, q, Val(k));
    RecodedFacts(Val(k), c.n);
    NegateIf(c, sign != 0, jres, q, Signed(Upper(Val(a), 0), sign));
    DigitsTotal(c, q, Val(k), sign);
    JacobianToCurve(c, jres, res, Multiple(c, Val(k), q));
  }

  /** The digits add up to k modulo the order. */
  lemma DigitsTotal(c: Params, q: Point, k: int, sign: uint32)
    requires Setting(c, q) && 0 <= k < c.n
    ensures Recoded(k, c.n) >= 0
    ensures var m := Signed(Upper(Recoded(k, c.n), 0), sign);
      Multiple(c, if sign != 0 then -m else m, q) == Multiple(c, k, q)
  {
    RecodedFacts(k, c.n);
    UpperTotal(Recoded(k, c.n));
    MultipleRespectsCong(c, q, c.n, Upper(Recoded(k, c.n), 0), k);
  }

  /** The accumulator starts as the multiple for the top window. */
  method FirstRound(c: Params, a: array<uint32>, pmult: seq<CurvePoint>, jres: JacobianPoint, ghost q: Point,
                    ghost k: int)
      returns (sign: uint32)
    requires Setting(c, q) && 0 < k < c.n && Normalized(a) && Val(a) == Recoded(k, c.n)
    requires |pmult| == 8 && forall i :: 0 <= i < 8 ==> pmult[i].Stands(c, Multiple(c, 2 * i + 1, q))
    modifies jres
    ensures sign == 0 || sign == 0xffff_ffff
    ensures jres.Stands(c, Multiple(c, Signed(Upper(Val(a), 63), sign), q))
  {
    hide Multiple, Cong;
    RecodedFacts(k, c.n);
    var bits := FirstWindow(a);
    var index;
    index, sign := SelectDigit(bits);
    assert Upper(Val(a), 63) == 16 * Upper(Val(a), 64) + Digit(Val(a), 63);
    ghost var m := 2 * index + 1;
    SmallNotMultiple(m, c.n);
    MultipleVanishes(c, q, c.n, m);
    MultipleOnCurve(c, m, q);
    CurveToJacobian(c, pmult[index], jres, Multiple(c, m, q));
  }

  /** Where the loop stands in the scalar: the limb, its unread bits and the position in it. */
  datatype Reader = Reader(aptr: nat, abits: uint32, ashift: nat)

  /** One turn of the loop: read window i and bring the accumulator from the upper digits of i + 1 to those of i. */
  method Advance(c: Params, a: array<uint32>, pmult: seq<CurvePoint>, jres: JacobianPoint, i: nat, reader: Reader,
                 sign: uint32, ghost q: Point, ghost k: int)
      returns (next: Reader, nsign: uint32)
    requires Setting(c, q) && 0 < k < c.n && Normalized(a) && Val(a) == Recoded(k, c.n) && i <= 62
    requires |pmult| == 8 && forall j :: 0 <= j < 8 ==> pmult[j].Stands(c, Multiple(c, 2 * j + 1, q))
    requires At(a[..], i + 1, reader.aptr, reader.abits, reader.ashift) && (sign == 0 || sign == 0xffff_ffff)
    requires jres.Stands(c, Multiple(c, Signed(Upper(Val(a), i + 1), sign), q))
    modifies jres
    ensures At(a[..], i, next.aptr, next.abits, next.ashift) && (nsign == 0 || nsign == 0xffff_ffff)
    ensures jres.Stands(c, Multiple(c, Signed(Upper(Val(a), i), nsign), q))
  {
    hide Multiple, Cong;
    RecodedFacts(k, c.n);
    var bits, aptr, abits, ashift := NextWindow(a, i, reader.aptr, reader.abits, reader.ashift);
    UpperNotMultiple(k, c.n, i + 1);
    UpperNotMultiple(k, c.n, i);
    nsign := Round(c, pmult, jres, bits, sign, q, Upper(Val(a), i + 1));
    next := Reader(aptr, abits, ashift);
  }

  /** The loop over the windows, most significant first. */
  method Accumulate(c: Params, a: array<uint32>, pmult: seq<CurvePoint>, jres: JacobianPoint,
                    ghost q: Point, ghost k: int)
      returns (sign: uint32)
    requires Setting(c, q) && 0 < k < c.n && Normalized(a) && Val(a) == Recoded(k, c.n)
    requires |pmult| == 8 && forall i :: 0 <= i < 8 ==> pmult[i].Stands(c, Multiple(c, 2 * i + 1, q))
    modifies jres
    ensures sign == 0 || sign == 0xffff_ffff
    ensures jres.Stands(c, Multiple(c, Signed(Upper(Val(a), 0), sign), q))
  {
    hide Multiple, Cong, Upper;
    RecodedFacts(k, c.n);
    var reader := Reader(8, a[8], 12);
    sign := FirstRound(c, a, pmult, jres, q, k);
    var i := 62;
    while i >= 0
      invariant -1 <= i <= 62 && (sign == 0 || sign == 0xffff_ffff)
      invariant At(a[..], i + 1, reader.aptr, reader.abits, reader.ashift)
      invariant jres.Stands(c, Multiple(c, Signed(Upper(Val(a), i + 1), sign), q))
    {
      reader, sign := Advance(c, a, pmult, jres, i, reader, sign, q, k);
      i := i - 1;
    }
  }
}
