/** The point routines: affine and Jacobian points whose coordinates are overwritten in place. */
module CurvePoints {
  import opened Arith
  import opened Residues
  import opened Curve
  import opened Jacobian
  import opened Inverse
  import opened Bignum
  import opened Digits

  class CurvePoint {
    var x: int
    var y: int

    constructor (x: int, y: int)
      ensures this.x == x && this.y == y
    {
      this.x, this.y := x, y;
    }

    /** The pair (0, 0) stands for infinity. */
    ghost predicate Stands(c: Params, q: Point)
      reads this
    {
      match q
      case Infinity => x == 0 && y == 0
      case Affine(qx, qy) => x == qx && y == qy
    }
  }

  class JacobianPoint {
    var x: int
    var y: int
    var z: int

    constructor (x: int, y: int, z: int)
      ensures this.x == x && this.y == y && this.z == z
    {
      this.x, this.y, this.z := x, y, z;
    }

    ghost predicate PartlyReduced(c: Params)
      reads this
    {
      0 <= x < 2 * c.p && 0 <= y < 2 * c.p && 0 <= z < 2 * c.p
    }

    ghost predicate Stands(c: Params, q: Point)
      reads this
    {
      PartlyReduced(c) && OnCurve(c, q) && Represents(c, x, y, z, q)
    }
  }

  /** The common part of an addition: both points over the denominators z^2 and z^3. */
  datatype Prepared = Prepared(h: int, r: int, s: int, t: int, isDoubling: bool)

  /** h and r are numerator and denominator of the slope (up to z), s and t the coordinate sums. */
  ghost predicate PreparedFor(c: Params, m: Prepared, q1: Point, q2: Point, x2: int, z: int)
    requires q1.Affine? && q2.Affine?
  {
    && 0 <= m.h < 4 * c.p && 0 <= m.r < 4 * c.p && 0 <= m.s < 4 * c.p && 0 <= m.t < 4 * c.p
    && Cong(m.s, (q2.x + q1.x) * (z * z), c.p)
    && Cong(m.t, (q2.y + q1.y) * ((z * z) * z), c.p)
    && (m.isDoubling <==> q1.x == q2.x)
    && (m.isDoubling ==> m.h == m.t && Cong(m.r, 3 * (x2 * x2) + c.a * ((z * z) * (z * z)), c.p))
    && (!m.isDoubling ==> Cong(m.h, (q1.x - q2.x) * (z * z), c.p) && Cong(m.r, (q1.y - q2.y) * ((z * z) * z), c.p))
  }

  /** z^2 and z^3 as computed. */
  lemma DenominatorPowers(p: int, z: int, z2: int, z3: int)
    requires Cong(z2, z * z, p) && Cong(z3, z2 * z, p)
    ensures Cong(z3, (z * z) * z, p)
  {
    CongMul(z2, z * z, z, z, p);
  }

  lemma OverDenominator(p: int, a: int, d: int, e: int, v: int, b: int, w: int)
    requires Cong(d, e, p) && Cong(v, a * d, p) && Cong(w, b * e, p)
    ensures Cong(v, a * e, p) && Cong(v + w, (b + a) * e, p) && Cong(v - w, (a - b) * e, p)
  {
    CongMul(a, a, d, e, p);
    CongAdd(v, a * e, w, b * e, p);
    CongSub(v, a * e, w, b * e, p);
    Distribute(b, a, e);
    DistributeSub(a, b, e);
  }

  /** The test h == prime recognizes equal abscissas. */
  lemma DoublingDetected(c: Params, x1: int, x2: int, z: int, d: int, h: int)
    requires ValidParams(c) && 0 <= x1 < c.p && 0 <= x2 < c.p && !Cong(z, 0, c.p)
    requires 0 < d < TWO270 && h == FastMod(d, c.p) && Cong(d, (x1 - x2) * (z * z), c.p)
    ensures h == c.p <==> x1 == x2
  {
    FastModOfMultiple(d, c.p);
    SquareNotMultiple(z, c.p);
    if x1 == x2 {
      assert (x1 - x2) * (z * z) == 0;
    } else {
      DifferentX(c, x2, x1);
      if Cong(d, 0, c.p) { EuclidLemma(x1 - x2, z * z, c.p); }
    }
  }

  lemma SquareNotMultiple(z: int, p: int)
    requires IsPrime(p) && !Cong(z, 0, p)
    ensures !Cong(z * z, 0, p)
  {
    if Cong(z * z, 0, p) { EuclidLemma(z, z, p); }
  }

  method PrepareAdd(c: Params, p1: CurvePoint, p2: JacobianPoint, ghost q1: Point, ghost q2: Point)
      returns (m: Prepared)
    requires ValidParams(c) && p2.Stands(c, q2)
    requires OnCurve(c, q1) && q1.Affine? && p1.Stands(c, q1)
    ensures PreparedFor(c, m, q1, q2, p2.x, p2.z)
  {
    hide Mul, MulMod;
    var p := c.p;
    ghost var z := p2.z;
    var xz := p2.z;
    xz := Mul(xz, xz, p);
    ghost var z2 := xz;
    var yz := p2.z;
    yz := Mul(xz, yz, p);
    ghost var z3 := yz;
    DenominatorPowers(p, z, z2, z3);
    var az := 0;
    if c.a != 0 {
      az := xz;
      az := Mul(az, az, p);
      az := MulSmall(az, -c.a, p);
    }
    QuarticTerm(c, z, z2, az, Mul(z2, z2, p));
    xz := Mul(p1.x, xz, p);
    OverDenominator(p, p1.x, z2, z * z, xz, q2.x, p2.x);
    var h := xz;
    h := Sub(h, p2.x, p);
    ghost var d := h;
    h := FastMod(h, p);
    xz := Plus(xz, p2.x);
    var isDoubling := h == p;
    DoublingDetected(c, p1.x, q2.x, z, d, h);

    yz := Mul(p1.y, yz, p);
    OverDenominator(p, p1.y, z3, (z * z) * z, yz, q2.y, p2.y);
    var r := Sub(yz, p2.y, p);
    yz := Plus(yz, p2.y);
    var r2 := TangentNumeratorOf(c, p2.x, az, (z * z) * (z * z));
    r := if isDoubling then r2 else r;
    h := if isDoubling then yz else h;
    m := Prepared(h, r, xz, yz, isDoubling);
  }

  lemma QuarticTerm(c: Params, z: int, z2: int, az: int, z4: int)
    requires Modulus(c.p) && Cong(z2, z * z, c.p) && -3 <= c.a <= 0 && 0 <= z4 < 2 * c.p && Cong(z4, z2 * z2, c.p)
    requires az == if c.a != 0 then MulSmall(z4, -c.a, c.p) else 0
    ensures Cong(az, -(c.a * ((z * z) * (z * z))), c.p)
  {
    CongMul(z2, z * z, z2, z * z, c.p);
    CongMul(-c.a, -c.a, z4, (z * z) * (z * z), c.p);
    NegatedFactor(c.a, (z * z) * (z * z));
  }

  lemma NegatedFactor(a: int, b: int)
    ensures (-a) * b == -(a * b)
  {}

  /** 3*x^2 + a*z^4, given az = -a*z^4. */
  method TangentNumeratorOf(c: Params, x: int, az: int, ghost z4: int) returns (r2: int)
    requires ValidParams(c) && 0 <= x < 2 * c.p && 0 <= az < 2 * c.p && Cong(az, -(c.a * z4), c.p)
    ensures 0 <= r2 < 4 * c.p && Cong(r2, 3 * (x * x) + c.a * z4, c.p)
  {
    var xx := Mul(x, x, c.p);
    CongMul(3, 3, xx, x * x, c.p);
    r2 := MulSmall(xx, 3, c.p);
    CongSub(r2, 3 * (x * x), az, -(c.a * z4), c.p);
    if c.a != 0 {
      r2 := Sub(r2, az, c.p);
    } else {
      CongSub(0, 0, az, -(c.a * z4), c.p);
    }
  }

  /** From the prepared quantities to the sum, overwriting p2. */
  method FinishAdd(c: Params, p2: JacobianPoint, m: Prepared)
    requires ValidParams(c) && p2.PartlyReduced(c)
    requires 0 <= m.h < 4 * c.p && 0 <= m.r < 4 * c.p && 0 <= m.s < 4 * c.p && 0 <= m.t < 4 * c.p
    modifies p2
    ensures p2.PartlyReduced(c) && Cong(p2.z, m.h * old(p2.z), c.p)
    ensures Cong(p2.x, m.r * m.r - (m.h * m.h) * m.s, c.p)
    ensures Cong(2 * p2.y, m.r * ((m.h * m.h) * m.s - 2 * p2.x) - ((m.h * m.h) * m.h) * m.t, c.p)
  {
    hide Mul, MulMod;
    var p := c.p;
    var hsqx := m.h;
    hsqx := Mul(hsqx, hsqx, p);
    ghost var h2 := hsqx;
    var hcby := m.h;
    hcby := Mul(hsqx, hcby, p);
    ghost var h3 := hcby;
    hsqx := Mul(m.s, hsqx, p);
    hcby := Mul(m.t, hcby, p);
    PowersTimes(p, m.h, h2, h3, m.s, m.t, hsqx, hcby);
    p2.z := Mul(m.h, p2.z, p);
    p2.x := m.r;
    p2.x := Mul(p2.x, p2.x, p);
    CongSub(p2.x, m.r * m.r, hsqx, (m.h * m.h) * m.s, p);
    p2.x := Sub(p2.x, hsqx, p);
    p2.x := FastMod(p2.x, p);
    p2.y := Ordinate(p, m.r, hsqx, p2.x, hcby);
    OrdinateCong(p, m.r, hsqx, (m.h * m.h) * m.s, p2.x, hcby, ((m.h * m.h) * m.h) * m.t);
  }

  /** (r*(hs - 2*x) - ht) / 2 */
  method Ordinate(p: int, r: int, hs: int, x: int, ht: int) returns (y: int)
    requires Modulus(p) && p % 2 == 1 && 0 <= r < 4 * p && 0 <= hs < 2 * p && 0 <= x < 2 * p && 0 <= ht < 2 * p
    ensures 0 <= y < 2 * p && Cong(2 * y, r * (hs - 2 * x) - ht, p)
  {
    y := Sub(hs, x, p);
    CongSub(y, hs - x, x, x, p);
    y := Sub(y, x, p);
    CongMul(r, r, y, hs - x - x, p);
    y := Mul(r, y, p);
    CongSub(y, r * (hs - x - x), ht, ht, p);
    y := Sub(y, ht, p);
    y := Half(y, p);
    ghost var half := y;
    y := FastMod(y, p);
    CongMul(2, 2, y, half, p);
  }

  lemma OrdinateCong(p: int, r: int, hs: int, hs': int, x: int, ht: int, ht': int)
    requires Cong(hs, hs', p) && Cong(ht, ht', p)
    ensures Cong(r * (hs - 2 * x) - ht, r * (hs' - 2 * x) - ht', p)
  {
    CongSub(hs, hs', 2 * x, 2 * x, p);
    CongMul(r, r, hs - 2 * x, hs' - 2 * x, p);
    CongSub(r * (hs - 2 * x), r * (hs' - 2 * x), ht, ht', p);
  }

  lemma PowersTimes(p: int, h: int, h2: int, h3: int, s: int, t: int, hs: int, ht: int)
    requires Cong(h2, h * h, p) && Cong(h3, h2 * h, p) && Cong(hs, s * h2, p) && Cong(ht, t * h3, p)
    ensures Cong(hs, (h * h) * s, p) && Cong(ht, ((h * h) * h) * t, p)
  {
    CongMul(h2, h * h, h, h, p);
    CongMul(s, s, h2, h * h, p);
    CongMul(t, t, h3, (h * h) * h, p);
    assert s * (h * h) == (h * h) * s && t * ((h * h) * h) == ((h * h) * h) * t;
  }

  /** p2 := p1 + p2, for an affine p1 that is not the opposite of p2; equal points are doubled. */
  method PointJacobianAdd(c: Params, p1: CurvePoint, p2: JacobianPoint, ghost q1: Point, ghost q2: Point)
    requires ValidParams(c) && p2.Stands(c, q2)
    requires OnCurve(c, q1) && q1.Affine? && p1.Stands(c, q1) && !Opposite(c, q2, q1)
    modifies p2
    ensures p2.Stands(c, Add(c, q2, q1))
  {
    ghost var x, z := p2.x, p2.z;
    var m := PrepareAdd(c, p1, p2, q1, q2);
    FinishAdd(c, p2, m);
    SumRepresented(c, m, q1, q2, x, z, p2.x, p2.y, p2.z);
    AddOnCurve(c, q2, q1);
  }

  lemma SumRepresented(c: Params, m: Prepared, q1: Point, q2: Point, x: int, z: int, x3: int, y3: int, z3: int)
    requires ValidParams(c) && OnCurve(c, q1) && OnCurve(c, q2) && q1.Affine? && q2.Affine? && !Opposite(c, q2, q1)
    requires !Cong(z, 0, c.p) && Cong(x, q2.x * (z * z), c.p) && PreparedFor(c, m, q1, q2, x, z)
    requires Cong(z3, m.h * z, c.p) && Cong(x3, m.r * m.r - (m.h * m.h) * m.s, c.p)
    requires Cong(2 * y3, m.r * ((m.h * m.h) * m.s - 2 * x3) - ((m.h * m.h) * m.h) * m.t, c.p)
    ensures Represents(c, x3, y3, z3, Add(c, q2, q1))
  {
    var l := Slope(c, q2.x, q2.y, q1.x, q1.y);
    SlopeUnique(c, q2, q1, l);
    if q1.x == q2.x {
      SameX(c, q2, q1);
      TangentCase(c, q2, l, x, z, m.h, m.r);
      assert l * (q1.x - q2.x) == 0;
    } else {
      ChordCase(c, q2, q1, l, z, m.h, m.r);
    }
    SumFormulas(c, q2, q1, l, z, m.h, m.r, m.s, m.t, x3, y3, z3);
  }

  // ---- doubling --------------------------------------------------------------------------

  /** q := q + q, for a point that is not its own opposite. */
  method PointJacobianDouble(c: Params, q: JacobianPoint, ghost w: Point)
    requires ValidParams(c) && q.Stands(c, w) && !Opposite(c, w, w)
    modifies q
    ensures q.Stands(c, Add(c, w, w))
  {
    hide Mul, MulMod;
    var p := c.p;
    ghost var x, y, z := q.x, q.y, q.z;
    var m := HalfNumerator(c, q.x, q.z);
    var msq := m;
    msq := Mul(msq, msq, p);
    var ysq := q.y;
    ysq := Mul(ysq, ysq, p);
    ghost var y2 := ysq;
    var xysq := q.x;
    xysq := Mul(ysq, xysq, p);
    q.z := Mul(q.y, q.z, p);
    q.x := xysq;
    q.x := Twice(q.x);
    q.x := FastMod(q.x, p);
    CongSub(msq, m * m, q.x, 2 * xysq, p);
    q.x := Sub(msq, q.x, p);
    q.x := FastMod(q.x, p);
    q.y := DoubleOrdinate(p, m, xysq, q.x, ysq);
    DoubleRepresented(c, w, x, y, z, m, y2, xysq, q.x, q.y, q.z);
    AddOnCurve(c, w, w);
  }

  /** m*(s - x) - y2^2 */
  method DoubleOrdinate(p: int, m: int, s: int, x: int, y2: int) returns (y: int)
    requires Modulus(p) && 0 <= m < 4 * p && 0 <= s < 2 * p && 0 <= x < 2 * p && 0 <= y2 < 2 * p
    ensures 0 <= y < 2 * p && Cong(y, m * (s - x) - y2 * y2, p)
  {
    y := Sub(s, x, p);
    CongMul(m, m, y, s - x, p);
    y := Mul(m, y, p);
    var ysq := Mul(y2, y2, p);
    CongSub(y, m * (s - x), ysq, y2 * y2, p);
    y := Sub(y, ysq, p);
    y := FastMod(y, p);
  }

  /** (3*x^2 + a*z^4) / 2 */
  method HalfNumerator(c: Params, x: int, z: int) returns (m: int)
    requires ValidParams(c) && 0 <= x < 2 * c.p && 0 <= z < 2 * c.p
    ensures 0 <= m < 3 * c.p && Cong(2 * m, 3 * (x * x) + c.a * ((z * z) * (z * z)), c.p)
  {
    var xx := Mul(x, x, c.p);
    CongMul(3, 3, xx, x * x, c.p);
    m := MulSmall(xx, 3, c.p);
    var az4 := MinusQuartic(c, z);
    CongSub(m, 3 * (x * x), az4, -(c.a * ((z * z) * (z * z))), c.p);
    m := Sub(m, az4, c.p);
    m := Half(m, c.p);
  }

  /** -a*z^4 */
  method MinusQuartic(c: Params, z: int) returns (az4: int)
    requires ValidParams(c) && 0 <= z < 2 * c.p
    ensures 0 <= az4 < 2 * c.p && Cong(az4, -(c.a * ((z * z) * (z * z))), c.p)
  {
    var z2 := Mul(z, z, c.p);
    CongMul(z2, z * z, z2, z * z, c.p);
    az4 := Mul(z2, z2, c.p);
    CongMul(-c.a, -c.a, az4, (z * z) * (z * z), c.p);
    NegatedFactor(c.a, (z * z) * (z * z));
    az4 := MulSmall(az4, -c.a, c.p);
  }

  lemma DoubleRepresented(c: Params, w: Point, x: int, y: int, z: int, m: int, y2: int, s: int, x3: int, y3: int,
                          z3: int)
    requires ValidParams(c) && OnCurve(c, w) && w.Affine? && !Opposite(c, w, w) && Represents(c, x, y, z, w)
    requires Cong(2 * m, 3 * (x * x) + c.a * ((z * z) * (z * z)), c.p)
    requires Cong(y2, y * y, c.p) && Cong(s, y2 * x, c.p) && Cong(z3, y * z, c.p)
    requires Cong(x3, m * m - 2 * s, c.p) && Cong(y3, m * (s - x3) - y2 * y2, c.p)
    ensures Represents(c, x3, y3, z3, Add(c, w, w))
  {
    var l := Slope(c, w.x, w.y, w.x, w.y);
    SlopeUnique(c, w, w, l);
    DoubledSlope(c, w, l, x, y, z, m, z3);
    DoubledSums(c.p, w.x, w.y, x, y, z, y2, s, z3);
    DoubleFormulas(c, w, l, m, s, y2 * y2, x3, y3, z3);
  }

  /** m over z3 = y*z is the slope of the tangent, and z3 does not vanish. */
  lemma DoubledSlope(c: Params, w: Point, l: int, x: int, y: int, z: int, m: int, z3: int)
    requires ValidParams(c) && OnCurve(c, w) && w.Affine? && !Opposite(c, w, w) && Represents(c, x, y, z, w)
    requires IsSlope(c, w.x, w.y, w.x, w.y, l) && Cong(z3, y * z, c.p)
    requires Cong(2 * m, 3 * (x * x) + c.a * ((z * z) * (z * z)), c.p)
    ensures Cong(m, l * z3, c.p) && !Cong(z3, 0, c.p)
  {
    var p, h := c.p, y + y;
    CongAdd(y, w.y * ((z * z) * z), y, w.y * ((z * z) * z), p);
    Distribute(w.y, w.y, (z * z) * z);
    TangentCase(c, w, l, x, z, h, 3 * (x * x) + c.a * ((z * z) * (z * z)));
    if Cong(z3, 0, p) {
      EuclidLemma(y, z, p);
      CongAdd(y, 0, y, 0, p);
    }
    CongMul(l, l, z3, y * z, p);
    assert l * (h * z) == (l * (y * z)) * 2 by { Distribute(y, y, z); DistributeLeft(l, y * z, y * z); }
    assert 2 * m == m * 2;
    TwoNotMultiple(p);
    CongCancel(m, l * (y * z), 2, p);
  }

  lemma TwoNotMultiple(p: int)
    requires IsPrime(p) && p % 2 == 1
    ensures !Cong(2, 0, p)
  {
    if Cong(2, 0, p) { CongUnique(2, 0, p); }
  }

  lemma DoubledSums(p: int, qx: int, qy: int, x: int, y: int, z: int, y2: int, s: int, z3: int)
    requires Cong(x, qx * (z * z), p) && Cong(y, qy * ((z * z) * z), p)
    requires Cong(y2, y * y, p) && Cong(s, y2 * x, p) && Cong(z3, y * z, p)
    ensures Cong(s, qx * (z3 * z3), p) && Cong(y2 * y2, qy * ((z3 * z3) * z3), p)
  {
    var d := y * z;
    CongMul(z3, d, z3, d, p);
    CongMul(z3 * z3, d * d, z3, d, p);
    CongMul(qx, qx, z3 * z3, d * d, p);
    CongMul(qy, qy, (z3 * z3) * z3, (d * d) * d, p);
    CongMul(y2, y * y, x, qx * (z * z), p);
    assert (y * y) * (qx * (z * z)) == qx * (d * d) by { assert d * d == (y * y) * (z * z); }
    CongMul(y2, y * y, y2, y * y, p);
    CongMul(y, qy * ((z * z) * z), (y * y) * y, (y * y) * y, p);
    FourthPower(qy, y, z);
  }

  lemma FourthPower(qy: int, y: int, z: int)
    ensures (y * y) * (y * y) == y * ((y * y) * y)
    ensures (qy * ((z * z) * z)) * ((y * y) * y) == qy * (((y * z) * (y * z)) * (y * z))
  {
    assert (y * y) * (y * y) == y * ((y * y) * y);
    assert (y * z) * (y * z) == (y * y) * (z * z);
    assert ((y * z) * (y * z)) * (y * z) == ((y * y) * y) * ((z * z) * z);
  }

  lemma DoubleFormulas(c: Params, w: Point, l: int, m: int, s: int, t: int, x3: int, y3: int, z3: int)
    requires ValidParams(c) && w.Affine? && !Cong(z3, 0, c.p)
    requires Cong(m, l * z3, c.p) && Cong(s, w.x * (z3 * z3), c.p) && Cong(t, w.y * ((z3 * z3) * z3), c.p)
    requires Cong(x3, m * m - 2 * s, c.p) && Cong(y3, m * (s - x3) - t, c.p)
    ensures Represents(c, x3, y3, z3, Third(c, w, w, l))
  {
    var p, e, zz := c.p, l * l - w.x - w.x, z3 * z3;
    var f := e % p;
    var g := l * (w.x - f) - w.y;
    CongMod(e, p);
    CongMod(g, p);
    CongMul(m, l * z3, m, l * z3, p);
    CongMul(2, 2, s, w.x * zz, p);
    CongSub(m * m, (l * z3) * (l * z3), 2 * s, 2 * (w.x * zz), p);
    assert (l * z3) * (l * z3) - 2 * (w.x * zz) == e * zz by {
      assert (l * z3) * (l * z3) == (l * l) * zz;
      DistributeSub(l * l, 2 * w.x, zz);
      MulAssoc(2, w.x, zz);
    }
    CongMul(e, f, zz, zz, p);
    CongSub(s, w.x * zz, x3, f * zz, p);
    DistributeSub(w.x, f, zz);
    CongMul(m, l * z3, s - x3, (w.x - f) * zz, p);
    CongSub(m * (s - x3), (l * z3) * ((w.x - f) * zz), t, w.y * (zz * z3), p);
    assert (l * z3) * ((w.x - f) * zz) == (l * (w.x - f)) * (zz * z3);
    DistributeSub(l * (w.x - f), w.y, zz * z3);
    CongMul(g, g % p, zz * z3, zz * z3, p);
  }

  // ---- affine points ---------------------------------------------------------------------

  /** The n lowest limbs of a number. */
  function Limbs(x: nat, n: nat): (s: seq<uint32>)
    ensures |s| == n && forall i :: 0 <= i < n ==> s[i] < LIMB
  {
    if n == 0 then [] else [x % 0x4000_0000] + Limbs(x / 0x4000_0000, n - 1)
  }

  lemma {:induction false} LimbsValue(x: nat, n: nat)
    requires x < Pow(LIMB, n)
    ensures Num(Limbs(x, n), LIMB) == x
  {
    if n > 0 {
      DivBounds(x, LIMB, Pow(LIMB, n - 1));
      LimbsValue(x / 0x4000_0000, n - 1);
      var s := Limbs(x, n);
      NumCons(s, LIMB);
      assert s[1..] == Limbs(x / 0x4000_0000, n - 1);
    }
  }

  /** bn_inverse on a number: its limbs are inverted in place and read back. */
  method Invert(x: int, p: int) returns (r: int)
    requires IsPrime(p) && Modulus(p) && 0 <= x < TWO270 && !Cong(x, 0, p)
    ensures r == Inv(x, p) && 0 <= r < p && Cong(r * x, 1, p)
  {
    LimbPowers();
    LimbsValue(x, 9);
    LimbsValue(p, 9);
    var xs, ps := Limbs(x, 9), Limbs(p, 9);
    var a := new uint32[9](i requires 0 <= i < 9 => xs[i]);
    var prime := new uint32[9](i requires 0 <= i < 9 => ps[i]);
    assert a[..] == xs && prime[..] == ps;
    BnInverse(a, prime);
    r := ReadNumber(a);
    InvUnique(x, r, p);
  }

  method ReadNumber(a: array<uint32>) returns (r: int)
    requires a.Length == 9
    ensures r == Val(a)
  {
    r := 0;
    var i, w: int := 0, 1;
    assert Pow(LIMB, 0) == 1;
    while i < 9
      invariant 0 <= i <= 9 && w == Pow(LIMB, i) && r == Num(a[..i], LIMB)
    {
      NumStep(a[..], i, LIMB);
      assert a[..][..i + 1] == a[..i + 1] && a[..][..i] == a[..i];
      r := r + (a[i] as int) * w;
      w := 0x4000_0000 * w;
      i := i + 1;
    }
    assert a[..9] == a[..];
  }

  /** (0, 0) is not on the curve. */
  lemma OriginNotOnCurve(c: Params, q: Point)
    requires ValidParams(c) && OnCurve(c, q) && q.Affine?
    ensures q.x != 0 || q.y != 0
  {}

  /** The third point of the line with slope l, written over cp2; sum is x1 + x2, partly reduced. */
  method StoreThird(c: Params, x1: int, y1: int, sum: int, cp2: CurvePoint, l: int, ghost q1: Point, ghost q2: Point)
    requires ValidParams(c) && q1 == Affine(x1, y1) && q2.Affine?
    requires 0 <= x1 < c.p && 0 <= y1 < c.p && 0 <= l < 2 * c.p
    requires 0 <= sum < 2 * c.p && Cong(sum, x1 + q2.x, c.p)
    modifies cp2
    ensures Affine(cp2.x, cp2.y) == Third(c, q1, q2, l)
  {
    hide Mul, MulMod;
    var p := c.p;
    var xr := l;
    xr := Mul(xr, xr, p);
    CongSub(xr, l * l, sum, x1 + q2.x, p);
    xr := Sub(xr, sum, p);
    xr := FastMod(xr, p);
    xr := Mod(xr, p);
    var yr := Sub(x1, xr, p);
    CongMul(l, l, yr, x1 - xr, p);
    yr := Mul(l, yr, p);
    CongSub(yr, l * (x1 - xr), y1, y1, p);
    yr := Sub(yr, y1, p);
    yr := FastMod(yr, p);
    yr := Mod(yr, p);
    ThirdIs(c, q1, q2, l, xr, yr);
    cp2.x := xr;
    cp2.y := yr;
  }

  /** cp := cp + cp */
  method PointDouble(c: Params, cp: CurvePoint, ghost q: Point)
    requires ValidParams(c) && OnCurve(c, q) && cp.Stands(c, q)
    modifies cp
    ensures cp.Stands(c, Add(c, q, q))
  {
    if cp.x == 0 && cp.y == 0 {
      if q.Affine? { OriginNotOnCurve(c, q); }
      return;
    }
    if cp.y == 0 {
      assert Opposite(c, q, q);
      cp.x, cp.y := 0, 0;
      return;
    }
    var lambda := TangentSlope(c, cp.x, cp.y);
    TwiceNotMultiple(cp.y, c.p);
    SlopeUnique(c, q, q, lambda);
    StoreThird(c, cp.x, cp.y, Twice(cp.x), cp, lambda, q, q);
    AddOnCurve(c, q, q);
  }

  /** (3*x^2 + a) / (2*y) */
  method TangentSlope(c: Params, x: int, y: int) returns (lambda: int)
    requires ValidParams(c) && 0 <= x < c.p && 0 < y < c.p
    ensures 0 <= lambda < 2 * c.p && IsSlope(c, x, y, x, y, lambda)
  {
    var p := c.p;
    TwiceNotMultiple(y, p);
    lambda := MulSmall(y, 2, p);
    ghost var d := lambda;
    lambda := Invert(lambda, p);
    ghost var i := lambda;
    var xr := TangentTop(c, x);
    lambda := Mul(xr, lambda, p);
    QuotientIsSlope(p, lambda, xr, 3 * x * x + c.a, i, d, 2 * y);
  }

  /** 3*x^2 + a */
  method TangentTop(c: Params, x: int) returns (xr: int)
    requires ValidParams(c) && 0 <= x < c.p
    ensures 0 <= xr < 4 * c.p && Cong(xr, 3 * x * x + c.a, c.p)
  {
    var xx := Mul(x, x, c.p);
    CongMul(3, 3, xx, x * x, c.p);
    MulAssoc(3, x, x);
    var xxx := MulSmall(xx, 3, c.p);
    CongAdd(xxx, 3 * x * x, c.a, c.a, c.p);
    xr := LessSmall(xxx, -c.a, c.p);
  }

  lemma TwiceNotMultiple(y: int, p: int)
    requires IsPrime(p) && p % 2 == 1 && 0 < y < p
    ensures !Cong(y + y, 0, p) && !Cong(2 * y, 0, p)
  {
    TwoNotMultiple(p);
    if Cong(y, 0, p) { CongUnique(y, 0, p); }
    if Cong(2 * y, 0, p) { EuclidLemma(2, y, p); }
    assert y + y == 2 * y;
  }

  /** e times the inverse of d solves l * d' = e'. */
  lemma QuotientIsSlope(p: int, l: int, e: int, e': int, i: int, d: int, d': int)
    requires Cong(l, e * i, p) && Cong(i * d, 1, p) && Cong(d, d', p) && Cong(e, e', p)
    ensures Cong(l * d', e', p)
  {
    CongMul(l, e * i, d', d, p);
    CongMul(e, e', i * d, 1, p);
    MulAssoc(e, i, d);
  }

  /** cp2 := cp1 + cp2 */
  method PointAdd(c: Params, cp1: CurvePoint, cp2: CurvePoint, ghost q1: Point, ghost q2: Point)
    requires ValidParams(c) && OnCurve(c, q1) && OnCurve(c, q2) && cp1.Stands(c, q1) && cp2.Stands(c, q2) && cp1 != cp2
    modifies cp2
    ensures cp2.Stands(c, Add(c, q1, q2))
  {
    if q1.Affine? { OriginNotOnCurve(c, q1); }
    if q2.Affine? { OriginNotOnCurve(c, q2); }
    if cp1.x == 0 && cp1.y == 0 {
      return;
    }
    if cp2.x == 0 && cp2.y == 0 {
      cp2.x, cp2.y := cp1.x, cp1.y;
      return;
    }
    if cp1.x == cp2.x && cp1.y == cp2.y {
      PointDouble(c, cp2, q2);
      return;
    }
    if cp1.x == cp2.x { SameX(c, q1, q2); }
    if cp1.x == cp2.x && cp1.y != 0 && cp1.y != cp2.y {
      cp2.x, cp2.y := 0, 0;
      return;
    }
    if cp1.x == cp2.x {
      CongUnique(cp2.y, 0, c.p);
      assert false;
    }
    var p := c.p;
    DifferentX(c, cp1.x, cp2.x);
    var inv := Sub(cp2.x, cp1.x, p);
    ghost var d := inv;
    inv := Invert(inv, p);
    var lambda := Sub(cp2.y, cp1.y, p);
    ghost var e := lambda;
    ghost var i := inv;
    lambda := Mul(inv, lambda, p);
    assert i * e == e * i;
    QuotientIsSlope(p, lambda, e, cp2.y - cp1.y, i, d, cp2.x - cp1.x);
    SlopeUnique(c, q1, q2, lambda);
    var sum := AddMod(cp1.x, cp2.x, p);
    StoreThird(c, cp1.x, cp1.y, sum, cp2, lambda, q1, q2);
  }
}
