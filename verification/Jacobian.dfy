/** Jacobian points: (x, y, z) stands for the affine point (x/z^2, y/z^3). The coordinates are the numbers
    the limbs hold; every routine call must meet the size bound that the routine asks of its caller. */
module Jacobian {
  import opened Arith
  import opened Residues
  import opened Curve

  /** bn_multiply under its documented bound. */
  function Mul(k: int, x: int, p: int): (r: int)
    requires Modulus(p) && 0 <= k < 180 * p && 0 <= x < 180 * p
    ensures 0 <= r < 2 * p && Cong(r, k * x, p)
  {
    FitsBelow180(k, x, p);
    MulMod(k, x, p)
  }

  /** bn_add: the sum must fit nine limbs. */
  function Plus(a: int, b: int): (r: int)
    requires 0 <= a && 0 <= b && a + b < TWO270
    ensures r == a + b
  {
    a + b
  }

  /** bn_lshift: the double must fit nine limbs. */
  function Twice(a: int): (r: int)
    requires 0 <= a && 2 * a < TWO270
    ensures r == 2 * a
  {
    2 * a
  }

  /** bn_mult_half */
  function Half(x: int, p: int): (r: int)
    requires Modulus(p) && p % 2 == 1 && 0 <= x < TWO270
    ensures Cong(2 * r, x, p) && 0 <= r && 2 * r <= x + p
  {
    MulHalf(x, p)
  }

  /** bn_subi: what is subtracted must be covered by the prime's lowest limb, and the sum must fit nine limbs. */
  function LessSmall(x: int, b: int, p: int): (r: int)
    requires 0 <= b <= p % 0x4000_0000 && 0 <= x && x + p < TWO270
    ensures Cong(r, x - b, p) && r == x - b + p
  {
    SubSmall(x, b, p)
  }

  /** The affine point that Jacobian coordinates stand for. */
  ghost predicate Represents(c: Params, x: int, y: int, z: int, q: Point) {
    && q.Affine? && !Cong(z, 0, c.p)
    && Cong(x, q.x * (z * z), c.p)
    && Cong(y, q.y * ((z * z) * z), c.p)
  }

  // ---- the algebra of the addition formulas ----------------------------------------------

  /** r / (h*z) is the slope, s and t are the sums of the coordinates over the common denominators: then
      x3 = r^2 - h^2*s and 2*y3 = r*(h^2*s - 2*x3) - h^3*t with z3 = h*z represent the third point. */
  lemma SumFormulas(c: Params, q: Point, w: Point, l: int, z: int, h: int, r: int, s: int, t: int, x3: int, y3: int,
                    z3: int)
    requires ValidParams(c) && q.Affine? && w.Affine?
    requires Cong(r, l * (h * z), c.p) && Cong(s, (q.x + w.x) * (z * z), c.p)
    requires Cong(t, (q.y + w.y) * ((z * z) * z), c.p)
    requires Cong(l * (w.x - q.x), w.y - q.y, c.p)
    requires Cong(z3, h * z, c.p) && !Cong(h, 0, c.p) && !Cong(z, 0, c.p)
    requires Cong(x3, r * r - (h * h) * s, c.p)
    requires Cong(2 * y3, r * ((h * h) * s - 2 * x3) - ((h * h) * h) * t, c.p)
    ensures Represents(c, x3, y3, z3, Third(c, q, w, l))
  {
    var p, e, f := c.p, l * l - q.x - w.x, (l * l - q.x - w.x) % c.p;
    var g := l * (q.x - f) - q.y;
    NewDenominator(p, h, z, z3);
    CongMod(e, p);
    CongMod(g, p);
    AbscissaFormula(p, l, q.x + w.x, h, z, r, s, x3, z3);
    CongMul(e, f, z3 * z3, z3 * z3, p);
    OrdinateFormula(p, l, q.x, q.y, w.x, w.y, f, h, z, r, s, t, x3, y3, z3);
    CongMul(g, g % p, (z3 * z3) * z3, (z3 * z3) * z3, p);
  }

  lemma NewDenominator(p: int, h: int, z: int, z3: int)
    requires IsPrime(p) && Cong(z3, h * z, p) && !Cong(h, 0, p) && !Cong(z, 0, p)
    ensures !Cong(z3, 0, p)
  {
    if Cong(z3, 0, p) { EuclidLemma(h, z, p); }
  }

  lemma AbscissaFormula(p: int, l: int, sx: int, h: int, z: int, r: int, s: int, x3: int, z3: int)
    requires Cong(r, l * (h * z), p) && Cong(s, sx * (z * z), p) && Cong(z3, h * z, p)
    requires Cong(x3, r * r - (h * h) * s, p)
    ensures Cong(x3, (l * l - sx) * (z3 * z3), p)
    ensures Cong((h * h) * s, sx * (z3 * z3), p)
  {
    var d := h * z;
    CongMul(r, l * d, r, l * d, p);
    CongMul(h * h, h * h, s, sx * (z * z), p);
    CongMul(z3, d, z3, d, p);
    CongMul(sx, sx, z3 * z3, d * d, p);
    CongMul(l * l - sx, l * l - sx, z3 * z3, d * d, p);
    assert (h * h) * (sx * (z * z)) == sx * (d * d) by { assert d * d == (h * h) * (z * z); }
    assert (l * d) * (l * d) == (l * l) * (d * d);
    DistributeSub(l * l, sx, d * d);
    CongSub(r * r, (l * l) * (d * d), (h * h) * s, sx * (d * d), p);
  }

  lemma OrdinateFormula(p: int, l: int, qx: int, qy: int, wx: int, wy: int, f: int, h: int, z: int, r: int, s: int,
                        t: int,
                        x3: int, y3: int, z3: int)
    requires IsPrime(p) && p % 2 == 1
    requires Cong(r, l * (h * z), p) && Cong(z3, h * z, p) && Cong(t, (qy + wy) * ((z * z) * z), p)
    requires Cong((h * h) * s, (qx + wx) * (z3 * z3), p) && Cong(x3, f * (z3 * z3), p)
    requires Cong(l * (wx - qx), wy - qy, p)
    requires Cong(2 * y3, r * ((h * h) * s - 2 * x3) - ((h * h) * h) * t, p)
    ensures Cong(y3, (l * (qx - f) - qy) * ((z3 * z3) * z3), p)
  {
    var zz, zzz := z3 * z3, (z3 * z3) * z3;
    CongMul(l, l, z3, h * z, p);
    CongMul(2, 2, x3, f * zz, p);
    var k := qx + wx - 2 * f;
    CongSub((h * h) * s, (qx + wx) * zz, 2 * x3, 2 * (f * zz), p);
    assert (qx + wx) * zz - 2 * (f * zz) == k * zz by { DistributeSub(qx + wx, 2 * f, zz); MulAssoc(2, f, zz); }
    CongMul(r, l * z3, (h * h) * s - 2 * x3, k * zz, p);
    assert (l * z3) * (k * zz) == (l * k) * zzz;
    CubeFormula(p, h, z, t, qy + wy, z3);
    CongSub(r * ((h * h) * s - 2 * x3), (l * k) * zzz, ((h * h) * h) * t, (qy + wy) * zzz, p);
    DistributeSub(l * k, qy + wy, zzz);
    HalvedOrdinate(p, l, qx, qy, wx, wy, f, k, y3, zzz);
  }

  /** The two ways to write the ordinate add up to twice either of them. */
  lemma HalvedOrdinate(p: int, l: int, qx: int, qy: int, wx: int, wy: int, f: int, k: int, y3: int, zzz: int)
    requires IsPrime(p) && p % 2 == 1 && k == qx + wx - 2 * f && Cong(l * (wx - qx), wy - qy, p)
    requires Cong(2 * y3, (l * k - (qy + wy)) * zzz, p)
    ensures Cong(y3, (l * (qx - f) - qy) * zzz, p)
  {
    var g := l * (qx - f) - qy;
    MiddleOrdinate(p, l, qx, qy, wx, wy, f);
    CongMul(l * k - (qy + wy), 2 * g, zzz, zzz, p);
    assert 2 * y3 == y3 * 2 && (2 * g) * zzz == (g * zzz) * 2;
    if Cong(2, 0, p) { CongUnique(2, 0, p); }
    CongCancel(y3, g * zzz, 2, p);
  }

  lemma CubeFormula(p: int, h: int, z: int, t: int, sy: int, z3: int)
    requires Cong(z3, h * z, p) && Cong(t, sy * ((z * z) * z), p)
    ensures Cong(((h * h) * h) * t, sy * ((z3 * z3) * z3), p)
  {
    var d := h * z;
    CongMul(z3, d, z3, d, p);
    CongMul(z3 * z3, d * d, z3, d, p);
    CongMul(sy, sy, (z3 * z3) * z3, (d * d) * d, p);
    CongMul((h * h) * h, (h * h) * h, t, sy * ((z * z) * z), p);
    assert d * d == (h * h) * (z * z);
    assert (d * d) * d == ((h * h) * h) * ((z * z) * z);
    assert ((h * h) * h) * (sy * ((z * z) * z)) == sy * (((h * h) * h) * ((z * z) * z));
  }

  lemma MiddleOrdinate(p: int, l: int, qx: int, qy: int, wx: int, wy: int, f: int)
    requires Cong(l * (wx - qx), wy - qy, p)
    ensures Cong(l * (qx + wx - 2 * f) - (qy + wy), 2 * (l * (qx - f) - qy), p)
  {
    var g := l * (qx - f) - qy;
    assert l * (qx + wx - 2 * f) - (qy + wy) == 2 * g + (l * (wx - qx) - (wy - qy)) by {
      DistributeLeft(l, qx - f, qx - f);
      DistributeLeft(l, 2 * (qx - f), wx - qx);
    }
    CongSub(l * (wx - qx), wy - qy, wy - qy, wy - qy, p);
    CongAdd(2 * g, 2 * g, l * (wx - qx) - (wy - qy), 0, p);
  }

  /** bn_subtractmod for a partly reduced subtrahend. */
  function Sub(a: int, b: int, p: int): (r: int)
    requires Modulus(p) && 0 <= a < 178 * p && 0 <= b <= 2 * p
    ensures 0 <= r <= a + 2 * p && Cong(r, a - b, p)
  {
    SubMod(a, b, p)
  }

  /** Distinct abscissas: h and r are the coordinate differences over the common denominators. */
  lemma ChordCase(c: Params, q: Point, w: Point, l: int, z: int, h: int, r: int)
    requires ValidParams(c) && OnCurve(c, q) && OnCurve(c, w) && q.Affine? && w.Affine? && q.x != w.x
    requires IsSlope(c, q.x, q.y, w.x, w.y, l) && !Cong(z, 0, c.p)
    requires Cong(h, (w.x - q.x) * (z * z), c.p) && Cong(r, (w.y - q.y) * ((z * z) * z), c.p)
    ensures Cong(r, l * (h * z), c.p) && !Cong(h, 0, c.p)
  {
    var p, dx, dy, zz, zzz := c.p, w.x - q.x, w.y - q.y, z * z, (z * z) * z;
    DifferentX(c, q.x, w.x);
    if Cong(h, 0, p) {
      EuclidLemma(dx, zz, p);
      EuclidLemma(z, z, p);
    }
    CongMul(h, dx * zz, z, z, p);
    CongMul(l, l, h * z, (dx * zz) * z, p);
    CongMul(l * dx, dy, zzz, zzz, p);
    assert l * ((dx * zz) * z) == (l * dx) * zzz;
  }

  /** Equal points: h is twice the ordinate and r the derivative 3x^2 + a, over the common denominators. */
  lemma TangentCase(c: Params, q: Point, l: int, x: int, z: int, h: int, r: int)
    requires ValidParams(c) && OnCurve(c, q) && q.Affine? && !Opposite(c, q, q)
    requires IsSlope(c, q.x, q.y, q.x, q.y, l) && !Cong(z, 0, c.p) && Cong(x, q.x * (z * z), c.p)
    requires Cong(h, (q.y + q.y) * ((z * z) * z), c.p) && Cong(r, 3 * (x * x) + c.a * ((z * z) * (z * z)), c.p)
    ensures Cong(r, l * (h * z), c.p) && !Cong(h, 0, c.p)
  {
    var p, zz, z3, z4 := c.p, z * z, (z * z) * z, (z * z) * (z * z);
    if Cong(h, 0, p) {
      EuclidLemma(q.y + q.y, z3, p);
      EuclidLemma(zz, z, p);
      EuclidLemma(z, z, p);
    }
    CongMul(x, q.x * zz, x, q.x * zz, p);
    CongMul(3, 3, x * x, (q.x * zz) * (q.x * zz), p);
    CongAdd(3 * (x * x), 3 * ((q.x * zz) * (q.x * zz)), c.a * z4, c.a * z4, p);
    TangentNumerator(q.x, c.a, zz);
    var t := 3 * q.x * q.x + c.a;
    CongMul(l * (2 * q.y), t, z4, z4, p);
    CongMul(h, (q.y + q.y) * z3, z, z, p);
    CongMul(l, l, h * z, ((q.y + q.y) * z3) * z, p);
    TangentDenominator(l, q.y, z);
  }

  lemma TangentNumerator(x: int, a: int, zz: int)
    ensures 3 * ((x * zz) * (x * zz)) + a * (zz * zz) == (3 * x * x + a) * (zz * zz)
  {
    assert (x * zz) * (x * zz) == (x * x) * (zz * zz);
    assert 3 * x * x == 3 * (x * x);
    Distribute(3 * (x * x), a, zz * zz);
  }

  lemma TangentDenominator(l: int, y: int, z: int)
    ensures l * (((y + y) * ((z * z) * z)) * z) == (l * (2 * y)) * ((z * z) * (z * z))
  {
    assert ((z * z) * z) * z == (z * z) * (z * z);
    assert ((y + y) * ((z * z) * z)) * z == (2 * y) * ((z * z) * (z * z));
  }
}
