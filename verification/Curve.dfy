/** Short Weierstrass curves y^2 = x^3 + a*x + b over a prime field: the group the point routines compute in. */
module Curve {
  import opened Arith
  import opened Residues

  /** Domain parameters: the field prime, the two coefficients and the (prime) group order. */
  datatype Params = Params(p: int, a: int, b: int, n: int)

  datatype Point = Infinity | Affine(x: int, y: int)

  /** What the library assumes of its curves; b is not 0, so (0, 0) is free to stand for infinity. */
  ghost predicate ValidParams(c: Params) {
    IsPrime(c.p) && Modulus(c.p) && c.p % 2 == 1 && -3 <= c.a <= 0 && !Cong(c.b, 0, c.p) && LowLimbCovers(c.a, c.p)
  }

  /** The lowest limb of the prime is no smaller than -a, as the subtraction of -a asks. */
  predicate LowLimbCovers(a: int, p: int) {
    -a <= p % 0x4000_0000
  }

  ghost predicate OnCurve(c: Params, q: Point) {
    match q
    case Infinity => true
    case Affine(x, y) => 0 <= x < c.p && 0 <= y < c.p && Cong(y * y, Cubic(c, x), c.p)
  }

  function Cubic(c: Params, x: int): int {
    x * x * x + c.a * x + c.b
  }

  // ---- the field -------------------------------------------------------------------------

  /** The inverse modulo a prime; 0 for multiples of the prime. */
  ghost function Inv(x: int, p: int): (r: int)
    requires IsPrime(p)
    ensures Cong(x, 0, p) ==> r == 0
    ensures !Cong(x, 0, p) ==> 0 <= r < p && Cong(r * x, 1, p)
  {
    if Cong(x, 0, p) then 0
    else
      var w := InverseWitness(x, p);
      w
  }

  ghost function InverseWitness(x: int, p: int): (r: int)
    requires IsPrime(p) && !Cong(x, 0, p)
    ensures 0 <= r < p && Cong(r * x, 1, p)
  {
    assert exists r :: 0 <= r < p && Cong(r * x, 1, p) by {
      var r := InverseExists(x, p);
    }
    var r :| 0 <= r < p && Cong(r * x, 1, p);
    r
  }

  /** There is only one inverse below the prime. */
  lemma InvUnique(x: int, r: int, p: int)
    requires IsPrime(p) && 0 <= r < p && Cong(r * x, 1, p)
    ensures r == Inv(x, p) && !Cong(x, 0, p)
  {
    if Cong(x, 0, p) {
      CongMul(r, r, x, 0, p);
      CongUnique(1, 0, p);
    }
    CongCancel(r, Inv(x, p), x, p);
    CongUnique(r, Inv(x, p), p);
  }

  /** r * d = s determines r: it is s times the inverse of d. */
  lemma QuotientUnique(r: int, d: int, s: int, p: int)
    requires IsPrime(p) && !Cong(d, 0, p) && Cong(r * d, s, p)
    ensures Cong(r, s * Inv(d, p), p)
  {
    var i := Inv(d, p);
    CongMul(i * d, 1, s, s, p);
    assert (s * i) * d == (i * d) * s && 1 * s == s;
    CongCancel(r, s * i, d, p);
  }

  lemma QuotientSolves(s: int, d: int, p: int)
    requires IsPrime(p) && !Cong(d, 0, p)
    ensures Cong((s * Inv(d, p)) * d, s, p)
  {
    var i := Inv(d, p);
    CongMul(i * d, 1, s, s, p);
    assert (s * i) * d == (i * d) * s && 1 * s == s;
  }

  // ---- chord and tangent -----------------------------------------------------------------

  /** The slope of the line through two points that are not negatives of each other. */
  ghost function Slope(c: Params, x1: int, y1: int, x2: int, y2: int): int
    requires IsPrime(c.p)
  {
    if x1 == x2 then (3 * x1 * x1 + c.a) * Inv(2 * y1, c.p)
    else (y2 - y1) * Inv(x2 - x1, c.p)
  }

  ghost predicate Opposite(c: Params, q: Point, r: Point)
    requires q.Affine? && r.Affine?
  {
    q.x == r.x && Cong(q.y + r.y, 0, c.p)
  }

  ghost function Add(c: Params, q: Point, r: Point): Point
    requires IsPrime(c.p)
  {
    if q.Infinity? then r
    else if r.Infinity? then q
    else if Opposite(c, q, r) then Infinity
    else Third(c, q, r, Slope(c, q.x, q.y, r.x, r.y))
  }

  /** The reflected third intersection of the line with slope l through q and r. */
  ghost function Third(c: Params, q: Point, r: Point, l: int): Point
    requires c.p > 0 && q.Affine? && r.Affine?
  {
    var x3 := (l * l - q.x - r.x) % c.p;
    Affine(x3, (l * (q.x - x3) - q.y) % c.p)
  }

  function Negate(c: Params, q: Point): Point
    requires c.p > 0
  {
    match q
    case Infinity => Infinity
    case Affine(x, y) => Affine(x, (-y) % c.p)
  }

  /** l is a slope of the line through the points: it solves the defining equation without a division. */
  ghost predicate IsSlope(c: Params, x1: int, y1: int, x2: int, y2: int, l: int) {
    if x1 == x2 then Cong(l * (2 * y1), 3 * x1 * x1 + c.a, c.p)
    else Cong(l * (x2 - x1), y2 - y1, c.p)
  }

  /** Two points on the curve with equal x are equal or opposite. */
  lemma SameX(c: Params, q: Point, r: Point)
    requires ValidParams(c) && OnCurve(c, q) && OnCurve(c, r) && q.Affine? && r.Affine? && q.x == r.x
    ensures q == r || Opposite(c, q, r)
  {
    CongSub(q.y * q.y, Cubic(c, q.x), r.y * r.y, Cubic(c, q.x), c.p);
    assert q.y * q.y - r.y * r.y == (q.y - r.y) * (q.y + r.y);
    EuclidLemma(q.y - r.y, q.y + r.y, c.p);
    if Cong(q.y - r.y, 0, c.p) {
      CongAdd(q.y - r.y, 0, r.y, r.y, c.p);
      CongUnique(q.y, r.y, c.p);
    }
  }

  lemma DifferentX(c: Params, x1: int, x2: int)
    requires c.p > 0 && 0 <= x1 < c.p && 0 <= x2 < c.p && x1 != x2
    ensures !Cong(x2 - x1, 0, c.p)
  {
    if Cong(x2 - x1, 0, c.p) {
      CongAdd(x2 - x1, 0, x1, x1, c.p);
      CongUnique(x2, x1, c.p);
    }
  }

  /** The slope of `Add` is a slope, and every slope gives the same third point. */
  lemma SlopeUnique(c: Params, q: Point, r: Point, l: int)
    requires ValidParams(c) && OnCurve(c, q) && OnCurve(c, r) && q.Affine? && r.Affine? && !Opposite(c, q, r)
    ensures IsSlope(c, q.x, q.y, r.x, r.y, Slope(c, q.x, q.y, r.x, r.y))
    ensures IsSlope(c, q.x, q.y, r.x, r.y, l) ==> Third(c, q, r, l) == Add(c, q, r)
  {
    var s := Slope(c, q.x, q.y, r.x, r.y);
    var d, e := if q.x == r.x then 2 * q.y else r.x - q.x, if q.x == r.x then 3 * q.x * q.x + c.a else r.y - q.y;
    if q.x == r.x {
      SameX(c, q, r);
      assert q.y + r.y == 2 * q.y;
    } else {
      DifferentX(c, q.x, r.x);
    }
    QuotientSolves(e, d, c.p);
    if IsSlope(c, q.x, q.y, r.x, r.y, l) {
      QuotientUnique(l, d, e, c.p);
      ThirdRespectsCong(c, q, r, l, s);
    }
  }

  lemma ThirdRespectsCong(c: Params, q: Point, r: Point, l: int, s: int)
    requires c.p > 0 && q.Affine? && r.Affine? && Cong(l, s, c.p)
    ensures Third(c, q, r, l) == Third(c, q, r, s)
  {
    CongMul(l, s, l, s, c.p);
    var ll, ss := l * l, s * s;
    CongSub(ll, ss, q.x, q.x, c.p);
    CongSub(ll - q.x, ss - q.x, r.x, r.x, c.p);
    CongIsMod(l * l - q.x - r.x, s * s - q.x - r.x, c.p);
    var x3 := (l * l - q.x - r.x) % c.p;
    CongMul(l, s, q.x - x3, q.x - x3, c.p);
    CongSub(l * (q.x - x3), s * (q.x - x3), q.y, q.y, c.p);
    CongIsMod(l * (q.x - x3) - q.y, s * (q.x - x3) - q.y, c.p);
  }

  /** A reduced pair satisfying the chord formulas is the third point. */
  lemma ThirdIs(c: Params, q: Point, r: Point, l: int, x3: int, y3: int)
    requires c.p > 0 && q.Affine? && r.Affine? && 0 <= x3 < c.p && 0 <= y3 < c.p
    requires Cong(x3, l * l - q.x - r.x, c.p) && Cong(y3, l * (q.x - x3) - q.y, c.p)
    ensures Third(c, q, r, l) == Affine(x3, y3)
  {
    CongIsMod(x3, l * l - q.x - r.x, c.p);
    CongIsMod(y3, l * (q.x - x3) - q.y, c.p);
    DivModUnique(x3, c.p, 0, x3);
    DivModUnique(y3, c.p, 0, y3);
  }

  // ---- closure ---------------------------------------------------------------------------

  /** The cubic minus the squared line is (x - x1)(x - x2)(x - x3) plus this linear remainder u*x + v. */
  lemma LineMeetsCubic(c: Params, x1: int, y1: int, x2: int, l: int, x3: int, u: int, v: int)
    requires l * l == x1 + x2 + x3
    requires u == c.a - 2 * (l * y1) + 2 * ((l * l) * x1) - (x1 * x2 + x1 * x3 + x2 * x3)
    requires v == c.b - y1 * y1 + 2 * ((l * y1) * x1) - (l * l) * (x1 * x1) + (x1 * x2) * x3
    ensures Cubic(c, x1) - y1 * y1 == u * x1 + v
    ensures Cubic(c, x2) - (l * (x2 - x1) + y1) * (l * (x2 - x1) + y1) == u * x2 + v
    ensures Cubic(c, x3) - (l * (x3 - x1) + y1) * (l * (x3 - x1) + y1) == u * x3 + v
  {
    SquaredLine(x1, y1, l, x2);
    SquaredLine(x1, y1, l, x3);
    LinearRemainder(c, x1, x1, x2, x3, l * y1, x1 + x2 + x3, y1 * y1, u, v);
    LinearRemainder(c, x2, x1, x2, x3, l * y1, x1 + x2 + x3, y1 * y1, u, v);
    LinearRemainder(c, x3, x1, x2, x3, l * y1, x1 + x2 + x3, y1 * y1, u, v);
  }

  lemma SquaredLine(x1: int, y1: int, l: int, x: int)
    ensures (l * (x - x1) + y1) * (l * (x - x1) + y1)
         == (l * l) * ((x - x1) * (x - x1)) + 2 * ((l * y1) * (x - x1)) + y1 * y1
  {
    var d := x - x1;
    assert (l * d + y1) * (l * d + y1) == (l * d) * (l * d) + 2 * ((l * d) * y1) + y1 * y1;
    assert (l * d) * (l * d) == (l * l) * (d * d);
    assert (l * d) * y1 == (l * y1) * d;
  }

  lemma LinearRemainder(c: Params, x: int, x1: int, x2: int, x3: int, m: int, s: int, y: int, u: int, v: int)
    requires s == x1 + x2 + x3
    requires u == c.a - 2 * m + 2 * (s * x1) - (x1 * x2 + x1 * x3 + x2 * x3)
    requires v == c.b - y + 2 * (m * x1) - s * (x1 * x1) + (x1 * x2) * x3
    ensures Cubic(c, x) - (s * ((x - x1) * (x - x1)) + 2 * (m * (x - x1)) + y)
         == (x - x1) * (x - x2) * (x - x3) + u * x + v
  {}

  /** The linear remainder vanishes: at both points for a chord, to second order at the point for a tangent. */
  lemma RemainderVanishes(c: Params, x1: int, y1: int, x2: int, y2: int, l: int, u: int, v: int)
    requires ValidParams(c) && 0 <= x1 < c.p && 0 <= x2 < c.p
    requires Cong(y1 * y1, Cubic(c, x1), c.p) && Cong(y2 * y2, Cubic(c, x2), c.p)
    requires IsSlope(c, x1, y1, x2, y2, l)
    requires Cubic(c, x1) - y1 * y1 == u * x1 + v
    requires Cubic(c, x2) - (l * (x2 - x1) + y1) * (l * (x2 - x1) + y1) == u * x2 + v
    requires x1 == x2 ==> u == 3 * x1 * x1 + c.a - l * (2 * y1)
    ensures Cong(u, 0, c.p) && Cong(v, 0, c.p)
  {
    var p := c.p;
    CongSub(Cubic(c, x1), y1 * y1, y1 * y1, y1 * y1, p);
    if x1 == x2 {
      CongSub(3 * x1 * x1 + c.a, l * (2 * y1), l * (2 * y1), l * (2 * y1), p);
    } else {
      CongAdd(l * (x2 - x1), y2 - y1, y1, y1, p);
      var z := l * (x2 - x1) + y1;
      CongMul(z, y2, z, y2, p);
      CongSub(Cubic(c, x2), y2 * y2, z * z, y2 * y2, p);
      CongSub(u * x2 + v, 0, u * x1 + v, 0, p);
      DistributeLeft(u, x2, -x1);
      DifferentX(c, x1, x2);
      assert (u * x2 + v) - (u * x1 + v) == u * (x2 - x1);
      EuclidLemma(u, x2 - x1, p);
    }
    CongMul(u, 0, x1, x1, p);
    CongSub(u * x1 + v, 0, u * x1, 0, p);
  }

  lemma TangentRemainder(a: int, x1: int, y1: int, l: int, x3: int, u: int)
    requires l * l == x1 + x1 + x3
    requires u == a - 2 * (l * y1) + 2 * ((l * l) * x1) - (x1 * x1 + x1 * x3 + x1 * x3)
    ensures u == 3 * x1 * x1 + a - l * (2 * y1)
  {
    assert (x1 + x1 + x3) * x1 == 2 * (x1 * x1) + x1 * x3;
    assert l * (2 * y1) == 2 * (l * y1);
    assert 3 * x1 * x1 == 3 * (x1 * x1);
  }

  /** The third point lies on the curve. */
  lemma ThirdOnCurve(c: Params, q: Point, r: Point, l: int)
    requires ValidParams(c) && OnCurve(c, q) && OnCurve(c, r) && q.Affine? && r.Affine?
    requires IsSlope(c, q.x, q.y, r.x, r.y, l)
    ensures OnCurve(c, Third(c, q, r, l))
  {
    var p, x1, y1, x2 := c.p, q.x, q.y, r.x;
    var x3 := l * l - x1 - x2;
    var u := c.a - 2 * (l * y1) + 2 * ((l * l) * x1) - (x1 * x2 + x1 * x3 + x2 * x3);
    var v := c.b - y1 * y1 + 2 * ((l * y1) * x1) - (l * l) * (x1 * x1) + (x1 * x2) * x3;
    LineMeetsCubic(c, x1, y1, x2, l, x3, u, v);
    if x1 == x2 { TangentRemainder(c.a, x1, y1, l, x3, u); }
    RemainderVanishes(c, x1, y1, x2, r.y, l, u, v);
    var z := l * (x3 - x1) + y1;
    CongMul(u, 0, x3, x3, p);
    CongAdd(u * x3, 0, v, 0, p);
    CongAdd(Cubic(c, x3) - z * z, 0, z * z, z * z, p);
    ReducedOnCurve(c, x1, y1, l, x3, z);
  }

  lemma ReducedOnCurve(c: Params, x1: int, y1: int, l: int, x3: int, z: int)
    requires c.p > 0 && z == l * (x3 - x1) + y1 && Cong(Cubic(c, x3), z * z, c.p)
    ensures var x := x3 % c.p; OnCurve(c, Affine(x, (l * (x1 - x) - y1) % c.p))
  {
    var x := x3 % c.p;
    var w := l * (x1 - x) - y1;
    var y := w % c.p;
    CongMod(x3, c.p);
    CongMod(w, c.p);
    CubicRespectsCong(c, x, x3);
    CongSub(x1, x1, x, x3, c.p);
    CongMul(l, l, x1 - x, x1 - x3, c.p);
    CongSub(l * (x1 - x), l * (x1 - x3), y1, y1, c.p);
    assert l * (x1 - x3) - y1 == -z by { DistributeLeft(l, x1, -x3); DistributeLeft(l, x3, -x1); }
    CongMul(y, -z, y, -z, c.p);
    assert (-z) * (-z) == z * z;
    DivMod(x3, c.p);
    DivMod(w, c.p);
  }

  lemma CubicRespectsCong(c: Params, x: int, x': int)
    requires Cong(x, x', c.p)
    ensures Cong(Cubic(c, x), Cubic(c, x'), c.p)
  {
    CongMul(x, x', x, x', c.p);
    CongMul(x * x, x' * x', x, x', c.p);
    CongMul(c.a, c.a, x, x', c.p);
    CongAdd(x * x * x, x' * x' * x', c.a * x, c.a * x', c.p);
    CongAdd(x * x * x + c.a * x, x' * x' * x' + c.a * x', c.b, c.b, c.p);
  }

  /** The curve is closed under the chord-and-tangent sum. */
  lemma AddOnCurve(c: Params, q: Point, r: Point)
    requires ValidParams(c) && OnCurve(c, q) && OnCurve(c, r)
    ensures OnCurve(c, Add(c, q, r))
  {
    if q.Affine? && r.Affine? && !Opposite(c, q, r) {
      var l := Slope(c, q.x, q.y, r.x, r.y);
      SlopeUnique(c, q, r, l);
      ThirdOnCurve(c, q, r, l);
    }
  }

  lemma NegateOnCurve(c: Params, q: Point)
    requires ValidParams(c) && OnCurve(c, q)
    ensures OnCurve(c, Negate(c, q))
  {
    if q.Affine? {
      DivMod(-q.y, c.p);
      CongMod(-q.y, c.p);
      CongMul((-q.y) % c.p, -q.y, (-q.y) % c.p, -q.y, c.p);
      assert (-q.y) * (-q.y) == q.y * q.y;
    }
  }

  /** The sum does not depend on the order of the points. */
  lemma AddCommutes(c: Params, q: Point, r: Point)
    requires ValidParams(c) && OnCurve(c, q) && OnCurve(c, r)
    ensures Add(c, q, r) == Add(c, r, q)
  {
    if q.Affine? && r.Affine? && !Opposite(c, q, r) {
      var l := Slope(c, q.x, q.y, r.x, r.y);
      SlopeUnique(c, q, r, l);
      if q.x == r.x {
        SameX(c, q, r);
      } else {
        ReverseLine(c, q, r, l);
        SlopeUnique(c, r, q, l);
      }
    }
  }

  lemma ReverseLine(c: Params, q: Point, r: Point, l: int)
    requires c.p > 0 && q.Affine? && r.Affine? && Cong(l * (r.x - q.x), r.y - q.y, c.p)
    ensures Cong(l * (q.x - r.x), q.y - r.y, c.p)
    ensures Third(c, q, r, l) == Third(c, r, q, l)
  {
    var h, d := l * (r.x - q.x), r.y - q.y;
    CongSub(0, 0, h, d, c.p);
    NegatedProduct(l, q.x, r.x);
    var x3 := (l * l - q.x - r.x) % c.p;
    ChangeBase(l, q.x, q.y, r.x, r.y, x3);
    var e := l * (q.x - x3) - q.y;
    CongAdd(e, e, h, d, c.p);
    CongSub(e + h, e + d, d, d, c.p);
    CongIsMod(e, e + h - d, c.p);
  }

  lemma NegatedProduct(l: int, a: int, b: int)
    ensures l * (a - b) == -(l * (b - a))
  {}

  lemma ChangeBase(l: int, x1: int, y1: int, x2: int, y2: int, x3: int)
    ensures l * (x2 - x3) - y2 == (l * (x1 - x3) - y1) + l * (x2 - x1) - (y2 - y1)
  {}
}
