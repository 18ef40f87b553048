/** The server's point subtraction, which negates the ordinate without reducing it: what it returns, and exactly when
    that is the difference. */
module PointSubtract {
  import opened Wrappers
  import opened Arith
  import opened Residues
  import opened Curve
  import opened Jacobian
  import opened CurvePoints
  import opened Octets
  import opened Scalars
  import opened PointCodec
  import opened Secp256k1

  /** The difference of two points: the sum of the minuend and the opposite of the subtrahend. */
  ghost function Minus(c: Params, l: Point, q: Point): Point
    requires IsPrime(c.p)
  {
    Add(c, Negate(c, q), l)
  }

  /** bn_subtractmod on any normalized operands: a + 2p - b modulo 2^270. */
  function WrappedSub(a: int, b: int, p: int): (r: int)
    requires p > 0
    ensures 0 <= r < TWO270
  {
    DivMod(SubMod(a, b, p), TWO270);
    SubMod(a, b, p) % TWO270
  }

  /** Subtracting 3p - y leaves a + y - p, and a borrow of 2^270 if that is negative. */
  lemma WrappedValue(a: int, y: int, p: int)
    requires 0 < p < TWO256 && 0 <= a < 2 * p && 0 <= y < p
    ensures WrappedSub(a, 3 * p - y, p) == a + y - p + Borrow(a, y, p)
  {
    if a + y < p {
      DivModUnique(a + y - p, TWO270, -1, a + y - p + TWO270);
    } else {
      ModOnce(a + y - p, TWO270);
    }
  }

  function Borrow(a: int, y: int, p: int): int {
    if a + y < p then TWO270 else 0
  }

  /** Two decoded points. */
  ghost predicate Operands(c: Params, l: Point, q: Point) {
    ValidParams(c) && OnCurve(c, l) && OnCurve(c, q) && l.Affine? && q.Affine?
  }

  /** The slope as computed for the ordinate 3p - y. */
  ghost function BorrowedLambda(c: Params, l: Point, q: Point): (r: int)
    requires Operands(c, l, q) && l.x != q.x
    ensures 0 <= r < 2 * c.p
  {
    DifferentX(c, q.x, l.x);
    var inv := Inv(Sub(l.x, q.x, c.p), c.p);
    var n := WrappedSub(l.y, 3 * c.p - q.y, c.p);
    WideFits(inv, n, c.p);
    MulMod(inv, n, c.p)
  }

  /** The abscissa for that slope. */
  ghost function ComputedX(c: Params, l: Point, q: Point): (r: int)
    requires Operands(c, l, q) && l.x != q.x
    ensures 0 <= r < c.p
  {
    var m := BorrowedLambda(c, l, q);
    DivMod(m * m - (q.x + l.x), c.p);
    (m * m - (q.x + l.x)) % c.p
  }

  /** The last product of the chord, from which the ordinate 3p - y is subtracted. */
  ghost function LastProduct(c: Params, l: Point, q: Point): (r: int)
    requires Operands(c, l, q) && l.x != q.x
    ensures 0 <= r < 2 * c.p
  {
    Mul(BorrowedLambda(c, l, q), Sub(q.x, ComputedX(c, l, q), c.p), c.p)
  }

  /** The slope as computed for the ordinate 3p - y. */
  method BorrowedSlope(c: Params, ghost l: Point, lx: int, ly: int, q: Point) returns (lambda: int)
    requires Operands(c, l, q) && l == Affine(lx, ly) && lx != q.x
    ensures lambda == BorrowedLambda(c, l, q)
  {
    hide MulMod, Fits;
    var p := c.p;
    var y1 := 3 * p - q.y;
    DifferentX(c, q.x, lx);
    var i := Sub(lx, q.x, p);
    i := Invert(i, p);
    lambda := WrappedSub(ly, y1, p);
    WideFits(i, lambda, p);
    lambda := MulMod(i, lambda, p);
  }

  /** The third point of the line, its ordinate as computed for the ordinate 3p - y. */
  method BorrowedThird(c: Params, ghost l: Point, lx: int, q: Point, lambda: int) returns (xr: int, yr: int)
    requires Operands(c, l, q) && l.x == lx != q.x && lambda == BorrowedLambda(c, l, q)
    ensures xr == ComputedX(c, l, q)
    ensures yr == (LastProduct(c, l, q) + q.y + Borrow(LastProduct(c, l, q), q.y, c.p)) % c.p
  {
    hide Mul, MulMod, BorrowedLambda, Cubic;
    var p := c.p;
    var y1 := 3 * p - q.y;
    xr := Mul(lambda, lambda, p);
    var sum := AddMod(q.x, lx, p);
    CongSub(xr, lambda * lambda, sum, q.x + lx, p);
    xr := Sub(xr, sum, p);
    xr := FastMod(xr, p);
    xr := Mod(xr, p);
    CongIsMod(xr, lambda * lambda - (q.x + lx), p);
    ModOnce(xr, p);
    yr := Sub(q.x, xr, p);
    yr := Mul(lambda, yr, p);
    ghost var t := yr;
    WrappedValue(yr, q.y, p);
    yr := WrappedSub(yr, y1, p);
    ghost var u := yr;
    yr := FastMod(yr, p);
    yr := Mod(yr, p);
    FinalOrdinate(p, t, q.y, u, yr);
  }

  /** point_add on the minuend and the point with the unreduced ordinate 3p - y: the code's branches for such an
      ordinate, and the second subtraction borrowing 2^270 exactly if the last product and y do not reach p. */
  method AddUnreduced(c: Params, left: CurvePoint, ghost l: Point, q: Point)
    requires Operands(c, l, q) && left.Stands(c, l)
    modifies left
    ensures l.x == q.x ==> left.x == 0 && left.y == 0
    ensures l.x != q.x ==> left.x == ComputedX(c, l, q)
    ensures l.x != q.x ==>
      left.y == (LastProduct(c, l, q) + q.y + Borrow(LastProduct(c, l, q), q.y, c.p)) % c.p
  {
    hide Cubic, LastProduct, ComputedX, BorrowedLambda;
    var y1 := 3 * c.p - q.y;
    if q.x == left.x && y1 == left.y {
      assert false;
    }
    if q.x == left.x {
      left.x, left.y := 0, 0;
      return;
    }
    var lambda := BorrowedSlope(c, l, left.x, left.y, q);
    var xr, yr := BorrowedThird(c, l, left.x, q, lambda);
    left.x, left.y := xr, yr;
  }

  lemma WideFits(k: int, x: int, p: int)
    requires Modulus(p) && 0 <= k < p && 0 <= x < TWO270
    ensures Fits(k, x, p)
  {
    MulMono(k, p, x);
    MulMono(0, k, x);
    MulMono(0, x, p);
    if x < TWO270 { MulMono(x, TWO270, p); }
  }

  lemma FinalOrdinate(p: int, t: int, y: int, u: int, yr: int)
    requires p > 0 && u == t + y - p + Borrow(t, y, p) && Cong(yr, u, p) && 0 <= yr < p
    ensures yr == (t + y + Borrow(t, y, p)) % p
  {
    CongShift(t + y + Borrow(t, y, p), 1, p);
    CongIsMod(yr, t + y + Borrow(t, y, p), p);
    ModOnce(yr, p);
  }

  /** The computed slope solves the equation of the chord up to the first borrow. */
  lemma BorrowedSolves(c: Params, l: Point, q: Point)
    requires Operands(c, l, q) && l.x != q.x
    ensures Cong(BorrowedLambda(c, l, q) * (l.x - q.x), l.y + q.y + Borrow(l.y, q.y, c.p), c.p)
  {
    hide MulMod, Fits, Cubic;
    var p, w := c.p, l.y + q.y + Borrow(l.y, q.y, c.p);
    DifferentX(c, q.x, l.x);
    var d := Sub(l.x, q.x, p);
    var inv, n := Inv(d, p), WrappedSub(l.y, 3 * p - q.y, p);
    WideFits(inv, n, p);
    WrappedValue(l.y, q.y, p);
    CongShift(w, 1, p);
    CongIntro(inv * n, inv * n, 0, p);
    Solved(BorrowedLambda(c, l, q), inv, n, d, l.x - q.x, w, p);
  }

  lemma Solved(m: int, inv: int, n: int, d: int, e: int, w: int, p: int)
    requires Cong(m, inv * n, p) && Cong(d, e, p) && Cong(inv * d, 1, p) && Cong(n, w, p)
    ensures Cong(m * e, w, p)
  {
    CongMul(m, inv * n, e, d, p);
    CongIntro(n, n, 0, p);
    CongMul(inv * d, 1, n, n, p);
    assert (inv * n) * d == (inv * d) * n;
  }

  lemma LastProductIs(c: Params, l: Point, q: Point)
    requires Operands(c, l, q) && l.x != q.x
    ensures Cong(LastProduct(c, l, q), BorrowedLambda(c, l, q) * (q.x - ComputedX(c, l, q)), c.p)
  {
    hide Mul, BorrowedLambda, ComputedX, Cubic;
    var m, e := BorrowedLambda(c, l, q), Sub(q.x, ComputedX(c, l, q), c.p);
    CongMul(m, m, e, q.x - ComputedX(c, l, q), c.p);
  }

  // ---- when the result is the difference --------------------------------------------------------

  /** The true difference of points with different abscissas. */
  lemma TrueChord(c: Params, l: Point, q: Point) returns (m: int)
    requires ValidParams(c) && OnCurve(c, l) && OnCurve(c, q) && l.Affine? && q.Affine? && l.x != q.x
    ensures Minus(c, l, q).Affine? && OnCurve(c, Minus(c, l, q)) && Cong(m * (l.x - q.x), l.y + q.y, c.p)
    ensures var r := Minus(c, l, q);
      r.x == (m * m - q.x - l.x) % c.p && Cong(r.y - q.y, m * (q.x - r.x), c.p)
  {
    hide Cubic;
    var p, nq := c.p, Negate(c, q);
    NegateOnCurve(c, q);
    CongMod(-q.y, p);
    m := Slope(c, nq.x, nq.y, l.x, l.y);
    SlopeUnique(c, nq, l, m);
    AddOnCurve(c, nq, l);
    CongSub(l.y, l.y, nq.y, -q.y, p) by { CongIntro(l.y, l.y, 0, p); }
    var r := Minus(c, l, q);
    var w := m * (q.x - r.x);
    CongMod(w - nq.y, p);
    CongIntro(w, w, 0, p);
    CongSub(w, w, nq.y, -q.y, p);
    CongIntro(q.y, q.y, 0, p);
    CongSub(r.y, w + q.y, q.y, q.y, p);
  }

  lemma BorrowNotMultiple(p: int)
    requires IsPrime(p) && Modulus(p)
    ensures !Cong(TWO270, 0, p)
  {
    var e := TWO256 - p;
    if Cong(TWO256, 0, p) {
      CongShift(TWO256, 1, p);
      CongUnique(e, 0, p);
    }
    if Cong(16384, 0, p) { CongUnique(16384, 0, p); }
    if Cong(TWO270, 0, p) {
      assert TWO270 == 16384 * TWO256;
      EuclidLemma(16384, TWO256, p);
    }
  }

  /** Slopes over the same denominator, one of them borrowed: m * d = s + b, m' * d = s. */
  lemma SquaredSlopes(p: int, m: int, m': int, d: int, s: int, b: int)
    requires IsPrime(p) && !Cong(d, 0, p) && Cong(m * d, s + b, p) && Cong(m' * d, s, p)
    ensures Cong(m * m, m' * m', p) <==> Cong(b, 0, p) || Cong(2 * s + b, 0, p)
    ensures Cong(b, 0, p) ==> Cong(m, m', p)
    ensures Cong(2 * s + b, 0, p) ==> Cong(m, -m', p)
  {
    CongSub(m * d, s + b, m' * d, s, p);
    CongAdd(m * d, s + b, m' * d, s, p);
    assert m * d - m' * d == (m - m') * d && m * d + m' * d == (m + m') * d;
    ZeroFactor(m - m', d, b, p);
    ZeroFactor(m + m', d, 2 * s + b, p);
    SquaresEqual(m, m', p);
  }

  lemma ZeroFactor(a: int, d: int, b: int, p: int)
    requires IsPrime(p) && !Cong(d, 0, p) && Cong(a * d, b, p)
    ensures Cong(a, 0, p) <==> Cong(b, 0, p)
  {
    if Cong(a, 0, p) {
      CongIntro(d, d, 0, p);
      CongMul(a, 0, d, d, p);
    }
    if Cong(b, 0, p) { EuclidLemma(a, d, p); }
  }

  lemma SquaresEqual(m: int, m': int, p: int)
    requires IsPrime(p)
    ensures Cong(m - m', 0, p) <==> Cong(m, m', p)
    ensures Cong(m + m', 0, p) <==> Cong(m, -m', p)
    ensures Cong(m * m, m' * m', p) <==> Cong(m - m', 0, p) || Cong(m + m', 0, p)
  {
    CongIntro(m', m', 0, p);
    if Cong(m - m', 0, p) { CongAdd(m - m', 0, m', m', p); }
    if Cong(m, m', p) { CongSub(m, m', m', m', p); CongMul(m, m', m, m', p); }
    if Cong(m + m', 0, p) { CongSub(m + m', 0, m', m', p); }
    if Cong(m, -m', p) { CongAdd(m, -m', m', m', p); CongMul(m, -m', m, -m', p); assert (-m') * (-m') == m' * m'; }
    if Cong(m * m, m' * m', p) {
      CongIntro(m' * m', m' * m', 0, p);
      CongSub(m * m, m' * m', m' * m', m' * m', p);
      assert m * m - m' * m' == (m - m') * (m + m');
      EuclidLemma(m - m', m + m', p);
    }
  }

  /** The abscissa is right if and only if the first subtraction does not borrow, or happens to negate the slope. */
  ghost predicate RightAbscissa(c: Params, l: Point, q: Point)
    requires l.Affine? && q.Affine?
  {
    l.y + q.y >= c.p || Cong(2 * (l.y + q.y) + TWO270, 0, c.p)
  }

  lemma AbscissaExact(c: Params, l: Point, q: Point)
    requires Operands(c, l, q) && l.x != q.x
    ensures Minus(c, l, q).Affine?
    ensures ComputedX(c, l, q) == Minus(c, l, q).x <==> RightAbscissa(c, l, q)
    ensures var r := Minus(c, l, q);
      RightAbscissa(c, l, q) ==>
        Cong(LastProduct(c, l, q), if l.y + q.y >= c.p then r.y - q.y else q.y - r.y, c.p)
  {
    hide Cubic, Minus, LastProduct, BorrowedLambda;
    var p, s, b := c.p, l.y + q.y, Borrow(l.y, q.y, c.p);
    var m' := TrueChord(c, l, q);
    var r := Minus(c, l, q);
    var m, x := BorrowedLambda(c, l, q), ComputedX(c, l, q);
    BorrowedSolves(c, l, q);
    LastProductIs(c, l, q);
    DifferentX(c, q.x, l.x);
    SquaredSlopes(p, m, m', l.x - q.x, s, b);
    BorrowNotMultiple(p);
    CongIntro(0, 0, 0, p);
    SameAbscissa(m * m, m' * m', q.x + l.x, p);
    if RightAbscissa(c, l, q) {
      CongIntro(q.x - x, q.x - x, 0, p);
      CongMul(m, if s >= p then m' else -m', q.x - x, q.x - x, p);
      Negated(m', q.x - x, r.y - q.y, p);
    }
  }

  lemma SameAbscissa(a: int, b: int, s: int, p: int)
    requires p > 0
    ensures (a - s) % p == (b - s) % p <==> Cong(a, b, p)
  {
    CongIsMod(a - s, b - s, p);
    CongIntro(s, s, 0, p);
    if Cong(a, b, p) { CongSub(a, b, s, s, p); }
    if Cong(a - s, b - s, p) { CongAdd(a - s, b - s, s, s, p); }
  }

  lemma Negated(m: int, d: int, v: int, p: int)
    requires Cong(v, m * d, p)
    ensures Cong(m * d, v, p) && Cong((-m) * d, -v, p)
  {
    CongIntro(0, 0, 0, p);
    CongSub(0, 0, m * d, v, p);
    assert (-m) * d == 0 - m * d;
  }

  /** The ordinate that comes out unless the second subtraction borrows: that of the difference, or its reflection at
      the ordinate of the subtrahend if the slope came out negated. */
  ghost function Target(c: Params, l: Point, q: Point): int
    requires Operands(c, l, q) && l.x != q.x
  {
    if l.y + q.y >= c.p then Minus(c, l, q).y else (2 * q.y - Minus(c, l, q).y) % c.p
  }

  /** The second subtraction borrows if the last product is reduced and the target not below the ordinate of the
      subtrahend. */
  ghost predicate SecondBorrow(c: Params, l: Point, q: Point)
    requires Operands(c, l, q) && l.x != q.x
  {
    LastProduct(c, l, q) < c.p && Target(c, l, q) >= q.y
  }

  /** The ordinate for a right abscissa: a second borrow adds 2^270. */
  lemma ComputedOrdinate(c: Params, l: Point, q: Point)
    requires Operands(c, l, q) && l.x != q.x && RightAbscissa(c, l, q)
    ensures 0 <= Target(c, l, q) < c.p
    ensures (LastProduct(c, l, q) + q.y + Borrow(LastProduct(c, l, q), q.y, c.p)) % c.p
      == if SecondBorrow(c, l, q) then (Target(c, l, q) + TWO270) % c.p else Target(c, l, q)
  {
    hide Cubic, Minus, LastProduct;
    AbscissaExact(c, l, q);
    MinusOnCurve(c, l, q);
    var p, t, a, r := c.p, LastProduct(c, l, q), Target(c, l, q), Minus(c, l, q);
    if l.y + q.y < p {
      DivMod(2 * q.y - r.y, p);
      CongMod(2 * q.y - r.y, p);
      CongIntro(q.y, q.y, 0, p);
      CongSub(a, 2 * q.y - r.y, q.y, q.y, p);
    }
    BorrowedOrdinate(t, q.y, a, p);
  }

  lemma BorrowedOrdinate(t: int, y: int, a: int, p: int)
    requires 0 <= y < p && 0 <= a < p && 0 <= t < 2 * p && Cong(t, a - y, p)
    ensures (t + y + Borrow(t, y, p)) % p == if t < p && a >= y then (a + TWO270) % p else a
  {
    CongShift(a - y, -1, p);
    if t < p {
      if a >= y { CongUnique(t, a - y, p); } else { CongUnique(t, a - y + p, p); }
    }
    CongIntro(y, y, 0, p);
    CongAdd(t, a - y, y, y, p);
    CongIsMod(t + y, a, p);
    ModOnce(a, p);
  }

  /** The bytes of a point; none for infinity. */
  function Encoded(q: Point): Option<seq<uint8>>
    requires q.Affine? ==> 0 <= q.x && 0 <= q.y
  {
    if q.Infinity? then None else Some(EncodePoint(q.x, q.y))
  }

  lemma SameBytes(x: nat, y: nat, x': nat, y': nat)
    requires x < TWO256 && x' < TWO256
    ensures EncodePoint(x, y) == EncodePoint(x', y') <==> x == x' && y % 2 == y' % 2
  {
    hide BytesOf, IntOf;
    Pow256();
    IntOfBytesOf(x, 32);
    IntOfBytesOf(x', 32);
    assert EncodePoint(x, y)[1..] == BytesOf(x, 32) && EncodePoint(x', y')[1..] == BytesOf(x', 32);
    assert EncodePoint(x, y)[0] == EncodePoint(x', y')[0] <==> y % 2 == y' % 2;
  }

  /** When the bytes are right: for equal abscissas only if the points are equal; otherwise if the abscissa is right and
      neither the reflection nor the borrowed 2^270 changes the parity of the ordinate. */
  ghost predicate Right(c: Params, l: Point, q: Point)
    requires Operands(c, l, q)
  {
    if l.x == q.x then l == q
    else
      var r, a := Minus(c, l, q), Target(c, l, q);
      var v := if SecondBorrow(c, l, q) then (a + TWO270) % c.p else a;
      RightAbscissa(c, l, q) && v % 2 == r.y % 2 && (r.x != 0 || v != 0)
  }

  /** point_subtract on decoded points: what it returns is the encoded difference exactly if `Right` holds. */
  method PointSubtract(c: Params, left: CurvePoint, ghost l: Point, q: Point) returns (out: Option<seq<uint8>>)
    requires Operands(c, l, q) && left.Stands(c, l)
    modifies left
    ensures OnCurve(c, Minus(c, l, q)) && (out == Encoded(Minus(c, l, q)) <==> Right(c, l, q))
    ensures l.x == q.x ==> out == None
  {
    hide Cubic, Minus, EncodePoint, LastProduct, ComputedX, Target, SecondBorrow;
    AddUnreduced(c, left, l, q);
    MinusOnCurve(c, l, q);
    if l.x == q.x {
      EqualAbscissas(c, l, q);
    } else {
      AbscissaExact(c, l, q);
      if RightAbscissa(c, l, q) { ComputedOrdinate(c, l, q); }
      SameBytes(left.x, left.y, Minus(c, l, q).x, Minus(c, l, q).y);
    }
    if left.x == 0 && left.y == 0 { return None; }
    return Some(EncodePoint(left.x, left.y));
  }

  lemma MinusOnCurve(c: Params, l: Point, q: Point)
    requires ValidParams(c) && OnCurve(c, l) && OnCurve(c, q)
    ensures OnCurve(c, Minus(c, l, q))
  {
    NegateOnCurve(c, q);
    AddOnCurve(c, Negate(c, q), l);
  }

  /** Points with equal abscissas: the difference is infinity exactly if they are equal. */
  lemma EqualAbscissas(c: Params, l: Point, q: Point)
    requires ValidParams(c) && OnCurve(c, l) && OnCurve(c, q) && l.Affine? && q.Affine? && l.x == q.x
    ensures Minus(c, l, q) == Infinity <==> l == q
  {
    hide Cubic;
    var p, n := c.p, (-q.y) % c.p;
    CongMod(-q.y, p);
    CongIntro(l.y, l.y, 0, p);
    CongAdd(n, -q.y, l.y, l.y, p);
    if Cong(n + l.y, 0, p) {
      CongIntro(q.y, q.y, 0, p);
      CongAdd(l.y - q.y, 0, q.y, q.y, p);
      CongUnique(l.y, q.y, p);
    }
    CongIntro(0, 0, 0, p);
  }

  /** P - (-P) is never right: the code returns nothing, while the difference is 2P. */
  lemma OppositeNeverRight(c: Params, q: Point)
    requires ValidParams(c) && OnCurve(c, q) && q.Affine? && q.y != 0
    ensures var l := Negate(c, q);
      OnCurve(c, l) && Minus(c, l, q) == Add(c, l, l) && Minus(c, l, q) != Infinity && !Right(c, l, q)
  {
    hide Cubic;
    var l := Negate(c, q);
    NegateOnCurve(c, q);
    OppositeOrdinate(q.y, c.p);
    EqualAbscissas(c, l, q);
  }

  lemma OppositeOrdinate(y: int, p: int)
    requires 0 < y < p && p % 2 == 1
    ensures (-y) % p == p - y != y && (-((-y) % p)) % p == y
  {
    DivModUnique(-y, p, -1, p - y);
    DivModUnique(y - p, p, -1, y);
  }

  /** Without the first borrow the result is right exactly if the second subtraction does not borrow either or the
      borrowed 2^270 does not change the parity of the ordinate. */
  lemma RightWithoutBorrow(c: Params, l: Point, q: Point)
    requires Operands(c, l, q) && l.x != q.x && l.y + q.y >= c.p
    ensures var r := Minus(c, l, q);
      Right(c, l, q) <==>
        if LastProduct(c, l, q) < c.p && r.y >= q.y then
          ((r.y + TWO270) % c.p) % 2 == r.y % 2 && (r.x != 0 || (r.y + TWO270) % c.p != 0)
        else true
  {
    hide Cubic, Minus, LastProduct, OnCurve;
    MinusOnCurve(c, l, q);
    AbscissaExact(c, l, q);
    NotOrigin(c, Minus(c, l, q));
  }

  lemma NotOrigin(c: Params, r: Point)
    requires ValidParams(c) && OnCurve(c, r) && r.Affine?
    ensures r.x != 0 || r.y != 0
  {
    OriginOff(c);
  }

  // ---- on the field of secp256k1 -----------------------------------------------------------------

  /** 2^270 modulo the field prime. */
  const SHIFT: nat := 16384 * 0x1_0000_03D1
  const TWO64: nat := 0x1_0000_0000_0000_0000

  lemma ParityOfSum(a: int, b: int, k: int)
    requires a + b == 2 * k || a + b == 2 * k + 1
    ensures a % 2 == b % 2 <==> a + b == 2 * k
  {}

  lemma ShiftValue(a: int)
    requires 0 <= a < FIELD
    ensures (a + TWO270) % FIELD == if a + SHIFT < FIELD then a + SHIFT else a + SHIFT - FIELD
    ensures ((a + TWO270) % FIELD) % 2 == a % 2 <==> a + SHIFT < FIELD
  {
    if a + SHIFT < FIELD {
      DivModUnique(a + TWO270, FIELD, 16384, a + SHIFT);
      ParityOfSum(a + SHIFT, a, a + SHIFT / 2);
    } else {
      DivModUnique(a + TWO270, FIELD, 16385, a + SHIFT - FIELD);
      ParityOfSum(a + SHIFT - FIELD, a, a + SHIFT / 2 - FIELD / 2 - 1);
    }
  }

  /** A product that is not fully reduced has a tiny residue. */
  lemma UnreducedTiny(c: Params, l: Point, q: Point)
    requires Operands(c, l, q) && l.x != q.x && c.p == FIELD && LastProduct(c, l, q) >= FIELD
    ensures LastProduct(c, l, q) - FIELD < TWO64
  {
    hide BorrowedLambda, ComputedX, Cubic, MulMod, Fits;
    var k, x := BorrowedLambda(c, l, q), Sub(q.x, ComputedX(c, l, q), FIELD);
    var t := LastProduct(c, l, q);
    FitsBelow180(k, x, FIELD);
    CongIsMod(t, k * x, FIELD);
    ModOnce(t, FIELD);
    if (k * x) % FIELD >= TWO64 { ProductReduced(k, x, FIELD); }
  }

  /** The first subtraction borrows and the abscissa is right for one sum of the ordinates only. */
  lemma CoincidenceExact(s: int)
    requires 0 <= s < FIELD
    ensures Cong(2 * s + TWO270, 0, FIELD) <==> s == FIELD - SHIFT / 2
  {
    CongIntro(2 * s + TWO270, 2 * s + SHIFT, 16384, FIELD);
    CongShift(2 * s + SHIFT, -1, FIELD);
    CongShift(2 * s + SHIFT, -2, FIELD);
    CongIntro(FIELD, 0, 1, FIELD);
    var w := 2 * s + SHIFT;
    if Cong(w, 0, FIELD) {
      if w < FIELD { CongUnique(w, 0, FIELD); }
      else if w < 2 * FIELD { CongUnique(w - FIELD, 0, FIELD); }
      else { CongUnique(w - 2 * FIELD, 0, FIELD); }
    }
  }

  /** The parity of the reflected ordinate. */
  lemma ReflectedParity(y: int, ry: int)
    requires 0 <= y < FIELD && 0 <= ry < FIELD
    ensures ((2 * y - ry) % FIELD) % 2 == ry % 2 <==> 0 <= 2 * y - ry < FIELD
  {
    var u := 2 * y - ry;
    var h := FIELD / 2;
    if u < 0 {
      DivModUnique(u, FIELD, -1, u + FIELD);
      ParityOfSum(u + FIELD, ry, y + h);
    } else if u < FIELD {
      DivModUnique(u, FIELD, 0, u);
      ParityOfSum(u, ry, y);
    } else {
      DivModUnique(u, FIELD, 1, u - FIELD);
      ParityOfSum(u - FIELD, ry, y - h - 1);
    }
  }

  /** On the field of secp256k1 the condition is one on the two points: without the first borrow the ordinate of the
      difference must be below that of the subtrahend, or not within 2^46 of the prime; with the borrow a single sum of
      the ordinates is left. A last product that is not fully reduced also avoids the second borrow. */
  lemma FieldExact(c: Params, l: Point, q: Point)
    requires Operands(c, l, q) && l.x != q.x && c.p == FIELD
    ensures var r, a, t := Minus(c, l, q), Target(c, l, q), LastProduct(c, l, q);
      Right(c, l, q) <==>
        if l.y + q.y >= FIELD then
          r.y < q.y || r.y + SHIFT < FIELD || t >= FIELD
        else
          && l.y + q.y == FIELD - SHIFT / 2
          && (a < q.y || a + SHIFT < FIELD || t >= FIELD <==> 0 <= 2 * q.y - r.y < FIELD)
          && (r.x != 0 || (if a < q.y || t >= FIELD then a else (a + TWO270) % FIELD) != 0)
  {
    hide Cubic, Minus, LastProduct, OnCurve;
    MinusOnCurve(c, l, q);
    var r, a := Minus(c, l, q), Target(c, l, q);
    AbscissaExact(c, l, q);
    InField(c, r);
    InField(c, q);
    InField(c, l);
    if l.y + q.y >= FIELD {
      RightWithoutBorrow(c, l, q);
      ShiftValue(r.y);
    } else {
      CoincidenceExact(l.y + q.y);
      ReflectedParity(q.y, r.y);
      if RightAbscissa(c, l, q) {
        ComputedOrdinate(c, l, q);
        ShiftValue(a);
      }
    }
  }

  lemma InField(c: Params, r: Point)
    requires OnCurve(c, r) && r.Affine?
    ensures 0 <= r.x < c.p && 0 <= r.y < c.p
  {}

  /** When the ordinates of the difference and the subtrahend are not within 2^64 of each other, nothing but the two
      points enters the condition. */
  lemma FieldLargeResidue(c: Params, l: Point, q: Point)
    requires Operands(c, l, q) && l.x != q.x && c.p == FIELD && l.y + q.y >= FIELD
    ensures var r := Minus(c, l, q);
      r.y - q.y >= TWO64 || TWO64 - FIELD <= r.y - q.y < 0 ==>
        (Right(c, l, q) <==> r.y < q.y || r.y + SHIFT < FIELD)
  {
    hide Cubic, Minus, LastProduct, Right, Target;
    FieldExact(c, l, q);
    AbscissaExact(c, l, q);
    InField(c, q);
    MinusOnCurve(c, l, q);
    InField(c, Minus(c, l, q));
    if LastProduct(c, l, q) >= FIELD {
      UnreducedTiny(c, l, q);
      TinyResidue(LastProduct(c, l, q), Minus(c, l, q).y - q.y);
    }
  }

  lemma TinyResidue(t: int, d: int)
    requires FIELD <= t < FIELD + TWO64 && Cong(t, d, FIELD) && 0 - FIELD < d < FIELD
    ensures 0 <= d < TWO64 || d < TWO64 - FIELD
  {
    CongShift(t, -1, FIELD);
    CongShift(d, 1, FIELD);
    if d >= 0 { CongUnique(t - FIELD, d, FIELD); } else { CongUnique(t - FIELD, d + FIELD, FIELD); }
  }
}
