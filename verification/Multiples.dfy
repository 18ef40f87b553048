/** Integer multiples of a point. Associativity of the sum is the one group law taken as an assumption. */
module Multiples {
  import opened Arith
  import opened Residues
  import opened Curve

  ghost predicate AssociativeAt(c: Params, q: Point, r: Point, s: Point)
    requires IsPrime(c.p)
  {
    OnCurve(c, q) && OnCurve(c, r) && OnCurve(c, s) ==> Add(c, Add(c, q, r), s) == Add(c, q, Add(c, r, s))
  }

  /** The curve's points form a group. */
  ghost predicate Group(c: Params) {
    ValidParams(c) && forall q, r, s :: AssociativeAt(c, q, r, s)
  }

  lemma Associate(c: Params, q: Point, r: Point, s: Point)
    requires Group(c) && OnCurve(c, q) && OnCurve(c, r) && OnCurve(c, s)
    ensures Add(c, Add(c, q, r), s) == Add(c, q, Add(c, r, s))
  {
    assert AssociativeAt(c, q, r, s);
  }

  lemma AddNegate(c: Params, q: Point)
    requires ValidParams(c) && OnCurve(c, q)
    ensures Add(c, q, Negate(c, q)) == Infinity && Add(c, Negate(c, q), q) == Infinity
  {
    if q.Affine? {
      CongMod(-q.y, c.p);
      CongAdd(q.y, q.y, (-q.y) % c.p, -q.y, c.p);
    }
  }

  /** Inverses are unique. */
  lemma OppositeIsNegate(c: Params, q: Point, r: Point)
    requires ValidParams(c) && OnCurve(c, q) && OnCurve(c, r) && Add(c, q, r) == Infinity
    ensures r == Negate(c, q) && q == Negate(c, r)
  {
    if q.Affine? {
      assert Opposite(c, q, r);
      NegationUnique(c.p, q.y, r.y);
      NegationUnique(c.p, r.y, q.y);
    }
  }

  lemma NegationUnique(p: int, y: int, z: int)
    requires p > 0 && 0 <= z < p && Cong(y + z, 0, p)
    ensures z == (-y) % p
  {
    CongMod(-y, p);
    CongSub(y + z, 0, y, y, p);
    DivMod(-y, p);
    CongUnique(z, (-y) % p, p);
  }

  lemma NegateTwice(c: Params, q: Point)
    requires ValidParams(c) && OnCurve(c, q)
    ensures Negate(c, Negate(c, q)) == q
  {
    AddNegate(c, q);
    NegateOnCurve(c, q);
    OppositeIsNegate(c, q, Negate(c, q));
  }

  // ---- a sum is undone without associativity ---------------------------------------------

  /** Two points of the curve whose sum is on the line through them. */
  ghost predicate Secant(c: Params, q: Point, r: Point) {
    ValidParams(c) && OnCurve(c, q) && OnCurve(c, r) && q.Affine? && r.Affine? && !Opposite(c, q, r)
  }

  /** The sum lies on the reflected line, as seen from either point. */
  lemma SumOnLine(c: Params, q: Point, r: Point)
    requires Secant(c, q, r)
    ensures var s, l := Add(c, q, r), Slope(c, q.x, q.y, r.x, r.y);
      && s.Affine? && Cong(s.x, l * l - q.x - r.x, c.p)
      && Cong(s.y, l * (q.x - s.x) - q.y, c.p) && Cong(s.y, l * (r.x - s.x) - r.y, c.p)
  {
    hide Slope, Cubic;
    var l := Slope(c, q.x, q.y, r.x, r.y);
    SlopeUnique(c, q, r, l);
    var s := Add(c, q, r);
    CongMod(l * l - q.x - r.x, c.p);
    CongMod(l * (q.x - s.x) - q.y, c.p);
    if q.x == r.x {
      SameX(c, q, r);
    } else {
      ReverseLine(c, q, r, l);
      CongMod(l * (r.x - s.x) - r.y, c.p);
    }
  }

  /** Where the line meets the curve in r twice, its slope is that of the tangent in r. */
  lemma TouchingSlope(p: int, a: int, b: int, l: int, qx: int, qy: int, x: int, y: int)
    requires IsPrime(p) && !Cong(x - qx, 0, p)
    requires Cong(qy * qy, qx * qx * qx + a * qx + b, p) && Cong(y * y, x * x * x + a * x + b, p)
    requires Cong(l * (x - qx), y - qy, p) && Cong(l * l, x + x + qx, p)
    ensures Cong(l * (2 * y), 3 * x * x + a, p)
  {
    hide Cong;
    var d, e := x - qx, x * x + x * qx + qx * qx + a;
    ChordProduct(p, a, b, l, qx, qy, x, y);
    CongIntro(d, d, 0, p);
    CongIntro(l, l, 0, p);
    CongMul(l * l, x + x + qx, d, d, p);
    CongMul(l, l, l * d, y - qy, p);
    assert l * (l * d) == (l * l) * d;
    CongTrans(l * (y - qy), (l * l) * d, (x + x + qx) * d, p);
    CongAdd(l * (y + qy), e, l * (y - qy), (x + x + qx) * d, p);
    TwiceSum(l, y, qy);
    TangentTerms(a, qx, x);
  }

  lemma CongTrans(u: int, v: int, w: int, p: int)
    requires Cong(v, u, p) && Cong(v, w, p)
    ensures Cong(u, w, p)
  {}

  lemma TwiceSum(l: int, y: int, z: int)
    ensures l * (y + z) + l * (y - z) == l * (2 * y)
  {
    DistributeLeft(l, y + z, y - z);
  }

  lemma TangentTerms(a: int, q: int, x: int)
    ensures (x * x + x * q + q * q + a) + (x + x + q) * (x - q) == 3 * x * x + a
  {
    assert (x + x + q) * (x - q) == 2 * (x * x) - x * q - q * q;
  }

  /** The chord's slope times the sum of the ordinates. */
  lemma ChordProduct(p: int, a: int, b: int, l: int, qx: int, qy: int, x: int, y: int)
    requires IsPrime(p) && !Cong(x - qx, 0, p)
    requires Cong(qy * qy, qx * qx * qx + a * qx + b, p) && Cong(y * y, x * x * x + a * x + b, p)
    requires Cong(l * (x - qx), y - qy, p)
    ensures Cong(l * (y + qy), x * x + x * qx + qx * qx + a, p)
  {
    hide Cong;
    var d, e, t := x - qx, x * x + x * qx + qx * qx + a, y + qy;
    CongSub(y * y, x * x * x + a * x + b, qy * qy, qx * qx * qx + a * qx + b, p);
    CongIntro(t, t, 0, p);
    CongMul(l * d, y - qy, t, t, p);
    CubicDifference(a, b, qx, x);
    SquareDifference(y, qy);
    assert (l * t) * d == (l * d) * t && e * d == d * e;
    CongTrans((l * t) * d, y * y - qy * qy, e * d, p) by { CongFlip((l * d) * t, y * y - qy * qy, p); }
    CongCancel(l * t, e, d, p);
  }

  lemma CongFlip(u: int, v: int, p: int)
    requires Cong(u, v, p)
    ensures Cong(v, u, p)
  {}

  lemma SquareDifference(y: int, z: int)
    ensures (y - z) * (y + z) == y * y - z * z
  {}

  lemma CubicDifference(a: int, b: int, q: int, x: int)
    ensures (x * x * x + a * x + b) - (q * q * q + a * q + b) == (x - q) * (x * x + x * q + q * q + a)
  {
    var e := x * x + x * q + q * q;
    assert x * e == x * x * x + x * x * q + x * q * q;
    assert q * e == x * x * q + x * q * q + q * q * q;
    DistributeLeft(x - q, e, a);
    Distribute(x, -q, e);
    Distribute(x, -q, a);
  }

  /** The opposite slope is one of the line through the sum and the opposite of r. */
  lemma ReflectedSlope(c: Params, q: Point, r: Point)
    requires Secant(c, q, r)
    ensures var s, n := Add(c, q, r), Negate(c, r);
      s != r ==> Secant(c, s, n) && IsSlope(c, s.x, s.y, n.x, n.y, -Slope(c, q.x, q.y, r.x, r.y))
  {
    hide Slope, Cubic, Add;
    var l := Slope(c, q.x, q.y, r.x, r.y);
    var s, n := Add(c, q, r), Negate(c, r);
    if s == r { return; }
    SumOnLine(c, q, r);
    SlopeUnique(c, q, r, l);
    AddOnCurve(c, q, r);
    NegateOnCurve(c, r);
    CongMod(-r.y, c.p);
    if s.x != r.x {
      OtherChord(c.p, l, s.x, s.y, r.x, r.y, n.y);
    } else {
      if Opposite(c, s, n) {
        NegateTwice(c, r);
        AddNegate(c, n);
        NegationUnique(c.p, n.y, s.y) by { CongFlipSum(s.y, n.y, c.p); }
      }
      SameX(c, s, n);
      SlopeTouches(c, q, r, l);
      TangentAgain(l, r.y, s.y, 3 * s.x * s.x + c.a, c.p);
    }
  }

  lemma CongFlipSum(a: int, b: int, p: int)
    requires Cong(a + b, 0, p)
    ensures Cong(b + a, 0, p)
  {}

  lemma OtherChord(p: int, l: int, sx: int, sy: int, rx: int, ry: int, ny: int)
    requires Cong(sy, l * (rx - sx) - ry, p) && Cong(ny, -ry, p)
    ensures Cong((-l) * (rx - sx), ny - sy, p)
  {
    var t := l * (rx - sx);
    CongSub(ny, -ry, sy, t - ry, p);
    assert (-l) * (rx - sx) == -ry - (t - ry);
    CongFlip(ny - sy, -ry - (t - ry), p);
  }

  /** The sum has the abscissa of r without being r: the line touches the curve in r. */
  lemma SlopeTouches(c: Params, q: Point, r: Point, l: int)
    requires Secant(c, q, r) && IsSlope(c, q.x, q.y, r.x, r.y, l) && Cong(r.x, l * l - q.x - r.x, c.p)
    ensures Cong(l * (2 * r.y), 3 * r.x * r.x + c.a, c.p)
  {
    hide Cong;
    if q.x == r.x {
      SameX(c, q, r);
    } else {
      DifferentX(c, q.x, r.x);
      CongIntro(q.x + r.x, q.x + r.x, 0, c.p);
      CongAdd(r.x, l * l - q.x - r.x, q.x + r.x, q.x + r.x, c.p);
      CongFlip(r.x + (q.x + r.x), l * l, c.p);
      TouchingSlope(c.p, c.a, c.b, l, q.x, q.y, r.x, r.y);
    }
  }

  lemma TangentAgain(l: int, y: int, sy: int, d: int, p: int)
    requires p > 0 && sy == (-y) % p && Cong(l * (2 * y), d, p)
    ensures Cong((-l) * (2 * sy), d, p)
  {
    CongMod(-y, p);
    CongIntro(-2 * l, -2 * l, 0, p);
    CongMul(-2 * l, -2 * l, sy, -y, p);
    assert (-2 * l) * sy == (-l) * (2 * sy) && (-2 * l) * (-y) == l * (2 * y);
  }

  /** Adding the opposite of r undoes adding r, exactly unless the sum of r and another point is r itself; associativity
      is not needed for this. */
  lemma SumCancels(c: Params, q: Point, r: Point)
    requires ValidParams(c) && OnCurve(c, q) && OnCurve(c, r)
    ensures Add(c, Add(c, q, r), Negate(c, r)) == q <==> q.Infinity? || Add(c, q, r) != r
  {
    hide Slope, Cubic, Third;
    AddNegate(c, r);
    if q.Infinity? || r.Infinity? || Add(c, q, r) == r { return; }
    if Opposite(c, q, r) {
      OppositeIsNegate(c, q, r);
      return;
    }
    var l := Slope(c, q.x, q.y, r.x, r.y);
    var s, n := Add(c, q, r), Negate(c, r);
    ReflectedSlope(c, q, r);
    SumOnLine(c, q, r);
    SlopeUnique(c, s, n, -l);
    ThirdBack(c, q, r, l, s, n);
  }

  lemma ThirdBack(c: Params, q: Point, r: Point, l: int, s: Point, n: Point)
    requires c.p > 0 && q.Affine? && s.Affine? && n.Affine? && r.Affine? && n.x == r.x
    requires 0 <= q.x < c.p && 0 <= q.y < c.p
    requires Cong(s.x, l * l - q.x - r.x, c.p) && Cong(s.y, l * (q.x - s.x) - q.y, c.p)
    ensures Third(c, s, n, -l) == q
  {
    hide Cong;
    var p := c.p;
    var u := l * l - r.x;
    CongIntro(u, u, 0, p);
    CongSub(u, u, s.x, u - q.x, p);
    CongIsMod(u - s.x, q.x, p);
    ModOnce(q.x, p);
    assert (-l) * (-l) - s.x - n.x == u - s.x;
    var t := l * (q.x - s.x);
    CongIntro(t, t, 0, p);
    CongSub(t, t, s.y, t - q.y, p);
    CongIsMod(t - s.y, q.y, p);
    ModOnce(q.y, p);
    assert (-l) * (s.x - q.x) - s.y == t - s.y;
  }

  // ---- multiples -------------------------------------------------------------------------

  ghost function Times(c: Params, k: nat, q: Point): Point
    requires IsPrime(c.p)
  {
    if k == 0 then Infinity else Add(c, Times(c, k - 1, q), q)
  }

  ghost function Multiple(c: Params, k: int, q: Point): Point
    requires IsPrime(c.p)
  {
    if k >= 0 then Times(c, k, q) else Negate(c, Times(c, -k, q))
  }

  lemma {:induction false} TimesOnCurve(c: Params, k: nat, q: Point)
    requires ValidParams(c) && OnCurve(c, q)
    ensures OnCurve(c, Times(c, k, q))
  {
    if k > 0 {
      TimesOnCurve(c, k - 1, q);
      AddOnCurve(c, Times(c, k - 1, q), q);
    }
  }

  lemma MultipleOnCurve(c: Params, k: int, q: Point)
    requires ValidParams(c) && OnCurve(c, q)
    ensures OnCurve(c, Multiple(c, k, q))
  {
    if k >= 0 {
      TimesOnCurve(c, k, q);
    } else {
      TimesOnCurve(c, -k, q);
      NegateOnCurve(c, Times(c, -k, q));
    }
  }

  lemma MultipleNegated(c: Params, k: int, q: Point)
    requires ValidParams(c) && OnCurve(c, q)
    ensures Multiple(c, -k, q) == Negate(c, Multiple(c, k, q))
  {
    if k < 0 {
      TimesOnCurve(c, -k, q);
      NegateTwice(c, Times(c, -k, q));
    }
  }

  /** One step up, on either side of zero. */
  lemma MultipleStep(c: Params, k: int, q: Point)
    requires Group(c) && OnCurve(c, q)
    ensures Multiple(c, k + 1, q) == Add(c, Multiple(c, k, q), q)
  {
    if k < 0 {
      var m := -k;
      var t := Times(c, m - 1, q);
      TimesOnCurve(c, m - 1, q);
      TimesOnCurve(c, m, q);
      var z := Negate(c, Add(c, t, q));
      NegateOnCurve(c, Add(c, t, q));
      AddOnCurve(c, z, q);
      AddCommutes(c, t, q);
      Associate(c, z, q, t);
      AddNegate(c, Add(c, t, q));
      OppositeIsNegate(c, Add(c, z, q), t);
      if m == 1 { assert Negate(c, Infinity) == Infinity; }
    }
  }

  /** Multiples add up. */
  lemma {:induction false} MultipleAdd(c: Params, m: int, n: int, q: Point)
    requires Group(c) && OnCurve(c, q)
    ensures Multiple(c, m + n, q) == Add(c, Multiple(c, m, q), Multiple(c, n, q))
    decreases if n < 0 then -n else n
  {
    var tm, tn := Multiple(c, m, q), Multiple(c, n, q);
    MultipleOnCurve(c, m, q);
    MultipleOnCurve(c, n, q);
    if n > 0 {
      MultipleAdd(c, m, n - 1, q);
      MultipleOnCurve(c, n - 1, q);
      MultipleStep(c, n - 1, q);
      MultipleStep(c, m + n - 1, q);
      Associate(c, tm, Multiple(c, n - 1, q), q);
    } else if n < 0 {
      // (m + n + 1) q = m q + (n + 1) q = m q + (n q + q); cancel q on the right
      MultipleAdd(c, m, n + 1, q);
      MultipleStep(c, n, q);
      MultipleStep(c, m + n, q);
      MultipleOnCurve(c, m + n, q);
      Associate(c, tm, tn, q);
      AddOnCurve(c, tm, tn);
      CancelRight(c, Multiple(c, m + n, q), Add(c, tm, tn), q);
    }
  }

  lemma CancelRight(c: Params, s: Point, t: Point, q: Point)
    requires Group(c) && OnCurve(c, q) && OnCurve(c, s) && OnCurve(c, t) && Add(c, s, q) == Add(c, t, q)
    ensures s == t
  {
    var z := Negate(c, q);
    NegateOnCurve(c, q);
    AddNegate(c, q);
    Associate(c, s, q, z);
    Associate(c, t, q, z);
  }

  /** Multiples of multiples. */
  lemma {:induction false} MultipleMultiple(c: Params, k: nat, m: int, q: Point)
    requires Group(c) && OnCurve(c, q)
    ensures Multiple(c, k, Multiple(c, m, q)) == Multiple(c, k * m, q)
  {
    if k > 0 {
      MultipleMultiple(c, k - 1, m, q);
      MultipleAdd(c, (k - 1) * m, m, q);
      assert (k - 1) * m + m == k * m;
    }
  }

  /** q generates a subgroup of prime order n. */
  ghost predicate HasOrder(c: Params, q: Point, n: int) {
    IsPrime(c.p) && OnCurve(c, q) && q != Infinity && IsPrime(n) && Multiple(c, n, q) == Infinity
  }

  /** A multiple vanishes exactly for multiples of the order. */
  lemma MultipleVanishes(c: Params, q: Point, n: int, k: int)
    requires Group(c) && HasOrder(c, q, n)
    ensures Multiple(c, k, q) == Infinity <==> Cong(k, 0, n)
  {
    assert Times(c, 1, q) == Add(c, Times(c, 0, q), q);
    if Cong(k, 0, n) {
      var t := CongQuotient(k, 0, n);
      OrderMultiple(c, q, n, t);
    } else if Multiple(c, k, q) == Infinity {
      var r := InverseExists(k, n);
      var t := CongQuotient(r * k, 1, n);
      MultipleMultiple(c, r, k, q);
      TimesInfinity(c, r);
      OrderMultiple(c, q, n, t);
      MultipleAdd(c, 1, t * n, q);
    }
  }

  lemma {:induction false} TimesInfinity(c: Params, k: nat)
    requires IsPrime(c.p)
    ensures Times(c, k, Infinity) == Infinity
  {
    if k > 0 {
      TimesInfinity(c, k - 1);
    }
  }

  lemma OrderMultiple(c: Params, q: Point, n: int, t: int)
    requires Group(c) && HasOrder(c, q, n)
    ensures Multiple(c, t * n, q) == Infinity
  {
    var s := if t >= 0 then t else -t;
    MultipleMultiple(c, s, n, q);
    TimesInfinity(c, s);
    if t < 0 {
      MultipleNegated(c, s * n, q);
      assert -(s * n) == t * n;
    }
  }

  /** Multiples depend on the factor modulo the order only. */
  lemma MultipleRespectsCong(c: Params, q: Point, n: int, k: int, m: int)
    requires Group(c) && HasOrder(c, q, n) && Cong(k, m, n)
    ensures Multiple(c, k, q) == Multiple(c, m, q)
  {
    var t := CongQuotient(k, m, n);
    MultipleAdd(c, m, t * n, q);
    OrderMultiple(c, q, n, t);
    MultipleOnCurve(c, m, q);
  }

  /** Two multiples are equal exactly if their factors are congruent modulo the order. */
  lemma MultiplesEqual(c: Params, q: Point, n: int, k: int, m: int)
    requires Group(c) && HasOrder(c, q, n)
    ensures Multiple(c, k, q) == Multiple(c, m, q) <==> Cong(k, m, n)
  {
    hide Times;
    if Cong(k, m, n) {
      MultipleRespectsCong(c, q, n, k, m);
    } else if Multiple(c, k, q) == Multiple(c, m, q) {
      MultipleAdd(c, k, -m, q);
      MultipleAdd(c, m, -m, q);
      CongIntro(0, 0, 0, n);
      MultipleVanishes(c, q, n, 0);
      MultipleVanishes(c, q, n, k - m);
      CongIntro(m, m, 0, n);
      CongAdd(k - m, 0, m, m, n);
    }
  }

  /** Two multiples have the same abscissa exactly if their factors are congruent up to sign. */
  lemma MultiplesSameX(c: Params, q: Point, n: int, k: int, m: int)
    requires Group(c) && HasOrder(c, q, n) && Multiple(c, k, q).Affine? && Multiple(c, m, q).Affine?
    ensures Multiple(c, k, q).x == Multiple(c, m, q).x <==> Cong(k, m, n) || Cong(k, -m, n)
  {
    hide Cong;
    MultiplesEqual(c, q, n, k, m);
    MultiplesEqual(c, q, n, k, -m);
    MultipleOnCurve(c, k, q);
    MultipleOnCurve(c, m, q);
    MultipleNegated(c, m, q);
    var s, t := Multiple(c, k, q), Multiple(c, m, q);
    if s.x == t.x && s != t {
      SameX(c, s, t);
      OppositeIsNegate(c, t, s);
    }
  }
}
