/** The client's curve arithmetic: affine points over big integers. */
module ClientCurve {
  import opened Wrappers
  import opened Arith
  import opened Curve
  import opened Multiples

  // ---- residues --------------------------------------------------------------------------

  /** The truncating remainder, which takes the sign of the dividend. */
  function Remainder(a: int, m: int): int
    requires m > 0
  {
    if a >= 0 then a % m else -((-a) % m)
  }

  /** mod: the least non-negative residue, although the truncating remainder may be negative. */
  function NonNegative(value: int, modulus: int): (r: int)
    requires modulus > 0
    ensures r == value % modulus
  {
    NonNegativeFacts(value, modulus);
    var reduced := Remainder(value, modulus);
    if reduced >= 0 then reduced else reduced + modulus
  }

  lemma NonNegativeFacts(value: int, modulus: int)
    requires modulus > 0
    ensures value < 0 ==> (-value) % modulus >= 0
    ensures value < 0 && (-value) % modulus == 0 ==> value % modulus == 0
    ensures value < 0 && (-value) % modulus > 0 ==> value % modulus == modulus - (-value) % modulus
  {
    if value < 0 {
      DivMod(-value, modulus);
      var q, r := (-value) / modulus, (-value) % modulus;
      if r == 0 {
        NegatedQuotient(q, modulus);
        DivModUnique(value, modulus, -q, 0);
      } else {
        NegatedQuotient(q + 1, modulus);
        Distribute(q, 1, modulus);
        DivModUnique(value, modulus, -(q + 1), modulus - r);
      }
    }
  }

  lemma NegatedQuotient(q: int, m: int)
    ensures (-q) * m == -(q * m)
  {}

  // ---- the extended Euclidean algorithm --------------------------------------------------

  ghost predicate Divides(d: int, x: int) {
    Cong(x, 0, d)
  }

  /** Common divisors of (a, b) are common divisors of (b, a - q * b). */
  lemma DivisorsKept(d: int, a: int, b: int, q: int)
    ensures Divides(d, a) && Divides(d, b) <==> Divides(d, b) && Divides(d, a - q * b)
  {
    if Divides(d, b) {
      CongMul(q, q, b, 0, d) by { CongIntro(q, q, 0, d); }
      if Divides(d, a) { CongSub(a, 0, q * b, 0, d); }
      if Divides(d, a - q * b) { CongAdd(a - q * b, 0, q * b, 0, d); }
    }
  }

  ghost predicate SameDivisors(a: int, b: int, a': int, b': int) {
    forall d :: Divides(d, a) && Divides(d, b) <==> Divides(d, a') && Divides(d, b')
  }

  lemma EuclidStep(a: int, b: int, r: int, s: int, q: int)
    requires SameDivisors(a, b, r, s)
    ensures SameDivisors(a, b, s, r - q * s)
  {
    forall d ensures Divides(d, a) && Divides(d, b) <==> Divides(d, s) && Divides(d, r - q * s) {
      DivisorsKept(d, r, s, q);
    }
  }

  /** The cofactors alternate in sign; their sizes make up the modulus. */
  ghost predicate Cofactors(t: int, newT: int, r: int, newR: int, modulus: int, even: bool) {
    var p, q := if even then -t else t, if even then newT else -newT;
    p >= 0 && q >= 0 && r * q + newR * p == modulus
  }

  lemma CofactorStep(t: int, newT: int, r: int, newR: int, modulus: int, even: bool, q: nat)
    requires Cofactors(t, newT, r, newR, modulus, even) && 0 < newR < r && r >= q * newR
    ensures Cofactors(newT, t - q * newT, newR, r - q * newR, modulus, !even)
    ensures -modulus < newT < modulus || modulus == 0
  {
    var a, b := if even then -t else t, if even then newT else -newT;
    assert t - q * newT == if even then -(a + q * b) else a + q * b by {
      NegatedQuotient(b, q);
      assert q * (-b) == -(q * b);
    }
    MulPosOrZero(q, b);
    assert newR * (a + q * b) + (r - q * newR) * b == r * b + newR * a by {
      DistributeLeft(newR, a, q * b);
      DistributeSub(r, q * newR, b);
      assert newR * (q * b) == (q * newR) * b;
    }
    MulMono(2, r, b);
    MulPosOrZero(newR, a);
  }

  lemma MulPosOrZero(a: int, b: int)
    requires a >= 0 && b >= 0
    ensures a * b >= 0
  {}

  /** One step of the Bezout relation t * value = r modulo the modulus. */
  lemma BezoutStep(t: int, newT: int, r: int, newR: int, value: int, modulus: int, q: int)
    requires Cong(t * value, r, modulus) && Cong(newT * value, newR, modulus)
    ensures Cong((t - q * newT) * value, r - q * newR, modulus)
  {
    CongIntro(q, q, 0, modulus);
    CongMul(q, q, newT * value, newR, modulus);
    CongSub(t * value, r, q * (newT * value), q * newR, modulus);
    DistributeSub(t, q * newT, value);
    MulAssoc(q, newT, value);
  }

  /** No inverse exists. */
  ghost predicate NotInvertible(value: int, modulus: int) {
    forall w :: !Cong(w * value, 1, modulus)
  }

  /** A common divisor other than 1 rules out an inverse. */
  lemma CommonDivisor(g: int, value: int, modulus: int)
    requires g > 1 && Divides(g, value) && Divides(g, modulus)
    ensures NotInvertible(value, modulus)
  {
    forall w ensures !Cong(w * value, 1, modulus) {
      if Cong(w * value, 1, modulus) {
        var q := CongQuotient(w * value, 1, modulus);
        CongIntro(w, w, 0, g);
        CongIntro(q, q, 0, g);
        CongMul(w, w, value, 0, g);
        CongMul(q, q, modulus, 0, g);
        CongSub(w * value, 0, q * modulus, 0, g);
        CongUnique(1, 0, g);
      }
    }
  }

  /** modInverse: the inverse in range, or none exactly when there is no inverse. */
  method ModInverse(value: int, modulus: int) returns (inverse: Option<int>)
    requires modulus > 0
    ensures inverse.Some? ==> 0 <= inverse.value < modulus && Cong(inverse.value * value, 1, modulus)
    ensures inverse.None? <==> NotInvertible(value, modulus)
  {
    var v := NonNegative(value, modulus);
    CongMod(value, modulus);
    DivMod(value, modulus);
    var t, newT, r, newR := 0, 1, modulus, v;
    ghost var even := true;
    EuclidStart(value, modulus);
    while newR != 0
      invariant 0 <= newR < r && -modulus < t < modulus
      invariant Cong(t * v, r, modulus) && Cong(newT * v, newR, modulus)
      invariant SameDivisors(modulus, v, r, newR)
      invariant Cofactors(t, newT, r, newR, modulus, even)
      decreases newR
    {
      var quotient := r / newR;
      DivMod(r, newR);
      QuotientNonNegative(r, newR);
      CofactorStep(t, newT, r, newR, modulus, even, quotient);
      BezoutStep(t, newT, r, newR, v, modulus, quotient);
      EuclidStep(modulus, v, r, newR, quotient);
      t, newT := newT, t - quotient * newT;
      r, newR := newR, r - quotient * newR;
      even := !even;
    }
    CongIntro(0, 0, 0, r);
    CongIntro(r, 0, 1, r);
    assert Divides(r, modulus) && Divides(r, v);
    if r != 1 {
      CommonDivisor(r, v, modulus);
      NotInvertibleCong(v, value, modulus);
      return None;
    }
    inverse := Some(if t < 0 then t + modulus else t);
    InverseOfResidue(inverse.value, t, v, value, modulus);
  }

  lemma QuotientNonNegative(r: int, s: int)
    requires r >= 0 && s > 0
    ensures r / s >= 0
  {}

  lemma EuclidStart(value: int, modulus: int)
    requires modulus > 0
    ensures var v := value % modulus;
      Cong(0 * v, modulus, modulus) && Cong(1 * v, v, modulus) && Cofactors(0, 1, modulus, v, modulus, true)
  {
    CongIntro(0, modulus, -1, modulus);
    CongIntro(value % modulus, value % modulus, 0, modulus);
  }

  lemma NotInvertibleCong(v: int, value: int, modulus: int)
    requires Cong(v, value, modulus) && NotInvertible(v, modulus)
    ensures NotInvertible(value, modulus)
  {
    forall w ensures !Cong(w * value, 1, modulus) {
      CongIntro(w, w, 0, modulus);
      CongMul(w, w, v, value, modulus);
      assert !Cong(w * v, 1, modulus);
    }
  }

  lemma InverseOfResidue(i: int, t: int, v: int, value: int, modulus: int)
    requires (i == t || i == t + modulus) && Cong(t * v, 1, modulus) && Cong(v, value, modulus)
    ensures Cong(i * value, 1, modulus)
    ensures !NotInvertible(value, modulus)
  {
    CongIntro(i, t, if i == t then 0 else 1, modulus);
    CongMul(i, t, value, v, modulus);
    assert !!Cong(i * value, 1, modulus);
  }

  // ---- points ----------------------------------------------------------------------------

  /** negatePoint */
  method NegatePoint(c: Params, point: Point) returns (r: Point)
    requires ValidParams(c)
    ensures r == Negate(c, point)
  {
    match point
    case Infinity => return point;
    case Affine(x, y) => return Affine(x, NonNegative(-y, c.p));
  }

  /** numerator / denominator; the denominator is never a multiple of the prime here. */
  method Divide(numerator: int, denominator: int, p: int) returns (lambda: int)
    requires IsPrime(p) && !Cong(denominator, 0, p)
    ensures Cong(lambda * denominator, numerator, p)
  {
    var inverse := ModInverse(denominator, p);
    var w := InverseWitness(denominator, p);
    assert inverse.Some?;
    lambda := NonNegative(numerator * inverse.value, p);
    CongMod(numerator * inverse.value, p);
    CongMul(lambda, numerator * inverse.value, denominator, denominator, p) by {
      CongIntro(denominator, denominator, 0, p);
    }
    CongMul(numerator, numerator, inverse.value * denominator, 1, p) by { CongIntro(numerator, numerator, 0, p); }
    MulAssoc(numerator, inverse.value, denominator);
  }

  /** addPoints: the chord-and-tangent sum on a curve with a = 0. */
  method AddPoints(c: Params, lhs: Point, rhs: Point) returns (r: Point)
    requires ValidParams(c) && c.a == 0 && OnCurve(c, lhs) && OnCurve(c, rhs)
    ensures r == Add(c, lhs, rhs) && OnCurve(c, r)
  {
    AddOnCurve(c, lhs, rhs);
    if lhs.Infinity? { return rhs; }
    if rhs.Infinity? { return lhs; }
    CongIsMod(lhs.y + rhs.y, 0, c.p);
    DivModUnique(0, c.p, 0, 0);
    if lhs.x == rhs.x && NonNegative(lhs.y + rhs.y, c.p) == 0 { return Infinity; }
    var lambda;
    if lhs.x == rhs.x && lhs.y == rhs.y {
      if lhs.y == 0 { return Infinity; }
      assert lhs.y + rhs.y == 2 * lhs.y;
      lambda := Divide(3 * lhs.x * lhs.x, 2 * lhs.y, c.p);
    } else {
      if lhs.x == rhs.x { SameX(c, lhs, rhs); }
      DifferentX(c, lhs.x, rhs.x);
      lambda := Divide(rhs.y - lhs.y, rhs.x - lhs.x, c.p);
    }
    SlopeUnique(c, lhs, rhs, lambda);
    var x3 := NonNegative(lambda * lambda - lhs.x - rhs.x, c.p);
    var y3 := NonNegative(lambda * (lhs.x - x3) - lhs.y, c.p);
    return Affine(x3, y3);
  }

  /** scalarMultiply: double and add; fails exactly outside [1, n - 1]. */
  method ScalarMultiply(c: Params, scalar: int, point: Point) returns (r: Option<Point>)
    requires Group(c) && c.a == 0 && OnCurve(c, point)
    ensures r == if 0 < scalar < c.n then Some(Multiple(c, scalar, point)) else None
  {
    if scalar <= 0 || scalar >= c.n { return None; }
    var result, addend, k := Infinity, point, scalar;
    ghost var done, weight := 0, 1;
    assert Times(c, 1, point) == Add(c, Times(c, 0, point), point);
    while k > 0
      invariant k >= 0 && done + k * weight == scalar
      invariant OnCurve(c, result) && result == Multiple(c, done, point)
      invariant OnCurve(c, addend) && (k > 0 ==> addend == Multiple(c, weight, point))
    {
      BinaryStep(k, weight);
      if k % 2 != 0 {
        result := AddPoints(c, result, addend);
        MultipleAdd(c, done, weight, point);
        done := done + weight;
      }
      k := k / 2;
      if k > 0 {
        addend := AddPoints(c, addend, addend);
        MultipleAdd(c, weight, weight, point);
      }
      weight := 2 * weight;
    }
    return Some(result);
  }

  lemma BinaryStep(k: int, w: int)
    ensures k * w == (k % 2) * w + (k / 2) * (2 * w)
  {
    assert k == k % 2 + 2 * (k / 2);
    Distribute(k % 2, 2 * (k / 2), w);
  }
}
