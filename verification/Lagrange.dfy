/** Polynomials over GF(2^8) and Lagrange interpolation as the share recombination computes it. */
module Lagrange {
  import opened Gf256

  /** The value at x of the polynomial with coefficients p, lowest degree first. */
  function Eval(p: seq<Elem>, x: Elem): Elem {
    if |p| == 0 then ZERO else Plus(p[0], Mul(x, Eval(p[1..], x)))
  }

  predicate Distinct(xs: seq<Elem>) {
    forall i, j :: 0 <= i < j < |xs| ==> xs[i] != xs[j]
  }

  // ---- polynomial arithmetic -------------------------------------------------------------

  function Sum(p: seq<Elem>, q: seq<Elem>): (r: seq<Elem>)
    requires |p| == |q|
    ensures |r| == |p|
  {
    if |p| == 0 then [] else [Plus(p[0], q[0])] + Sum(p[1..], q[1..])
  }

  lemma {:induction false} EvalSum(p: seq<Elem>, q: seq<Elem>, x: Elem)
    requires |p| == |q|
    ensures Eval(Sum(p, q), x) == Plus(Eval(p, x), Eval(q, x))
  {
    hide Mul, Plus;
    if |p| == 0 {
      PlusZero(ZERO);
    } else {
      assert Sum(p, q)[1..] == Sum(p[1..], q[1..]);
      EvalSum(p[1..], q[1..], x);
      var u, v := Eval(p[1..], x), Eval(q[1..], x);
      AddRight(x, u, v);
      Regroup(p[0], q[0], Mul(x, u), Mul(x, v));
    }
  }

  function Scale(p: seq<Elem>, c: Elem): (r: seq<Elem>)
    ensures |r| == |p|
  {
    if |p| == 0 then [] else [Mul(c, p[0])] + Scale(p[1..], c)
  }

  lemma {:induction false} EvalScale(p: seq<Elem>, c: Elem, x: Elem)
    ensures Eval(Scale(p, c), x) == Mul(c, Eval(p, x))
  {
    hide Mul, Plus;
    ZeroRight(c);
    if |p| > 0 {
      assert Scale(p, c)[1..] == Scale(p[1..], c);
      EvalScale(p[1..], c, x);
      var u := Eval(p[1..], x);
      AddRight(c, p[0], Mul(x, u));
      Swap(x, c, u);
    }
  }

  /** (t + r) * p(t) */
  function TimesLinear(p: seq<Elem>, r: Elem): (q: seq<Elem>)
    ensures |q| == |p| + 1
  {
    Sum([ZERO] + p, Scale(p, r) + [ZERO])
  }

  lemma {:induction false} EvalPadded(p: seq<Elem>, x: Elem)
    ensures Eval(p + [ZERO], x) == Eval(p, x)
  {
    if |p| == 0 {
      assert ([] + [ZERO])[1..] == [];
      PlusZero(ZERO);
    } else {
      assert (p + [ZERO])[1..] == p[1..] + [ZERO];
      EvalPadded(p[1..], x);
    }
  }

  lemma EvalTimesLinear(p: seq<Elem>, r: Elem, x: Elem)
    ensures Eval(TimesLinear(p, r), x) == Mul(Plus(x, r), Eval(p, x))
  {
    EvalSum([ZERO] + p, Scale(p, r) + [ZERO], x);
    assert ([ZERO] + p)[1..] == p;
    PlusZero(Mul(x, Eval(p, x)));
    EvalPadded(Scale(p, r), x);
    EvalScale(p, r, x);
    AddLeft(x, r, Eval(p, x));
  }

  /** Synthetic division by t + r. */
  function Quotient(p: seq<Elem>, r: Elem): (q: seq<Elem>)
    requires |p| > 0
    ensures |q| == |p| - 1
  {
    if |p| == 1 then [] else [Eval(p[1..], r)] + Quotient(p[1..], r)
  }

  /** p(t) = (t + r) * q(t) + p(r) */
  lemma {:induction false} QuotientIs(p: seq<Elem>, r: Elem, t: Elem)
    requires |p| > 0
    ensures Eval(p, t) == Plus(Mul(Plus(t, r), Eval(Quotient(p, r), t)), Eval(p, r))
  {
    hide Mul, Plus;
    ZeroRight(Plus(t, r));
    if |p| == 1 {
      assert p[1..] == [];
      ZeroRight(t);
      ZeroRight(r);
      PlusZero(p[0]);
    } else {
      var p', q' := p[1..], Quotient(p[1..], r);
      QuotientIs(p', r, t);
      assert Quotient(p, r)[1..] == q';
      QuotientStep(p[0], t, r, Eval(p', t), Eval(q', t), Eval(p', r));
    }
  }

  lemma QuotientStep(c: Elem, t: Elem, r: Elem, pt: Elem, qt: Elem, pr: Elem)
    requires pt == Plus(Mul(Plus(t, r), qt), pr)
    ensures Plus(c, Mul(t, pt)) == Plus(Mul(Plus(t, r), Plus(pr, Mul(t, qt))), Plus(c, Mul(r, pr)))
  {
    var d := Plus(t, r);
    AddRight(t, Mul(d, qt), pr);
    Swap(t, d, qt);
    AddRight(d, pr, Mul(t, qt));
    AddLeft(t, r, pr);
    Cancelled(c, Mul(t, pr), Mul(r, pr), Mul(d, Mul(t, qt)));
  }

  lemma Cancelled(c: Elem, a: Elem, b: Elem, e: Elem)
    ensures Plus(c, Plus(e, a)) == Plus(Plus(Plus(a, b), e), Plus(c, b))
  {}

  /** A polynomial with at least as many distinct roots as coefficients vanishes everywhere. */
  lemma {:induction false} ManyRoots(p: seq<Elem>, roots: seq<Elem>, x: Elem)
    requires |roots| >= |p| && Distinct(roots)
    requires forall i :: 0 <= i < |roots| ==> Eval(p, roots[i]) == ZERO
    ensures Eval(p, x) == ZERO
    decreases |p|
  {
    hide Mul, Plus;
    if |p| > 0 { ZeroRight(Plus(x, roots[|roots| - 1])); }
    if |p| > 0 {
      var n := |roots| - 1;
      var r, rest, q := roots[n], roots[..n], Quotient(p, roots[n]);
      forall i | 0 <= i < n ensures Eval(q, rest[i]) == ZERO {
        QuotientIs(p, r, roots[i]);
        PlusZero(Mul(Plus(roots[i], r), Eval(q, roots[i])));
        ZeroProduct(Plus(roots[i], r), Eval(q, roots[i]));
        PlusCommutes(roots[i], r);
      }
      ManyRoots(q, rest, x);
      QuotientIs(p, r, x);
      PlusZero(ZERO);
    }
  }

  // ---- products of differences -----------------------------------------------------------

  /** start times the differences of x to the first n points, leaving out point i. */
  function Product(start: Elem, xs: seq<Elem>, i: int, x: Elem, n: nat): Elem
    requires n <= |xs|
  {
    if n == 0 then start
    else if n - 1 == i then Product(start, xs, i, x, n - 1)
    else Mul(Product(start, xs, i, x, n - 1), Plus(x, xs[n - 1]))
  }

  lemma {:induction false} ProductStart(start: Elem, xs: seq<Elem>, i: int, x: Elem, n: nat)
    requires n <= |xs|
    ensures Product(start, xs, i, x, n) == Mul(start, Product(ONE, xs, i, x, n))
  {
    hide Mul, Plus;
    if n == 0 {
      MulCommutes(start, ONE);
      OneLeft(start);
    } else {
      ProductStart(start, xs, i, x, n - 1);
      if n - 1 != i {
        MulAssociates(start, Product(ONE, xs, i, x, n - 1), Plus(x, xs[n - 1]));
      }
    }
  }

  /** The full product is the product without point i times the difference to point i. */
  lemma {:induction false} ProductWith(xs: seq<Elem>, i: nat, x: Elem, n: nat)
    requires i < n <= |xs|
    ensures Product(ONE, xs, -1, x, n) == Mul(Plus(x, xs[i]), Product(ONE, xs, i, x, n))
  {
    hide Mul, Plus;
    if n - 1 == i {
      ProductSame(xs, i, x, i);
      MulCommutes(Product(ONE, xs, i, x, i), Plus(x, xs[i]));
    } else {
      ProductWith(xs, i, x, n - 1);
      MulAssociates(Plus(x, xs[i]), Product(ONE, xs, i, x, n - 1), Plus(x, xs[n - 1]));
      assert Product(ONE, xs, i, x, n) == Mul(Product(ONE, xs, i, x, n - 1), Plus(x, xs[n - 1]));
      assert Product(ONE, xs, -1, x, n) == Mul(Product(ONE, xs, -1, x, n - 1), Plus(x, xs[n - 1]));
    }
  }

  lemma {:induction false} ProductSame(xs: seq<Elem>, i: nat, x: Elem, n: nat)
    requires n <= i && n <= |xs|
    ensures Product(ONE, xs, i, x, n) == Product(ONE, xs, -1, x, n)
  {
    if n > 0 { ProductSame(xs, i, x, n - 1); }
  }

  /** A product of differences vanishes exactly if x is one of the points (or the start is 0). */
  lemma {:induction false} ProductVanishes(start: Elem, xs: seq<Elem>, i: int, x: Elem, n: nat)
    requires n <= |xs|
    ensures Product(start, xs, i, x, n) == ZERO <==> start == ZERO || exists j :: 0 <= j < n && j != i && xs[j] == x
  {
    hide Mul, Plus;
    if n > 0 { ZeroRight(Product(start, xs, i, x, n - 1)); }
    if n > 0 {
      ProductVanishes(start, xs, i, x, n - 1);
      if n - 1 != i {
        var p, d := Product(start, xs, i, x, n - 1), Plus(x, xs[n - 1]);
        PlusCommutes(x, xs[n - 1]);
        if Mul(p, d) == ZERO { ZeroProduct(p, d); }
        ZeroLeft(d);
      }
    }
  }

  // ---- interpolation ---------------------------------------------------------------------

  /** The denominator of basis polynomial i, apart from the factor x - x_i. */
  function Denominator(xs: seq<Elem>, i: nat): Elem
    requires i < |xs|
  {
    Product(ONE, xs, i, xs[i], |xs|)
  }

  /** Basis polynomial i at x. */
  function Basis(xs: seq<Elem>, i: nat, x: Elem): Elem
    requires i < |xs|
  {
    Mul(Inverse(Denominator(xs, i)), Product(ONE, xs, i, x, |xs|))
  }

  /** The sum of the first n values, each times its coefficient. */
  function Combination(bs: seq<Elem>, ys: seq<Elem>, n: nat): Elem
    requires n <= |bs| == |ys|
  {
    if n == 0 then ZERO else Plus(Combination(bs, ys, n - 1), Mul(bs[n - 1], ys[n - 1]))
  }

  function BasisAt(xs: seq<Elem>, x: Elem): (bs: seq<Elem>)
    ensures |bs| == |xs|
  {
    seq(|xs|, i requires 0 <= i < |xs| => Basis(xs, i, x))
  }

  /** The interpolant at x. */
  function Interpolated(xs: seq<Elem>, ys: seq<Elem>, x: Elem): Elem
    requires |xs| == |ys|
  {
    Combination(BasisAt(xs, x), ys, |xs|)
  }

  lemma DenominatorNotZero(xs: seq<Elem>, i: nat)
    requires i < |xs|
    ensures Denominator(xs, i) == ZERO <==> exists j :: 0 <= j < |xs| && j != i && xs[j] == xs[i]
  {
    ProductVanishes(ONE, xs, i, xs[i], |xs|);
  }

  /** At the points the basis polynomials are 0 and 1. */
  lemma BasisAtPoint(xs: seq<Elem>, i: nat, k: nat)
    requires i < |xs| && k < |xs| && Distinct(xs)
    ensures Basis(xs, i, xs[k]) == if i == k then ONE else ZERO
  {
    DenominatorNotZero(xs, i);
    ProductVanishes(ONE, xs, i, xs[k], |xs|);
    if i == k {
      InverseIs(Denominator(xs, i));
      MulCommutes(Inverse(Denominator(xs, i)), Denominator(xs, i));
    } else {
      assert xs[k] == xs[k];
    }
  }

  lemma ScaledUnit(y: Elem)
    ensures Mul(ONE, y) == y && Mul(ZERO, y) == ZERO && Plus(y, ZERO) == y && Plus(ZERO, y) == y
  {
    OneLeft(y);
    ZeroLeft(y);
    PlusZero(y);
  }

  lemma PickStep(sum: Elem, b: Elem, y: Elem, z: Elem, before: bool, at: bool)
    requires b == (if at then ONE else ZERO) && sum == (if before || at then ZERO else z) && (at ==> y == z)
    ensures Plus(sum, Mul(b, y)) == if before && !at then ZERO else z
  {
    ScaledUnit(y);
    ScaledUnit(z);
    ScaledUnit(ZERO);
  }

  /** Unit coefficients pick one value. */
  lemma {:induction false} CombinationPicks(bs: seq<Elem>, ys: seq<Elem>, k: nat, n: nat)
    requires k < |bs| == |ys| && n <= |bs|
    requires forall i :: 0 <= i < |bs| ==> bs[i] == if i == k then ONE else ZERO
    ensures Combination(bs, ys, n) == if k < n then ys[k] else ZERO
  {
    hide Mul, Plus;
    if n > 0 {
      CombinationPicks(bs, ys, k, n - 1);
      PickStep(Combination(bs, ys, n - 1), bs[n - 1], ys[n - 1], ys[k], n - 1 < k, n - 1 == k);
    }
  }

  /** So the interpolant goes through the points. */
  lemma InterpolatedAtPoint(xs: seq<Elem>, ys: seq<Elem>, k: nat)
    requires k < |xs| == |ys| && Distinct(xs)
    ensures Interpolated(xs, ys, xs[k]) == ys[k]
  {
    forall i | 0 <= i < |xs| ensures BasisAt(xs, xs[k])[i] == if i == k then ONE else ZERO {
      BasisAtPoint(xs, i, k);
    }
    CombinationPicks(BasisAt(xs, xs[k]), ys, k, |xs|);
  }

  /** The coefficients of a product of differences. */
  function ProductPoly(xs: seq<Elem>, i: int, n: nat): (p: seq<Elem>)
    requires n <= |xs|
    ensures |p| == 1 + n - (if 0 <= i < n then 1 else 0)
  {
    if n == 0 then [ONE]
    else if n - 1 == i then ProductPoly(xs, i, n - 1)
    else TimesLinear(ProductPoly(xs, i, n - 1), xs[n - 1])
  }

  lemma EvalOne(x: Elem)
    ensures Eval([ONE], x) == ONE
  {
    assert [ONE][1..] == [];
    PlusZero(ONE);
  }

  lemma EvalFactor(p: seq<Elem>, r: Elem, x: Elem, v: Elem)
    requires Eval(p, x) == v
    ensures Eval(TimesLinear(p, r), x) == Mul(v, Plus(x, r))
  {
    EvalTimesLinear(p, r, x);
    MulCommutes(Plus(x, r), v);
  }

  lemma {:induction false} EvalProductPoly(xs: seq<Elem>, i: int, n: nat, x: Elem)
    requires n <= |xs|
    ensures Eval(ProductPoly(xs, i, n), x) == Product(ONE, xs, i, x, n)
  {
    hide Mul, Plus;
    if n == 0 {
      EvalOne(x);
    } else {
      EvalProductPoly(xs, i, n - 1, x);
      if n - 1 != i {
        EvalFactor(ProductPoly(xs, i, n - 1), xs[n - 1], x, Product(ONE, xs, i, x, n - 1));
      }
    }
  }

  /** One scaled basis polynomial. */
  function TermPoly(xs: seq<Elem>, y: Elem, i: nat): (p: seq<Elem>)
    requires i < |xs|
    ensures |p| == |xs|
  {
    Scale(Scale(ProductPoly(xs, i, |xs|), Inverse(Denominator(xs, i))), y)
  }

  /** The sum of the first n of several polynomials of length m. */
  function SumPoly(ps: seq<seq<Elem>>, m: nat, n: nat): (p: seq<Elem>)
    requires n <= |ps| && forall i :: 0 <= i < |ps| ==> |ps[i]| == m
    ensures |p| == m
  {
    if n == 0 then seq(m, _ => ZERO) else Sum(SumPoly(ps, m, n - 1), ps[n - 1])
  }

  function TermPolys(xs: seq<Elem>, ys: seq<Elem>): (ps: seq<seq<Elem>>)
    requires |xs| == |ys|
    ensures |ps| == |xs| && forall i :: 0 <= i < |ps| ==> |ps[i]| == |xs|
  {
    seq(|xs|, i requires 0 <= i < |xs| => TermPoly(xs, ys[i], i))
  }

  /** The interpolant as a polynomial with as many coefficients as there are points. */
  function InterpolatedPoly(xs: seq<Elem>, ys: seq<Elem>): (p: seq<Elem>)
    requires |xs| == |ys|
    ensures |p| == |xs|
  {
    SumPoly(TermPolys(xs, ys), |xs|, |xs|)
  }

  lemma {:induction false} EvalZeros(n: nat, x: Elem)
    ensures Eval(seq(n, _ => ZERO), x) == ZERO
  {
    if n > 0 {
      assert seq(n, _ => ZERO)[1..] == seq(n - 1, _ => ZERO);
      EvalZeros(n - 1, x);
      PlusZero(ZERO);
    }
  }

  lemma EvalTerm(xs: seq<Elem>, y: Elem, i: nat, x: Elem)
    requires i < |xs|
    ensures Eval(TermPoly(xs, y, i), x) == Mul(Basis(xs, i, x), y)
  {
    var p, d := ProductPoly(xs, i, |xs|), Inverse(Denominator(xs, i));
    EvalScale(Scale(p, d), y, x);
    EvalScale(p, d, x);
    EvalProductPoly(xs, i, |xs|, x);
    MulCommutes(y, Basis(xs, i, x));
  }

  lemma {:induction false} EvalSumPoly(ps: seq<seq<Elem>>, bs: seq<Elem>, ys: seq<Elem>, m: nat, n: nat, x: Elem)
    requires n <= |ps| == |bs| == |ys| && forall i :: 0 <= i < |ps| ==> |ps[i]| == m
    requires forall i :: 0 <= i < |ps| ==> Eval(ps[i], x) == Mul(bs[i], ys[i])
    ensures Eval(SumPoly(ps, m, n), x) == Combination(bs, ys, n)
  {
    hide Mul, Plus;
    if n == 0 {
      EvalZeros(m, x);
    } else {
      EvalSumPoly(ps, bs, ys, m, n - 1, x);
      EvalSum(SumPoly(ps, m, n - 1), ps[n - 1], x);
    }
  }

  lemma EvalInterpolatedPoly(xs: seq<Elem>, ys: seq<Elem>, x: Elem)
    requires |xs| == |ys|
    ensures Eval(InterpolatedPoly(xs, ys), x) == Interpolated(xs, ys, x)
  {
    forall i | 0 <= i < |xs| ensures Eval(TermPolys(xs, ys)[i], x) == Mul(BasisAt(xs, x)[i], ys[i]) {
      EvalTerm(xs, ys[i], i, x);
    }
    EvalSumPoly(TermPolys(xs, ys), BasisAt(xs, x), ys, |xs|, |xs|, x);
  }

  /** Interpolating the values of a polynomial with no more coefficients than points gives the polynomial. */
  lemma InterpolationExact(p: seq<Elem>, xs: seq<Elem>, ys: seq<Elem>, x: Elem)
    requires |p| <= |xs| == |ys| && Distinct(xs)
    requires forall i :: 0 <= i < |xs| ==> ys[i] == Eval(p, xs[i])
    ensures Interpolated(xs, ys, x) == Eval(p, x)
    decreases |xs| - |p|
  {
    hide Mul, Plus, Eval, Interpolated;
    if |p| < |xs| {
      forall i | 0 <= i < |xs| ensures ys[i] == Eval(p + [ZERO], xs[i]) { EvalPadded(p, xs[i]); }
      EvalPadded(p, x);
      InterpolationExact(p + [ZERO], xs, ys, x);
      return;
    }
    var q := InterpolatedPoly(xs, ys);
    forall i | 0 <= i < |xs| ensures Eval(Sum(p, q), xs[i]) == ZERO {
      EvalSum(p, q, xs[i]);
      EvalInterpolatedPoly(xs, ys, xs[i]);
      InterpolatedAtPoint(xs, ys, i);
      PlusZero(ys[i]);
    }
    ManyRoots(Sum(p, q), xs, x);
    EvalSum(p, q, x);
    EvalInterpolatedPoly(xs, ys, x);
    PlusCommutes(Eval(p, x), Eval(q, x));
  }
}
