/** shamir_interpolate: the secret from any number of shares, in all lanes at once. */
module Recombine {
  import opened Arith
  import opened Bits
  import opened Gf256
  import opened BitSlice
  import opened Lagrange
  import opened Shamir

  /** The field elements of a byte string. */
  function Elems(s: seq<uint8>): (r: seq<Elem>)
    ensures |r| == |s| && forall i :: 0 <= i < |r| ==> r[i] == ElemOf(s[i])
  {
    seq(|s|, i requires 0 <= i < |s| => ElemOf(s[i]))
  }

  /** Byte l of every share, 0 beyond the length of the secret. */
  function LaneValues(values: seq<seq<uint8>>, len: nat, l: nat): (r: seq<Elem>)
    requires forall i :: 0 <= i < |values| ==> len <= |values[i]|
    ensures |r| == |values|
    ensures forall i :: 0 <= i < |r| ==> r[i] == if l < len then ElemOf(values[i][l]) else ZERO
  {
    seq(|values|, i requires 0 <= i < |values| => if l < len then ElemOf(values[i][l]) else ZERO)
  }

  ghost predicate AllLanes(r: array<uint32>, e: Elem)
    reads r
  {
    r.Length == 8 && forall l :: 0 <= l < 32 ==> Lane(r[..], l) == e
  }

  /** The indices, one array each, the same in all lanes. */
  ghost predicate IndexSlices(xs: seq<array<uint32>>, es: seq<Elem>)
    reads xs
  {
    |xs| == |es| && forall i :: 0 <= i < |xs| ==> AllLanes(xs[i], es[i])
  }

  /** The share values, one array each. */
  ghost predicate ValueSlices(ys: seq<array<uint32>>, values: seq<seq<uint8>>, len: nat)
    requires forall i :: 0 <= i < |values| ==> len <= |values[i]|
    reads ys
  {
    && |ys| == |values| && (forall i :: 0 <= i < |ys| ==> ys[i].Length == 8)
    && forall i, l :: 0 <= i < |ys| && 0 <= l < 32 ==> Lane(ys[i][..], l) == LaneValues(values, len, l)[i]
  }

  // ---- what one lane computes ------------------------------------------------------------

  /** The contribution of share i: the special case for a share index equal to the result index included. */
  function Term(xs: seq<Elem>, y: Elem, x: Elem, i: nat): Elem
    requires i < |xs|
  {
    var num := Product(ONE, xs, -1, x, |xs|);
    var start := if xs[i] != x then Plus(x, xs[i]) else ONE;
    var tmp := Mul(Mul(Inverse(Product(start, xs, i, xs[i], |xs|)), num), y);
    if xs[i] != x then tmp else Plus(y, tmp)
  }

  function Terms(xs: seq<Elem>, ys: seq<Elem>, x: Elem, n: nat): Elem
    requires n <= |xs| == |ys|
  {
    if n == 0 then ZERO else Plus(Terms(xs, ys, x, n - 1), Term(xs, ys[n - 1], x, n - 1))
  }

  /** (d * w)^-1 * (d * v) = w^-1 * v */
  lemma CancelFactor(d: Elem, w: Elem, v: Elem)
    requires d != ZERO && w != ZERO
    ensures Mul(Inverse(Mul(d, w)), Mul(d, v)) == Mul(Inverse(w), v)
  {
    hide Mul, Inverse;
    if Mul(d, w) == ZERO { ZeroProduct(d, w); }
    InverseIs(Mul(d, w));
    InverseIs(w);
    // (d*w) * (left - right) = 0
    var i, j := Inverse(Mul(d, w)), Inverse(w);
    MulAssociates(Mul(d, w), i, Mul(d, v));
    OneLeft(Mul(d, v));
    MulAssociates(d, w, Mul(j, v));
    MulAssociates(w, j, v);
    OneLeft(v);
    SameMultiple(Mul(d, w), Mul(i, Mul(d, v)), Mul(j, v));
  }

  lemma SameMultiple(c: Elem, a: Elem, b: Elem)
    requires c != ZERO && Mul(c, a) == Mul(c, b)
    ensures a == b
  {
    hide Mul;
    AddRight(c, a, b);
    PlusZero(Mul(c, a));
    ZeroProduct(c, Plus(a, b));
    PlusCommutes(a, b);
  }

  /** Every contribution is the basis polynomial times the value, special case included. */
  lemma TermIs(xs: seq<Elem>, y: Elem, x: Elem, i: nat)
    requires i < |xs| && Distinct(xs)
    ensures Term(xs, y, x, i) == Mul(Basis(xs, i, x), y)
  {
    hide Mul, Inverse;
    var v, w := Product(ONE, xs, i, x, |xs|), Denominator(xs, i);
    ProductWith(xs, i, x, |xs|);
    DenominatorNotZero(xs, i);
    if xs[i] != x {
      PlusCommutes(x, xs[i]);
      ProductStart(Plus(x, xs[i]), xs, i, xs[i], |xs|);
      CancelFactor(Plus(x, xs[i]), w, v);
    } else {
      PlusZero(x);
      ZeroLeft(v);
      ZeroRight(Inverse(w));
      ZeroLeft(y);
      PlusZero(y);
      BasisAtPoint(xs, i, i);
      OneLeft(y);
    }
  }

  lemma {:induction false} TermsAre(xs: seq<Elem>, ys: seq<Elem>, x: Elem, n: nat)
    requires n <= |xs| == |ys| && Distinct(xs)
    ensures Terms(xs, ys, x, n) == Combination(BasisAt(xs, x), ys, n)
  {
    hide Mul, Plus, Term, Basis;
    if n > 0 {
      TermsAre(xs, ys, x, n - 1);
      TermIs(xs, ys[n - 1], x, n - 1);
    }
  }

  // ---- the method ------------------------------------------------------------------------

  method SliceIndices(indices: seq<uint8>) returns (xs: seq<array<uint32>>)
    ensures IndexSlices(xs, Elems(indices)) && forall i :: 0 <= i < |xs| ==> fresh(xs[i])
  {
    xs := [];
    while |xs| < |indices|
      invariant |xs| <= |indices| && forall i :: 0 <= i < |xs| ==> fresh(xs[i]) && AllLanes(xs[i], ElemOf(indices[i]))
    {
      var r := new uint32[8];
      BitsliceSetAll(r, indices[|xs|]);
      assert AllLanes(r, ElemOf(indices[|xs|]));
      xs := xs + [r];
    }
  }

  method SliceValues(values: seq<seq<uint8>>, len: nat) returns (ys: seq<array<uint32>>)
    requires len <= 32 && forall i :: 0 <= i < |values| ==> len <= |values[i]|
    ensures ValueSlices(ys, values, len) && forall i :: 0 <= i < |ys| ==> fresh(ys[i])
  {
    ys := [];
    while |ys| < |values|
      invariant |ys| <= |values| && forall i :: 0 <= i < |ys| ==> fresh(ys[i]) && ys[i].Length == 8
      invariant forall i, l :: 0 <= i < |ys| && 0 <= l < 32 ==> Lane(ys[i][..], l) == LaneValues(values, len, l)[i]
    {
      var r := new uint32[8];
      BitsliceBytes(r, values[|ys|], len);
      ys := ys + [r];
    }
  }

  /** num = the product of x - x_i over all shares. */
  method Numerator(x: array<uint32>, xs: seq<array<uint32>>, ghost ex: Elem, ghost es: seq<Elem>)
      returns (num: array<uint32>)
    requires AllLanes(x, ex) && IndexSlices(xs, es)
    ensures fresh(num) && AllLanes(num, Product(ONE, es, -1, ex, |es|))
  {
    hide Mul, Plus, Lane;
    num := new uint32[8](_ => 0);
    var tmp := new uint32[8];
    BitsliceSetAll(num, 1);
    ElemOfOne();
    var i := 0;
    while i < |xs|
      invariant 0 <= i <= |xs| && AllLanes(num, Product(ONE, es, -1, ex, i))
    {
      MultiplyDifference(num, tmp, x, xs[i], ex, es[i], Product(ONE, es, -1, ex, i));
      i := i + 1;
    }
  }

  lemma ElemOfOne()
    ensures ElemOf(1) == ONE
  {
    assert Bit(1, 0);
    BitZero(0);
    BitZero(1);
    BitZero(2);
    BitZero(3);
    BitZero(4);
    BitZero(5);
    BitZero(6);
  }

  /** r := r * (a - b) */
  method MultiplyDifference(r: array<uint32>, tmp: array<uint32>, a: array<uint32>, b: array<uint32>,
                            ghost ea: Elem, ghost eb: Elem, ghost e: Elem)
    requires AllLanes(r, e) && AllLanes(a, ea) && AllLanes(b, eb)
    requires tmp.Length == 8 && tmp != r && tmp != a && tmp != b && r != a && r != b
    modifies r, tmp
    ensures AllLanes(r, Mul(e, Plus(ea, eb))) && AllLanes(a, ea) && AllLanes(b, eb)
  {
    CopyWords(tmp, a);
    GfAdd(tmp, b);
    GfMul(r, r, tmp);
  }

  /** denom = start times the product of x_i - x_j over the other shares. */
  method ComputeDenominator(denom: array<uint32>, tmp: array<uint32>, xs: seq<array<uint32>>, i: nat,
                            ghost start: Elem, ghost es: seq<Elem>)
    requires IndexSlices(xs, es) && i < |xs| && AllLanes(denom, start) && tmp.Length == 8 && tmp != denom
    requires denom !in xs && tmp !in xs
    modifies denom, tmp
    ensures AllLanes(denom, Product(start, es, i, es[i], |es|))
  {
    var j := 0;
    while j < |xs|
      invariant 0 <= j <= |xs| && AllLanes(denom, Product(start, es, i, es[i], j)) && IndexSlices(xs, es)
    {
      if i != j {
        MultiplyDifference(denom, tmp, xs[i], xs[j], es[i], es[j], Product(start, es, i, es[i], j));
      }
      j := j + 1;
    }
  }

  /** Testing the words for zero tests the element. */
  method WordsAreZero(r: array<uint32>, ghost e: Elem) returns (zero: bool)
    requires AllLanes(r, e)
    ensures zero <==> e == ZERO
  {
    zero := r[0] == 0 && r[1] == 0 && r[2] == 0 && r[3] == 0 && r[4] == 0 && r[5] == 0 && r[6] == 0 && r[7] == 0;
    BitZero(0);
    assert Lane(r[..], 0) == e;
    if e == ZERO {
      forall k | 0 <= k < 8 ensures r[k] == 0 {
        WordIsZero(r, k);
      }
    }
  }

  lemma WordIsZero(r: array<uint32>, k: nat)
    requires AllLanes(r, ZERO) && k < 8
    ensures r[k] == 0
  {
    TwoPowers();
    forall l | 0 <= l < 32 ensures Bit(r[k], l) == Bit(0, l) {
      BitZero(l);
      assert Lane(r[..], l) == ZERO;
      LaneBit(r[..], k, l);
    }
    BitsDetermine(r[k], 0, 32);
  }

  /** Lane l of the running secret. */
  ghost predicate SecretSoFar(secret: array<uint32>, es: seq<Elem>, values: seq<seq<uint8>>, len: nat, ex: Elem, n: nat)
    requires n <= |es| == |values| && forall i :: 0 <= i < |values| ==> len <= |values[i]|
    reads secret
  {
    && secret.Length == 8
    && forall l :: 0 <= l < 32 ==> Lane(secret[..], l) == Terms(es, LaneValues(values, len, l), ex, n)
  }

  /** Prepares the denominator; for the special case the share value goes straight into the secret. */
  method StartTerm(denom: array<uint32>, secret: array<uint32>, x: array<uint32>, xi: array<uint32>, yi: array<uint32>,
                   special: bool, ghost ex: Elem, ghost ei: Elem)
    requires AllLanes(x, ex) && AllLanes(xi, ei) && denom.Length == secret.Length == yi.Length == 8
    requires denom != secret && denom !in [x, xi, yi] && secret !in [x, xi, yi]
    modifies denom, secret
    ensures AllLanes(denom, if special then ONE else Plus(ex, ei))
    ensures forall l :: 0 <= l < 32 ==>
      Lane(secret[..], l) ==
        if special then Plus(old(Lane(secret[..], l)), Lane(yi[..], l)) else old(Lane(secret[..], l))
  {
    if !special {
      CopyWords(denom, x);
      GfAdd(denom, xi);
    } else {
      BitsliceSetAll(denom, 1);
      ElemOfOne();
      GfAdd(secret, yi);
    }
  }

  /** tmp = num * y_i / denom, added to the secret. */
  method FinishTerm(denom: array<uint32>, tmp: array<uint32>, num: array<uint32>, yi: array<uint32>,
                    secret: array<uint32>,
                    ghost d: Elem, ghost n: Elem)
    requires AllLanes(denom, d) && AllLanes(num, n) && tmp.Length == yi.Length == secret.Length == 8
    requires tmp !in [denom, num, yi, secret] && secret !in [denom, num, yi]
    modifies tmp, secret
    ensures forall l :: 0 <= l < 32 ==>
      Lane(secret[..], l) == Plus(old(Lane(secret[..], l)), Mul(Mul(Inverse(d), n), Lane(yi[..], l)))
  {
    hide Lane, Mul, Inverse;
    GfInv(tmp, denom);
    GfMul(tmp, tmp, num);
    GfMul(tmp, tmp, yi);
    GfAdd(secret, tmp);
  }

  /** The invertible case ends the loop early exactly when the index of share i occurs twice. */
  lemma DenominatorTest(es: seq<Elem>, ex: Elem, i: nat)
    requires i < |es|
    ensures Product(if es[i] == ex then ONE else Plus(ex, es[i]), es, i, es[i], |es|) == ZERO
      <==> exists j :: 0 <= j < |es| && j != i && es[j] == es[i]
  {
    PlusCommutes(ex, es[i]);
    ProductVanishes(if es[i] == ex then ONE else Plus(ex, es[i]), es, i, es[i], |es|);
  }

  /** Share i does not repeat the index of another share. */
  ghost predicate Unrepeated(es: seq<Elem>, i: nat)
    requires i < |es|
  {
    forall j :: 0 <= j < |es| && j != i ==> es[j] != es[i]
  }

  /** The sliced inputs and the common numerator, which the loop only reads. */
  ghost predicate Ready(x: array<uint32>, xs: seq<array<uint32>>, ys: seq<array<uint32>>, num: array<uint32>,
                        ex: Elem, es: seq<Elem>, values: seq<seq<uint8>>, len: nat)
    requires |es| == |values| && forall k :: 0 <= k < |values| ==> len <= |values[k]|
    reads x, xs, ys, num
  {
    && AllLanes(x, ex) && IndexSlices(xs, es) && ValueSlices(ys, values, len)
    && AllLanes(num, Product(ONE, es, -1, ex, |es|))
  }

  method AddShare(i: nat, x: array<uint32>, xs: seq<array<uint32>>, ys: seq<array<uint32>>, num: array<uint32>,
                  denom: array<uint32>, tmp: array<uint32>, secret: array<uint32>, special: bool,
                  ghost ex: Elem, ghost es: seq<Elem>,
                  ghost values: seq<seq<uint8>>, ghost len: nat)
      returns (ok: bool)
    requires |es| == |values| && i < |es| && forall k :: 0 <= k < |values| ==> len <= |values[k]|
    requires Ready(x, xs, ys, num, ex, es, values, len) && special == (es[i] == ex)
    requires denom.Length == tmp.Length == 8 && SecretSoFar(secret, es, values, len, ex, i)
    requires denom !in xs + ys + [x, num, tmp, secret] && tmp !in xs + ys + [x, num, secret]
    requires secret !in xs + ys + [x, num]
    modifies denom, tmp, secret
    ensures ok <==> Unrepeated(es, i)
    ensures ok ==> SecretSoFar(secret, es, values, len, ex, i + 1)
    ensures Ready(x, xs, ys, num, ex, es, values, len)
  {
    hide Product, Mul, Inverse, Plus, Terms, Lane;
    ghost var before := secret[..];
    var zero := PrepareTerm(denom, tmp, secret, x, xs, ys[i], i, special, ex, es);
    if zero { return false; }
    ghost var d := Product(if special then ONE else Plus(ex, es[i]), es, i, es[i], |es|);
    ghost var n := Product(ONE, es, -1, ex, |es|);
    FinishTerm(denom, tmp, num, ys[i], secret, d, n);
    forall l | 0 <= l < 32 ensures Lane(secret[..], l) == Terms(es, LaneValues(values, len, l), ex, i + 1) {
      TermAdded(es, LaneValues(values, len, l), ex, i, Lane(before, l), Lane(secret[..], l));
    }
    return true;
  }

  /** The denominator of share i, tested for zero. */
  method PrepareTerm(denom: array<uint32>, tmp: array<uint32>, secret: array<uint32>, x: array<uint32>,
                     xs: seq<array<uint32>>,
                     yi: array<uint32>, i: nat, special: bool, ghost ex: Elem, ghost es: seq<Elem>) returns (zero: bool)
    requires i < |es| && AllLanes(x, ex) && IndexSlices(xs, es) && special == (es[i] == ex)
    requires denom.Length == tmp.Length == secret.Length == yi.Length == 8
    requires denom !in xs + [x, yi, tmp, secret] && tmp !in xs + [x, yi, secret] && secret !in xs + [x, yi]
    modifies denom, tmp, secret
    ensures zero <==> !Unrepeated(es, i)
    ensures AllLanes(denom, Product(if special then ONE else Plus(ex, es[i]), es, i, es[i], |es|))
    ensures forall l :: 0 <= l < 32 ==>
      Lane(secret[..], l) ==
        if special then Plus(old(Lane(secret[..], l)), Lane(yi[..], l)) else old(Lane(secret[..], l))
  {
    hide Product, Mul, Plus, Lane;
    StartTerm(denom, secret, x, xs[i], yi, special, ex, es[i]);
    ghost var start := if special then ONE else Plus(ex, es[i]);
    ComputeDenominator(denom, tmp, xs, i, start, es);
    zero := WordsAreZero(denom, Product(start, es, i, es[i], |es|));
    DenominatorTest(es, ex, i);
  }

  lemma TermAdded(es: seq<Elem>, ys: seq<Elem>, ex: Elem, i: nat, s: Elem, s': Elem)
    requires i < |es| == |ys| && s == Terms(es, ys, ex, i)
    requires var start := if es[i] == ex then ONE else Plus(ex, es[i]);
      var tmp := Mul(Mul(Inverse(Product(start, es, i, es[i], |es|)), Product(ONE, es, -1, ex, |es|)), ys[i]);
      s' == Plus(if es[i] == ex then Plus(s, ys[i]) else s, tmp)
    ensures s' == Terms(es, ys, ex, i + 1)
  {
    hide Mul, Inverse;
    var start := if es[i] == ex then ONE else Plus(ex, es[i]);
    var tmp := Mul(Mul(Inverse(Product(start, es, i, es[i], |es|)), Product(ONE, es, -1, ex, |es|)), ys[i]);
    PlusAssociates(s, ys[i], tmp);
  }

  predicate DistinctBytes(s: seq<uint8>) {
    forall i, j :: 0 <= i < j < |s| ==> s[i] != s[j]
  }

  lemma DistinctElems(s: seq<uint8>)
    ensures DistinctBytes(s) <==> Distinct(Elems(s))
    ensures (forall i :: 0 <= i < |s| ==> Unrepeated(Elems(s), i)) <==> DistinctBytes(s)
  {
    forall i, j | 0 <= i < |s| && 0 <= j < |s| ensures Elems(s)[i] == Elems(s)[j] <==> s[i] == s[j] {
      if Elems(s)[i] == Elems(s)[j] { ElemOfInjective(s[i], s[j]); }
    }
    if forall i :: 0 <= i < |s| ==> Unrepeated(Elems(s), i) {
      forall i, j | 0 <= i < j < |s| ensures s[i] != s[j] {
        assert Unrepeated(Elems(s), i);
      }
    }
  }

  lemma SecretIsInterpolated(secret: array<uint32>, es: seq<Elem>, values: seq<seq<uint8>>, len: nat, ex: Elem)
    requires |es| == |values| && Distinct(es) && forall i :: 0 <= i < |values| ==> len <= |values[i]|
    requires SecretSoFar(secret, es, values, len, ex, |es|)
    ensures forall l :: 0 <= l < 32 ==> Lane(secret[..], l) == Interpolated(es, LaneValues(values, len, l), ex)
  {
    forall l | 0 <= l < 32 ensures Lane(secret[..], l) == Interpolated(es, LaneValues(values, len, l), ex) {
      TermsAre(es, LaneValues(values, len, l), ex, |es|);
    }
  }

  method SliceInputs(resultIndex: uint8, indices: seq<uint8>, values: seq<seq<uint8>>, len: nat)
      returns (x: array<uint32>, xs: seq<array<uint32>>, ys: seq<array<uint32>>, num: array<uint32>)
    requires len <= 32 && |indices| == |values| && forall i :: 0 <= i < |values| ==> len <= |values[i]|
    ensures fresh(x) && fresh(num)
    ensures (forall i :: 0 <= i < |xs| ==> fresh(xs[i])) && (forall i :: 0 <= i < |ys| ==> fresh(ys[i]))
    ensures Ready(x, xs, ys, num, ElemOf(resultIndex), Elems(indices), values, len)
  {
    hide Lane, Mul, Product;
    xs := SliceIndices(indices);
    ys := SliceValues(values, len);
    x := new uint32[8];
    BitsliceSetAll(x, resultIndex);
    num := Numerator(x, xs, ElemOf(resultIndex), Elems(indices));
  }

  /** The interpolant through the shares, at the result index, in every lane; fails exactly for an overlong
      secret or a repeated share index, and then leaves the result as it was. */
  method ShamirInterpolate(result: array<uint8>, resultIndex: uint8, indices: seq<uint8>, values: seq<seq<uint8>>,
                           len: nat)
      returns (ok: bool)
    requires |indices| == |values| < 256 && len <= result.Length && forall i :: 0 <= i < |values| ==> len <= |values[i]|
    modifies result
    ensures ok <==> len <= 32 && DistinctBytes(indices)
    ensures !ok ==> result[..] == old(result[..])
    ensures ok ==> forall l :: 0 <= l < len ==>
      ElemOf(result[l]) == Interpolated(Elems(indices), LaneValues(values, len, l), ElemOf(resultIndex))
    ensures forall l :: len <= l < result.Length ==> result[l] == old(result[l])
  {
    hide ElemOf, Product, Plus, Mul, Lane, Unrepeated, SecretSoFar, Interpolated, Ready;
    if len > 32 { return false; }
    ghost var ex, es := ElemOf(resultIndex), Elems(indices);
    var x, xs, ys, num := SliceInputs(resultIndex, indices, values, len);
    var secret := new uint32[8](_ => 0);
    ok := Collect(x, xs, ys, num, secret, resultIndex, indices, values, len);
    DistinctElems(indices);
    if ok {
      SecretIsInterpolated(secret, es, values, len, ex);
      Unbitslice(result, secret, len);
    }
  }

  lemma EmptySecret(secret: array<uint32>, es: seq<Elem>, values: seq<seq<uint8>>, len: nat, ex: Elem)
    requires |es| == |values| && forall i :: 0 <= i < |values| ==> len <= |values[i]|
    requires secret.Length == 8 && forall k :: 0 <= k < 8 ==> secret[k] == 0
    ensures SecretSoFar(secret, es, values, len, ex, 0)
  {
    forall l | 0 <= l < 32 ensures Lane(secret[..], l) == ZERO { ZeroLane(secret[..], l); }
  }

  /** The loop over the shares, left at the first repeated index. */
  method Collect(x: array<uint32>, xs: seq<array<uint32>>, ys: seq<array<uint32>>, num: array<uint32>,
                 secret: array<uint32>,
                 resultIndex: uint8, indices: seq<uint8>,
                  ghost values: seq<seq<uint8>>, ghost len: nat)
      returns (ok: bool)
    requires |indices| == |values| && forall i :: 0 <= i < |values| ==> len <= |values[i]|
    requires Ready(x, xs, ys, num, ElemOf(resultIndex), Elems(indices), values, len)
    requires secret.Length == 8 && secret !in xs + ys + [x, num] && forall k :: 0 <= k < 8 ==> secret[k] == 0
    modifies secret
    ensures ok <==> forall i :: 0 <= i < |indices| ==> Unrepeated(Elems(indices), i)
    ensures ok ==> SecretSoFar(secret, Elems(indices), values, len, ElemOf(resultIndex), |indices|)
  {
    hide ElemOf, Product, Plus, Mul, Ready, SecretSoFar, Lane, Terms, Unrepeated;
    ghost var ex, es := ElemOf(resultIndex), Elems(indices);
    var denom := new uint32[8];
    var tmp := new uint32[8];
    EmptySecret(secret, es, values, len, ex);
    var i := 0;
    while i < |indices|
      invariant 0 <= i <= |indices| && SecretSoFar(secret, es, values, len, ex, i)
      invariant Ready(x, xs, ys, num, ex, es, values, len)
      invariant forall k :: 0 <= k < i ==> Unrepeated(es, k)
    {
      if ElemOf(indices[i]) == ElemOf(resultIndex) { ElemOfInjective(indices[i], resultIndex); }
      ok := AddShare(i, x, xs, ys, num, denom, tmp, secret, indices[i] == resultIndex, ex, es, values, len);
      if !ok { return false; }
      i := i + 1;
    }
    return true;
  }

  /** Recombining shares of a polynomial with at most as many coefficients as shares gives its value. */
  lemma SharesOfPolynomial(p: seq<Elem>, indices: seq<uint8>, values: seq<seq<uint8>>, len: nat, l: nat,
                           resultIndex: uint8)
    requires |p| <= |indices| == |values| && l < len && forall i :: 0 <= i < |values| ==> len <= |values[i]|
    requires DistinctBytes(indices)
    requires forall i :: 0 <= i < |values| ==> ElemOf(values[i][l]) == Eval(p, ElemOf(indices[i]))
    ensures Interpolated(Elems(indices), LaneValues(values, len, l), ElemOf(resultIndex))
      == Eval(p, ElemOf(resultIndex))
  {
    hide Eval, ElemOf, Interpolated;
    DistinctElems(indices);
    InterpolationExact(p, Elems(indices), LaneValues(values, len, l), ElemOf(resultIndex));
  }
}
