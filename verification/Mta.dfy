/** The additive shares: weighted sums modulo the order, as computed by the server's limb loops and by the
    client's big integers, and the server's consistency test. */
module Mta {
  import opened Arith
  import opened Digits
  import opened Residues
  import opened Bignum
  import opened Multiply
  import opened Octets
  import opened Scalars
  import opened Secp256k1
  import opened CryptoOps
  import C = ClientCrypto

  /** The numbers denoted by a list of scalars. */
  function Ints(values: seq<Scalar>): (s: seq<int>)
    ensures |s| == |values| && forall i :: 0 <= i < |s| ==> s[i] == IntOf(values[i])
  {
    seq(|values|, i requires 0 <= i < |values| => IntOf(values[i]))
  }

  /** Sum of value_i * 2^i. */
  ghost function Weighted(values: seq<Scalar>): int {
    Num(Ints(values), 2)
  }

  /** Alice's share is the negated sum, Bob's the sum; both canonical. */
  ghost function AliceShare(values: seq<Scalar>): (r: Scalar) {
    BytesOf((0 - Weighted(values)) % ORDER, 32)
  }

  ghost function BobShare(values: seq<Scalar>): (r: Scalar) {
    BytesOf(Weighted(values) % ORDER, 32)
  }

  lemma WeightedStep(values: seq<Scalar>, i: nat)
    requires i < |values|
    ensures Num(Ints(values)[..i + 1], 2) == Num(Ints(values)[..i], 2) + IntOf(values[i]) * Pow(2, i)
  {
    NumStep(Ints(values), i, 2);
  }

  /** The running state of the server's loops. */
  ghost predicate Summed(values: seq<Scalar>, i: nat, sum: array<uint32>, twoPow: array<uint32>)
    reads sum, twoPow
  {
    && i <= |values| && Normalized(sum) && Normalized(twoPow) && sum != twoPow
    && Val(sum) < 2 * ORDER && Cong(Val(sum), Num(Ints(values)[..i], 2), ORDER)
    && Val(twoPow) < 2 * ORDER && Cong(Val(twoPow), Pow(2, i), ORDER)
  }

  method One() returns (x: array<uint32>)
    ensures fresh(x) && Normalized(x) && Val(x) == 1
  {
    x := new uint32[9][1, 0, 0, 0, 0, 0, 0, 0, 0];
    NineLimbs(x[..]);
  }

  /** The loop shared by both of the server's share computations: any number of values, any 32-byte inputs. */
  method SumShares(values: seq<Scalar>) returns (sum: array<uint32>)
    ensures fresh(sum) && Normalized(sum) && Val(sum) < 2 * ORDER && Cong(Val(sum), Weighted(values), ORDER)
  {
    ConstantsInRange();
    sum := new uint32[9](_ => 0);
    NumZero(sum[..], LIMB);
    var twoPow := One();
    CongIntro(0, 0, 0, ORDER);
    CongIntro(1, 1, 0, ORDER);
    assert Ints(values)[..0] == [];
    var i := 0;
    while i < |values|
      invariant Summed(values, i, sum, twoPow) && fresh(sum) && fresh(twoPow)
    {
      SumRound(values, i, sum, twoPow);
      i := i + 1;
    }
    assert Ints(values)[..|values|] == Ints(values);
  }

  method SumRound(values: seq<Scalar>, i: nat, sum: array<uint32>, twoPow: array<uint32>)
    requires i < |values| && Summed(values, i, sum, twoPow)
    modifies sum, twoPow
    ensures Summed(values, i + 1, sum, twoPow)
  {
    ConstantsInRange();
    var n := Order();
    ghost var s, w := Val(sum), Val(twoPow);
    var term := Term(values[i], twoPow, n);
    ghost var t := Val(term);
    BnAddMod(sum, term, n);
    BnAddMod(twoPow, twoPow, n);
    RoundFacts(Num(Ints(values)[..i], 2), s, w, IntOf(values[i]), t, Val(sum), Val(twoPow), Pow(2, i));
    WeightedStep(values, i);
  }

  method Term(value: Scalar, twoPow: array<uint32>, n: array<uint32>) returns (term: array<uint32>)
    requires Normalized(twoPow) && Val(twoPow) < 2 * ORDER && GoodPrime(n) && Val(n) == ORDER
    ensures fresh(term) && Normalized(term) && Val(term) < 2 * ORDER
    ensures Cong(Val(term), Val(twoPow) * IntOf(value), ORDER)
  {
    term := ScalarToBn(value);
    FitsBelow180(Val(twoPow), Val(term), ORDER);
    BnMultiply(twoPow, term, n);
  }

  lemma RoundFacts(acc: int, s: int, w: int, v: int, t: int, s': int, w': int, p: int)
    requires Cong(s, acc, ORDER) && Cong(w, p, ORDER)
    requires Cong(t, w * v, ORDER) && Cong(s', s + t, ORDER) && Cong(w', w + w, ORDER)
    ensures Cong(s', acc + v * p, ORDER) && Cong(w', 2 * p, ORDER)
  {
    CongMul(w, p, v, v, ORDER);
    assert p * v == v * p;
    CongAdd(s, acc, t, v * p, ORDER);
    CongAdd(w, p, w, p, ORDER);
  }

  method ComputeAliceShare(values: seq<Scalar>) returns (out: Scalar)
    ensures out == AliceShare(values)
  {
    hide Cong, Big, Pow, BytesOf;
    var sum := SumShares(values);
    CongSub(0, 0, Val(sum), Weighted(values), ORDER) by { CongIntro(0, 0, 0, ORDER); }
    CongIsMod(0 - Val(sum), 0 - Weighted(values), ORDER);
    var zero := BnIsZero(sum);
    if zero {
      out := seq(32, _ => 0);
      ZeroBytes(32);
      ScalarIs(out, 0);
      return;
    }
    out := NegateNumber(sum);
  }

  method ComputeBobShare(values: seq<Scalar>) returns (out: Scalar)
    ensures out == BobShare(values)
  {
    ConstantsInRange();
    var sum := SumShares(values);
    var n := Order();
    BnMod(sum, n);
    CongIsMod(Val(sum), Weighted(values), ORDER);
    DivModUnique(Val(sum), ORDER, 0, Val(sum));
    out := BnToScalar(sum);
  }

  // ---- the client's loops ----------------------------------------------------------------

  /** The client's loop: the running sum is reduced in every round. */
  method ClientSum(values: seq<Scalar>) returns (sum: nat)
    ensures sum == Weighted(values) % ORDER
  {
    sum := 0;
    var i := 0;
    assert Ints(values)[..0] == [];
    while i < |values|
      invariant 0 <= i <= |values| && sum == Num(Ints(values)[..i], 2) % ORDER
    {
      var v := C.BytesToBigInt(values[i]);
      WeightedStep(values, i);
      ReducedAddend(Num(Ints(values)[..i], 2), v * Pow(2, i));
      sum := (sum + v * Pow(2, i)) % ORDER;
      i := i + 1;
    }
    assert Ints(values)[..|values|] == Ints(values);
  }

  lemma ReducedAddend(a: int, b: int)
    ensures (a % ORDER + b) % ORDER == (a + b) % ORDER
  {
    CongMod(a, ORDER);
    CongIntro(b, b, 0, ORDER);
    CongAdd(a % ORDER, a, b, b, ORDER);
    CongIsMod(a % ORDER + b, a + b, ORDER);
  }

  /** The client's Alice share is the same 32 bytes as the server's. */
  method ClientAliceShare(values: seq<Scalar>) returns (out: seq<uint8>)
    ensures out == AliceShare(values)
  {
    var sum := ClientSum(values);
    CongMod(Weighted(values), ORDER);
    CongIntro(ORDER, 0, 1, ORDER);
    CongSub(ORDER, 0, sum, Weighted(values), ORDER);
    CongIsMod(ORDER - sum, 0 - Weighted(values), ORDER);
    out := C.BigIntToBytes((ORDER - sum) % ORDER, 32);
  }

  /** The client's Bob share is the same 32 bytes as the server's. */
  method ClientBobShare(values: seq<Scalar>) returns (out: seq<uint8>)
    ensures out == BobShare(values)
  {
    var sum := ClientSum(values);
    out := C.BigIntToBytes(sum, 32);
  }

  // ---- the consistency test --------------------------------------------------------------

  /** The client's test is exact. */
  method ClientVerify(x: seq<uint8>, y: seq<uint8>, u: seq<uint8>, v: seq<uint8>) returns (ok: bool)
    ensures ok <==> Cong(IntOf(x) * IntOf(y), IntOf(u) + IntOf(v), ORDER)
  {
    var bnX := C.BytesToBigInt(x);
    var bnY := C.BytesToBigInt(y);
    var bnU := C.BytesToBigInt(u);
    var bnV := C.BytesToBigInt(v);
    CongIsMod(bnX * bnY, bnU + bnV, ORDER);
    ok := (bnX * bnY) % ORDER == (bnU + bnV) % ORDER;
  }

  /** The server compares partly reduced numbers: it accepts exactly the congruent shares whose two
      partial reductions fall on the same side of the order. */
  method VerifyMta(x: Scalar, y: Scalar, u: Scalar, v: Scalar) returns (ok: bool)
    ensures Pow(256, 32) == TWO256
    ensures ok <==> Accepts(IntOf(x), IntOf(y), IntOf(u), IntOf(v))
    ensures ok ==> Cong(IntOf(x) * IntOf(y), IntOf(u) + IntOf(v), ORDER)
  {
    hide Big, Pow, Num;
    ConstantsInRange();
    var n := Order();
    Pow256();
    var xy := ScalarToBn(x);
    var bnY := ScalarToBn(y);
    var uv := ScalarToBn(u);
    var bnV := ScalarToBn(v);
    FitsBelow180(Val(bnY), Val(xy), ORDER);
    AcceptsCongruent(IntOf(x), IntOf(y), IntOf(u), IntOf(v));
    BnMultiply(bnY, xy, n);
    BnAddMod(uv, bnV, n);
    ok := BnIsEqual(xy, uv);
  }

  /** Equality of the two partial reductions. */
  ghost predicate Accepts(x: nat, y: nat, u: nat, v: nat)
    requires x < TWO256 && y < TWO256 && u < TWO256 && v < TWO256
  {
    ConstantsInRange();
    FitsBelow180(y, x, ORDER);
    MulMod(y, x, ORDER) == AddMod(u, v, ORDER)
  }

  lemma AcceptsCongruent(x: nat, y: nat, u: nat, v: nat)
    requires x < TWO256 && y < TWO256 && u < TWO256 && v < TWO256
    ensures Accepts(x, y, u, v) ==> Cong(x * y, u + v, ORDER)
  {
    ConstantsInRange();
    FitsBelow180(y, x, ORDER);
    assert x * y == y * x;
  }

  const TWO161: nat := 0x2_00000000_00000000_00000000_00000000_00000000

  /** bn_addmod leaves the sum of two reduced numbers unreduced exactly when it reaches the order while the
      top sixteen bits do not add up to 2^16. */
  ghost predicate SumUnreduced(u: nat, v: nat) {
    u + v >= ORDER && u / TWO240 + v / TWO240 < 0x10000
  }

  lemma SumReduced(u: nat, v: nat)
    requires u < ORDER && v < ORDER
    ensures Modulus(ORDER) && (AddMod(u, v, ORDER) >= ORDER <==> SumUnreduced(u, v))
    ensures AddMod(u, v, ORDER) == if SumUnreduced(u, v) then (u + v) % ORDER + ORDER else (u + v) % ORDER
  {
    ConstantsInRange();
    DivMod(u, TWO240);
    DivMod(v, TWO240);
    ModOnce(u + v, ORDER);
  }

  /** For reduced shares the server accepts if and only if they are right and the product and the sum came out on
      the same side of the order. */
  lemma VerifyExact(x: nat, y: nat, u: nat, v: nat)
    requires x < TWO256 && y < TWO256 && u < ORDER && v < ORDER
    ensures Modulus(ORDER) && Fits(y, x, ORDER)
    ensures Accepts(x, y, u, v) <==>
      Cong(x * y, u + v, ORDER) && (MulMod(y, x, ORDER) >= ORDER <==> SumUnreduced(u, v))
  {
    hide MulMod, AddMod, SumUnreduced, Fits;
    ConstantsInRange();
    assert x * y == y * x;
    FitsBelow180(y, x, ORDER);
    var m := MulMod(y, x, ORDER);
    SumReduced(u, v);
    DivMod(u + v, ORDER);
    CongIsMod(m, u + v, ORDER);
    ModOnce(m, ORDER);
    SameResidue(m, x * y, u + v);
  }

  lemma SameResidue(m: int, a: int, b: int)
    requires Cong(m, a, ORDER)
    ensures Cong(a, b, ORDER) <==> Cong(m, b, ORDER)
  {}

  /** A product whose residue is not tiny comes out reduced: right shares are rejected exactly when their sum came
      out unreduced. */
  lemma VerifyLargeResidue(x: nat, y: nat, u: nat, v: nat)
    requires x < TWO256 && y < TWO256 && u < ORDER && v < ORDER && (x * y) % ORDER >= TWO161
    ensures Accepts(x, y, u, v) <==> Cong(x * y, u + v, ORDER) && !SumUnreduced(u, v)
  {
    hide MulMod, SumUnreduced;
    assert x * y == y * x;
    VerifyExact(x, y, u, v);
    FitsBelow180(y, x, ORDER);
    ProductReduced(y, x, ORDER);
    DivMod(x * y, ORDER);
  }

  /** A product below 2^256 is not reduced at all. */
  lemma VerifySmallProduct(x: nat, y: nat, u: nat, v: nat)
    requires x < TWO256 && y < TWO256 && u < ORDER && v < ORDER && x * y < TWO256
    ensures Accepts(x, y, u, v) <==> Cong(x * y, u + v, ORDER) && (x * y >= ORDER <==> SumUnreduced(u, v))
  {
    hide SumUnreduced;
    assert x * y == y * x;
    VerifyExact(x, y, u, v);
    MulMono(0, y, x);
    SmallStays(y * x, 16);
  }

  /** Right shares of non-zero secrets that the server rejects: 1 * 1 = 2 + (n - 1). */
  lemma VerifyRejectsRightShares()
    ensures Cong(1 * 1, 2 + (ORDER - 1), ORDER) && !Accepts(1, 1, 2, ORDER - 1)
  {
    CongIntro(1, 2 + (ORDER - 1), -1, ORDER);
    SumReduced(2, ORDER - 1);
    SmallProduct();
  }

  const LARGE_U: nat := 0x8000C000_00000000_00000000_00000000_00000000_00000000_00000000_00000000
  const LARGE_V: nat := 0x7FFFC000_00000000_00000000_00000000_00000000_00000000_00000000_00000000

  /** The usual failure: a sum that carries out of 256 bits although the sixteen top bits add up to all ones. */
  lemma VerifyRejectsLargeShares()
    ensures var x := LARGE_U + LARGE_V - ORDER;
      && 0 <= x < ORDER && LARGE_U < ORDER && LARGE_V < ORDER && (x * 1) % ORDER >= TWO161
      && Cong(x * 1, LARGE_U + LARGE_V, ORDER) && !Accepts(x, 1, LARGE_U, LARGE_V)
  {
    hide Accepts, Cong, SumUnreduced;
    LargeShares();
    var x := LARGE_U + LARGE_V - ORDER;
    ModOnce(x, ORDER);
    CongIntro(x, LARGE_U + LARGE_V, -1, ORDER);
    VerifyLargeResidue(x, 1, LARGE_U, LARGE_V);
  }

  lemma LargeShares()
    ensures TWO161 <= LARGE_U + LARGE_V - ORDER < ORDER && SumUnreduced(LARGE_U, LARGE_V)
  {
    DivModUnique(LARGE_U, TWO240, 0x8000, LARGE_U - 0x8000 * TWO240);
    DivModUnique(LARGE_V, TWO240, 0x7FFF, LARGE_V - 0x7FFF * TWO240);
  }

  lemma SmallProduct()
    ensures Modulus(ORDER) && Fits(1, 1, ORDER) && MulMod(1, 1, ORDER) == 1
  {
    ConstantsInRange();
    FitsBelow180(1, 1, ORDER);
    SmallStays(1, 16);
  }

  /** A number below 2^256 passes through the reduce loop unchanged. */
  lemma {:induction false} SmallStays(r: nat, i: nat)
    requires r < TWO256
    ensures ReduceFrom(r, i, ORDER) == r
    decreases i
  {
    if i >= 8 {
      var w := Pow(LIMB, i - 8);
      PowPos(LIMB, i - 8);
      MulMono(1, w, TWO256);
      DivModUnique(r, w * TWO256, 0, r);
      assert ReduceStep(r, i, ORDER) == r;
      SmallStays(r, i - 1);
    }
  }
}
