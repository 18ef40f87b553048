/** The two programs' transfer objects, running on their own curve arithmetic, and the client's local demo. */
module Parties {
  import opened Wrappers
  import opened Arith
  import opened Digits
  import opened Residues
  import opened Octets
  import opened Scalars
  import opened Secp256k1
  import opened Bignum
  import opened Curve
  import opened Multiples
  import opened CurvePoints
  import opened PointMultiply
  import opened Transfer
  import opened CryptoOps
  import opened Mta
  import opened Protocol
  import C = ClientCrypto
  import K = ClientCurve

  /** Every non-zero multiple of the generator has the generator's order. */
  lemma GeneratedOrder(s: Setup, a: Scalar)
    requires ValidSetup(s) && ValidScalar(a)
    ensures Setting(s.c, Generated(s, a)) && Generated(s, a).Affine?
  {
    var k := IntOf(a);
    NonZeroScalar(s, k);
    NestedMultiple(s, ORDER, k);
    OrderMultiple(s.c, s.g, ORDER, k);
    assert ORDER * k == k * ORDER;
  }

  // ---- the server's object ---------------------------------------------------------------

  class Bob {
    const choiceBit: int
    const secretB: Scalar
    var decryptionKey: Option<Scalar>

    constructor (choiceBit: int, secretB: Scalar)
      ensures this.choiceBit == choiceBit && this.secretB == secretB && decryptionKey == None
    {
      this.choiceBit, this.secretB, this.decryptionKey := choiceBit, secretB, None;
    }

    /** process_init: the key is kept even when the answer turns out to be at infinity. */
    method ProcessInit(s: Setup, aPoint: CurvePoint, ghost a: Scalar) returns (answer: Option<CurvePoint>)
      requires ValidSetup(s) && ValidScalar(a) && aPoint.Stands(s.c, Generated(s, a))
      modifies this
      ensures OnCurve(s.c, Generated(s, a))
      ensures decryptionKey == if ValidScalar(secretB) then BobKey(s, secretB, Generated(s, a)) else old(decryptionKey)
      ensures answer.Some? <==> ValidScalar(secretB) && BobReply(s, choiceBit, secretB, Generated(s, a)).Some?
      ensures answer.Some? ==> fresh(answer.value)
      ensures answer.Some? ==> answer.value.Stands(s.c, BobReply(s, choiceBit, secretB, Generated(s, a)).value)
    {
      ghost var qa := Generated(s, a);
      MultipleOnCurve(s.c, IntOf(a), s.g);
      if !ValidScalar(secretB) { return None; }
      SharedPoint(s, a, secretB);
      GeneratedOrder(s, a);
      var shared := TimesPoint(s, secretB, aPoint, qa);
      decryptionKey := Some(s.hash(BytesOf(shared.x, 32)));
      var bG := TimesGenerator(s, secretB);
      if choiceBit == 0 { return Some(bG); }
      var sum := new CurvePoint(aPoint.x, aPoint.y);
      ghost var qb := Generated(s, secretB);
      PointAdd(s.c, bG, sum, qb, qa);
      AddOnCurve(s.c, qb, qa);
      if sum.x == 0 && sum.y == 0 {
        if Add(s.c, qb, qa).Affine? { OriginNotOnCurve(s.c, Add(s.c, qb, qa)); }
        return None;
      }
      return Some(sum);
    }

    /** decrypt_message: fails before process_init has stored a key. */
    method DecryptMessage(e: Encrypted) returns (message: Option<Scalar>)
      ensures message == if decryptionKey.None? then None else Some(Decrypt(choiceBit, decryptionKey.value, e))
    {
      if decryptionKey.None? { return None; }
      var selected := if choiceBit == 0 then e.m0 else e.m1;
      var m := XorEncrypt(selected, decryptionKey.value);
      return Some(m);
    }
  }

  /** scalar_multiply_point */
  method TimesPoint(s: Setup, k: Scalar, p: CurvePoint, ghost q: Point) returns (r: CurvePoint)
    requires ValidSetup(s) && Setting(s.c, q) && ValidScalar(k) && p.Stands(s.c, q)
    ensures fresh(r) && r.Stands(s.c, Multiple(s.c, IntOf(k), q))
  {
    var factor := ScalarToBn(k);
    var order := Order();
    r := new CurvePoint(0, 0);
    PointMultiply.PointMultiply(s.c, factor, order, p, r, q);
  }

  /** scalar_multiply_g */
  method TimesGenerator(s: Setup, k: Scalar) returns (r: CurvePoint)
    requires ValidSetup(s) && ValidScalar(k)
    ensures fresh(r) && r.Stands(s.c, Generated(s, k))
  {
    var g := new CurvePoint(s.g.x, s.g.y);
    r := TimesPoint(s, k, g, s.g);
  }

  // ---- the client's object ---------------------------------------------------------------

  /** processResponse */
  method RespondTo(s: Setup, alice: AliceOT, pointB: Point) returns (e: Option<Encrypted>)
    requires ValidSetup(s) && ValidScalar(alice.a) && OnCurve(s.c, pointB) && OnCurve(s.c, alice.pointA)
    ensures e == ProcessResponse(s, alice, pointB)
  {
    NegateOnCurve(s.c, alice.pointA);
    AddOnCurve(s.c, pointB, Negate(s.c, alice.pointA));
    MultipleOnCurve(s.c, IntOf(alice.a), pointB);
    MultipleOnCurve(s.c, IntOf(alice.a), Add(s.c, pointB, Negate(s.c, alice.pointA)));
    var a := C.BytesToBigInt(alice.a);
    var shared0 := K.ScalarMultiply(s.c, a, pointB);
    if shared0.value.Infinity? { return None; }
    var minusA := K.NegatePoint(s.c, alice.pointA);
    var bMinusA := K.AddPoints(s.c, pointB, minusA);
    if bMinusA.Infinity? { return None; }
    var shared1 := K.ScalarMultiply(s.c, a, bMinusA);
    if shared1.value.Infinity? { return None; }
    var e0 := XorEncrypt(alice.m0, Key(s, shared0.value));
    var e1 := XorEncrypt(alice.m1, Key(s, shared1.value));
    return Some(Encrypted(e0, e1));
  }

  /** A scalar as the random generator delivers it. */
  method DrawScalar() returns (k: Scalar)
    ensures ValidScalar(k)
  {
    Pow256();
    IntOfBytesOf(1, 32);
    assert ValidScalar(BytesOf(1, 32));
    k :| ValidScalar(k);
  }

  /** One round of the local demo, with both roles in one process; none exactly if the two secrets drawn collide, so
      that a point at infinity was to be encoded. */
  method LocalRound(s: Setup, x: Scalar, choice: int)
      returns (r: Option<(Scalar, Scalar)>, ghost draw: (Scalar, Scalar))
    requires ValidSetup(s) && (choice == 0 || choice == 1)
    ensures r.None? <==> Collision(choice, draw.0, draw.1)
    ensures r.Some? ==> r.value.1 == Correlated(x, r.value.0, choice)
  {
    hide Collision;
    var m0 := DrawScalar();
    var a := DrawScalar();
    var b := DrawScalar();
    draw := (a, b);
    SharedPoint(s, a, b);
    ReplyIs(s, choice, a, b);
    var m1 := C.ModAdd(m0, x);
    var pointA := K.ScalarMultiply(s.c, IntOf(a), s.g);
    var alice := AliceOT(m0, m1, m0, a, pointA.value);
    var answer := LocalAnswer(s, choice, b, a, alice.pointA);
    if answer.None? { return None, draw; }
    TransferCorrect(s, x, m0, a, b, choice);
    var e := RespondTo(s, alice, answer.value);
    if e.None? { return None, draw; }
    var mc := LocalOpen(s, choice, b, a, alice.pointA, e.value);
    return Some((m0, mc)), draw;
  }

  /** Bob's point in the local demo. */
  method LocalAnswer(s: Setup, choice: int, b: Scalar, ghost a: Scalar, pointA: Point) returns (answer: Option<Point>)
    requires ValidSetup(s) && (choice == 0 || choice == 1) && ValidScalar(a) && ValidScalar(b)
    requires pointA == Generated(s, a)
    ensures answer == BobReply(s, choice, b, pointA)
  {
    SharedPoint(s, a, b);
    var pointB := K.ScalarMultiply(s.c, IntOf(b), s.g);
    if choice == 0 { return pointB; }
    var sum := K.AddPoints(s.c, pointB.value, pointA);
    if sum.Infinity? { return None; }
    return Some(sum);
  }

  /** Bob's key and the opened message in the local demo. */
  method LocalOpen(s: Setup, choice: int, b: Scalar, ghost a: Scalar, pointA: Point, e: Encrypted) returns (mc: Scalar)
    requires ValidSetup(s) && (choice == 0 || choice == 1) && ValidScalar(a) && ValidScalar(b)
    requires pointA == Generated(s, a)
    ensures OnCurve(s.c, pointA) && BobKey(s, b, pointA).Some? && mc == Decrypt(choice, BobKey(s, b, pointA).value, e)
  {
    SharedPoint(s, a, b);
    var shared := K.ScalarMultiply(s.c, IntOf(b), pointA);
    MultipleOnCurve(s.c, IntOf(b), pointA);
    mc := XorEncrypt(if choice == 0 then e.m0 else e.m1, Key(s, shared.value));
  }

  /** The local demo: it stops at the first round whose secrets collide; a run without one completes, with shares of
      the product, and the test confirms it. */
  method RunLocalDemo(s: Setup, x: Scalar, y: Scalar)
      returns (r: Option<(Scalar, Scalar, bool)>, ghost draws: seq<(Scalar, Scalar)>)
    requires ValidSetup(s)
    ensures if r.None? then 0 < |draws| <= 256 else |draws| == 256
    ensures forall k :: 0 <= k < |draws| ==>
      (Collision(GetBit(y, k), draws[k].0, draws[k].1) <==> r.None? && k == |draws| - 1)
    ensures r.Some? ==> Cong(IntOf(r.value.0) + IntOf(r.value.1), IntOf(x) * IntOf(y), ORDER) && r.value.2
  {
    hide Big, Pow, BytesOf, GetBit, Num, Collision;
    var uis: seq<Scalar>, mcs: seq<Scalar> := [], [];
    draws := [];
    var i := 0;
    while i < 256
      invariant 0 <= i <= 256 && |uis| == |mcs| == |draws| == i
      invariant forall k :: 0 <= k < i ==> !Collision(GetBit(y, k), draws[k].0, draws[k].1)
      invariant forall k :: 0 <= k < i ==> mcs[k] == Correlated(x, uis[k], GetBit(y, k))
    {
      ghost var draw;
      var round;
      round, draw := LocalRound(s, x, GetBit(y, i));
      draws := draws + [draw];
      if round.None? { return None, draws; }
      uis, mcs := uis + [round.value.0], mcs + [round.value.1];
      i := i + 1;
    }
    var u := ClientAliceShare(uis);
    var v := ClientBobShare(mcs);
    AllBitsFit(y);
    SharesAddUp(x, y, uis, mcs);
    var ok := ClientVerify(x, y, u, v);
    return Some((u, v, ok)), draws;
  }

  lemma AllBitsFit(y: Scalar)
    ensures IntOf(y) < Pow(2, 256)
  {
    assert Pow(2, 8) == 256;
    PowMul(2, 8, 32);
  }
}
