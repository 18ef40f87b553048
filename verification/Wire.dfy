/** The session's messages as they travel: points compressed, messages encoded, bodies framed. */
module Wire {
  import opened Wrappers
  import opened Arith
  import opened Curve
  import opened Messages
  import opened ProtoCodec
  import opened PointCodec
  import opened Frames
  import opened Transfer
  import opened Varint
  import P = Protocol

  /** What can be sent: affine points of the curve, indices of 32 bits. */
  ghost predicate CanTravel(c: Params, m: P.Message) {
    match m
    case Init(pointA, bitIndex) => OnCurve(c, pointA) && pointA.Affine? && bitIndex < WORD
    case Response(pointB) => OnCurve(c, pointB) && pointB.Affine?
    case Payload(_) => true
    case Share(_) => true
  }

  function TypeOf(m: P.Message): MessageType {
    match m
    case Init(_, _) => OTInit
    case Response(_) => OTResponse
    case Payload(_) => OTEncrypted
    case Share(_) => MTAShare
  }

  /** The fields of a message; the nonce of a payload is arbitrary. */
  function FieldsOf(m: P.Message, nonce: Bytes12): (v: seq<Value>)
    requires m.Init? ==> m.pointA.Affine? && m.pointA.x >= 0 && m.pointA.y >= 0 && m.bitIndex < WORD
    requires m.Response? ==> m.pointB.Affine? && m.pointB.x >= 0 && m.pointB.y >= 0
    ensures WellTyped(SpecsOf(TypeOf(m)), v)
  {
    match m
    case Init(pointA, bitIndex) => [Bytes(EncodePoint(pointA.x, pointA.y)), Number(bitIndex)]
    case Response(pointB) => [Bytes(EncodePoint(pointB.x, pointB.y))]
    case Payload(e) => [Bytes(e.m0), Bytes(e.m1), Bytes(nonce)]
    case Share(share) => [Bytes(share)]
  }

  function BodyOf(m: P.Message, nonce: Bytes12): seq<uint8>
    requires m.Init? ==> m.pointA.Affine? && m.pointA.x >= 0 && m.pointA.y >= 0 && m.bitIndex < WORD
    requires m.Response? ==> m.pointB.Affine? && m.pointB.x >= 0 && m.pointB.y >= 0
  {
    EncodeMessage(SpecsOf(TypeOf(m)), FieldsOf(m, nonce))
  }

  /** The server's encodings byte by byte: one-byte keys, lengths, the compressed point or the 32-byte strings, and an
      index that is left out if it is zero. */
  lemma BodyBytes(m: P.Message, nonce: Bytes12)
    requires m.Init? ==> m.pointA.Affine? && m.pointA.x >= 0 && m.pointA.y >= 0 && m.bitIndex < WORD
    requires m.Response? ==> m.pointB.Affine? && m.pointB.x >= 0 && m.pointB.y >= 0
    ensures BodyOf(m, nonce) ==
      match m
      case Init(q, i) => [0x0A, 0x21] + EncodePoint(q.x, q.y) + (if i == 0 then [] else [0x10] + EncodeVarint(i))
      case Response(q) => [0x0A, 0x21] + EncodePoint(q.x, q.y)
      case Payload(e) => [0x0A, 0x20] + e.m0 + ([0x12, 0x20] + e.m1) + ([0x1A, 0x0C] + nonce)
      case Share(share) => [0x0A, 0x20] + share
  {
    hide EncodeMessage, EncodePoint, EncodeVarint;
    WireBytes(TypeOf(m), FieldsOf(m, nonce));
  }

  /** The message in a body of a known type: decoded fields, decompressed points. */
  function Received(c: Params, t: MessageType, body: seq<uint8>): Option<P.Message>
    requires c.p > 0
  {
    match DecodeMessage(SpecsOf(t), body)
    case None => None
    case Some(v) => MessageOf(c, t, v)
  }

  function MessageOf(c: Params, t: MessageType, v: seq<Value>): Option<P.Message>
    requires c.p > 0 && WellTyped(SpecsOf(t), v)
  {
    match t
    case OTInit =>
      (match DecodePoint(c, v[0].s) case None => None case Some((x, y)) => Some(P.Init(Affine(x, y), v[1].n)))
    case OTResponse =>
      (match DecodePoint(c, v[0].s) case None => None case Some((x, y)) => Some(P.Response(Affine(x, y))))
    case OTEncrypted => Some(P.Payload(Encrypted(v[0].s, v[1].s)))
    case MTAShare => Some(P.Share(v[0].s))
    case _ => None
  }

  // ---- bodies --------------------------------------------------------------------------------

  /** The body holds the values: their fields in any order, repeated, with defaults written out or left out, and with
      unknown fields in between. The client's library may write any of them. */
  ghost predicate Carries(t: MessageType, v: seq<Value>, body: seq<uint8>)
    requires WellTyped(SpecsOf(t), v)
  {
    Sendable(body) && exists cs: seq<Chunk> :: ArrangedAs(SpecsOf(t), cs, v, body)
  }

  ghost predicate ArrangedAs(desc: seq<FieldSpec>, cs: seq<Chunk>, v: seq<Value>, body: seq<uint8>)
    requires WellTyped(desc, v)
  {
    AllWellFormed(desc, cs) && Arranges(desc, cs, v) && body == ChunkBytes(cs)
  }

  lemma CarriedDecodes(t: MessageType, v: seq<Value>, body: seq<uint8>)
    requires WellTyped(SpecsOf(t), v) && Carries(t, v, body)
    ensures DecodeMessage(SpecsOf(t), body) == Some(v)
  {
    hide DecodeMessage, WellTyped, LayoutOf, SpecsOf, AllWellFormed, Arranges, ChunkBytes, WellTyped;
    var desc := SpecsOf(t);
    var cs: seq<Chunk> :| ArrangedAs(desc, cs, v, body);
    SpecsValid(t);
    AnyArrangement(desc, cs, v);
  }

  lemma SpecsValid(t: MessageType)
    ensures ValidSpec(SpecsOf(t))
  {
    hide LayoutOf, ValidSpec;
    LayoutsValid(t);
  }

  /** What the server's encoder writes is such a body. */
  lemma EncodingCarries(t: MessageType, v: seq<Value>)
    requires WellTyped(SpecsOf(t), v)
    ensures Carries(t, v, EncodeMessage(SpecsOf(t), v))
  {
    hide WellTyped, LayoutOf, SpecsOf, AllWellFormed, Arranges, ChunkBytes, Written, EncodeFields, Longest, Mentions;
    var desc := SpecsOf(t);
    SpecsValid(t);
    Unfold(desc, v);
    EncodedLength(desc, v, |desc|);
    LongestOf(t);
    WrittenArranged(desc, v);
  }

  lemma WrittenArranged(desc: seq<FieldSpec>, v: seq<Value>)
    requires ValidSpec(desc) && WellTyped(desc, v)
    ensures ArrangedAs(desc, Written(desc, v, |desc|), v, EncodeFields(desc, v, |desc|))
  {
    hide AllWellFormed, ChunkBytes, Written, EncodeFields, Mentions;
    WrittenWell(desc, v, |desc|);
    WrittenBytes(desc, v, |desc|);
  }

  /** The bodies of the messages sent in one direction. */
  ghost predicate BodiesOf(c: Params, ms: seq<P.Message>, bodies: seq<seq<uint8>>) {
    |bodies| == |ms| && forall k :: 0 <= k < |ms| ==> IsBody(c, ms[k], bodies[k])
  }

  ghost predicate IsBody(c: Params, m: P.Message, body: seq<uint8>) {
    CanTravel(c, m) && exists nonce: Bytes12 :: Carries(TypeOf(m), FieldsOf(m, nonce), body)
  }

  /** The server's own encoding of a message that can be sent. */
  lemma OwnBody(c: Params, m: P.Message, nonce: Bytes12)
    requires CanTravel(c, m)
    ensures IsBody(c, m, BodyOf(m, nonce))
  {
    hide EncodeMessage, Carries, Cubic, EncodePoint;
    EncodingCarries(TypeOf(m), FieldsOf(m, nonce));
  }

  /** Every message of a session, in whatever arrangement of its fields, arrives as it was sent. */
  lemma Arrives(c: Params, m: P.Message, body: seq<uint8>)
    requires Rootable(c) && IsBody(c, m, body)
    ensures Sendable(body) && Received(c, TypeOf(m), body) == Some(m)
  {
    hide DecodeMessage, EncodePoint, DecodePoint, Cubic, ArrangedAs;
    var nonce: Bytes12 :| Carries(TypeOf(m), FieldsOf(m, nonce), body);
    CarriedDecodes(TypeOf(m), FieldsOf(m, nonce), body);
    if m.Init? { DecodeEncoded(c, m.pointA); }
    if m.Response? { DecodeEncoded(c, m.pointB); }
  }

  lemma AllArrive(c: Params, ms: seq<P.Message>, bodies: seq<seq<uint8>>)
    requires Rootable(c) && BodiesOf(c, ms, bodies)
    ensures AllSendable(bodies)
    ensures forall k :: 0 <= k < |ms| ==> Received(c, TypeOf(ms[k]), bodies[k]) == Some(ms[k])
  {
    hide Received, IsBody, Sendable;
    forall k | 0 <= k < |ms| ensures Sendable(bodies[k]) && Received(c, TypeOf(ms[k]), bodies[k]) == Some(ms[k]) {
      assert IsBody(c, ms[k], bodies[k]);
      Arrives(c, ms[k], bodies[k]);
    }
  }

  /** However the bytes of a direction are cut, what the client's socket has delivered are the first messages sent, in
      order. */
  lemma SessionArrives(c: Params, s: FramedSocket, ms: seq<P.Message>, bodies: seq<seq<uint8>>)
    requires Rootable(c) && BodiesOf(c, ms, bodies) && s.Valid() && s.received <= Stream(bodies)
    ensures |s.delivered| <= |ms|
    ensures forall k :: 0 <= k < |s.delivered| ==> Received(c, TypeOf(ms[k]), s.delivered[k]) == Some(ms[k])
  {
    hide Stream, Received, IsBody;
    AllArrive(c, ms, bodies);
    s.InOrder(bodies);
  }

  /** The server, too, takes the messages one by one. */
  lemma ServerArrives(c: Params, ms: seq<P.Message>, bodies: seq<seq<uint8>>)
    requires Rootable(c) && BodiesOf(c, ms, bodies) && |ms| > 0
    ensures var taken := TakeFrame(Stream(bodies));
      && taken.Some? && taken.value.1 == Stream(bodies[1..])
      && Received(c, TypeOf(ms[0]), taken.value.0) == Some(ms[0])
  {
    hide Received, IsBody, TakeFrame, Stream;
    AllArrive(c, ms, bodies);
    TakesInOrder(bodies);
  }
}
