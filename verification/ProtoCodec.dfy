/** The seven message types of the protocol, their declared buffer sizes, and the server's encoders and decoders. */
module ProtoCodec {
  import opened Wrappers
  import opened Arith
  import opened Digits
  import opened Varint
  import opened Streams
  import opened Fields
  import opened Messages
  import opened MessageCode

  datatype MessageType =
    SessionConfig | OTInit | OTResponse | OTEncrypted | MTAShare | DebugRevealRequest | DebugRevealResponse

  /** Fields, their places in the structure, and its size. */
  function LayoutOf(t: MessageType): Layout {
    match t
    case SessionConfig => Layout([FieldSpec(1, Bool)], [0], 1)
    case OTInit => Layout([FieldSpec(1, FixedBytes(33)), FieldSpec(2, UInt32)], [0, 36], 40)
    case OTResponse => Layout([FieldSpec(1, FixedBytes(33))], [0], 33)
    case OTEncrypted =>
      Layout([FieldSpec(1, FixedBytes(32)), FieldSpec(2, FixedBytes(32)), FieldSpec(3, FixedBytes(12))],
             [0, 32, 64], 76)
    case MTAShare => Layout([FieldSpec(1, FixedBytes(32))], [0], 32)
    case DebugRevealRequest => Layout([FieldSpec(1, FixedBytes(32)), FieldSpec(2, FixedBytes(32))], [0, 32], 64)
    case DebugRevealResponse => Layout([FieldSpec(1, FixedBytes(32)), FieldSpec(2, Bool)], [0, 32], 33)
  }

  function SpecsOf(t: MessageType): seq<FieldSpec> {
    LayoutOf(t).specs
  }

  /** The declared maximum encoded size, which is the size of the encoder's buffer. */
  function DeclaredSize(t: MessageType): nat {
    match t
    case SessionConfig => 2
    case OTInit => 41
    case OTResponse => 35
    case OTEncrypted => 80
    case MTAShare => 34
    case DebugRevealRequest => 68
    case DebugRevealResponse => 36
  }

  lemma LayoutsValid(t: MessageType)
    ensures ValidLayout(LayoutOf(t))
  {
    hide ValidLayout;
    ShortLayout(LayoutOf(t));
  }

  /** Up to three consecutively numbered fields that follow one another near the start of the structure. */
  lemma ShortLayout(l: Layout)
    requires 1 <= |l.specs| == |l.offsets| <= 3
    requires forall i :: 0 <= i < |l.specs| ==> l.specs[i].tag == i + 1
    requires forall i :: 0 <= i < |l.specs| ==> l.offsets[i] < 256 && SizeOf(l.specs[i].kind) < 256
    requires forall i :: 0 <= i < |l.specs| ==> l.offsets[i] + SizeOf(l.specs[i].kind) <= l.size
    requires |l.specs| > 1 ==> l.offsets[0] + SizeOf(l.specs[0].kind) <= l.offsets[1]
    requires |l.specs| > 2 ==> l.offsets[1] + SizeOf(l.specs[1].kind) <= l.offsets[2]
    ensures ValidLayout(l)
  {}

  // ---- sizes -------------------------------------------------------------------------------

  /** A field with a small tag and a short length. */
  lemma LongestStep(desc: seq<FieldSpec>, n: nat)
    requires n < |desc| && desc[n].tag < 15 && (desc[n].kind.FixedBytes? ==> 0 < desc[n].kind.size < 128)
    ensures Longest(desc, n + 1) == Longest(desc, n) + Width(desc[n].kind)
  {
    hide EncodeVarint;
    OneByteVarint(Key(desc[n]));
    if desc[n].kind.FixedBytes? { OneByteVarint(desc[n].kind.size); }
  }

  /** Key, length and contents of a short field. */
  function Width(t: FieldType): nat {
    match t
    case Bool => 2
    case UInt32 => 6
    case FixedBytes(size) => 2 + size
  }

  lemma NoneLongest(desc: seq<FieldSpec>)
    ensures Longest(desc, 0) == 0
  {}

  /** Six of the seven declared sizes are the exact maxima; the one of OTEncrypted is two bytes short. */
  lemma LongestOf(t: MessageType)
    ensures Longest(SpecsOf(t), |SpecsOf(t)|) == if t.OTEncrypted? then 82 else DeclaredSize(t)
  {
    hide Longest;
    var desc := SpecsOf(t);
    NoneLongest(desc);
    LongestStep(desc, 0);
    if |desc| > 1 { LongestStep(desc, 1); }
    if |desc| > 2 { LongestStep(desc, 2); }
  }

  /** The declared size holds every message of the type, unless the type is OTEncrypted. */
  lemma DeclaredSizeSuffices(t: MessageType)
    ensures (forall m :: WellTyped(SpecsOf(t), m) ==> |EncodeMessage(SpecsOf(t), m)| <= DeclaredSize(t))
      <==> !t.OTEncrypted?
  {
    hide Longest, EncodeMessage, WellTyped;
    BufferHoldsAll(SpecsOf(t), DeclaredSize(t));
    LongestOf(t);
  }

  /** No OTEncrypted message fits its declared size. */
  lemma EncryptedNeverFits(m: seq<Value>)
    requires WellTyped(SpecsOf(OTEncrypted), m)
    ensures |EncodeMessage(SpecsOf(OTEncrypted), m)| == 82
  {
    hide Longest, EncodeFields;
    EncodedLength(SpecsOf(OTEncrypted), m, 3);
    LongestOf(OTEncrypted);
  }

  // ---- the bytes -----------------------------------------------------------------------------

  predicate Short(f: FieldSpec) {
    f.tag < 15 && (f.kind.FixedBytes? ==> 0 < f.kind.size < 128)
  }

  /** A field with a small tag and a short length: key byte, then the value; what is left out is left out whole. */
  function FieldForm(f: FieldSpec, v: Value): seq<uint8>
    requires HasType(v, f.kind) && Short(f)
  {
    match f.kind
    case Bool => if v.b then [8 * f.tag, 1] else []
    case UInt32 => if v.n == 0 then [] else [8 * f.tag] + EncodeVarint(v.n)
    case FixedBytes(size) => [8 * f.tag + 2, size] + v.s
  }

  lemma FormOfField(f: FieldSpec, v: Value)
    requires HasType(v, f.kind) && Short(f)
    ensures (if Elided(f.kind, v) then [] else FieldBytes(f, v)) == FieldForm(f, v)
  {
    hide EncodeVarint;
    OneByteVarint(Key(f));
    match f.kind
    case Bool => OneByteVarint(1);
    case UInt32 =>
    case FixedBytes(size) => OneByteVarint(size);
  }

  lemma FieldFormStep(desc: seq<FieldSpec>, m: seq<Value>, n: nat)
    requires n < |desc| && WellTyped(desc, m)
    requires Short(desc[n])
    ensures EncodeFields(desc, m, n + 1) == EncodeFields(desc, m, n) + FieldForm(desc[n], m[n])
  {
    hide FieldForm, FieldBytes, Elided, HasType;
    FormOfField(desc[n], m[n]);
  }

  /** What each message looks like on the wire. */
  function WireForm(t: MessageType, m: seq<Value>): seq<uint8>
    requires WellTyped(SpecsOf(t), m)
  {
    match t
    case SessionConfig => if m[0].b then [0x08, 0x01] else []
    case OTInit => [0x0A, 0x21] + m[0].s + (if m[1].n == 0 then [] else [0x10] + EncodeVarint(m[1].n))
    case OTResponse => [0x0A, 0x21] + m[0].s
    case OTEncrypted => [0x0A, 0x20] + m[0].s + ([0x12, 0x20] + m[1].s) + ([0x1A, 0x0C] + m[2].s)
    case MTAShare => [0x0A, 0x20] + m[0].s
    case DebugRevealRequest => [0x0A, 0x20] + m[0].s + ([0x12, 0x20] + m[1].s)
    case DebugRevealResponse => [0x0A, 0x20] + m[0].s + (if m[1].b then [0x10, 0x01] else [])
  }

  /** Up to three short fields, one after the other. */
  lemma FieldsJoined(desc: seq<FieldSpec>, m: seq<Value>)
    requires WellTyped(desc, m) && 1 <= |desc| <= 3
    requires forall i :: 0 <= i < |desc| ==> Short(desc[i])
    ensures EncodeMessage(desc, m) ==
      if |desc| == 1 then FieldForm(desc[0], m[0])
      else if |desc| == 2 then FieldForm(desc[0], m[0]) + FieldForm(desc[1], m[1])
      else FieldForm(desc[0], m[0]) + FieldForm(desc[1], m[1]) + FieldForm(desc[2], m[2])
  {
    hide EncodeFields, FieldForm;
    NoneWritten(desc, m);
    FieldFormStep(desc, m, 0);
    if |desc| > 1 { FieldFormStep(desc, m, 1); }
    if |desc| > 2 { FieldFormStep(desc, m, 2); }
  }

  /** The encoding of a message, byte by byte. */
  lemma WireBytes(t: MessageType, m: seq<Value>)
    requires WellTyped(SpecsOf(t), m)
    ensures EncodeMessage(SpecsOf(t), m) == WireForm(t, m)
  {
    hide EncodeMessage, EncodeVarint;
    FieldsJoined(SpecsOf(t), m);
  }

  lemma NoneWritten(desc: seq<FieldSpec>, m: seq<Value>)
    requires WellTyped(desc, m)
    ensures EncodeFields(desc, m, 0) == []
  {}

  // ---- round trips -------------------------------------------------------------------------

  /** What the encoder returns: the message, or nothing if the buffer is too small. */
  function Encoded(t: MessageType, m: seq<Value>): seq<uint8>
    requires WellTyped(SpecsOf(t), m)
  {
    if |EncodeMessage(SpecsOf(t), m)| <= DeclaredSize(t) then EncodeMessage(SpecsOf(t), m) else []
  }

  /** What was encoded decodes to itself, for all messages of six types, and for the all-zero OTEncrypted only. */
  lemma CodecRoundTrip(t: MessageType, m: seq<Value>)
    requires WellTyped(SpecsOf(t), m)
    ensures DecodeMessage(SpecsOf(t), Encoded(t, m)) == Some(m)
      <==> !t.OTEncrypted? || m == Defaults(SpecsOf(t))
  {
    hide EncodeMessage, Longest, DecodeFields;
    LayoutsValid(t);
    if t.OTEncrypted? {
      EncryptedNeverFits(m);
      NothingToDecode(SpecsOf(t));
    } else {
      EncodedLength(SpecsOf(t), m, |SpecsOf(t)|);
      assert |EncodeMessage(SpecsOf(t), m)| == |EncodeFields(SpecsOf(t), m, |SpecsOf(t)|)| by { Unfold(SpecsOf(t), m); }
      LongestOf(t);
      MessageRoundTrip(SpecsOf(t), m);
    }
  }

  /** Six of the seven types are written as they are. */
  lemma EncodedBytes(t: MessageType, m: seq<Value>)
    requires WellTyped(SpecsOf(t), m) && !t.OTEncrypted?
    ensures Encoded(t, m) == WireForm(t, m)
  {
    hide EncodeMessage, WireForm;
    WireBytes(t, m);
    EncodedLength(SpecsOf(t), m, |SpecsOf(t)|);
    Unfold(SpecsOf(t), m);
    LongestOf(t);
  }

  lemma Unfold(desc: seq<FieldSpec>, m: seq<Value>)
    requires WellTyped(desc, m)
    ensures EncodeMessage(desc, m) == EncodeFields(desc, m, |desc|)
  {}

  lemma NothingToDecode(desc: seq<FieldSpec>)
    ensures DecodeMessage(desc, []) == Some(Defaults(desc))
  {}

  // ---- descriptors ---------------------------------------------------------------------------

  /** The generated words of a descriptor, without the closing zero. */
  function FieldInfo(specs: seq<FieldSpec>, offsets: seq<nat>): seq<uint32>
    requires |offsets| == |specs| && forall i :: 0 <= i < |specs| ==> Fits(EntryOf(specs[i], offsets[i]))
  {
    if |specs| == 0 then []
    else
      FieldInfo(specs[..|specs| - 1], offsets[..|specs| - 1])
      + Pack(EntryOf(specs[|specs| - 1], offsets[|specs| - 1]))
  }

  lemma {:induction false} FieldInfoPacks(specs: seq<FieldSpec>, offsets: seq<nat>, es: seq<Entry>)
    requires |es| == |offsets| == |specs| && forall i :: 0 <= i < |specs| ==> es[i] == EntryOf(specs[i], offsets[i])
    requires AllFit(es)
    ensures FieldInfo(specs, offsets) == Packed(es)
  {
    hide Fits, EntryOf, Pack;
    if |es| > 0 {
      var n := |es| - 1;
      FieldInfoPacks(specs[..n], offsets[..n], es[..n]);
    }
  }

  method NewIter(t: MessageType) returns (iter: FieldIter)
    ensures fresh(iter) && Walks(iter, LayoutOf(t)) && iter.index == 0
  {
    hide Fits, Pack, Packed, LayoutOf, FieldInfo, Entries;
    LayoutsValid(t);
    var l := LayoutOf(t);
    ghost var es := Entries(l);
    FieldInfoPacks(l.specs, l.offsets, es);
    iter := new FieldIter(es, FieldInfo(l.specs, l.offsets) + [0], |l.specs|, l.specs[|l.specs| - 1].tag);
  }

  /** The part the encoders share: a buffer of the declared size, the message or nothing. */
  method EncodeStruct(t: MessageType, mem: array<uint8>, ghost m: seq<Value>) returns (bytes: seq<uint8>)
    requires ValidLayout(LayoutOf(t)) && mem.Length == LayoutOf(t).size && m == Values(LayoutOf(t), mem[..])
    ensures bytes == Encoded(t, m)
  {
    hide EncodeMessage, Values, LayoutOf, Fits;
    var iter := NewIter(t);
    var stream := new OutputStream(DeclaredSize(t));
    var ok := PbEncode(stream, iter, mem, LayoutOf(t));
    return if ok then stream.written else [];
  }

  /** The part the decoders share. */
  method DecodeStruct(t: MessageType, bytes: seq<uint8>) returns (ok: bool, mem: array<uint8>)
    ensures fresh(mem) && ValidLayout(LayoutOf(t)) && mem.Length == LayoutOf(t).size
    ensures ok <==> DecodeMessage(SpecsOf(t), bytes).Some?
    ensures ok ==> DecodeMessage(SpecsOf(t), bytes) == Some(Values(LayoutOf(t), mem[..]))
  {
    hide DecodeMessage, Values, LayoutOf, Fits;
    var iter := NewIter(t);
    LayoutsValid(t);
    mem := new uint8[LayoutOf(t).size](_ => 0);
    var stream := new InputStream(bytes);
    ok := PbDecode(stream, iter, mem, LayoutOf(t));
  }

  // ---- the server's messages -----------------------------------------------------------------

  type Point33 = s: seq<uint8> | |s| == 33 witness seq(33, _ => 0)
  type Bytes32 = s: seq<uint8> | |s| == 32 witness seq(32, _ => 0)
  type Bytes12 = s: seq<uint8> | |s| == 12 witness seq(12, _ => 0)

  /** A structure initialized to zero. */
  method NewStruct(t: MessageType) returns (mem: array<uint8>)
    ensures fresh(mem) && mem.Length == LayoutOf(t).size && ValidLayout(LayoutOf(t))
  {
    LayoutsValid(t);
    mem := new uint8[LayoutOf(t).size](_ => 0);
  }

  method EncodeSessionConfig(debugReveal: bool) returns (bytes: seq<uint8>)
    ensures bytes == Encoded(SessionConfig, [Flag(debugReveal)])
    ensures bytes == if debugReveal then [0x08, 0x01] else []
  {
    hide Encoded, EncodeVarint, ValidLayout;
    var mem := NewStruct(SessionConfig);
    mem[0] := if debugReveal then 1 else 0;
    EncodedBytes(SessionConfig, [Flag(debugReveal)]);
    bytes := EncodeStruct(SessionConfig, mem, [Flag(debugReveal)]);
  }

  method EncodeOTInit(pointA: Point33, bitIndex: uint32) returns (bytes: seq<uint8>)
    ensures bytes == Encoded(OTInit, [Bytes(pointA), Number(bitIndex)])
    ensures bytes == [0x0A, 0x21] + pointA + if bitIndex == 0 then [] else [0x10] + EncodeVarint(bitIndex)
  {
    hide Encoded, EncodeVarint, ValidLayout, Num;
    var mem := NewStruct(OTInit);
    StoreBytes(mem, 0, pointA);
    ghost var before := mem[..];
    StoreWord(mem, 36, bitIndex);
    assert mem[..][0..33] == before[0..33] == pointA;
    assert mem[..][36..40] == mem[36..40];
    EncodedBytes(OTInit, [Bytes(pointA), Number(bitIndex)]);
    bytes := EncodeStruct(OTInit, mem, [Bytes(pointA), Number(bitIndex)]);
  }

  method EncodeOTResponse(pointB: Point33) returns (bytes: seq<uint8>)
    ensures bytes == Encoded(OTResponse, [Bytes(pointB)])
    ensures bytes == [0x0A, 0x21] + pointB
  {
    hide Encoded, EncodeVarint, ValidLayout;
    var mem := NewStruct(OTResponse);
    StoreBytes(mem, 0, pointB);
    assert mem[..][0..33] == pointB;
    EncodedBytes(OTResponse, [Bytes(pointB)]);
    bytes := EncodeStruct(OTResponse, mem, [Bytes(pointB)]);
  }

  /** Always nothing: the buffer is too small for any message. */
  method EncodeOTEncrypted(m0: Bytes32, m1: Bytes32, nonce: Bytes12) returns (bytes: seq<uint8>)
    ensures bytes == Encoded(OTEncrypted, [Bytes(m0), Bytes(m1), Bytes(nonce)]) == []
  {
    hide ValidLayout, EncodeMessage;
    var mem := NewStruct(OTEncrypted);
    StoreBytes(mem, 0, m0);
    StoreBytes(mem, 32, m1);
    StoreBytes(mem, 64, nonce);
    ThreeStored(mem[..], m0, m1, nonce);
    EncryptedNeverFits([Bytes(m0), Bytes(m1), Bytes(nonce)]);
    bytes := EncodeStruct(OTEncrypted, mem, [Bytes(m0), Bytes(m1), Bytes(nonce)]);
  }

  lemma ThreeStored(mem: seq<uint8>, m0: Bytes32, m1: Bytes32, nonce: Bytes12)
    requires |mem| == 76 && mem[0..32] == m0 && mem[32..64] == m1 && mem[64..76] == nonce
    ensures ValidLayout(LayoutOf(OTEncrypted))
    ensures Values(LayoutOf(OTEncrypted), mem) == [Bytes(m0), Bytes(m1), Bytes(nonce)]
  {
    LayoutsValid(OTEncrypted);
  }

  method EncodeScalar(value: Bytes32) returns (bytes: seq<uint8>)
    ensures bytes == Encoded(MTAShare, [Bytes(value)])
    ensures bytes == [0x0A, 0x20] + value
  {
    hide Encoded, EncodeVarint, ValidLayout;
    var mem := NewStruct(MTAShare);
    StoreBytes(mem, 0, value);
    assert mem[..][0..32] == value;
    EncodedBytes(MTAShare, [Bytes(value)]);
    bytes := EncodeStruct(MTAShare, mem, [Bytes(value)]);
  }

  method EncodeDebugRevealResponse(share: Bytes32, verified: bool) returns (bytes: seq<uint8>)
    ensures bytes == Encoded(DebugRevealResponse, [Bytes(share), Flag(verified)])
    ensures bytes == [0x0A, 0x20] + share + if verified then [0x10, 0x01] else []
  {
    hide Encoded, EncodeVarint, ValidLayout;
    var mem := NewStruct(DebugRevealResponse);
    StoreBytes(mem, 0, share);
    ghost var before := mem[..];
    mem[32] := if verified then 1 else 0;
    assert mem[..][0..32] == before[0..32] == share;
    EncodedBytes(DebugRevealResponse, [Bytes(share), Flag(verified)]);
    bytes := EncodeStruct(DebugRevealResponse, mem, [Bytes(share), Flag(verified)]);
  }

  method DecodeSessionConfig(bytes: seq<uint8>) returns (r: Option<bool>)
    ensures r == match DecodeMessage(SpecsOf(SessionConfig), bytes) case None => None case Some(m) => Some(m[0].b)
  {
    hide DecodeMessage, ValidLayout;
    var ok, mem := DecodeStruct(SessionConfig, bytes);
    return if ok then Some(mem[0] != 0) else None;
  }

  method DecodeOTInit(bytes: seq<uint8>) returns (r: Option<(seq<uint8>, uint32)>)
    ensures r == match DecodeMessage(SpecsOf(OTInit), bytes) case None => None case Some(m) => Some((m[0].s, m[1].n))
  {
    hide DecodeMessage, ValidLayout, Num;
    var ok, mem := DecodeStruct(OTInit, bytes);
    if !ok { return None; }
    var bitIndex := LoadWord(mem, 36);
    assert mem[..][36..40] == mem[36..40] && mem[..][0..33] == mem[..33];
    return Some((mem[..33], bitIndex));
  }

  method DecodeOTEncrypted(bytes: seq<uint8>) returns (r: Option<(seq<uint8>, seq<uint8>, seq<uint8>)>)
    ensures r == match DecodeMessage(SpecsOf(OTEncrypted), bytes)
                 case None => None
                 case Some(m) => Some((m[0].s, m[1].s, m[2].s))
  {
    hide DecodeMessage, ValidLayout;
    var ok, mem := DecodeStruct(OTEncrypted, bytes);
    if !ok { return None; }
    assert mem[..][0..32] == mem[..32] && mem[..][32..64] == mem[32..64] && mem[..][64..76] == mem[64..76];
    return Some((mem[..32], mem[32..64], mem[64..76]));
  }

  method DecodeScalar(bytes: seq<uint8>) returns (r: Option<seq<uint8>>)
    ensures r == match DecodeMessage(SpecsOf(MTAShare), bytes) case None => None case Some(m) => Some(m[0].s)
  {
    hide DecodeMessage, ValidLayout;
    var ok, mem := DecodeStruct(MTAShare, bytes);
    if !ok { return None; }
    assert mem[..][0..32] == mem[..32];
    return Some(mem[..32]);
  }

  method DecodeDebugRevealRequest(bytes: seq<uint8>) returns (r: Option<(seq<uint8>, seq<uint8>)>)
    ensures r == match DecodeMessage(SpecsOf(DebugRevealRequest), bytes)
                 case None => None
                 case Some(m) => Some((m[0].s, m[1].s))
  {
    hide DecodeMessage, ValidLayout;
    var ok, mem := DecodeStruct(DebugRevealRequest, bytes);
    if !ok { return None; }
    assert mem[..][0..32] == mem[..32] && mem[..][32..64] == mem[32..64];
    return Some((mem[..32], mem[32..64]));
  }
}
