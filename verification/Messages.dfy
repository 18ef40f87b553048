/** Messages of this protocol as the encoder writes them and as the decoder accepts them. */
module Messages {
  import opened Wrappers
  import opened Arith
  import opened Varint

  datatype FieldType = Bool | UInt32 | FixedBytes(size: nat)

  datatype FieldSpec = FieldSpec(tag: nat, kind: FieldType)

  datatype Value = Flag(b: bool) | Number(n: nat) | Bytes(s: seq<uint8>)

  predicate HasType(v: Value, t: FieldType) {
    match t
    case Bool => v.Flag?
    case UInt32 => v.Number? && v.n < WORD
    case FixedBytes(size) => v.Bytes? && |v.s| == size
  }

  /** Tags are positive, distinct and fit a key; lengths fit sixteen bits. */
  predicate ValidSpec(desc: seq<FieldSpec>) {
    && (forall i :: 0 <= i < |desc| ==> 0 < desc[i].tag < 0x1000_0000)
    && (forall i :: 0 <= i < |desc| && desc[i].kind.FixedBytes? ==> desc[i].kind.size < 0x10000)
    && (forall i, j :: 0 <= i < j < |desc| ==> desc[i].tag != desc[j].tag)
  }

  predicate WellTyped(desc: seq<FieldSpec>, m: seq<Value>) {
    |m| == |desc| && forall i :: 0 <= i < |m| ==> HasType(m[i], desc[i].kind)
  }

  function Default(t: FieldType): (v: Value)
    ensures HasType(v, t)
  {
    match t
    case Bool => Flag(false)
    case UInt32 => Number(0)
    case FixedBytes(size) => Bytes(seq(size, _ => 0))
  }

  function Defaults(desc: seq<FieldSpec>): (m: seq<Value>)
    ensures WellTyped(desc, m) && forall i :: 0 <= i < |m| ==> m[i] == Default(desc[i].kind)
  {
    seq(|desc|, i requires 0 <= i < |desc| => Default(desc[i].kind))
  }

  // ---- encoding --------------------------------------------------------------------------

  /** Fields that are left out: false, zero, and byte strings whose fixed length is zero. */
  predicate Elided(t: FieldType, v: Value)
    requires HasType(v, t)
  {
    match t
    case Bool => !v.b
    case UInt32 => v.n == 0
    case FixedBytes(size) => size == 0
  }

  lemma ElidedIsDefault(t: FieldType, v: Value)
    requires HasType(v, t) && Elided(t, v)
    ensures v == Default(t)
  {}

  function WireType(t: FieldType): (w: nat)
    ensures w < 8
  {
    if t.FixedBytes? then 2 else 0
  }

  function Key(f: FieldSpec): nat {
    8 * f.tag + WireType(f.kind)
  }

  function Payload(v: Value): seq<uint8> {
    match v
    case Flag(b) => EncodeVarint(if b then 1 else 0)
    case Number(n) => EncodeVarint(n)
    case Bytes(s) => EncodeVarint(|s|) + s
  }

  function FieldBytes(f: FieldSpec, v: Value): seq<uint8> {
    EncodeVarint(Key(f)) + Payload(v)
  }

  /** The first n fields, in order. */
  function EncodeFields(desc: seq<FieldSpec>, m: seq<Value>, n: nat): seq<uint8>
    requires WellTyped(desc, m) && n <= |desc|
  {
    if n == 0 then []
    else
      EncodeFields(desc, m, n - 1)
      + if Elided(desc[n - 1].kind, m[n - 1]) then [] else FieldBytes(desc[n - 1], m[n - 1])
  }

  function EncodeMessage(desc: seq<FieldSpec>, m: seq<Value>): seq<uint8>
    requires WellTyped(desc, m)
  {
    EncodeFields(desc, m, |desc|)
  }

  // ---- decoding --------------------------------------------------------------------------

  /** The value of a known field, and what is left behind it. */
  function ReadValue(t: FieldType, wire: nat, s: seq<uint8>): (r: Option<(Value, seq<uint8>)>)
    ensures r.Some? ==> HasType(r.value.0, t) && |r.value.1| <= |s|
  {
    if wire != WireType(t) then None
    else
      match t
      case Bool => (match DecodeVarint32(s) case None => None case Some((v, rest)) => Some((Flag(v != 0), rest)))
      case UInt32 =>
        (match DecodeVarint(s)
         case None => None
         case Some((v, rest)) => if v < WORD then Some((Number(v), rest)) else None)
      case FixedBytes(size) =>
        match DecodeVarint32(s)
        case None => None
        case Some((length, rest)) =>
          if length == 0 then Some((Default(t), rest))
          else if length >= 0x10000 || length != size || |rest| < size then None
          else Some((Bytes(rest[..size]), rest[size..]))
  }

  /** What is left behind an unknown field. */
  function SkipValue(wire: nat, s: seq<uint8>): (r: Option<seq<uint8>>)
    ensures r.Some? ==> |r.value| <= |s|
  {
    match wire
    case 0 => SkippedVarint(s)
    case 1 => Dropped(s, 8)
    case 2 => (match DecodeVarint32(s) case None => None case Some((length, rest)) => Dropped(rest, length))
    case 5 => Dropped(s, 4)
    case _ => None
  }

  function Dropped(s: seq<uint8>, n: nat): Option<seq<uint8>> {
    if |s| < n then None else Some(s[n..])
  }

  /** Values of unknown fields are skipped whole: a varint, eight or four bytes, or a length and so many bytes. */
  lemma SkipsWritten(v: nat, s: seq<uint8>, rest: seq<uint8>)
    ensures SkipValue(0, EncodeVarint(v) + rest) == Some(rest)
    ensures |s| == 8 ==> SkipValue(1, s + rest) == Some(rest)
    ensures |s| < WORD ==> SkipValue(2, EncodeVarint(|s|) + s + rest) == Some(rest)
    ensures |s| == 4 ==> SkipValue(5, s + rest) == Some(rest)
  {
    SkipsVarint(v, rest);
    assert (s + rest)[|s|..] == rest;
    if |s| < WORD {
      assert EncodeVarint(|s|) + s + rest == EncodeVarint(|s|) + (s + rest);
      Varint32RoundTrip(|s|, s + rest);
    }
  }

  function FieldWithTag(desc: seq<FieldSpec>, tag: nat): (r: Option<nat>)
    ensures r.Some? ==> r.value < |desc| && desc[r.value].tag == tag
    ensures r.None? ==> forall i :: 0 <= i < |desc| ==> desc[i].tag != tag
  {
    if |desc| == 0 then None
    else if desc[|desc| - 1].tag == tag then Some(|desc| - 1)
    else FieldWithTag(desc[..|desc| - 1], tag)
  }

  /** One field off the front: its effect on the values so far, and what is left. */
  function DecodeOne(desc: seq<FieldSpec>, s: seq<uint8>, m: seq<Value>): (r: Option<(seq<Value>, seq<uint8>)>)
    requires WellTyped(desc, m)
    ensures r.Some? ==> WellTyped(desc, r.value.0) && |r.value.1| < |s|
  {
    match DecodeVarint32(s)
    case None => None
    case Some((key, rest)) =>
      if key / 8 == 0 then None
      else
        match FieldWithTag(desc, key / 8)
        case None => (match SkipValue(key % 8, rest) case None => None case Some(left) => Some((m, left)))
        case Some(i) =>
          match ReadValue(desc[i].kind, key % 8, rest)
          case None => None
          case Some((v, left)) => Some((m[i := v], left))
  }

  /** All fields, later ones overwriting earlier ones. */
  function DecodeFields(desc: seq<FieldSpec>, s: seq<uint8>, m: seq<Value>): (r: Option<seq<Value>>)
    requires WellTyped(desc, m)
    ensures r.Some? ==> WellTyped(desc, r.value)
    decreases |s|
  {
    if |s| == 0 then Some(m)
    else
      match DecodeOne(desc, s, m)
      case None => None
      case Some((m', rest)) => DecodeFields(desc, rest, m')
  }

  function DecodeMessage(desc: seq<FieldSpec>, s: seq<uint8>): (r: Option<seq<Value>>)
    ensures r.Some? ==> WellTyped(desc, r.value)
  {
    DecodeFields(desc, s, Defaults(desc))
  }

  // ---- chunks ----------------------------------------------------------------------------

  /** A key and the bytes that belong to it. */
  datatype Chunk =
    | Known(key: seq<uint8>, body: seq<uint8>, field: nat, value: Value)
    | Unknown(key: seq<uint8>, body: seq<uint8>)

  /** The key is a varint and nothing more, and so is the body a complete value. Longer varints than necessary,
      explicit defaults and empty strings for zeros are all allowed. */
  predicate WellFormed(desc: seq<FieldSpec>, c: Chunk) {
    match c
    case Known(key, body, field, value) =>
      && field < |desc| && DecodeVarint32(key) == Some((Key(desc[field]), []))
      && ReadValue(desc[field].kind, WireType(desc[field].kind), body) == Some((value, []))
    case Unknown(key, body) =>
      && DecodeVarint32(key).Some? && DecodeVarint32(key).value.1 == []
      && var k := DecodeVarint32(key).value.0;
         k / 8 != 0 && FieldWithTag(desc, k / 8).None? && SkipValue(k % 8, body) == Some([])
  }

  predicate AllWellFormed(desc: seq<FieldSpec>, cs: seq<Chunk>) {
    forall i :: 0 <= i < |cs| ==> WellFormed(desc, cs[i])
  }

  function ChunkBytes(cs: seq<Chunk>): seq<uint8> {
    if |cs| == 0 then [] else (cs[0].key + cs[0].body) + ChunkBytes(cs[1..])
  }

  function Apply(desc: seq<FieldSpec>, c: Chunk, m: seq<Value>): (r: seq<Value>)
    requires WellFormed(desc, c) && WellTyped(desc, m)
    ensures WellTyped(desc, r)
  {
    if c.Known? then m[c.field := c.value] else m
  }

  function ApplyAll(desc: seq<FieldSpec>, cs: seq<Chunk>, m: seq<Value>): (r: seq<Value>)
    requires AllWellFormed(desc, cs) && WellTyped(desc, m)
    ensures WellTyped(desc, r)
  {
    if |cs| == 0 then m else ApplyAll(desc, cs[1..], Apply(desc, cs[0], m))
  }

  lemma VarintPrefix(s: seq<uint8>, rest: seq<uint8>)
    ensures DecodeVarint32(s).Some? ==>
      DecodeVarint32(s + rest) == Some((DecodeVarint32(s).value.0, DecodeVarint32(s).value.1 + rest))
    ensures DecodeVarint(s).Some? ==>
      DecodeVarint(s + rest) == Some((DecodeVarint(s).value.0, DecodeVarint(s).value.1 + rest))
  {
    if DecodeVarint32(s).Some? { Read32Prefix(s, rest, 0, 0); }
    if DecodeVarint(s).Some? { Read64Prefix(s, rest, 0, 0); }
  }

  lemma ReadValuePrefix(t: FieldType, wire: nat, s: seq<uint8>, rest: seq<uint8>)
    requires ReadValue(t, wire, s).Some?
    ensures var r := ReadValue(t, wire, s).value; ReadValue(t, wire, s + rest) == Some((r.0, r.1 + rest))
  {
    hide DecodeVarint, DecodeVarint32;
    VarintPrefix(s, rest);
    if t.FixedBytes? {
      var left := DecodeVarint32(s).value.1;
      if |left| >= t.size {
        assert (left + rest)[..t.size] == left[..t.size] && (left + rest)[t.size..] == left[t.size..] + rest;
      }
    }
  }

  lemma SkipValuePrefix(wire: nat, s: seq<uint8>, rest: seq<uint8>)
    requires SkipValue(wire, s).Some?
    ensures SkipValue(wire, s + rest) == Some(SkipValue(wire, s).value + rest)
  {
    hide DecodeVarint, DecodeVarint32;
    match wire
    case 0 => SkippedPrefix(s, rest);
    case 1 => DroppedPrefix(s, 8, rest);
    case 2 =>
      VarintPrefix(s, rest);
      DroppedPrefix(DecodeVarint32(s).value.1, DecodeVarint32(s).value.0, rest);
    case _ => DroppedPrefix(s, 4, rest);
  }

  lemma DroppedPrefix(s: seq<uint8>, n: nat, rest: seq<uint8>)
    requires |s| >= n
    ensures Dropped(s + rest, n) == Some(s[n..] + rest)
  {
    assert (s + rest)[n..] == s[n..] + rest;
  }

  /** A chunk in front of anything is read as that chunk. */
  lemma DecodeChunk(desc: seq<FieldSpec>, c: Chunk, rest: seq<uint8>, m: seq<Value>)
    requires ValidSpec(desc) && WellFormed(desc, c) && WellTyped(desc, m)
    ensures DecodeOne(desc, (c.key + c.body) + rest, m) == Some((Apply(desc, c, m), rest))
  {
    hide DecodeVarint32, ReadValue, SkipValue;
    var s := (c.key + c.body) + rest;
    assert s == c.key + (c.body + rest);
    VarintPrefix(c.key, c.body + rest);
    assert [] + (c.body + rest) == c.body + rest && [] + rest == rest;
    if c.Known? {
      var f := desc[c.field];
      KeyParts(f);
      ReadValuePrefix(f.kind, WireType(f.kind), c.body, rest);
    } else {
      SkipValuePrefix(DecodeVarint32(c.key).value.0 % 8, c.body, rest);
    }
  }

  lemma KeyParts(f: FieldSpec)
    ensures Key(f) / 8 == f.tag && Key(f) % 8 == WireType(f.kind)
  {}

  /** Decoding any sequence of chunks applies them in order. */
  lemma {:induction false} DecodeChunks(desc: seq<FieldSpec>, cs: seq<Chunk>, m: seq<Value>)
    requires ValidSpec(desc) && AllWellFormed(desc, cs) && WellTyped(desc, m)
    ensures DecodeFields(desc, ChunkBytes(cs), m) == Some(ApplyAll(desc, cs, m))
  {
    hide DecodeOne, WellFormed;
    if |cs| > 0 {
      DecodeChunk(desc, cs[0], ChunkBytes(cs[1..]), m);
      DecodeChunks(desc, cs[1..], Apply(desc, cs[0], m));
    }
  }

  /** Conversely, whatever is accepted is a sequence of chunks. */
  lemma {:induction false} DecodeSplits(desc: seq<FieldSpec>, s: seq<uint8>, m: seq<Value>) returns (cs: seq<Chunk>)
    requires ValidSpec(desc) && WellTyped(desc, m) && DecodeFields(desc, s, m).Some?
    ensures AllWellFormed(desc, cs) && ChunkBytes(cs) == s && DecodeFields(desc, s, m) == Some(ApplyAll(desc, cs, m))
    decreases |s|
  {
    hide DecodeOne, WellFormed;
    if |s| == 0 {
      cs := [];
    } else {
      var c := FirstChunk(desc, s, m);
      var (m', rest) := DecodeOne(desc, s, m).value;
      var tail := DecodeSplits(desc, rest, m');
      cs := [c] + tail;
      assert cs[1..] == tail;
    }
  }

  lemma FirstChunk(desc: seq<FieldSpec>, s: seq<uint8>, m: seq<Value>) returns (c: Chunk)
    requires ValidSpec(desc) && WellTyped(desc, m) && DecodeOne(desc, s, m).Some?
    ensures WellFormed(desc, c)
    ensures var r := DecodeOne(desc, s, m).value; s == (c.key + c.body) + r.1 && r.0 == Apply(desc, c, m)
  {
    hide DecodeVarint32, ReadValue, SkipValue;
    var (k, rest) := DecodeVarint32(s).value;
    var left := DecodeOne(desc, s, m).value.1;
    var key := SplitVarint(s);
    match FieldWithTag(desc, k / 8)
    case None =>
      var body := SplitSkip(k % 8, rest);
      c := Unknown(key, body);
      assert s == (key + body) + left;
    case Some(i) =>
      WireMatches(desc[i].kind, k % 8, rest);
      var body := SplitValue(desc[i].kind, k % 8, rest);
      c := Known(key, body, i, ReadValue(desc[i].kind, k % 8, rest).value.0);
      assert s == (key + body) + left;
  }

  lemma WireMatches(t: FieldType, wire: nat, s: seq<uint8>)
    requires ReadValue(t, wire, s).Some?
    ensures wire == WireType(t)
  {}

  /** The bytes a 32-bit varint takes up. */
  lemma {:induction false} SplitRead32(s: seq<uint8>, pos: nat, acc: nat) returns (front: seq<uint8>)
    requires Read32(s, pos, acc).Some?
    ensures var r := Read32(s, pos, acc).value; s == front + r.1 && Read32(front, pos, acc) == Some((r.0, []))
    decreases |s|
  {
    hide Pow;
    if s[0] < 128 {
      front := [s[0]];
    } else {
      var next := if pos >= 32 then acc else acc + s[0] % (if pos == 28 then 16 else 128) * Pow(2, pos);
      var tail := SplitRead32(s[1..], pos + 7, next);
      front := [s[0]] + tail;
      assert front[1..] == tail;
    }
  }

  lemma {:induction false} SplitRead64(s: seq<uint8>, pos: nat, acc: nat) returns (front: seq<uint8>)
    requires Read64(s, pos, acc).Some?
    ensures var r := Read64(s, pos, acc).value; s == front + r.1 && Read64(front, pos, acc) == Some((r.0, []))
    decreases |s|
  {
    hide Pow;
    if s[0] < 128 {
      front := [s[0]];
    } else {
      var tail := SplitRead64(s[1..], pos + 7, acc + s[0] % 128 * Pow(2, pos));
      front := [s[0]] + tail;
      assert front[1..] == tail;
    }
  }

  lemma SplitVarint(s: seq<uint8>) returns (front: seq<uint8>)
    requires DecodeVarint32(s).Some?
    ensures var r := DecodeVarint32(s).value; s == front + r.1 && DecodeVarint32(front) == Some((r.0, []))
  {
    front := SplitRead32(s, 0, 0);
  }

  lemma {:induction false} SplitSkipped(s: seq<uint8>) returns (front: seq<uint8>)
    requires SkippedVarint(s).Some?
    ensures s == front + SkippedVarint(s).value && SkippedVarint(front) == Some([])
  {
    if s[0] < 128 {
      front := [s[0]];
    } else {
      var tail := SplitSkipped(s[1..]);
      front := [s[0]] + tail;
      assert front[1..] == tail;
    }
  }

  lemma SplitSkip(wire: nat, s: seq<uint8>) returns (front: seq<uint8>)
    requires SkipValue(wire, s).Some?
    ensures s == front + SkipValue(wire, s).value && SkipValue(wire, front) == Some([])
  {
    hide DecodeVarint32;
    match wire
    case 0 => front := SplitSkipped(s);
    case 1 => front := s[..8];
    case 2 =>
      var (length, rest) := DecodeVarint32(s).value;
      var head := SplitVarint(s);
      front := head + rest[..length];
      VarintPrefix(head, rest[..length]);
      assert [] + rest[..length] == rest[..length];
      assert s == front + rest[length..];
    case _ => front := s[..4];
  }

  lemma SplitValue(t: FieldType, wire: nat, s: seq<uint8>) returns (front: seq<uint8>)
    requires ReadValue(t, wire, s).Some?
    ensures var r := ReadValue(t, wire, s).value; s == front + r.1 && ReadValue(t, wire, front) == Some((r.0, []))
  {
    hide DecodeVarint, DecodeVarint32;
    match t
    case Bool => front := SplitVarint(s);
    case UInt32 => front := SplitWide(s);
    case FixedBytes(size) =>
      var (length, rest) := DecodeVarint32(s).value;
      var head := SplitVarint(s);
      front := if length == 0 then head else head + rest[..size];
      if length != 0 {
        VarintPrefix(head, rest[..size]);
        assert [] + rest[..size] == rest[..size] && rest[..size][size..] == [] && rest[..size][..size] == rest[..size];
        assert s == front + rest[size..];
      }
  }

  lemma SplitWide(s: seq<uint8>) returns (front: seq<uint8>)
    requires DecodeVarint(s).Some?
    ensures var r := DecodeVarint(s).value; s == front + r.1 && DecodeVarint(front) == Some((r.0, []))
  {
    front := SplitRead64(s, 0, 0);
  }

  // ---- what a message means ------------------------------------------------------------------

  /** The chunks say nothing but what the message says, and all of what it does not leave to the defaults. */
  ghost predicate Arranges(desc: seq<FieldSpec>, cs: seq<Chunk>, m: seq<Value>)
    requires AllWellFormed(desc, cs) && WellTyped(desc, m)
  {
    && (forall k :: 0 <= k < |cs| && cs[k].Known? ==> cs[k].value == m[cs[k].field])
    && (forall i :: 0 <= i < |m| && m[i] != Default(desc[i].kind) ==> Mentions(cs, i))
  }

  ghost predicate Mentions(cs: seq<Chunk>, i: nat) {
    exists k :: 0 <= k < |cs| && cs[k].Known? && cs[k].field == i
  }

  /** Chunks that agree with m settle the fields they mention and leave the others. */
  lemma {:induction false} Settled(desc: seq<FieldSpec>, cs: seq<Chunk>, m0: seq<Value>, m: seq<Value>, i: nat)
    requires AllWellFormed(desc, cs) && WellTyped(desc, m) && WellTyped(desc, m0) && i < |m|
    requires forall k :: 0 <= k < |cs| && cs[k].Known? ==> cs[k].value == m[cs[k].field]
    ensures ApplyAll(desc, cs, m0)[i] == if Mentions(cs, i) || m0[i] == m[i] then m[i] else m0[i]
    decreases |cs|
  {
    hide WellFormed, HasType;
    if |cs| > 0 {
      var m1 := Apply(desc, cs[0], m0);
      assert forall k :: 0 <= k < |cs[1..]| ==> cs[1..][k] == cs[k + 1];
      Settled(desc, cs[1..], m1, m, i);
      MentionedInTail(cs, i);
    }
  }

  lemma MentionedInTail(cs: seq<Chunk>, i: nat)
    requires |cs| > 0
    ensures Mentions(cs, i) <==> (cs[0].Known? && cs[0].field == i) || Mentions(cs[1..], i)
  {
    if k :| 0 <= k < |cs| && cs[k].Known? && cs[k].field == i {
      if k > 0 { assert cs[1..][k - 1] == cs[k]; }
    }
    if k :| 0 <= k < |cs[1..]| && cs[1..][k].Known? && cs[1..][k].field == i {
      assert cs[k + 1] == cs[1..][k];
    }
  }

  /** Fields in any order, repeated, with defaults written out or left out, and with unknown fields in between:
      decoding returns the message. */
  lemma AnyArrangement(desc: seq<FieldSpec>, cs: seq<Chunk>, m: seq<Value>)
    requires ValidSpec(desc) && AllWellFormed(desc, cs) && WellTyped(desc, m) && Arranges(desc, cs, m)
    ensures DecodeMessage(desc, ChunkBytes(cs)) == Some(m)
  {
    hide WellFormed, HasType, DecodeFields;
    var d := Defaults(desc);
    DecodeChunks(desc, cs, d);
    forall i | 0 <= i < |m| ensures ApplyAll(desc, cs, d)[i] == m[i] {
      Settled(desc, cs, d, m, i);
    }
    assert ApplyAll(desc, cs, d) == m;
  }

  // ---- round trip --------------------------------------------------------------------------

  /** The chunks the encoder writes for the first n fields. */
  function Written(desc: seq<FieldSpec>, m: seq<Value>, n: nat): seq<Chunk>
    requires WellTyped(desc, m) && n <= |desc|
  {
    if n == 0 then []
    else
      Written(desc, m, n - 1)
      + if Elided(desc[n - 1].kind, m[n - 1]) then []
        else [Known(EncodeVarint(Key(desc[n - 1])), Payload(m[n - 1]), n - 1, m[n - 1])]
  }

  lemma {:induction false} BytesSnoc(cs: seq<Chunk>, c: Chunk)
    ensures ChunkBytes(cs + [c]) == ChunkBytes(cs) + (c.key + c.body)
  {
    if |cs| == 0 {
      assert [c][1..] == [];
      assert (c.key + c.body) + [] == c.key + c.body && [] + (c.key + c.body) == c.key + c.body;
    } else {
      assert (cs + [c])[1..] == cs[1..] + [c];
      BytesSnoc(cs[1..], c);
    }
  }

  lemma {:induction false} WrittenBytes(desc: seq<FieldSpec>, m: seq<Value>, n: nat)
    requires WellTyped(desc, m) && n <= |desc|
    ensures ChunkBytes(Written(desc, m, n)) == EncodeFields(desc, m, n)
  {
    hide Elided, EncodeVarint, Payload;
    if n > 0 {
      WrittenBytes(desc, m, n - 1);
      if !Elided(desc[n - 1].kind, m[n - 1]) {
        BytesSnoc(Written(desc, m, n - 1), Known(EncodeVarint(Key(desc[n - 1])), Payload(m[n - 1]), n - 1, m[n - 1]));
      } else {
        assert Written(desc, m, n) == Written(desc, m, n - 1);
      }
    }
  }

  lemma PayloadReads(t: FieldType, v: Value)
    requires HasType(v, t) && (t.FixedBytes? ==> t.size < 0x10000)
    ensures ReadValue(t, WireType(t), Payload(v)) == Some((v, []))
  {
    hide DecodeVarint, DecodeVarint32, EncodeVarint;
    match t
    case Bool =>
      Varint32RoundTrip(if v.b then 1 else 0, []);
      assert Payload(v) + [] == Payload(v);
    case UInt32 =>
      VarintRoundTrip(v.n, []);
      assert Payload(v) + [] == Payload(v);
    case FixedBytes(size) =>
      Varint32RoundTrip(size, v.s);
      assert v.s[..size] == v.s && v.s[size..] == [];
  }

  lemma KeyReads(f: FieldSpec)
    requires f.tag < 0x1000_0000
    ensures DecodeVarint32(EncodeVarint(Key(f))) == Some((Key(f), []))
  {
    Varint32RoundTrip(Key(f), []);
    assert EncodeVarint(Key(f)) + [] == EncodeVarint(Key(f));
  }

  lemma {:induction false} WrittenWell(desc: seq<FieldSpec>, m: seq<Value>, n: nat)
    requires ValidSpec(desc) && WellTyped(desc, m) && n <= |desc|
    ensures AllWellFormed(desc, Written(desc, m, n))
    ensures var cs := Written(desc, m, n);
      forall k :: 0 <= k < |cs| ==> cs[k].Known? && cs[k].field < n && cs[k].value == m[cs[k].field]
    ensures forall i :: 0 <= i < n && m[i] != Default(desc[i].kind) ==> Mentions(Written(desc, m, n), i)
  {
    hide Elided, Key;
    hide DecodeVarint, DecodeVarint32, EncodeVarint, ReadValue, HasType, Payload;
    if n > 0 {
      WrittenWell(desc, m, n - 1);
      var before, cs := Written(desc, m, n - 1), Written(desc, m, n);
      KeyReads(desc[n - 1]);
      PayloadReads(desc[n - 1].kind, m[n - 1]);
      forall i | 0 <= i < n && m[i] != Default(desc[i].kind) ensures Mentions(cs, i) {
        if i < n - 1 {
          var k :| 0 <= k < |before| && before[k].Known? && before[k].field == i;
          assert cs[k] == before[k];
        } else {
          if Elided(desc[i].kind, m[i]) { ElidedIsDefault(desc[i].kind, m[i]); }
          assert cs[|cs| - 1].field == i;
        }
      }
    }
  }

  /** Decoding an encoded message returns it, elided defaults included. */
  lemma MessageRoundTrip(desc: seq<FieldSpec>, m: seq<Value>)
    requires ValidSpec(desc) && WellTyped(desc, m)
    ensures DecodeMessage(desc, EncodeMessage(desc, m)) == Some(m)
  {
    hide WellFormed, HasType, DecodeMessage, EncodeFields, Written;
    WrittenWell(desc, m, |desc|);
    WrittenBytes(desc, m, |desc|);
    AnyArrangement(desc, Written(desc, m, |desc|), m);
  }

  // ---- sizes -------------------------------------------------------------------------------

  /** The longest payload of a type. */
  function LongestPayload(t: FieldType): nat {
    match t
    case Bool => 1
    case UInt32 => 5
    case FixedBytes(size) => |EncodeVarint(size)| + size
  }

  /** The longest encoding of the first n fields. */
  function Longest(desc: seq<FieldSpec>, n: nat): nat
    requires n <= |desc|
  {
    if n == 0 then 0
    else
      Longest(desc, n - 1)
      + if desc[n - 1].kind == FixedBytes(0) then 0
        else |EncodeVarint(Key(desc[n - 1]))| + LongestPayload(desc[n - 1].kind)
  }

  /** A message of that length. */
  function Widest(desc: seq<FieldSpec>): (m: seq<Value>)
    ensures WellTyped(desc, m)
  {
    seq(|desc|, i requires 0 <= i < |desc| =>
      match desc[i].kind
      case Bool => Flag(true)
      case UInt32 => Number(0xFFFF_FFFF)
      case FixedBytes(size) => Default(desc[i].kind))
  }

  lemma PayloadLength(t: FieldType, v: Value)
    requires HasType(v, t)
    ensures |Payload(v)| <= LongestPayload(t)
    ensures t.FixedBytes? ==> |Payload(v)| == LongestPayload(t)
  {
    if t.UInt32? {
      assert Pow(128, 1) == 128 && Pow(128, 2) == 16384;
      PowAdd(128, 2, 2);
      PowAdd(128, 4, 1);
      VarintLength(v.n, 5);
    }
  }

  lemma WidestNumber()
    ensures |EncodeVarint(0xFFFF_FFFF)| == 5
  {
    assert EncodeVarint(0xF) == [0xF];
    assert |EncodeVarint(0x7FF)| == 2;
    assert |EncodeVarint(0x3_FFFF)| == 3;
    assert |EncodeVarint(0x1FF_FFFF)| == 4;
  }

  /** No encoding is longer, and messages of byte strings only are always that long. */
  lemma {:induction false} EncodedLength(desc: seq<FieldSpec>, m: seq<Value>, n: nat)
    requires WellTyped(desc, m) && n <= |desc|
    ensures |EncodeFields(desc, m, n)| <= Longest(desc, n)
    ensures (forall i :: 0 <= i < n ==> desc[i].kind.FixedBytes?) ==> |EncodeFields(desc, m, n)| == Longest(desc, n)
  {
    hide EncodeVarint, Payload, LongestPayload;
    if n > 0 {
      EncodedLength(desc, m, n - 1);
      PayloadLength(desc[n - 1].kind, m[n - 1]);
    }
  }

  lemma {:induction false} WidestLength(desc: seq<FieldSpec>, n: nat)
    requires n <= |desc|
    ensures |EncodeFields(desc, Widest(desc), n)| == Longest(desc, n)
  {
    hide EncodeVarint;
    if n > 0 {
      WidestLength(desc, n - 1);
      WidestNumber();
      PayloadLength(desc[n - 1].kind, Widest(desc)[n - 1]);
      OneByteVarint(1);
    }
  }

  lemma OneByteVarint(v: nat)
    requires v < 128
    ensures EncodeVarint(v) == [v]
  {}

  /** A buffer holds every encoding exactly when it is at least that long. */
  lemma BufferHoldsAll(desc: seq<FieldSpec>, size: nat)
    ensures (forall m :: WellTyped(desc, m) ==> |EncodeMessage(desc, m)| <= size) <==> Longest(desc, |desc|) <= size
  {
    hide EncodeFields, WellTyped;
    WidestLength(desc, |desc|);
    assert |EncodeMessage(desc, Widest(desc))| == Longest(desc, |desc|);
    forall m | WellTyped(desc, m) ensures |EncodeMessage(desc, m)| <= Longest(desc, |desc|) {
      EncodedLength(desc, m, |desc|);
    }
  }
}
