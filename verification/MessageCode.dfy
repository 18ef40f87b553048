/** The encoder and the decoder over byte streams, message descriptors and structures in memory. */
module MessageCode {
  import opened Wrappers
  import opened Arith
  import opened Digits
  import opened Bits
  import opened Varint
  import opened Streams
  import opened Fields
  import opened Messages

  // ---- structures in memory --------------------------------------------------------------

  /** A message type: its fields, where each is kept, and the size of the structure. */
  datatype Layout = Layout(specs: seq<FieldSpec>, offsets: seq<nat>, size: nat)

  /** Bytes a field takes in memory. */
  function SizeOf(t: FieldType): nat {
    match t
    case Bool => 1
    case UInt32 => 4
    case FixedBytes(size) => size
  }

  /** Fields follow one another in the order of their tags and do not overlap; everything fits its descriptor. */
  predicate ValidLayout(l: Layout) {
    && |l.specs| > 0 && |l.offsets| == |l.specs| && ValidSpec(l.specs)
    && (forall i, j :: 0 <= i < j < |l.specs| ==> l.specs[i].tag < l.specs[j].tag)
    && (forall i, j :: 0 <= i < j < |l.specs| ==> l.offsets[i] + SizeOf(l.specs[i].kind) <= l.offsets[j])
    && (forall i :: 0 <= i < |l.specs| ==>
          Fits(EntryOf(l.specs[i], l.offsets[i])) && l.offsets[i] + SizeOf(l.specs[i].kind) <= l.size)
  }

  /** Singular static fields: boolean, unsigned integer, bytes of fixed length. */
  function KindCode(t: FieldType): nat {
    match t
    case Bool => 0x10
    case UInt32 => 0x12
    case FixedBytes(_) => 0x1B
  }

  /** Bytes take two words, the others one. */
  function EntryOf(f: FieldSpec, offset: nat): Entry {
    Entry(Field(f.tag, KindCode(f.kind), offset, SizeOf(f.kind), 0, 1), if f.kind.FixedBytes? then 2 else 1)
  }

  ghost function Entries(l: Layout): (es: seq<Entry>)
    requires ValidLayout(l)
    ensures |es| == |l.specs| && forall i :: 0 <= i < |es| ==> es[i] == EntryOf(l.specs[i], l.offsets[i])
  {
    seq(|l.specs|, i requires 0 <= i < |l.specs| => EntryOf(l.specs[i], l.offsets[i]))
  }

  /** What a field holds; integers are little-endian. */
  ghost function ValueAt(mem: seq<uint8>, offset: nat, t: FieldType): (v: Value)
    requires offset + SizeOf(t) <= |mem|
    ensures HasType(v, t)
  {
    NumBound(mem[offset..offset + SizeOf(t)], 256);
    match t
    case Bool => Flag(mem[offset] != 0)
    case UInt32 => WordBound(); Number(Num(mem[offset..offset + 4], 256))
    case FixedBytes(size) => Bytes(mem[offset..offset + size])
  }

  lemma WordBound()
    ensures Pow(256, 4) == WORD
  {
    assert Pow(256, 1) == 256 && Pow(256, 2) == 65536;
    PowAdd(256, 2, 2);
  }

  /** The message a structure holds. */
  ghost function Values(l: Layout, mem: seq<uint8>): (m: seq<Value>)
    requires ValidLayout(l) && |mem| == l.size
    ensures WellTyped(l.specs, m)
    ensures forall i :: 0 <= i < |m| ==> m[i] == ValueAt(mem, l.offsets[i], l.specs[i].kind)
  {
    seq(|l.specs|, i requires 0 <= i < |l.specs| => ValueAt(mem, l.offsets[i], l.specs[i].kind))
  }

  /** Overwriting the bytes of one field changes that value and no other. */
  lemma FieldStored(l: Layout, i: nat, mem: seq<uint8>, mem': seq<uint8>, v: Value)
    requires ValidLayout(l) && |mem| == |mem'| == l.size && i < |l.specs|
    requires ValueAt(mem', l.offsets[i], l.specs[i].kind) == v
    requires forall k :: 0 <= k < |mem| && !(l.offsets[i] <= k < l.offsets[i] + SizeOf(l.specs[i].kind)) ==>
      mem'[k] == mem[k]
    ensures Values(l, mem') == Values(l, mem)[i := v]
  {
    hide Fits, ValidSpec;
    forall j | 0 <= j < |l.specs| && j != i
      ensures ValueAt(mem', l.offsets[j], l.specs[j].kind) == ValueAt(mem, l.offsets[j], l.specs[j].kind)
    {
      var o, n := l.offsets[j], SizeOf(l.specs[j].kind);
      if j < i {
        assert o + n <= l.offsets[i];
      } else {
        assert l.offsets[i] + SizeOf(l.specs[i].kind) <= o;
      }
      assert mem'[o..o + n] == mem[o..o + n];
    }
  }

  // ---- encoding --------------------------------------------------------------------------

  /** pb_encode_tag_for_field */
  method EncodeTagForField(stream: OutputStream, field: Field, ghost f: FieldSpec) returns (ok: bool)
    requires field.tag == f.tag < 0x1000_0000 && field.kind == KindCode(f.kind)
    modifies stream`written
    ensures ok <==> |old(stream.written)| + |EncodeVarint(Key(f))| <= stream.maxSize
    ensures ok ==> stream.written == old(stream.written) + EncodeVarint(Key(f))
  {
    hide Or;
    var wireType := if field.kind % 16 == 11 then 2 else 0;
    JoinKey(field.tag, wireType);
    ok := stream.WriteVarint(Or(field.tag * 8, wireType));
  }

  lemma JoinKey(tag: nat, wire: nat)
    requires wire < 8
    ensures Or(tag * 8, wire) == 8 * tag + wire
  {
    assert Pow(2, 3) == 8;
    OrIsSum(tag, wire, 3);
  }

  /** pb_encode_string */
  method EncodeBytes(stream: OutputStream, data: seq<uint8>) returns (ok: bool)
    requires |stream.written| <= stream.maxSize && |data| < TWO64
    modifies stream`written
    ensures ok <==> |old(stream.written)| + |EncodeVarint(|data|) + data| <= stream.maxSize
    ensures ok ==> stream.written == old(stream.written) + (EncodeVarint(|data|) + data)
  {
    ok := stream.WriteVarint(|data|);
    if !ok { return; }
    ok := stream.Write(data);
  }

  /** Four little-endian bytes. */
  method LoadWord(mem: array<uint8>, offset: nat) returns (v: uint32)
    requires offset + 4 <= mem.Length
    ensures v == Num(mem[offset..offset + 4], 256)
  {
    var s := mem[offset..offset + 4];
    FourBytes(s);
    var b0: int, b1: int, b2: int, b3: int := s[0], s[1], s[2], s[3];
    v := b0 + 0x100 * b1 + 0x10000 * b2 + 0x100_0000 * b3;
  }

  lemma FourBytes(s: seq<int>)
    requires |s| == 4
    ensures Num(s, 256) == s[0] + 0x100 * s[1] + 0x10000 * s[2] + 0x100_0000 * s[3]
  {
    NumCons(s, 256);
    NumCons(s[1..], 256);
    NumCons(s[2..], 256);
    NumCons(s[3..], 256);
    assert s[1..][1..] == s[2..] && s[2..][1..] == s[3..] && s[3..][1..] == [];
  }

  /** pb_check_proto3_default_value: integers and booleans are compared with zero byte by byte. */
  method IsDefaultValue(mem: array<uint8>, field: Field, ghost t: FieldType) returns (isDefault: bool)
    requires field.kind == KindCode(t) && field.dataSize == SizeOf(t)
    requires field.dataOffset + SizeOf(t) <= mem.Length
    ensures isDefault <==> Elided(t, ValueAt(mem[..], field.dataOffset, t))
  {
    hide Num, Elided, ValueAt;
    var o, n := field.dataOffset, field.dataSize;
    ghost var s := mem[..][o..o + n];
    ElidedBytes(mem[..], o, t);
    assert |s| == n && (field.kind % 16 <= 5 <==> !t.FixedBytes?);
    if field.kind % 16 <= 5 {
      var i := 0;
      while i < n
        invariant 0 <= i <= n && forall k :: 0 <= k < i ==> s[k] == 0
      {
        assert s[i] == mem[o + i];
        if mem[o + i] != 0 { return false; }
        i := i + 1;
      }
      return true;
    }
    return n == 0;
  }

  lemma ElidedBytes(mem: seq<uint8>, o: nat, t: FieldType)
    requires o + SizeOf(t) <= |mem|
    ensures var s := mem[o..o + SizeOf(t)];
      Elided(t, ValueAt(mem, o, t)) <==> if t.FixedBytes? then t.size == 0 else forall k :: 0 <= k < |s| ==> s[k] == 0
  {
    hide Num;
    ZeroBytesValue(mem[o..o + SizeOf(t)]);
    if t.Bool? { assert mem[o..o + 1][0] == mem[o]; }
  }

  /** A little-endian number is zero exactly if all of its bytes are. */
  lemma {:induction false} ZeroBytesValue(s: seq<uint8>)
    ensures Num(s, 256) == 0 <==> forall k :: 0 <= k < |s| ==> s[k] == 0
  {
    if |s| > 0 {
      NumCons(s, 256);
      NumBound(s[1..], 256);
      ZeroBytesValue(s[1..]);
      assert forall k :: 0 < k < |s| ==> s[1..][k - 1] == s[k];
    }
  }

  /** encode_field and encode_basic_field: nothing for a default, else the key and the value. */
  method EncodeField(stream: OutputStream, field: Field, mem: array<uint8>, ghost f: FieldSpec, ghost v: Value)
      returns (ok: bool)
    requires |stream.written| <= stream.maxSize
    requires field.tag == f.tag < 0x1000_0000 && field.kind == KindCode(f.kind) && field.dataSize == SizeOf(f.kind)
    requires field.dataOffset + SizeOf(f.kind) <= mem.Length && v == ValueAt(mem[..], field.dataOffset, f.kind)
    requires SizeOf(f.kind) < 0x10000
    modifies stream`written
    ensures ok <==> |old(stream.written)| + |OneField(f, v)| <= stream.maxSize
    ensures ok ==> stream.written == old(stream.written) + OneField(f, v)
  {
    hide EncodeVarint, Num;
    var isDefault := IsDefaultValue(mem, field, f.kind);
    if isDefault { return true; }
    var o, n := field.dataOffset, field.dataSize;
    ok := EncodeTagForField(stream, field, f);
    if !ok { return; }
    assert mem[..][o..o + n] == mem[o..o + n];
    match field.kind % 16
    case 0 => ok := stream.WriteVarint(if mem[o] != 0 then 1 else 0);
    case 2 =>
      var value := LoadWord(mem, o);
      ok := stream.WriteVarint(value);
    case _ => ok := EncodeBytes(stream, mem[o..o + n]);
  }

  /** What the encoder writes for one field. */
  function OneField(f: FieldSpec, v: Value): seq<uint8>
    requires HasType(v, f.kind)
  {
    if Elided(f.kind, v) then [] else FieldBytes(f, v)
  }

  /** The iterator walks the descriptor of the layout. */
  ghost predicate Walks(iter: FieldIter, l: Layout)
    reads iter
  {
    ValidLayout(l) && iter.Valid() && iter.entries == Entries(l)
  }

  lemma CurrentField(iter: FieldIter, l: Layout)
    requires Walks(iter, l)
    ensures iter.index < |l.specs| == iter.fieldCount
    ensures iter.field == EntryOf(l.specs[iter.index], l.offsets[iter.index]).field
    ensures iter.field.dataOffset + SizeOf(l.specs[iter.index].kind) <= l.size
    ensures 0 < l.specs[iter.index].tag < 0x1000_0000 && SizeOf(l.specs[iter.index].kind) < 0x10000
  {
    hide Packed, Fits;
  }

  /** pb_encode: succeeds exactly if the message fits the stream. */
  method PbEncode(stream: OutputStream, iter: FieldIter, mem: array<uint8>, ghost l: Layout) returns (ok: bool)
    requires Walks(iter, l) && iter.index == 0 && mem.Length == l.size && stream.written == []
    modifies stream`written, iter
    ensures ok <==> |EncodeMessage(l.specs, Values(l, mem[..]))| <= stream.maxSize
    ensures ok ==> stream.written == EncodeMessage(l.specs, Values(l, mem[..]))
  {
    hide Fits, ValidSpec, OneField, ValueAt, FieldIter.Described, EncodeFields, Values, Entries, HasType;
    ghost var m := Values(l, mem[..]);
    NoFields(l.specs, m);
    var more := true;
    ghost var n := 0;
    while more
      invariant Walks(iter, l) && n <= |m| && (if more then n == iter.index else n == |m|)
      invariant |stream.written| <= stream.maxSize && stream.written == EncodeFields(l.specs, m, n)
      invariant m == Values(l, mem[..])
      decreases |m| - n, more
    {
      CurrentField(iter, l);
      ok := EncodeField(stream, iter.field, mem, l.specs[n], m[n]);
      FieldsGrow(l.specs, m, n + 1, |m|);
      OneMoreField(l.specs, m, n);
      if !ok { return false; }
      more := iter.Next();
      n := n + 1;
    }
    return true;
  }

  lemma NoFields(desc: seq<FieldSpec>, m: seq<Value>)
    requires WellTyped(desc, m)
    ensures EncodeFields(desc, m, 0) == []
  {}

  lemma OneMoreField(desc: seq<FieldSpec>, m: seq<Value>, n: nat)
    requires WellTyped(desc, m) && n < |desc|
    ensures EncodeFields(desc, m, n + 1) == EncodeFields(desc, m, n) + OneField(desc[n], m[n])
  {
    hide Elided, FieldBytes;
  }

  lemma {:induction false} FieldsGrow(desc: seq<FieldSpec>, m: seq<Value>, n: nat, k: nat)
    requires WellTyped(desc, m) && n <= k <= |desc|
    ensures |EncodeFields(desc, m, n)| <= |EncodeFields(desc, m, k)|
    decreases k
  {
    hide Elided, FieldBytes, HasType;
    if n < k { FieldsGrow(desc, m, n, k - 1); }
  }

  // ---- decoding --------------------------------------------------------------------------

  /** Everything outside n bytes at the offset is as it was. */
  twostate predicate OnlyAt(mem: array<uint8>, offset: nat, n: nat)
    reads mem
  {
    forall k :: 0 <= k < mem.Length && !(offset <= k < offset + n) ==> mem[k] == old(mem[k])
  }

  /** memset and memcpy */
  method StoreBytes(mem: array<uint8>, offset: nat, data: seq<uint8>)
    requires offset + |data| <= mem.Length
    modifies mem
    ensures mem[offset..offset + |data|] == data && OnlyAt(mem, offset, |data|)
  {
    var i := 0;
    while i < |data|
      invariant 0 <= i <= |data| && mem[offset..offset + i] == data[..i] && OnlyAt(mem, offset, |data|)
    {
      mem[offset + i] := data[i];
      i := i + 1;
    }
  }

  /** Four little-endian bytes. */
  method StoreWord(mem: array<uint8>, offset: nat, v: uint32)
    requires offset + 4 <= mem.Length
    modifies mem
    ensures Num(mem[offset..offset + 4], 256) == v && OnlyAt(mem, offset, 4)
  {
    hide Num;
    var data: seq<uint8> := [v % 0x100, v / 0x100 % 0x100, v / 0x10000 % 0x100, v / 0x100_0000];
    FourBytes(data);
    BytesOfWord(v);
    StoreBytes(mem, offset, data);
  }

  lemma BytesOfWord(v: nat)
    ensures v == v % 0x100 + 0x100 * (v / 0x100 % 0x100) + 0x10000 * (v / 0x10000 % 0x100)
                 + 0x100_0000 * (v / 0x100_0000)
  {
    var a := v / 0x100;
    var b := a / 0x100;
    DivModUnique(v, 0x10000, b, 0x100 * (a % 0x100) + v % 0x100);
    DivModUnique(v, 0x100_0000, b / 0x100, 0x10000 * (b % 0x100) + 0x100 * (a % 0x100) + v % 0x100);
  }

  /** pb_message_set_to_defaults: zeros in every field. */
  method SetToDefaults(iter: FieldIter, mem: array<uint8>, ghost l: Layout)
    requires Walks(iter, l) && iter.index == 0 && mem.Length == l.size
    modifies iter, mem
    ensures Walks(iter, l) && iter.index == 0 && Values(l, mem[..]) == Defaults(l.specs)
  {
    hide Fits, ValidSpec, ValueAt, FieldIter.Described, Values, Entries, HasType;
    var more := true;
    ghost var n := 0;
    while more
      invariant Walks(iter, l) && n <= |l.specs|
      invariant if more then n == iter.index else n == |l.specs| && iter.index == 0
      invariant forall i :: 0 <= i < n ==> Values(l, mem[..])[i] == Default(l.specs[i].kind)
      decreases |l.specs| - n, more
    {
      CurrentField(iter, l);
      ghost var before := mem[..];
      var zeros := seq(iter.field.dataSize, _ => 0);
      StoreBytes(mem, iter.field.dataOffset, zeros);
      ZeroValue(mem[..], iter.field.dataOffset, l.specs[n].kind);
      FieldStored(l, n, before, mem[..], Default(l.specs[n].kind));
      more := iter.Next();
      n := n + 1;
    }
  }

  lemma ZeroValue(mem: seq<uint8>, offset: nat, t: FieldType)
    requires offset + SizeOf(t) <= |mem| && mem[offset..offset + SizeOf(t)] == seq(SizeOf(t), _ => 0)
    ensures ValueAt(mem, offset, t) == Default(t)
  {
    ZeroBytesValue(mem[offset..offset + SizeOf(t)]);
    if t.Bool? { assert mem[offset] == mem[offset..offset + 1][0]; }
  }

  /** pb_decode_tag */
  method DecodeTag(stream: InputStream) returns (ok: bool, wireType: nat, tag: nat, eof: bool)
    modifies stream
    ensures eof <==> old(stream.left) == []
    ensures ok <==> !eof && DecodeVarint32(old(stream.left)).Some?
    ensures ok ==> tag < 0x2000_0000 && wireType < 8 && |stream.left| < |old(stream.left)|
    ensures ok ==> DecodeVarint32(old(stream.left)) == Some((8 * tag + wireType, stream.left))
  {
    if |stream.left| == 0 { return false, 0, 0, true; }
    var key := stream.ReadVarint32();
    if key.None? { return false, 0, 0, false; }
    return true, key.value % 8, key.value / 8, false;
  }

  /** pb_skip_field */
  method SkipField(stream: InputStream, wireType: nat) returns (ok: bool)
    modifies stream
    ensures ok <==> SkipValue(wireType, old(stream.left)).Some?
    ensures ok ==> SkipValue(wireType, old(stream.left)) == Some(stream.left)
  {
    hide DecodeVarint32, SkippedVarint;
    match wireType
    case 0 => ok := stream.SkipVarint();
    case 1 =>
      var data := stream.Read(8);
      ok := data.Some?;
    case 2 =>
      var length := stream.ReadVarint32();
      if length.None? { return false; }
      var data := stream.Read(length.value);
      ok := data.Some?;
    case 5 =>
      var data := stream.Read(4);
      ok := data.Some?;
    case _ => ok := false;
  }

  /** decode_basic_field: reads the value into the structure, if the wire type is right. */
  method DecodeField(stream: InputStream, wireType: nat, field: Field, mem: array<uint8>, ghost t: FieldType)
      returns (ok: bool)
    requires field.kind == KindCode(t) && field.dataSize == SizeOf(t) < 0x10000 && wireType < 8
    requires field.dataOffset + SizeOf(t) <= mem.Length
    modifies stream, mem
    ensures ok <==> ReadValue(t, wireType, old(stream.left)).Some?
    ensures ok ==>
      ReadValue(t, wireType, old(stream.left)) == Some((ValueAt(mem[..], field.dataOffset, t), stream.left))
    ensures OnlyAt(mem, field.dataOffset, SizeOf(t))
  {
    hide Num;
    match field.kind % 16
    case 0 =>
      if wireType != 0 { return false; }
      ok := DecodeBool(stream, field.dataOffset, mem);
    case 2 =>
      if wireType != 0 { return false; }
      ok := DecodeUInt32(stream, field.dataOffset, mem);
    case _ =>
      if wireType != 2 { return false; }
      ok := DecodeFixedBytes(stream, field.dataOffset, field.dataSize, mem);
  }

  /** pb_dec_bool */
  method DecodeBool(stream: InputStream, offset: nat, mem: array<uint8>) returns (ok: bool)
    requires offset + 1 <= mem.Length
    modifies stream, mem
    ensures ok <==> ReadValue(Bool, 0, old(stream.left)).Some?
    ensures ok ==> ReadValue(Bool, 0, old(stream.left)) == Some((ValueAt(mem[..], offset, Bool), stream.left))
    ensures OnlyAt(mem, offset, 1)
  {
    hide DecodeVarint32;
    var value := stream.ReadVarint32();
    if value.None? { return false; }
    mem[offset] := if value.value != 0 then 1 else 0;
    return true;
  }

  /** pb_dec_varint for a 32-bit field: stores the low word, then checks that nothing was lost. */
  method DecodeUInt32(stream: InputStream, offset: nat, mem: array<uint8>) returns (ok: bool)
    requires offset + 4 <= mem.Length
    modifies stream, mem
    ensures ok <==> ReadValue(UInt32, 0, old(stream.left)).Some?
    ensures ok ==> ReadValue(UInt32, 0, old(stream.left)) == Some((ValueAt(mem[..], offset, UInt32), stream.left))
    ensures OnlyAt(mem, offset, 4)
  {
    hide DecodeVarint;
    var value := stream.ReadVarint();
    if value.None? { return false; }
    var clamped := value.value % 0x1_0000_0000;
    StoreWord(mem, offset, clamped);
    assert mem[..][offset..offset + 4] == mem[offset..offset + 4];
    return clamped == value.value;
  }

  /** pb_dec_fixed_length_bytes: an empty string stands for zeros, any other length must match. */
  method DecodeFixedBytes(stream: InputStream, offset: nat, size: nat, mem: array<uint8>) returns (ok: bool)
    requires offset + size <= mem.Length && size < 0x10000
    modifies stream, mem
    ensures ok <==> ReadValue(FixedBytes(size), 2, old(stream.left)).Some?
    ensures ok ==>
      ReadValue(FixedBytes(size), 2, old(stream.left))
      == Some((ValueAt(mem[..], offset, FixedBytes(size)), stream.left))
    ensures OnlyAt(mem, offset, size)
  {
    hide DecodeVarint32;
    var length := stream.ReadVarint32();
    if length.None? || length.value > 0xFFFF { return false; }
    if length.value == 0 {
      StoreBytes(mem, offset, seq(size, _ => 0));
      assert mem[..][offset..offset + size] == mem[offset..offset + size];
      return true;
    }
    if length.value != size { return false; }
    var data := stream.Read(size);
    if data.None? { return false; }
    StoreBytes(mem, offset, data.value);
    assert mem[..][offset..offset + size] == mem[offset..offset + size];
    return true;
  }

  lemma TagFound(l: Layout, tag: nat)
    requires ValidLayout(l)
    ensures HasTag(Entries(l), tag) <==> FieldWithTag(l.specs, tag).Some?
    ensures forall i :: 0 <= i < |l.specs| && l.specs[i].tag == tag ==> FieldWithTag(l.specs, tag) == Some(i)
  {
    hide Fits;
    if FieldWithTag(l.specs, tag).Some? {
      assert Entries(l)[FieldWithTag(l.specs, tag).value].field.tag == tag;
    }
  }

  lemma OneUnknown(desc: seq<FieldSpec>, s: seq<uint8>, m: seq<Value>, tag: nat, wire: nat, rest: seq<uint8>)
    requires WellTyped(desc, m) && DecodeVarint32(s) == Some((8 * tag + wire, rest)) && tag > 0 && wire < 8
    requires FieldWithTag(desc, tag).None?
    ensures DecodeOne(desc, s, m) ==
      match SkipValue(wire, rest) case None => None case Some(left) => Some((m, left))
  {
    hide DecodeVarint32, SkipValue, FieldWithTag;
  }

  lemma OneKnown(desc: seq<FieldSpec>, s: seq<uint8>, m: seq<Value>, tag: nat, wire: nat, rest: seq<uint8>, i: nat)
    requires WellTyped(desc, m) && DecodeVarint32(s) == Some((8 * tag + wire, rest)) && tag > 0 && wire < 8
    requires i < |desc| && FieldWithTag(desc, tag) == Some(i)
    ensures DecodeOne(desc, s, m) ==
      match ReadValue(desc[i].kind, wire, rest) case None => None case Some((v, left)) => Some((m[i := v], left))
  {
    hide DecodeVarint32, ReadValue, FieldWithTag;
  }

  /** The field the iterator stands on is decoded into the structure. */
  method DecodeInto(stream: InputStream, wireType: nat, iter: FieldIter, mem: array<uint8>, ghost l: Layout)
      returns (ok: bool)
    requires Walks(iter, l) && mem.Length == l.size && wireType < 8 && iter.index < |l.specs|
    modifies stream, mem
    ensures ok <==> ReadValue(l.specs[iter.index].kind, wireType, old(stream.left)).Some?
    ensures ok ==>
      var r := ReadValue(l.specs[iter.index].kind, wireType, old(stream.left)).value;
      Values(l, mem[..]) == Values(l, old(mem[..]))[iter.index := r.0] && stream.left == r.1
  {
    hide Fits, ValidSpec, ValueAt, FieldIter.Described, Entries, HasType, ReadValue, Values;
    CurrentField(iter, l);
    ghost var i, before := iter.index, mem[..];
    ok := DecodeField(stream, wireType, iter.field, mem, l.specs[i].kind);
    if ok {
      FieldStored(l, i, before, mem[..], ValueAt(mem[..], l.offsets[i], l.specs[i].kind));
    }
  }

  /** The body of the loop behind the tag: the field is searched by its tag, and decoded or skipped. */
  method DecodeTagged(stream: InputStream, wireType: nat, tag: nat, iter: FieldIter, mem: array<uint8>,
                      ghost l: Layout, ghost s: seq<uint8>)
      returns (ok: bool)
    requires Walks(iter, l) && mem.Length == l.size && 0 < tag < 0x2000_0000 && wireType < 8
    requires DecodeVarint32(s) == Some((8 * tag + wireType, stream.left))
    modifies stream, iter, mem
    ensures Walks(iter, l)
    ensures ok <==> DecodeOne(l.specs, s, Values(l, old(mem[..]))).Some?
    ensures ok ==> DecodeOne(l.specs, s, Values(l, old(mem[..]))) == Some((Values(l, mem[..]), stream.left))
  {
    hide Fits, ValidSpec, ValueAt, FieldIter.Described, Entries, HasType, ReadValue, SkipValue, DecodeVarint32, Values,
         DecodeOne;
    ghost var m := Values(l, mem[..]);
    var found := iter.Find(tag);
    TagFound(l, tag);
    if !found {
      OneUnknown(l.specs, s, m, tag, wireType, stream.left);
      ok := SkipField(stream, wireType);
    } else {
      CurrentField(iter, l);
      OneKnown(l.specs, s, m, tag, wireType, stream.left, iter.index);
      ok := DecodeInto(stream, wireType, iter, mem, l);
    }
  }

  lemma FieldsStep(desc: seq<FieldSpec>, s: seq<uint8>, m: seq<Value>)
    requires WellTyped(desc, m)
    ensures s == [] ==> DecodeFields(desc, s, m) == Some(m)
    ensures s != [] && DecodeOne(desc, s, m).None? ==> DecodeFields(desc, s, m).None?
    ensures s != [] && DecodeOne(desc, s, m).Some? ==>
      DecodeFields(desc, s, m) == DecodeFields(desc, DecodeOne(desc, s, m).value.1, DecodeOne(desc, s, m).value.0)
    ensures DecodeVarint32(s).None? ==> DecodeOne(desc, s, m).None?
    ensures DecodeVarint32(s).Some? && DecodeVarint32(s).value.0 / 8 == 0 ==> DecodeOne(desc, s, m).None?
  {}

  /** pb_decode: defaults first, then field by field until the stream ends; unknown fields are skipped. */
  method PbDecode(stream: InputStream, iter: FieldIter, mem: array<uint8>, ghost l: Layout) returns (ok: bool)
    requires Walks(iter, l) && iter.index == 0 && mem.Length == l.size
    modifies stream, iter, mem
    ensures ok <==> DecodeMessage(l.specs, old(stream.left)).Some?
    ensures ok ==> DecodeMessage(l.specs, old(stream.left)) == Some(Values(l, mem[..]))
  {
    hide Fits, ValidSpec, ValueAt, FieldIter.Described, Values, Entries, HasType, DecodeFields, DecodeOne,
         DecodeVarint32;
    SetToDefaults(iter, mem, l);
    var eof := false;
    while true
      invariant Walks(iter, l)
      invariant DecodeMessage(l.specs, old(stream.left)) == DecodeFields(l.specs, stream.left, Values(l, mem[..]))
      decreases |stream.left|
    {
      ghost var s := stream.left;
      FieldsStep(l.specs, s, Values(l, mem[..]));
      var more, wireType, tag;
      more, wireType, tag, eof := DecodeTag(stream);
      if !more { break; }
      if tag == 0 { return false; }
      ok := DecodeTagged(stream, wireType, tag, iter, mem, l, s);
      if !ok { return false; }
    }
    return eof;
  }
}
