/** Byte streams that advance in place, and the varint loops over them. */
module Streams {
  import opened Wrappers
  import opened Arith
  import opened Bits
  import opened Varint

  class InputStream {
    var left: seq<uint8>

    constructor (data: seq<uint8>)
      ensures left == data
    {
      left := data;
    }

    /** pb_readbyte */
    method ReadByte() returns (byte: Option<uint8>)
      modifies this
      ensures byte == if |old(left)| == 0 then None else Some(old(left)[0])
      ensures left == if |old(left)| == 0 then old(left) else old(left)[1..]
    {
      if |left| == 0 { return None; }
      byte := Some(left[0]);
      left := left[1..];
    }

    /** pb_read: all of the bytes, or none and failure. */
    method Read(count: nat) returns (data: Option<seq<uint8>>)
      modifies this
      ensures data == if |old(left)| < count then None else Some(old(left)[..count])
      ensures left == if |old(left)| < count then old(left) else old(left)[count..]
    {
      if |left| < count { return None; }
      data := Some(left[..count]);
      left := left[count..];
    }

    /** pb_decode_varint */
    method ReadVarint() returns (value: Option<nat>)
      modifies this
      ensures value.Some? <==> DecodeVarint(old(left)).Some?
      ensures value.Some? ==> DecodeVarint(old(left)) == Some((value.value, left)) && value.value < TWO64
    {
      hide Pow, Or, Read64;
      var pos, result := 0, 0;
      AtZero();
      while true
        invariant pos % 7 == 0 && pos <= 63 && 0 <= result < Pow(2, pos)
        invariant DecodeVarint(old(left)) == Read64(left, pos, result)
        decreases |left|
      {
        OneByte(left, pos, result);
        var byte := ReadByte();
        if byte.None? { return None; }
        var b := byte.value;
        if pos >= 63 && b >= 2 { return None; }
        JoinBits(result, b % 128, pos);
        result := Or(b % 128 * Pow(2, pos), result);
        if b < 128 {
          FitsSixtyFour(b, result, pos);
          return Some(result);
        }
        pos := pos + 7;
      }
    }

    /** pb_decode_varint32 */
    method ReadVarint32() returns (value: Option<uint32>)
      modifies this
      ensures value.Some? <==> DecodeVarint32(old(left)).Some?
      ensures value.Some? ==> DecodeVarint32(old(left)) == Some((value.value as nat, left))
    {
      hide Pow, Or, Read32, DecodeVarint32;
      FirstByte(left);
      var byte := ReadByte();
      if byte.None? { return None; }
      var b := byte.value;
      if b < 128 { return Some(b); }
      var pos, result: nat := 7, b % 128;
      while true
        invariant pos % 7 == 0 && 7 <= pos <= 70 && result < Pow(2, if pos < 32 then pos else 32)
        invariant DecodeVarint32(old(left)) == Read32(left, pos, result)
        decreases |left|
      {
        NothingLeft(left, pos, result);
        byte := ReadByte();
        if byte.None? { return None; }
        b := byte.value;
        var joined := Join32(b, pos, result, left);
        if joined.None? { return None; }
        pos, result := pos + 7, joined.value;
        if b < 128 {
          ThirtyTwo(result, pos);
          return Some(result);
        }
      }
    }

    /** pb_skip_varint: any number of continuation bytes. */
    method SkipVarint() returns (ok: bool)
      modifies this
      ensures ok <==> SkippedVarint(old(left)).Some?
      ensures ok ==> Some(left) == SkippedVarint(old(left))
    {
      while true
        invariant SkippedVarint(old(left)) == SkippedVarint(left)
        decreases |left|
      {
        var byte := ReadByte();
        if byte.None? { return false; }
        if byte.value < 128 { return true; }
      }
    }
  }

  /** One byte behind the first: its bits are joined, or it must be an extension of the sign. */
  method Join32(b: uint8, pos: nat, result: nat, ghost rest: seq<uint8>) returns (r: Option<nat>)
    requires pos % 7 == 0 && 7 <= pos <= 70 && result < Pow(2, if pos < 32 then pos else 32)
    ensures r.None? ==> Read32([b] + rest, pos, result).None?
    ensures r.Some? ==> r.value < Pow(2, if pos + 7 < 32 then pos + 7 else 32) && (b >= 128 ==> pos + 7 <= 70)
    ensures r.Some? ==>
      (Read32([b] + rest, pos, result) == if b < 128 then Some((r.value, rest)) else Read32(rest, pos + 7, r.value))
  {
    hide Pow, Or;
    assert ([b] + rest)[0] == b && ([b] + rest)[1..] == rest;
    if pos >= 32 {
      var signExtension := if pos < 63 then 0xFF else 0x01;
      TopBitOf(result);
      var validExtension := b % 128 == 0 || (result / 0x8000_0000 != 0 && b == signExtension);
      return if pos >= 64 || !validExtension then None else Some(result);
    }
    if pos == 28 {
      if b % 128 / 16 != 0 && b % 128 / 8 != 15 { return None; }
      JoinBits(result, b % 16, pos);
      TopNibble(result, b % 16);
      return Some(Or(b % 16 * Pow(2, pos), result));
    }
    JoinBits(result, b % 128, pos);
    return Some(Or(b % 128 * Pow(2, pos), result));
  }

  lemma AtZero()
    ensures Pow(2, 0) == 1
  {}

  /** New bits are joined above the old ones. */
  lemma JoinBits(result: nat, d: nat, pos: nat)
    requires result < Pow(2, pos) && d < 128
    ensures Or(d * Pow(2, pos), result) == result + d * Pow(2, pos) < Pow(2, pos + 7)
  {
    OrIsSum(d, result, pos);
    PowAdd(2, pos, 7);
    assert Pow(2, 7) == 128;
    MulMono(d, 127, Pow(2, pos));
  }

  lemma FitsSixtyFour(b: uint8, result: nat, pos: nat)
    requires pos <= 63 && pos % 7 == 0 && result < Pow(2, pos + 7) && (pos == 63 ==> result < 2 * Pow(2, 63))
    ensures result < TWO64
  {
    SixtyFour(pos);
    if pos < 63 { PowMono(2, pos + 7, 63); }
  }

  /** The 32-bit reader on its first byte. */
  lemma FirstByte(s: seq<uint8>)
    ensures s == [] ==> DecodeVarint32(s).None?
    ensures s != [] && s[0] < 128 ==> DecodeVarint32(s) == Some((s[0] as nat, s[1..]))
    ensures s != [] && s[0] >= 128 ==> DecodeVarint32(s) == Read32(s[1..], 7, s[0] % 128)
    ensures s != [] ==> s[0] % 128 < Pow(2, 7)
  {
    assert Pow(2, 7) == 128 && Pow(2, 0) == 1;
  }

  /** The 64-bit reader on one byte. */
  lemma OneByte(s: seq<uint8>, pos: nat, acc: nat)
    ensures s == [] || (pos >= 63 && s[0] >= 2) ==> Read64(s, pos, acc).None?
    ensures s != [] && !(pos >= 63 && s[0] >= 2) ==>
      var acc' := acc + s[0] % 128 * Pow(2, pos);
      Read64(s, pos, acc) == if s[0] < 128 then Some((acc', s[1..])) else Read64(s[1..], pos + 7, acc')
  {
    hide Pow;
  }

  lemma NothingLeft(s: seq<uint8>, pos: nat, acc: nat)
    ensures s == [] ==> Read32(s, pos, acc).None?
    ensures s != [] ==> s == [s[0]] + s[1..]
  {}

  lemma TopBitOf(result: nat)
    ensures result / 0x8000_0000 != 0 <==> result >= 0x8000_0000
  {}

  lemma TopNibble(result: nat, d: nat)
    requires result < Pow(2, 28) && d < 16
    ensures result + d * Pow(2, 28) < Pow(2, 32)
  {
    TwoPowers();
    PowAdd(2, 24, 4);
    assert Pow(2, 4) == 16;
  }

  lemma ThirtyTwo(result: nat, pos: nat)
    requires result < Pow(2, if pos < 32 then pos else 32)
    ensures result < WORD
  {
    TwoPowers();
    if pos < 32 { PowMono(2, pos, 32); }
  }

  // ---- writing ---------------------------------------------------------------------------

  class OutputStream {
    const maxSize: nat
    var written: seq<uint8>

    constructor (maxSize: nat)
      ensures this.maxSize == maxSize && written == []
    {
      this.maxSize, this.written := maxSize, [];
    }

    /** pb_write: fails when the buffer would overflow. */
    method Write(data: seq<uint8>) returns (ok: bool)
      modifies this`written
      ensures ok <==> |data| == 0 || |old(written)| + |data| <= maxSize
      ensures written == if ok then old(written) + data else old(written)
    {
      if |data| > 0 && |written| + |data| > maxSize { return false; }
      written := written + data;
      return true;
    }

    /** pb_encode_varint on a value given in two halves. */
    method WriteVarint(value: uint64) returns (ok: bool)
      modifies this`written
      ensures ok <==> |old(written)| + |EncodeVarint(value)| <= maxSize
      ensures written == if ok then old(written) + EncodeVarint(value) else old(written)
    {
      if value <= 0x7F {
        ok := Write([value]);
      } else {
        var data := VarintBytes(value % 0x1_0000_0000, value / 0x1_0000_0000);
        HalvesJoined(value);
        ok := Write(data);
      }
    }
  }

  lemma HalvesJoined(value: uint64)
    ensures value % 0x1_0000_0000 + value / 0x1_0000_0000 * WORD == value
  {}

  /** byte | 0x80 */
  lemma Continued(byte: nat)
    requires byte < 128
    ensures Or(0x80, byte) == byte + 128
  {
    assert Pow(2, 7) == 128;
    OrIsSum(1, byte, 7);
  }

  /** The bytes so far, with the rest still to be written, make up the whole encoding. */
  ghost predicate Writing(done: seq<uint8>, rest: nat, value: nat) {
    done + EncodeVarint(rest) == EncodeVarint(value)
  }

  lemma WriteOne(done: seq<uint8>, rest: nat, value: nat)
    requires Writing(done, rest, value) && rest >= 128
    ensures Writing(done + [rest % 128 + 128], rest / 128, value)
  {
    assert done + EncodeVarint(rest) == (done + [rest % 128 + 128]) + EncodeVarint(rest / 128);
  }

  /** pb_encode_varint_32: the low word first, then the high word shifted into place, without 64-bit shifts. */
  method VarintBytes(low0: uint32, high0: uint32) returns (data: seq<uint8>)
    ensures data == EncodeVarint(low0 + high0 * WORD)
  {
    hide Or, EncodeVarint;
    ghost var value := low0 + high0 * WORD;
    var low, high := low0 / 128, high0;
    var byte := low0 % 128;
    data := [];
    var i := 0;
    ghost var scale := WORD;
    assert Writing(data, value, value) by { assert [] + EncodeVarint(value) == EncodeVarint(value); }
    while i < 4 && (low != 0 || high != 0)
      invariant 0 <= i <= 4 && |data| == i && 0 <= byte < 128 && 0 <= low && high == high0
      invariant scale == [WORD, 0x200_0000, 0x4_0000, 0x800, 0x10][i]
      invariant byte + 128 * low < scale
      invariant Writing(data, byte + 128 * low + high * scale, value)
    {
      Continued(byte);
      LowStep(byte, low, high, scale);
      WriteOne(data, byte + 128 * low + high * scale, value);
      byte := Or(0x80, byte);
      data := data + [byte];
      byte := low % 128;
      low := low / 128;
      scale := scale / 128;
      i := i + 1;
    }
    if high != 0 {
      HighStart(byte, high);
      byte := Or(high % 8 * 16, byte);
      high := high / 8;
      data, byte := HighBytes(data, byte, high, value);
    }
    data := data + [byte];
    LastOne(byte);
  }

  lemma LastOne(byte: nat)
    requires byte < 128
    ensures EncodeVarint(byte) == [byte]
  {}

  lemma LowStep(byte: nat, low: nat, high: nat, scale: nat)
    requires byte < 128 && (low != 0 || high != 0) && scale in {WORD, 0x200_0000, 0x4_0000, 0x800}
    requires byte + 128 * low < scale
    ensures var rest := byte + 128 * low + high * scale;
      rest >= 128 && rest % 128 == byte && rest / 128 == low % 128 + 128 * (low / 128) + high * (scale / 128)
    ensures low % 128 + 128 * (low / 128) < scale / 128
  {
    var s := scale / 128;
    assert scale == 128 * s;
    assert high * scale == 128 * (high * s);
    DivModUnique(byte + 128 * low + high * scale, 128, low + high * s, byte);
    if high > 0 { MulMono(1, high, scale); }
  }

  lemma HighStart(byte: nat, high: nat)
    requires byte < 16
    ensures Or(high % 8 * 16, byte) == high % 8 * 16 + byte < 128
    ensures byte + high * 16 == Or(high % 8 * 16, byte) + 128 * (high / 8)
  {
    assert Pow(2, 4) == 16;
    OrIsSum(high % 8, byte, 4);
  }

  /** The second loop. */
  method HighBytes(data0: seq<uint8>, byte0: nat, high0: nat, ghost value: nat) returns (data: seq<uint8>, byte: nat)
    requires byte0 < 128 && Writing(data0, byte0 + 128 * high0, value)
    ensures byte < 128 && Writing(data, byte, value)
  {
    hide Or, EncodeVarint;
    data, byte := data0, byte0;
    var high := high0;
    while high != 0
      invariant byte < 128 && Writing(data, byte + 128 * high, value)
      decreases high
    {
      Continued(byte);
      DivModUnique(byte + 128 * high, 128, high, byte);
      WriteOne(data, byte + 128 * high, value);
      byte := Or(0x80, byte);
      data := data + [byte];
      byte := high % 128;
      high := high / 128;
    }
  }
}
