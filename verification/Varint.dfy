/** Base-128 varints: the writer, the 64-bit and the 32-bit reader, and how they relate. */
module Varint {
  import opened Wrappers
  import opened Arith
  import opened Bits
  import opened Digits

  const TWO64: nat := 0x1_0000_0000_0000_0000

  /** Seven bits a byte, least significant first, the high bit set on all but the last. */
  function EncodeVarint(v: nat): (s: seq<uint8>)
    ensures |s| > 0
  {
    if v < 128 then [v] else [v % 128 + 128] + EncodeVarint(v / 128)
  }

  /** The 64-bit reader from bit position pos on. */
  function Read64(s: seq<uint8>, pos: nat, acc: nat): (r: Option<(nat, seq<uint8>)>)
    ensures r.Some? ==> |r.value.1| < |s|
    decreases |s|
  {
    if |s| == 0 || (pos >= 63 && s[0] >= 2) then None
    else
      var acc' := acc + s[0] % 128 * Pow(2, pos);
      if s[0] < 128 then Some((acc', s[1..])) else Read64(s[1..], pos + 7, acc')
  }

  /** What the 32-bit reader accepts beyond bit 31: zeros, or ones after a set bit 31. */
  predicate ValidExtension(byte: uint8, pos: nat, result: nat) {
    pos < 64 && (byte % 128 == 0 || (result >= 0x8000_0000 && byte == if pos < 63 then 0xFF else 0x01))
  }

  /** (byte & 0x70) == 0 or (byte & 0x78) == 0x78 */
  predicate ValidTop(byte: uint8) {
    byte % 128 < 16 || byte % 128 >= 120
  }

  /** The 32-bit reader behind the first byte. */
  function Read32(s: seq<uint8>, pos: nat, acc: nat): (r: Option<(nat, seq<uint8>)>)
    ensures r.Some? ==> |r.value.1| < |s|
    decreases |s|
  {
    if |s| == 0 then None
    else if pos >= 32 && !ValidExtension(s[0], pos, acc) then None
    else if pos == 28 && !ValidTop(s[0]) then None
    else
      var acc' := if pos >= 32 then acc else acc + s[0] % (if pos == 28 then 16 else 128) * Pow(2, pos);
      if s[0] < 128 then Some((acc', s[1..])) else Read32(s[1..], pos + 7, acc')
  }

  function DecodeVarint(s: seq<uint8>): Option<(nat, seq<uint8>)> {
    Read64(s, 0, 0)
  }

  function DecodeVarint32(s: seq<uint8>): Option<(nat, seq<uint8>)> {
    Read32(s, 0, 0)
  }

  // ---- what the bytes mean -----------------------------------------------------------------

  function LowSeven(s: seq<uint8>): (r: seq<int>)
    ensures |r| == |s| && forall i :: 0 <= i < |r| ==> r[i] == s[i] % 128
  {
    seq(|s|, i requires 0 <= i < |s| => s[i] % 128)
  }

  /** The low seven bits are the base-128 digits of the value, the least significant first and no more than needed; the
      high bit marks all bytes but the last. */
  lemma {:induction false} VarintDigits(v: nat)
    ensures var s := EncodeVarint(v);
      && Num(LowSeven(s), 128) == v && (|s| > 1 ==> s[|s| - 1] != 0)
      && forall i :: 0 <= i < |s| ==> (s[i] >= 128 <==> i < |s| - 1)
  {
    var s := EncodeVarint(v);
    NumCons(LowSeven(s), 128);
    if v < 128 {
      assert LowSeven(s)[1..] == [];
    } else {
      VarintDigits(v / 128);
      assert LowSeven(s)[1..] == LowSeven(EncodeVarint(v / 128));
    }
  }

  // ---- round trip ------------------------------------------------------------------------

  /** Reading back a value that has at most 64 - pos bits consumes exactly what was written. */
  lemma {:induction false} ReadBack(v: nat, rest: seq<uint8>, pos: nat, acc: nat)
    requires pos % 7 == 0 && pos <= 63 && v * Pow(2, pos) < TWO64
    ensures Read64(EncodeVarint(v) + rest, pos, acc) == Some((acc + v * Pow(2, pos), rest))
    decreases v
  {
    hide Pow, Read64;
    var s := EncodeVarint(v) + rest;
    if v < 128 {
      SixtyFour(pos);
      if pos >= 63 { TopBit(v); }
      ReadLast(s, pos, acc, v);
      assert s[1..] == rest;
    } else {
      assert s[1..] == EncodeVarint(v / 128) + rest;
      SevenMore(v, pos);
      var low := v % 128 * Pow(2, pos);
      ReadMore(s, pos, acc, v % 128);
      ReadBack(v / 128, rest, pos + 7, acc + low);
    }
  }

  lemma ReadLast(s: seq<uint8>, pos: nat, acc: nat, d: nat)
    requires |s| > 0 && s[0] == d < 128 && (pos < 63 || d < 2)
    ensures Read64(s, pos, acc) == Some((acc + d * Pow(2, pos), s[1..]))
  {
    hide Pow;
    assert s[0] % 128 == d;
  }

  lemma ReadMore(s: seq<uint8>, pos: nat, acc: nat, d: nat)
    requires |s| > 0 && d < 128 && s[0] == d + 128 && pos < 63
    ensures Read64(s, pos, acc) == Read64(s[1..], pos + 7, acc + d * Pow(2, pos))
  {
    hide Pow;
    assert s[0] % 128 == d;
  }

  lemma SixtyFour(pos: nat)
    requires pos <= 63
    ensures Pow(2, 63) == 0x8000_0000_0000_0000 && Pow(2, 64) == TWO64 && Pow(2, pos) > 0
  {
    TwoPowers();
    PowAdd(2, 32, 32);
    PowAdd(2, 63, 1);
    assert Pow(2, 1) == 2;
    PowPos(2, pos);
  }

  lemma TopBit(v: nat)
    requires Pow(2, 63) == 0x8000_0000_0000_0000 && v * Pow(2, 63) < TWO64
    ensures v < 2
  {}

  lemma SevenMore(v: nat, pos: nat)
    requires v >= 128 && pos % 7 == 0 && pos <= 63 && v * Pow(2, pos) < TWO64
    ensures pos + 7 <= 63 && v / 128 * Pow(2, pos + 7) < TWO64
    ensures v * Pow(2, pos) == v % 128 * Pow(2, pos) + v / 128 * Pow(2, pos + 7)
  {
    SixtyFour(pos);
    if pos == 63 { TopBit(v); }
    PowAdd(2, pos, 7);
    assert Pow(2, 7) == 128;
    var q, r, w := v / 128, v % 128, Pow(2, pos);
    assert v == r + q * 128;
    Distribute(r, q * 128, w);
    MulAssoc(q, 128, w);
    assert Pow(2, pos + 7) == 128 * w;
    MulMono(0, r, w);
  }

  /** pb_decode_varint undoes pb_encode_varint on every 64-bit value. */
  lemma VarintRoundTrip(v: nat, rest: seq<uint8>)
    requires v < TWO64
    ensures DecodeVarint(EncodeVarint(v) + rest) == Some((v, rest))
  {
    assert Pow(2, 0) == 1;
    ReadBack(v, rest, 0, 0);
  }

  // ---- the two readers -------------------------------------------------------------------

  lemma LowBits(byte: uint8)
    ensures byte % 128 % 16 == byte % 16 && byte % 128 == byte % 16 + 16 * (byte % 128 / 16)
  {}

  /** What the 32-bit reader accepts, the 64-bit reader accepts, consuming the same bytes; the results agree
      modulo 2^32. */
  lemma {:induction false} Read32Read64(s: seq<uint8>, pos: nat, acc: nat, acc64: nat)
    requires pos % 7 == 0 && Read32(s, pos, acc).Some? && Cong(acc, acc64, WORD)
    requires pos <= 28 ==> acc == acc64
    ensures Read64(s, pos, acc64).Some? && Read64(s, pos, acc64).value.1 == Read32(s, pos, acc).value.1
    ensures Cong(Read32(s, pos, acc).value.0, Read64(s, pos, acc64).value.0, WORD)
    decreases |s|
  {
    hide Pow, Cong;
    if pos >= 63 { LastByte(s, pos, acc); }
    var next := acc64 + s[0] % 128 * Pow(2, pos);
    var next32 := if pos >= 32 then acc else acc + s[0] % (if pos == 28 then 16 else 128) * Pow(2, pos);
    StepCong(s[0], pos, acc, acc64);
    if s[0] >= 128 {
      Read32Read64(s[1..], pos + 7, next32, next);
    }
  }

  /** At bit 63 only a final 0 or 1 can be accepted. */
  lemma LastByte(s: seq<uint8>, pos: nat, acc: nat)
    requires pos >= 63 && pos % 7 == 0 && Read32(s, pos, acc).Some?
    ensures pos == 63 && s[0] < 2
  {}

  lemma StepCong(byte: uint8, pos: nat, acc: nat, acc64: nat)
    requires pos % 7 == 0 && Cong(acc, acc64, WORD) && (pos <= 28 ==> acc == acc64)
    ensures var next := acc64 + byte % 128 * Pow(2, pos);
      var next32 := if pos >= 32 then acc else acc + byte % (if pos == 28 then 16 else 128) * Pow(2, pos);
      Cong(next32, next, WORD) && (pos + 7 <= 28 ==> next32 == next)
  {
    hide Pow;
    if pos >= 32 {
      HighPart(byte, pos);
      CongShift(acc64, byte % 128 * Pow(2, pos - 32), WORD);
    } else if pos == 28 {
      MiddlePart(byte);
      CongShift(acc64 + byte % 16 * Pow(2, 28), byte % 128 / 16, WORD);
    } else {
      CongIntro(acc + byte % 128 * Pow(2, pos), acc + byte % 128 * Pow(2, pos), 0, WORD);
    }
  }

  lemma HighPart(byte: uint8, pos: nat)
    requires pos >= 32
    ensures byte % 128 * Pow(2, pos) == (byte % 128 * Pow(2, pos - 32)) * WORD
  {
    TwoPowers();
    PowAdd(2, pos - 32, 32);
    MulAssoc(byte % 128, Pow(2, pos - 32), WORD);
  }

  lemma MiddlePart(byte: uint8)
    ensures byte % 128 * Pow(2, 28) == byte % 16 * Pow(2, 28) + byte % 128 / 16 * WORD
  {
    LowBits(byte);
    TwoPowers();
    PowAdd(2, 24, 4);
    assert Pow(2, 4) == 16;
  }

  /** Whenever the 64-bit value is below 2^32, the 32-bit reader returns it too. */
  lemma {:induction false} Read64Read32(s: seq<uint8>, pos: nat, acc: nat)
    requires pos % 7 == 0 && pos <= 63 && Read64(s, pos, acc).Some? && Read64(s, pos, acc).value.0 < WORD
    ensures Read32(s, pos, acc) == Read64(s, pos, acc)
    decreases |s|
  {
    hide Pow;
    ReadGrows(s, pos, acc);
    var next := acc + s[0] % 128 * Pow(2, pos);
    if s[0] >= 128 {
      ReadGrows(s[1..], pos + 7, next);
    }
    SmallStep(s[0], pos, acc, next);
    if s[0] >= 128 {
      Read64Read32(s[1..], pos + 7, next);
    }
  }

  lemma {:induction false} ReadGrows(s: seq<uint8>, pos: nat, acc: nat)
    requires Read64(s, pos, acc).Some?
    ensures Read64(s, pos, acc).value.0 >= acc
    decreases |s|
  {
    PowPos(2, pos);
    MulMono(0, s[0] % 128, Pow(2, pos));
    if s[0] >= 128 {
      ReadGrows(s[1..], pos + 7, acc + s[0] % 128 * Pow(2, pos));
    }
  }

  /** A step that stays below 2^32 adds nothing beyond bit 31. */
  lemma SmallStep(byte: uint8, pos: nat, acc: nat, next: nat)
    requires pos % 7 == 0 && next == acc + byte % 128 * Pow(2, pos) < WORD
    ensures pos >= 32 ==> byte % 128 == 0 && next == acc
    ensures pos == 28 ==> byte % 128 < 16 && byte % 128 == byte % 16
  {
    TwoPowers();
    if pos >= 32 {
      PowMono(2, 32, pos);
      if byte % 128 > 0 { MulMono(1, byte % 128, Pow(2, pos)); }
    } else if pos == 28 {
      PowAdd(2, 28, 4);
      assert Pow(2, 4) == 16;
      if byte % 128 >= 16 { MulMono(16, byte % 128, Pow(2, 28)); }
    }
  }

  lemma VarintReadersAgree(s: seq<uint8>)
    ensures DecodeVarint32(s).Some? ==> DecodeVarint(s).Some? && DecodeVarint(s).value.1 == DecodeVarint32(s).value.1
    ensures DecodeVarint32(s).Some? ==> Cong(DecodeVarint32(s).value.0, DecodeVarint(s).value.0, WORD)
    ensures DecodeVarint(s).Some? && DecodeVarint(s).value.0 < WORD ==> DecodeVarint32(s) == DecodeVarint(s)
  {
    CongIntro(0, 0, 0, WORD);
    if DecodeVarint32(s).Some? { Read32Read64(s, 0, 0, 0); }
    if DecodeVarint(s).Some? && DecodeVarint(s).value.0 < WORD { Read64Read32(s, 0, 0); }
  }

  /** The 32-bit reader undoes the writer below 2^32. */
  lemma Varint32RoundTrip(v: nat, rest: seq<uint8>)
    requires v < WORD
    ensures DecodeVarint32(EncodeVarint(v) + rest) == Some((v, rest))
  {
    VarintRoundTrip(v, rest);
    VarintReadersAgree(EncodeVarint(v) + rest);
  }

  /** One byte for every seven bits. */
  lemma {:induction false} VarintLength(v: nat, n: nat)
    requires n > 0 && v < Pow(128, n)
    ensures |EncodeVarint(v)| <= n
    decreases n
  {
    assert Pow(128, 1) == 128;
    if v >= 128 {
      DivBounds(v, 128, Pow(128, n - 1));
      VarintLength(v / 128, n - 1);
    }
  }

  // ---- what follows a varint ---------------------------------------------------------------

  /** Bytes behind what was read do not matter. */
  lemma {:induction false} Read64Prefix(s: seq<uint8>, rest: seq<uint8>, pos: nat, acc: nat)
    requires Read64(s, pos, acc).Some?
    ensures var r := Read64(s, pos, acc).value; Read64(s + rest, pos, acc) == Some((r.0, r.1 + rest))
    decreases |s|
  {
    hide Pow;
    assert (s + rest)[1..] == s[1..] + rest;
    if s[0] >= 128 {
      Read64Prefix(s[1..], rest, pos + 7, acc + s[0] % 128 * Pow(2, pos));
    }
  }

  lemma {:induction false} Read32Prefix(s: seq<uint8>, rest: seq<uint8>, pos: nat, acc: nat)
    requires Read32(s, pos, acc).Some?
    ensures var r := Read32(s, pos, acc).value; Read32(s + rest, pos, acc) == Some((r.0, r.1 + rest))
    decreases |s|
  {
    hide Pow;
    assert (s + rest)[1..] == s[1..] + rest;
    if s[0] >= 128 {
      var next := if pos >= 32 then acc else acc + s[0] % (if pos == 28 then 16 else 128) * Pow(2, pos);
      Read32Prefix(s[1..], rest, pos + 7, next);
    }
  }

  /** What is left behind a varint of any length. */
  function SkippedVarint(s: seq<uint8>): (r: Option<seq<uint8>>)
    ensures r.Some? ==> |r.value| < |s|
  {
    if |s| == 0 then None else if s[0] < 128 then Some(s[1..]) else SkippedVarint(s[1..])
  }

  lemma {:induction false} SkippedPrefix(s: seq<uint8>, rest: seq<uint8>)
    requires SkippedVarint(s).Some?
    ensures SkippedVarint(s + rest) == Some(SkippedVarint(s).value + rest)
  {
    assert (s + rest)[1..] == s[1..] + rest;
    if s[0] >= 128 { SkippedPrefix(s[1..], rest); }
  }

  lemma {:induction false} SkipsVarint(v: nat, rest: seq<uint8>)
    ensures SkippedVarint(EncodeVarint(v) + rest) == Some(rest)
  {
    var s := EncodeVarint(v);
    assert (s + rest)[1..] == s[1..] + rest;
    if v >= 128 {
      SkipsVarint(v / 128, rest);
    }
  }
}
