/** Big-endian byte strings and the numbers they denote: the meeting point of the two programs. */
module Scalars {
  import opened Arith
  import opened Digits
  import opened Residues
  import opened Octets

  /** The number a byte string denotes. */
  function IntOf(s: seq<uint8>): (v: int)
    ensures 0 <= v < Pow(256, |s|)
  {
    BigBound(s, 256);
    Big(s, 256)
  }

  /** The len low bytes of v. */
  function BytesOf(v: nat, len: nat): (s: seq<uint8>)
    ensures |s| == len
  {
    if len == 0 then [] else BytesOf(v / 256, len - 1) + [v % 256]
  }

  /** Converting a number that fits loses nothing. */
  lemma {:induction false} IntOfBytesOf(v: nat, len: nat)
    requires v < Pow(256, len)
    ensures IntOf(BytesOf(v, len)) == v
  {
    if len > 0 {
      DivBounds(v, 256, Pow(256, len - 1));
      IntOfBytesOf(v / 256, len - 1);
      BigSnoc(BytesOf(v / 256, len - 1), v % 256, 256);
    }
  }

  /** Converting back reproduces the bytes. */
  lemma BytesOfIntOf(s: seq<uint8>)
    ensures BytesOf(IntOf(s), |s|) == s
  {
    IntOfBytesOf(IntOf(s), |s|);
    BigUnique(BytesOf(IntOf(s), |s|), s, 256);
  }

  /** A 32-byte string is determined by its number. */
  lemma ScalarIs(s: seq<uint8>, v: nat)
    requires |s| == 32 && Big(s, 256) == v
    ensures s == BytesOf(v, 32) && v < TWO256
  {
    BytesOfIntOf(s);
    Pow256();
  }

  /** Byte i of a string is the digit of its number at that place, the first byte being the most significant. */
  lemma ByteAt(s: seq<uint8>, i: nat)
    requires i < |s|
    ensures Pow(256, |s| - 1 - i) > 0 && (IntOf(s) / Pow(256, |s| - 1 - i)) % 256 == s[i]
  {
    var high, low := s[..i], s[i + 1..];
    assert s == (high + [s[i]]) + low && |low| == |s| - 1 - i;
    BigConcat(high + [s[i]], low, 256);
    BigSnoc(high, s[i], 256);
    BigBound(low, 256);
    PowPos(256, |low|);
    DivModUnique(IntOf(s), Pow(256, |low|), Big(high, 256) * 256 + s[i], Big(low, 256));
    DivModUnique(Big(high, 256) * 256 + s[i], 256, Big(high, 256), s[i]);
  }

  lemma FourBytesOf(v: nat)
    ensures BytesOf(v, 4) == [v / 0x100_0000 % 0x100, v / 0x10000 % 0x100, v / 0x100 % 0x100, v % 0x100]
  {
    DivDiv(v, 0x100, 0x100);
    DivDiv(v, 0x10000, 0x100);
    OneMoreByte(v, 4);
    OneMoreByte(v / 0x100, 3);
    OneMoreByte(v / 0x10000, 2);
    OneMoreByte(v / 0x100_0000, 1);
  }

  lemma OneMoreByte(v: nat, n: nat)
    requires n > 0
    ensures BytesOf(v, n) == BytesOf(v / 256, n - 1) + [v % 256] && (n == 1 ==> BytesOf(v, n) == [v % 256])
  {}
}
