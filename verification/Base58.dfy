/** Base-58 text of byte strings: the functions computed by b58enc and b58tobin, and that they are inverse. */
module Base58 {
  import opened Wrappers
  import opened Arith
  import opened Digits
  import opened Scalars

  // ---- the alphabet ----------------------------------------------------------------------

  /** b58digits_ordered: the digits, then letters without I, O and l. */
  function DigitChar(v: int): (c: uint8)
    requires 0 <= v < 58
  {
    if v < 9 then 49 + v
    else if v < 17 then 65 + (v - 9)
    else if v < 22 then 74 + (v - 17)
    else if v < 33 then 80 + (v - 22)
    else if v < 44 then 97 + (v - 33)
    else 109 + (v - 44)
  }

  /** b58digits_map, -1 for other characters (those with the high bit set included). */
  function DigitOf(c: uint8): (v: int)
    ensures -1 <= v < 58
  {
    if 49 <= c <= 57 then c - 49
    else if 65 <= c <= 72 then c - 65 + 9
    else if 74 <= c <= 78 then c - 74 + 17
    else if 80 <= c <= 90 then c - 80 + 22
    else if 97 <= c <= 107 then c - 97 + 33
    else if 109 <= c <= 122 then c - 109 + 44
    else -1
  }

  lemma DigitCharFacts(v: int)
    requires 0 <= v < 58
    ensures DigitOf(DigitChar(v)) == v && (DigitChar(v) == 49 <==> v == 0)
  {}

  predicate Alphanumeric(c: uint8) {
    48 <= c <= 57 || 65 <= c <= 90 || 97 <= c <= 122
  }

  /** The 58 characters are, in ascending order, all letters and digits but 0, I, O and l. */
  lemma AlphabetExact(c: uint8)
    ensures DigitOf(c) != -1 <==> Alphanumeric(c) && c != 48 && c != 73 && c != 79 && c != 108
    ensures DigitOf(c) != -1 ==> DigitChar(DigitOf(c)) == c
    ensures forall d: uint8 :: DigitOf(c) != -1 && DigitOf(d) != -1 ==> (DigitOf(c) < DigitOf(d) <==> c < d)
  {}

  // ---- numbers and digits ----------------------------------------------------------------

  /** The digits of v without leading zeros. */
  function Digits58(v: nat): (s: seq<nat>)
    ensures IsDigits(s, 58) && (|s| > 0 ==> s[0] != 0)
  {
    if v == 0 then [] else Digits58(v / 58) + [v % 58]
  }

  lemma {:induction false} Digits58Value(v: nat)
    ensures Big(Digits58(v), 58) == v
  {
    if v > 0 {
      Digits58Value(v / 58);
      BigSnoc(Digits58(v / 58), v % 58, 58);
    }
  }

  /** Digits without leading zeros are determined by their number. */
  lemma {:induction false} Digits58Unique(s: seq<nat>)
    requires IsDigits(s, 58) && (|s| > 0 ==> s[0] != 0)
    ensures Big(s, 58) >= 0 && s == Digits58(Big(s, 58))
  {
    if |s| > 0 {
      var t, d := s[..|s| - 1], s[|s| - 1];
      Digits58Unique(t);
      BigBound(t, 58);
      DivModUnique(Big(s, 58), 58, Big(t, 58), d);
      assert s == t + [d];
      assert |t| == 0 ==> d == s[0];
      assert |t| > 0 ==> Big(t, 58) != 0;
    }
  }

  /** The length of the run of v at the start of s. */
  function Leading(s: seq<uint8>, v: uint8): (z: nat)
    ensures z <= |s| && (forall i :: 0 <= i < z ==> s[i] == v) && (z < |s| ==> s[z] != v)
  {
    if |s| == 0 || s[0] != v then 0 else 1 + Leading(s[1..], v)
  }

  lemma LeadingIs(s: seq<uint8>, v: uint8, z: nat)
    requires z <= |s| && (forall i :: 0 <= i < z ==> s[i] == v) && (z < |s| ==> s[z] != v)
    ensures Leading(s, v) == z
  {}

  function Copies(v: uint8, n: nat): (s: seq<uint8>)
    ensures |s| == n && forall i :: 0 <= i < n ==> s[i] == v
  {
    seq(n, i => v)
  }

  function Text(digits: seq<nat>): (s: seq<uint8>)
    requires IsDigits(digits, 58)
    ensures |s| == |digits| && forall i :: 0 <= i < |s| ==> s[i] == DigitChar(digits[i])
  {
    seq(|digits|, i requires 0 <= i < |digits| => DigitChar(digits[i]))
  }

  /** b58enc: a '1' for every leading zero byte, then the digits of the number. */
  function Encode58(data: seq<uint8>): seq<uint8> {
    Copies(49, Leading(data, 0)) + Text(Digits58(IntOf(data)))
  }

  predicate AllDigits(s: seq<uint8>) {
    forall i :: 0 <= i < |s| ==> DigitOf(s[i]) != -1
  }

  function DigitValues(s: seq<uint8>): (r: seq<nat>)
    requires AllDigits(s)
    ensures |r| == |s| && IsDigits(r, 58) && forall i :: 0 <= i < |s| ==> r[i] == DigitOf(s[i])
  {
    seq(|s|, i requires 0 <= i < |s| => DigitOf(s[i]))
  }

  /** b58tobin for a buffer of `size` bytes: the buffer's new contents and the canonical length, which counts a
      zero byte for every leading '1'. */
  function Decode58(text: seq<uint8>, size: nat): Option<(seq<uint8>, nat)> {
    if size == 0 || !AllDigits(text) then None
    else
      BigBound(DigitValues(text), 58);
      var v, ones := Big(DigitValues(text), 58), Leading(text, 49);
      if v >= Pow(256, size) then None
      else
        var bytes := BytesOf(v, size);
        var zeros := Leading(bytes, 0);
        if zeros < size && ones > zeros then None else Some((bytes, size - zeros + ones))
  }

  // ---- round trip ------------------------------------------------------------------------

  lemma {:induction false} ZerosInFront(z: nat, s: seq<nat>, b: nat)
    ensures Big(seq(z, i => 0) + s, b) == Big(s, b)
    decreases z
  {
    BigConcat(seq(z, i => 0), s, b);
    ZeroNumber(z, b);
  }

  lemma {:induction false} ZeroNumber(z: nat, b: nat)
    ensures Big(seq(z, i => 0), b) == 0
  {
    if z > 0 {
      ZeroNumber(z - 1, b);
      assert seq(z, i => 0)[..z - 1] == seq(z - 1, i => 0);
    }
  }

  /** The characters of an encoding are digits of the same number, with as many leading ones as zero bytes. */
  lemma EncodedDigits(data: seq<uint8>)
    ensures var t := Encode58(data);
      AllDigits(t) && Big(DigitValues(t), 58) == IntOf(data) && Leading(t, 49) == Leading(data, 0)
  {
    hide Big, IntOf, Digits58, DigitChar, DigitOf;
    var z, d := Leading(data, 0), Digits58(IntOf(data));
    var t := Encode58(data);
    DigitCharFacts(0);
    forall i | 0 <= i < |t| ensures DigitOf(t[i]) == (if i < z then 0 else d[i - z]) {
      if i >= z { DigitCharFacts(d[i - z]); }
    }
    assert DigitValues(t) == seq(z, i => 0) + d;
    ZerosInFront(z, d, 58);
    Digits58Value(IntOf(data));
    if |d| > 0 { DigitCharFacts(d[0]); }
    LeadingIs(t, 49, z);
  }

  /** Decoding an encoding into a buffer of the original length restores the bytes, leading zeros included. */
  lemma EncodeDecode58(data: seq<uint8>)
    requires |data| > 0
    ensures Decode58(Encode58(data), |data|) == Some((data, |data|))
  {
    EncodedDigits(data);
    BytesOfIntOf(data);
  }

  lemma CharOfDigit(c: uint8)
    requires DigitOf(c) != -1
    ensures DigitChar(DigitOf(c)) == c && (c == 49 <==> DigitOf(c) == 0)
  {}

  /** Mapping characters to digits and back. */
  lemma TextOfValues(text: seq<uint8>)
    requires AllDigits(text)
    ensures Text(DigitValues(text)) == text
  {
    hide DigitOf, DigitChar;
    forall i | 0 <= i < |text| ensures DigitChar(DigitOf(text[i])) == text[i] {
      CharOfDigit(text[i]);
    }
  }

  lemma RestDigits(text: seq<uint8>, z: nat)
    requires AllDigits(text) && z <= |text|
    ensures AllDigits(text[z..]) && DigitValues(text[z..]) == DigitValues(text)[z..]
  {
    hide DigitOf;
    forall i | 0 <= i < |text| - z ensures DigitOf(text[z..][i]) != -1 {
      assert text[z..][i] == text[z + i];
    }
  }

  lemma OnesAreZeros(text: seq<uint8>, z: nat)
    requires AllDigits(text) && z == Leading(text, 49)
    ensures DigitValues(text)[..z] == seq(z, i => 0) && (z < |text| ==> DigitValues(text)[z] != 0)
  {
    hide DigitOf, DigitChar;
    DigitCharFacts(0);
    CharOfDigit(49);
    if z < |text| { CharOfDigit(text[z]); }
  }

  /** Leading ones are leading zero digits. */
  lemma ValuesSplit(text: seq<uint8>, z: nat)
    requires AllDigits(text) && z == Leading(text, 49)
    ensures AllDigits(text[z..]) && DigitValues(text) == seq(z, i => 0) + DigitValues(text[z..])
    ensures z < |text| ==> DigitValues(text[z..])[0] != 0
    ensures text == Copies(49, z) + text[z..]
  {
    hide AllDigits, Leading, DigitValues;
    RestDigits(text, z);
    OnesAreZeros(text, z);
    var values := DigitValues(text);
    assert values == values[..z] + values[z..];
  }

  /** A text of digits is its run of ones followed by the digits of its number. */
  lemma TextSplit(text: seq<uint8>)
    requires AllDigits(text)
    ensures var v := Big(DigitValues(text), 58);
      v >= 0 && text == Copies(49, Leading(text, 49)) + Text(Digits58(v)) && (v == 0 <==> Leading(text, 49) == |text|)
  {
    hide DigitOf, DigitChar, Digits58, Big, DigitValues, Text, Leading;
    var z := Leading(text, 49);
    var rest := text[z..];
    ValuesSplit(text, z);
    ZerosInFront(z, DigitValues(rest), 58);
    Digits58Unique(DigitValues(rest));
    TextOfValues(rest);
    NoDigits(Big(DigitValues(rest), 58));
  }

  lemma NoDigits(v: nat)
    ensures v == 0 <==> Digits58(v) == []
  {}

  /** The other direction: the last bytes of the buffer, as many as the returned length says, encode to the text
      again, so every accepted text is the canonical one. */
  lemma DecodeEncode58(text: seq<uint8>, size: nat)
    requires Decode58(text, size).Some? && Decode58(text, size).value.1 <= size
    ensures var d := Decode58(text, size).value; |d.0| == size && Encode58(d.0[size - d.1..]) == text
  {
    hide Big, IntOf, Digits58, Text;
    var d := Decode58(text, size).value;
    TextSplit(text);
    var v, ones := Big(DigitValues(text), 58), Leading(text, 49);
    var zeros := Leading(d.0, 0);
    IntOfBytesOf(v, size);
    DecodedZero(d.0, v);
    var tail := d.0[size - d.1..];
    LeadingIs(tail, 0, ones);
    assert d.0 == seq(size - d.1, i => 0) + tail;
    LeadingZeros(size - d.1, tail);
  }

  /** A buffer of zeros is the number zero. */
  lemma DecodedZero(bytes: seq<uint8>, v: nat)
    requires IntOf(bytes) == v
    ensures v == 0 <==> Leading(bytes, 0) == |bytes|
  {
    var z := Leading(bytes, 0);
    assert bytes == seq(z, i => 0) + bytes[z..];
    LeadingZeros(z, bytes[z..]);
    if z < |bytes| { BigPositive(bytes[z..], 256); }
  }

  lemma {:induction false} BigPositive(s: seq<nat>, b: nat)
    requires |s| > 0 && s[0] > 0 && b > 0
    ensures Big(s, b) > 0
  {
    if |s| > 1 {
      BigPositive(s[..|s| - 1], b);
      MulMono(1, Big(s[..|s| - 1], b), b);
    }
  }

  lemma LeadingZeros(z: nat, tail: seq<uint8>)
    ensures IntOf(seq(z, i => 0) + tail) == IntOf(tail)
  {
    ZerosInFront(z, tail, 256);
  }

  /** The returned length runs past the buffer exactly for texts of nothing but ones that are longer than it. */
  lemma DecodedLength(text: seq<uint8>, size: nat)
    requires Decode58(text, size).Some?
    ensures Decode58(text, size).value.1 <= size <==> !(|text| > size && Leading(text, 49) == |text|)
  {
    hide Big, IntOf, Digits58, Text;
    var d := Decode58(text, size).value;
    TextSplit(text);
    IntOfBytesOf(Big(DigitValues(text), 58), size);
    DecodedZero(d.0, Big(DigitValues(text), 58));
  }

  /** Two ones decoded into one byte: the length comes back as two. */
  lemma LengthPastBuffer()
    ensures Decode58([49, 49], 1) == Some(([0], 2))
  {
    var text := [49, 49];
    LeadingIs(text, 49, 2);
    TextSplit(text);
    assert Pow(256, 1) == 256;
    IntOfBytesOf(0, 1);
    var bytes := BytesOf(0, 1);
    DecodedZero(bytes, 0);
  }

  // ---- the work buffer -------------------------------------------------------------------

  /** 58^7 exceeds 2^41. */
  lemma SeventhPower()
    ensures Pow(58, 7) > Pow(2, 41)
  {
    assert Pow(58, 1) == 58 && Pow(58, 2) == 3364;
    PowAdd(58, 2, 2);
    PowAdd(58, 4, 2);
    PowAdd(58, 6, 1);
    assert Pow(2, 5) == 32;
    PowAdd(2, 5, 5);
    PowAdd(2, 10, 10);
    PowAdd(2, 20, 20);
    PowAdd(2, 40, 1);
    assert Pow(2, 1) == 2;
  }

  /** m bytes always fit in m * 138 / 100 + 1 base-58 digits. */
  lemma BufferSuffices(m: nat)
    ensures Pow(256, m) <= Pow(58, m * 138 / 100 + 1)
  {
    var k := m * 138 / 100 + 1;
    TwoToEight(m);
    SeventhPower();
    PowPos(2, 41);
    PowBaseMono(Pow(2, 41), Pow(58, 7), k);
    PowMul(58, 7, k);
    PowMul(2, 41, k);
    PowMono(2, 56 * m, 41 * k);
    PowMul(2, 8 * m, 7);
    PowMul(58, k, 7);
    if Pow(58, k) < Pow(2, 8 * m) {
      StrictPower(Pow(58, k), Pow(2, 8 * m), 7);
      assert false;
    }
  }

  lemma TwoToEight(m: nat)
    ensures Pow(256, m) == Pow(2, 8 * m)
  {
    assert Pow(2, 8) == 256;
    PowMul(2, 8, m);
  }

  lemma {:induction false} StrictPower(a: nat, b: nat, e: nat)
    requires a < b && e > 0
    ensures Pow(a, e) < Pow(b, e)
  {
    if e == 1 {
      assert Pow(a, 1) == a * Pow(a, 0) && Pow(b, 1) == b * Pow(b, 0);
    } else {
      StrictPower(a, b, e - 1);
      MulMono(Pow(a, e - 1), Pow(b, e - 1), a);
      PowPos(b, e - 1);
      MulStrict(a, b, Pow(b, e - 1));
    }
  }
}
