/** The carry loops of b58enc and b58tobin; they compute the functions of `Base58`. */
module Base58Code {
  import opened Wrappers
  import opened Arith
  import opened Digits
  import opened Scalars
  import opened Octets
  import opened Base58

  // ---- encoding --------------------------------------------------------------------------

  /** The digits from j + 1 on are done and the carry counts at digit j: together with the untouched digits up
      to j they make up the target. */
  ghost predicate Carrying(buf: seq<int>, j: int, carry: int, old58: seq<int>, target: int) {
    && |buf| == |old58| && -1 <= j < |buf| && carry >= 0
    && (forall k :: 0 <= k <= j ==> buf[k] == old58[k])
    && (carry + 256 * Big(old58[..j + 1], 58)) * Pow(58, |buf| - 1 - j) + Big(buf[j + 1..], 58) == target
  }

  lemma BigFront(s: seq<int>, j: nat, b: nat)
    requires j < |s|
    ensures Big(s[j..], b) == s[j] * Pow(b, |s| - j - 1) + Big(s[j + 1..], b)
  {
    assert s[j..] == [s[j]] + s[j + 1..];
    BigConcat([s[j]], s[j + 1..], b);
    BigSnoc([], s[j], b);
    assert [] + [s[j]] == [s[j]];
  }

  lemma StartCarry(buf: seq<int>, carry: int)
    requires carry >= 0 && |buf| > 0
    ensures Carrying(buf, |buf| - 1, carry, buf, 256 * Big(buf, 58) + carry)
  {
    assert buf[..|buf|] == buf && buf[|buf|..] == [];
    assert Pow(58, 0) == 1;
  }

  /** One digit of the multiply-add: c = carry + 256 * digit leaves c % 58 and carries c / 58. */
  lemma CarryDigit(buf: seq<int>, j: nat, carry: int, old58: seq<int>, target: int, c: int)
    requires Carrying(buf, j, carry, old58, target) && c == carry + 256 * buf[j] && c >= 0
    ensures Carrying(buf[j := c % 58], j - 1, c / 58, old58, target)
  {
    hide Big;
    var n := |buf|;
    var d, q, w := c % 58, c / 58, Pow(58, n - 1 - j);
    var new58 := buf[j := d];
    BigStep(old58, j, 58);
    BigFront(new58, j, 58);
    assert new58[j + 1..] == buf[j + 1..];
    assert Pow(58, n - j) == 58 * w;
    CarryAlgebra(carry, Big(old58[..j], 58), old58[j], d, q, w, Big(buf[j + 1..], 58));
  }

  lemma CarryAlgebra(carry: int, high: int, digit: int, d: int, q: int, w: int, rest: int)
    requires carry + 256 * digit == q * 58 + d
    ensures (carry + 256 * (high * 58 + digit)) * w + rest == (q + 256 * high) * (58 * w) + (d * w + rest)
  {
    assert carry + 256 * (high * 58 + digit) == (q + 256 * high) * 58 + d;
    Distribute((q + 256 * high) * 58, d, w);
    MulAssoc(q + 256 * high, 58, w);
  }

  /** Below the highest digit in use all digits are zero, so without a carry the loop may stop there. */
  lemma StopCarry(buf: seq<int>, j: int, old58: seq<int>, target: int)
    requires Carrying(buf, j, 0, old58, target) && forall k :: 0 <= k <= j ==> buf[k] == 0
    ensures Big(buf, 58) == target
  {
    assert buf == buf[..j + 1] + buf[j + 1..];
    BigConcat(buf[..j + 1], buf[j + 1..], 58);
    assert old58[..j + 1] == buf[..j + 1] == seq(j + 1, i => 0);
    ZeroNumber(j + 1, 58);
  }

  /** The carry dies out before the buffer is exhausted. */
  lemma CarryEnds(buf: seq<int>, carry: int, old58: seq<int>, target: int)
    requires Carrying(buf, -1, carry, old58, target) && target < Pow(58, |buf|) && IsDigits(buf, 58)
    ensures carry == 0
  {
    assert old58[..0] == [] && buf[0..] == buf;
    BigBound(buf, 58);
    if carry > 0 {
      MulMono(1, carry, Pow(58, |buf|));
    }
  }

  /** buf := 256 * buf + byte; digits up to `high` are zero before, digits up to the result after. */
  method MultiplyAdd(buf: array<uint8>, byte: uint8, high: int) returns (j: int)
    requires buf.Length > 0 && -1 <= high < buf.Length && IsDigits(buf[..], 58)
    requires forall k :: 0 <= k <= high ==> buf[k] == 0
    requires 256 * Big(buf[..], 58) + byte < Pow(58, buf.Length)
    modifies buf
    ensures IsDigits(buf[..], 58) && Big(buf[..], 58) == 256 * old(Big(buf[..], 58)) + byte
    ensures -1 <= j < buf.Length && forall k :: 0 <= k <= j ==> buf[k] == 0
  {
    hide Big, Pow;
    ghost var before, target := buf[..], 256 * Big(buf[..], 58) + byte;
    var carry: int := byte;
    j := buf.Length - 1;
    StartCarry(buf[..], carry);
    while j > high || carry != 0
      invariant -1 <= j < buf.Length && carry >= 0 && IsDigits(buf[..], 58)
      invariant Carrying(buf[..], j, carry, before, target)
      decreases j
    {
      if j == -1 { CarryEnds(buf[..], carry, before, target); }
      carry := carry + 256 * buf[j] as int;
      CarryDigit(buf[..], j, carry - 256 * buf[j] as int, before, target, carry);
      buf[j] := carry % 58;
      carry := carry / 58;
      j := j - 1;
    }
    StopCarry(buf[..], j, before, target);
  }

  /** Number of leading zero bytes. */
  method CountLeading(data: seq<uint8>, v: uint8) returns (z: nat)
    ensures z == Leading(data, v)
  {
    z := 0;
    while z < |data| && data[z] == v
      invariant z <= |data| && forall i :: 0 <= i < z ==> data[i] == v
    {
      z := z + 1;
    }
    LeadingIs(data, v, z);
  }

  /** The base-58 digits of the bytes, in a buffer of the computed size. */
  method Convert58(data: seq<uint8>, zcount: nat) returns (buf: array<uint8>)
    requires zcount == Leading(data, 0)
    ensures fresh(buf) && IsDigits(buf[..], 58) && Big(buf[..], 58) == IntOf(data)
  {
    hide Big, Pow, IntOf;
    var size := (|data| - zcount) * 138 / 100 + 1;
    buf := new uint8[size](_ => 0);
    assert buf[..] == seq(size, i => 0);
    ZeroNumber(size, 58);
    SkippedZeros(data, zcount);
    var i, high := zcount, size - 1;
    while i < |data|
      invariant zcount <= i <= |data| && -1 <= high < size && IsDigits(buf[..], 58)
      invariant forall k :: 0 <= k <= high ==> buf[k] == 0
      invariant Big(buf[..], 58) == Big(data[..i], 256)
    {
      PrefixFits(data, zcount, i + 1);
      BigStep(data, i, 256);
      high := MultiplyAdd(buf, data[i], high);
      i := i + 1;
    }
    WholeNumber(data);
  }

  lemma WholeNumber(data: seq<uint8>)
    ensures Big(data[..|data|], 256) == IntOf(data)
  {
    assert data[..|data|] == data;
  }

  lemma SkippedZeros(data: seq<uint8>, z: nat)
    requires z <= |data| && forall i :: 0 <= i < z ==> data[i] == 0
    ensures Big(data[..z], 256) == 0
  {
    assert data[..z] == seq(z, i => 0);
    ZeroNumber(z, 256);
  }

  /** Any prefix fits the work buffer. */
  lemma PrefixFits(data: seq<uint8>, z: nat, i: nat)
    requires z <= i <= |data| && forall k :: 0 <= k < z ==> data[k] == 0
    ensures Big(data[..i], 256) < Pow(58, (|data| - z) * 138 / 100 + 1)
  {
    hide Big, Pow;
    var m := |data| - z;
    assert data[..i] == data[..z] + data[z..i];
    BigConcat(data[..z], data[z..i], 256);
    SkippedZeros(data, z);
    BigBound(data[z..i], 256);
    PowMono(256, i - z, m);
    BufferSuffices(m);
  }

  /** b58enc: the text with its terminating zero, if the buffer of `limit` bytes holds it, and its size. */
  method B58Enc(data: seq<uint8>, limit: nat) returns (ok: bool, text: seq<uint8>, size: nat)
    ensures size == |Encode58(data)| + 1 && (ok <==> size <= limit)
    ensures ok ==> text == Encode58(data) + [0]
  {
    hide Big, IntOf, DigitChar;
    var zcount := CountLeading(data, 0);
    var buf := Convert58(data, zcount);
    var j := CountLeading(buf[..], 0);
    DropZeros(buf[..], j);
    DigitsFound(buf[..], j, IntOf(data));
    if limit <= zcount + buf.Length - j {
      return false, [], zcount + buf.Length - j + 1;
    }
    text := WriteDigits(buf, j, zcount);
    return true, text + [0], |text| + 1;
  }

  lemma DigitsFound(s: seq<uint8>, j: nat, v: nat)
    requires j <= |s| && IsDigits(s, 58) && (j < |s| ==> s[j] != 0) && Big(s[j..], 58) == v
    ensures s[j..] == Digits58(v)
  {
    Digits58Unique(s[j..]);
  }

  method WriteDigits(buf: array<uint8>, j: nat, zcount: nat) returns (text: seq<uint8>)
    requires j <= buf.Length && IsDigits(buf[j..], 58)
    ensures text == Copies(49, zcount) + Text(buf[j..])
  {
    hide DigitChar;
    text := seq(zcount, _ => 49);
    var k := j;
    while k < buf.Length
      invariant j <= k <= buf.Length && |text| == zcount + k - j
      invariant forall i :: 0 <= i < zcount ==> text[i] == 49
      invariant forall i :: j <= i < k ==> text[zcount + i - j] == DigitChar(buf[i])
    {
      assert buf[j..][k - j] == buf[k];
      text := text + [DigitChar(buf[k])];
      k := k + 1;
    }
  }

  lemma DropZeros(s: seq<uint8>, z: nat)
    requires z <= |s| && forall i :: 0 <= i < z ==> s[i] == 0
    ensures Big(s[z..], 58) == Big(s, 58)
  {
    assert s == seq(z, i => 0) + s[z..];
    ZerosInFront(z, s[z..], 58);
  }

  // ---- decoding --------------------------------------------------------------------------

  /** The words from j on are multiplied and the carry counts at word j - 1. */
  ghost predicate Scaling(outi: seq<int>, j: int, c: int, before: seq<int>, digit: int) {
    && |outi| == |before| && 0 <= j <= |outi|
    && (forall k :: 0 <= k < j ==> outi[k] == before[k])
    && Big(outi[j..], WORD) + c * Pow(WORD, |outi| - j) == 58 * Big(before[j..], WORD) + digit
  }

  lemma StartScaling(outi: seq<int>, digit: int)
    ensures Scaling(outi, |outi|, digit, outi, digit)
  {
    assert outi[|outi|..] == [];
    assert Pow(WORD, 0) == 1;
  }

  /** t = 58 * word + c leaves t mod 2^32 and carries t / 2^32. */
  lemma ScaleWord(outi: seq<int>, j: nat, c: int, before: seq<int>, digit: int, t: int)
    requires 0 < j && Scaling(outi, j, c, before, digit) && t == 58 * outi[j - 1] + c
    ensures Scaling(outi[j - 1 := t % WORD], j - 1, t / WORD, before, digit)
  {
    var n := |outi|;
    var d, q, w := t % WORD, t / WORD, Pow(WORD, n - j);
    var out' := outi[j - 1 := d];
    BigFront(out', j - 1, WORD);
    BigFront(before, j - 1, WORD);
    assert out'[j..] == outi[j..];
    assert Pow(WORD, n - j + 1) == WORD * w;
    ScaleAlgebra(outi[j - 1], c, d, q, w);
  }

  lemma ScaleAlgebra(x: int, c: int, d: int, q: int, w: int)
    requires 58 * x + c == q * WORD + d
    ensures d * w + q * (WORD * w) == 58 * (x * w) + c * w
  {
    assert q * (WORD * w) == (q * WORD) * w;
    Distribute(q * WORD, d, w);
    Distribute(58 * x, c, w);
    MulAssoc(58, x, w);
  }

  /** outi := 58 * outi + digit; the carry out of the top word is returned. */
  method ScaleAdd(outi: array<uint32>, digit: uint32) returns (c: uint32)
    requires digit < 58
    modifies outi
    ensures Big(outi[..], WORD) + c * Pow(WORD, outi.Length) == 58 * old(Big(outi[..], WORD)) + digit
  {
    hide Big, Pow;
    ghost var before := outi[..];
    c := digit;
    StartScaling(before, digit);
    var j := outi.Length;
    while j > 0
      invariant 0 <= j <= outi.Length && c < 58 && Scaling(outi[..], j, c, before, digit)
    {
      j := j - 1;
      var t: uint64 := (outi[j] as int) * 58 + c;
      ScaleWord(outi[..], j + 1, c, before, digit, t);
      c := t / 0x1_0000_0000;
      outi[j] := t % 0x1_0000_0000;
    }
    assert outi[..][0..] == outi[..] && before[0..] == before;
  }

  /** The big-endian value of the words is below 256^size exactly if the incomplete top word has no bits beyond. */
  lemma TopWordTest(outi: seq<int>, size: nat)
    requires size > 0 && |outi| == (size + 3) / 4 && IsDigits(outi, WORD)
    ensures Pow(256, size % 4) > 0
    ensures Big(outi, WORD) >= Pow(256, size) <==> size % 4 != 0 && outi[0] / Pow(256, size % 4) != 0
  {
    hide Big, Pow;
    var n := |outi|;
    PowPos(256, size % 4);
    WholeWords(n);
    if size % 4 != 0 {
      TopSplit(outi, size % 4);
      assert size == 4 * (n - 1) + size % 4;
    } else {
      BigBound(outi, WORD);
      assert size == 4 * n;
    }
  }

  lemma WholeWords(n: nat)
    ensures Pow(256, 4 * n) == Pow(WORD, n)
  {
    assert Pow(256, 4) == WORD;
    PowMul(256, 4, n);
  }

  lemma TopSplit(outi: seq<int>, r: nat)
    requires |outi| > 0 && IsDigits(outi, WORD)
    ensures Pow(256, r) > 0 && (Big(outi, WORD) >= Pow(256, 4 * (|outi| - 1) + r) <==> outi[0] / Pow(256, r) != 0)
  {
    hide Big, Pow;
    var n := |outi|;
    PowPos(256, r);
    BigFront(outi, 0, WORD);
    assert outi[0..] == outi;
    BigBound(outi[1..], WORD);
    WholeWords(n - 1);
    PowAdd(256, 4 * (n - 1), r);
    TopWord(outi[0], Pow(256, r), Pow(WORD, n - 1), Big(outi[1..], WORD));
  }

  lemma TopWord(x: nat, m: nat, w: nat, rest: nat)
    requires m > 0 && rest < w
    ensures x * w + rest >= w * m <==> x / m != 0
  {
    if x < m {
      DivModUnique(x, m, 0, x);
      MulMono(x, m - 1, w);
      DistributeSub(m, 1, w);
    } else {
      MulMono(m, x, w);
      DivMod(x, m);
      if x / m == 0 { assert false; }
    }
  }

  /** Reads the digits after the leading ones. */
  method ReadDigits(text: seq<uint8>, ones: nat, outi: array<uint32>, size: nat) returns (ok: bool)
    requires size > 0 && outi.Length == (size + 3) / 4 && Big(outi[..], WORD) == 0
    requires ones == Leading(text, 49)
    modifies outi
    ensures ok ==> AllDigits(text) && Big(outi[..], WORD) == Big(DigitValues(text), 58) < Pow(256, size)
    ensures !ok ==> !AllDigits(text) || Big(DigitValues(text), 58) >= Pow(256, size)
  {
    hide Big, Pow, DigitOf;
    OnesAreZero(text, ones);
    PowPos(256, size);
    var i := ones;
    while i < |text|
      invariant ones <= i <= |text| && AllDigits(text[..i])
      invariant Big(outi[..], WORD) == Big(DigitValues(text[..i]), 58) < Pow(256, size)
    {
      if DigitOf(text[i]) == -1 { return false; }
      ReadOne(text, i);
      var c := ScaleAdd(outi, DigitOf(text[i]));
      TooBig(outi[..], c, size);
      TopWordTest(outi[..], size);
      if c != 0 || (size % 4 != 0 && outi[0] / Pow(256, size % 4) != 0) {
        MoreDigits(text, i + 1, size);
        return false;
      }
      i := i + 1;
    }
    assert text[..i] == text;
    return true;
  }

  /** Leading ones contribute nothing. */
  lemma OnesAreZero(text: seq<uint8>, ones: nat)
    requires ones <= |text| && forall i :: 0 <= i < ones ==> text[i] == 49
    ensures AllDigits(text[..ones]) && Big(DigitValues(text[..ones]), 58) == 0
  {
    assert DigitValues(text[..ones]) == seq(ones, i => 0);
    ZeroNumber(ones, 58);
  }

  lemma ReadOne(text: seq<uint8>, i: nat)
    requires i < |text| && AllDigits(text[..i]) && DigitOf(text[i]) != -1
    ensures AllDigits(text[..i + 1])
    ensures Big(DigitValues(text[..i + 1]), 58) == 58 * Big(DigitValues(text[..i]), 58) + DigitOf(text[i])
  {
    hide DigitOf;
    assert DigitValues(text[..i + 1]) == DigitValues(text[..i]) + [DigitOf(text[i]) as nat];
    BigSnoc(DigitValues(text[..i]), DigitOf(text[i]), 58);
  }

  /** Either sign of overflow means the number does not fit. */
  lemma TooBig(outi: seq<int>, c: int, size: nat)
    requires size > 0 && |outi| == (size + 3) / 4 && IsDigits(outi, WORD) && c >= 0
    ensures Big(outi, WORD) >= 0
    ensures c != 0 ==> Big(outi, WORD) + c * Pow(WORD, |outi|) >= Pow(256, size)
  {
    BigBound(outi, WORD);
    assert Pow(256, 4) == WORD;
    PowMul(256, 4, |outi|);
    PowMono(256, size, 4 * |outi|);
    if c != 0 { MulMono(1, c, Pow(WORD, |outi|)); }
  }

  /** Further digits only make a number larger. */
  lemma {:induction false} MoreDigits(text: seq<uint8>, i: nat, size: nat)
    requires i <= |text| && AllDigits(text[..i]) && Big(DigitValues(text[..i]), 58) >= Pow(256, size)
    ensures AllDigits(text) ==> Big(DigitValues(text), 58) >= Pow(256, size)
    decreases |text| - i
  {
    hide DigitOf, Pow, Big;
    if i == |text| {
      assert text[..i] == text;
    } else if AllDigits(text) {
      ReadOne(text, i);
      MoreDigits(text, i + 1, size);
    }
  }

  /** The bytes of the incomplete top word. */
  function TopBytes(x: uint32, r: nat): (s: seq<uint8>)
    requires r < 4
    ensures |s| == r && (x < Pow(256, r) ==> Big(s, 256) == x)
  {
    TopBytesValue(x, r);
    if r == 3 then [x / 0x1_0000 % 0x100, x / 0x100 % 0x100, x % 0x100]
    else if r == 2 then [x / 0x100 % 0x100, x % 0x100]
    else if r == 1 then [x % 0x100]
    else []
  }

  lemma TopBytesValue(x: uint32, r: nat)
    requires r < 4
    ensures r == 3 && x < Pow(256, r) ==> Big([x / 0x1_0000 % 0x100, x / 0x100 % 0x100, x % 0x100], 256) == x
    ensures r == 2 && x < Pow(256, r) ==> Big([x / 0x100 % 0x100, x % 0x100], 256) == x
    ensures r == 1 && x < Pow(256, r) ==> Big([x % 0x100], 256) == x
    ensures r == 0 && x < Pow(256, r) ==> x == 0
  {
    hide Big;
    assert Pow(256, 0) == 1 && Pow(256, 1) == 256 && Pow(256, 2) == 0x1_0000 && Pow(256, 3) == 0x100_0000;
    var a, b, c := x / 0x1_0000 % 0x100, x / 0x100 % 0x100, x % 0x100;
    OneDigit(a);
    OneDigit(b);
    OneDigit(c);
    BigSnoc([a], b, 256);
    BigSnoc([b], c, 256);
    BigSnoc([a, b], c, 256);
    assert [a] + [b] == [a, b] && [b] + [c] == [b, c] && [a, b] + [c] == [a, b, c];
    LowBytes(x);
  }

  lemma OneDigit(d: int)
    ensures Big([d], 256) == d
  {
    BigSnoc([], d, 256);
    assert [] + [d] == [d];
  }

  lemma LowBytes(x: uint32)
    ensures x < 0x100_0000 ==> (x / 0x1_0000 % 0x100 * 256 + x / 0x100 % 0x100) * 256 + x % 0x100 == x
    ensures x < 0x1_0000 ==> x / 0x100 % 0x100 * 256 + x % 0x100 == x
    ensures x < 0x100 ==> x % 0x100 == x
  {
    var y := x / 0x100;
    assert y / 0x100 == x / 0x1_0000;
  }

  /** The words as bytes, the first of them incomplete unless size is a multiple of four. */
  method WriteBytes(outi: array<uint32>, size: nat) returns (bin: seq<uint8>)
    requires size > 0 && outi.Length == (size + 3) / 4
    requires Big(outi[..], WORD) < Pow(256, size)
    ensures |bin| == size && Big(bin, 256) == Big(outi[..], WORD)
  {
    hide Big, Pow;
    var left := size % 4;
    TopWordTest(outi[..], size);
    var j := 0;
    bin := [];
    EmptyNumbers(outi[..]);
    if left != 0 {
      TopWordSmall(outi[0], left);
      bin := TopBytes(outi[0], left);
      OneWord(outi[..]);
      j := 1;
    }
    while j < outi.Length
      invariant 0 <= j <= outi.Length && |bin| == (if left == 0 then 4 * j else 4 * j - 4 + left)
      invariant left != 0 ==> j >= 1
      invariant Big(bin, 256) == Big(outi[..j], WORD)
    {
      AppendWord(bin, outi[..], j);
      bin := bin + WriteBe(outi[j]);
      j := j + 1;
    }
    assert outi[..j] == outi[..];
  }

  lemma EmptyNumbers(s: seq<int>)
    ensures Big([], 256) == 0 && Big(s[..0], WORD) == 0
  {
    assert s[..0] == [];
  }

  lemma TopWordSmall(x: uint32, r: nat)
    requires 0 < r < 4 && Pow(256, r) > 0 && x / Pow(256, r) == 0
    ensures x < Pow(256, r)
  {
    DivMod(x, Pow(256, r));
  }

  lemma OneWord(s: seq<int>)
    requires |s| > 0
    ensures Big(s[..1], WORD) == s[0]
  {
    BigStep(s, 0, WORD);
    assert s[..0] == [];
  }

  lemma AppendWord(bin: seq<uint8>, outi: seq<int>, j: nat)
    requires j < |outi| && 0 <= outi[j] < WORD && Big(bin, 256) == Big(outi[..j], WORD)
    ensures Big(bin + WriteBe(outi[j]), 256) == Big(outi[..j + 1], WORD)
  {
    hide Big, WriteBe;
    BigConcat(bin, WriteBe(outi[j]), 256);
    BigStep(outi, j, WORD);
    assert Pow(256, 4) == WORD;
  }

  /** b58tobin with a buffer of `size` bytes. */
  method B58ToBin(size: nat, text: seq<uint8>) returns (ok: bool, bin: seq<uint8>, length: nat)
    ensures ok <==> Decode58(text, size).Some?
    ensures ok ==> Decode58(text, size).value == (bin, length)
  {
    hide Big, Pow, DigitOf, BytesOf;
    bin, length := [], 0;
    if size == 0 { return false, bin, length; }
    var outi := new uint32[(size + 3) / 4](_ => 0);
    assert outi[..] == seq(outi.Length, i => 0);
    ZeroNumber(outi.Length, WORD);
    var zerocount := CountLeading(text, 49);
    ok := ReadDigits(text, zerocount, outi, size);
    if !ok { return; }
    bin := WriteBytes(outi, size);
    BytesOfIntOf(bin);
    var zeros := CountLeading(bin, 0);
    length := size - zeros;
    if zeros < size && zerocount > zeros { return false, bin, length; }
    length := length + zerocount;
  }
}
