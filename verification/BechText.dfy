/** Bech32 text: encoding and decoding as functions and as the loops that compute them. Strings are their bytes. */
module BechText {
  import opened Wrappers
  import opened Arith
  import opened Bits
  import opened BitSlice
  import opened Bech32

  // ---- the alphabet ----------------------------------------------------------------------

  /** The charset string. */
  function Charset(v: int): int
    requires 0 <= v < 32
  {
    match v
    case 0 => 113 case 1 => 112 case 2 => 122 case 3 => 114 case 4 => 121 case 5 => 57 case 6 => 120 case 7 => 56
    case 8 => 103 case 9 => 102 case 10 => 50 case 11 => 116 case 12 => 118 case 13 => 100 case 14 => 119 case 15 => 48
    case 16 => 115 case 17 => 51 case 18 => 106 case 19 => 110 case 20 => 53 case 21 => 52 case 22 => 107 case 23 => 104
    case 24 => 99 case 25 => 101 case 26 => 54 case 27 => 109 case 28 => 117 case 29 => 97 case 30 => 55 case _ => 108
  }

  /** charset_rev: both cases, -1 for other characters. */
  function CharsetRev(c: int): int {
    match c
    case 48 => 15 case 50 => 10 case 51 => 17 case 52 => 21 case 53 => 20 case 54 => 26 case 55 => 30 case 56 => 7
    case 57 => 5 case 65 => 29 case 67 => 24 case 68 => 13 case 69 => 25 case 70 => 9 case 71 => 8 case 72 => 23
    case 74 => 18 case 75 => 22 case 76 => 31 case 77 => 27 case 78 => 19 case 80 => 1 case 81 => 0 case 82 => 3
    case 83 => 16 case 84 => 11 case 85 => 28 case 86 => 12 case 87 => 14 case 88 => 6 case 89 => 4 case 90 => 2
    case 97 => 29 case 99 => 24 case 100 => 13 case 101 => 25 case 102 => 9 case 103 => 8 case 104 => 23 case 106 => 18
    case 107 => 22 case 108 => 31 case 109 => 27 case 110 => 19 case 112 => 1 case 113 => 0 case 114 => 3 case 115 => 16
    case 116 => 11 case 117 => 28 case 118 => 12 case 119 => 14 case 120 => 6 case 121 => 4 case 122 => 2
    case _ => -1
  }

  const SEPARATOR: uint8 := 49

  predicate IsUpper(c: int) {
    65 <= c <= 90
  }

  predicate IsLower(c: int) {
    97 <= c <= 122
  }

  function Lower(c: uint8): uint8 {
    if IsUpper(c) then c + 32 else c
  }

  /** The alphabet has neither the separator nor upper-case letters, and its reverse table undoes it. */
  lemma CharsetFacts(v: int)
    requires 0 <= v < 32
    ensures 0 <= Charset(v) < 128 && CharsetRev(Charset(v)) == v && Charset(v) != 49 && !IsUpper(Charset(v))
  {}

  lemma CharsetRevFacts(c: uint8)
    requires CharsetRev(c) != -1
    ensures 0 <= CharsetRev(c) < 32 && Charset(CharsetRev(c)) == Lower(c) && c != SEPARATOR
  {}

  function Chars(s: seq<nat>): (r: seq<uint8>)
    requires Symbols(s)
    ensures |r| == |s|
    ensures forall i :: 0 <= i < |s| ==> r[i] == Charset(s[i]) && CharsetRev(r[i]) == s[i]
    ensures forall i :: 0 <= i < |s| ==> r[i] != SEPARATOR && !IsUpper(r[i])
  {
    forall v | 0 <= v < 32
      ensures 0 <= Charset(v) < 128 && CharsetRev(Charset(v)) == v && Charset(v) != 49 && !IsUpper(Charset(v))
    {
      CharsetFacts(v);
    }
    seq(|s|, i requires 0 <= i < |s| => Charset(s[i]))
  }

  // ---- encoding --------------------------------------------------------------------------

  predicate PrintableChar(c: int) {
    33 <= c <= 126
  }

  predicate ValidHrp(hrp: seq<uint8>) {
    forall i :: 0 <= i < |hrp| ==> PrintableChar(hrp[i]) && !IsUpper(hrp[i])
  }

  /** The human-readable part as it enters the checksum: high bits, a zero, low bits. */
  function HrpValues(hrp: seq<uint8>): (r: seq<nat>) {
    seq(|hrp|, i requires 0 <= i < |hrp| => hrp[i] / 32) + [0] + seq(|hrp|, i requires 0 <= i < |hrp| => hrp[i] % 32)
  }

  /** The n base-32 digits of p. */
  function SymbolsOf(p: nat, n: nat): (s: seq<nat>)
    ensures |s| == n && Symbols(s)
  {
    if n == 0 then [] else SymbolsOf(p / 32, n - 1) + [p % 32]
  }

  function ChecksumOf(hrp: seq<uint8>, data: seq<nat>): nat {
    Xor(Polymod(1, HrpValues(hrp) + data + Zeros(6)), 1)
  }

  /** bech32_encode */
  function Encode(hrp: seq<uint8>, data: seq<uint8>): Option<seq<uint8>> {
    if ValidHrp(hrp) && |hrp| + 7 + |data| <= 90 && Symbols(data)
    then Some(hrp + [SEPARATOR] + Chars(data + SymbolsOf(ChecksumOf(hrp, data), 6)))
    else None
  }

  // ---- decoding --------------------------------------------------------------------------

  /** The number of characters behind the last separator. */
  function Tail(s: seq<uint8>): (t: nat)
    ensures t <= |s|
  {
    if |s| == 0 || s[|s| - 1] == SEPARATOR then 0 else 1 + Tail(s[..|s| - 1])
  }

  function LowerAll(s: seq<uint8>): (r: seq<uint8>)
    ensures |r| == |s| && forall i :: 0 <= i < |s| ==> r[i] == Lower(s[i])
  {
    seq(|s|, i requires 0 <= i < |s| => Lower(s[i]))
  }

  predicate AllCharset(s: seq<uint8>) {
    forall i :: 0 <= i < |s| ==> CharsetRev(s[i]) != -1
  }

  predicate HasUpper(s: seq<uint8>) {
    exists i :: 0 <= i < |s| && IsUpper(s[i])
  }

  predicate HasLower(s: seq<uint8>) {
    exists i :: 0 <= i < |s| && IsLower(s[i])
  }

  function Values(s: seq<uint8>): (r: seq<nat>)
    requires AllCharset(s)
    ensures |r| == |s| && Symbols(r) && forall i :: 0 <= i < |s| ==> r[i] == CharsetRev(s[i])
  {
    forall i | 0 <= i < |s| ensures 0 <= CharsetRev(s[i]) < 32 { CharsetRevFacts(s[i]); }
    seq(|s|, i requires 0 <= i < |s| => CharsetRev(s[i]))
  }

  /** bech32_decode */
  function Decode(input: seq<uint8>): Option<(seq<uint8>, seq<nat>)> {
    var n, t := |input|, Tail(input);
    if n < 8 || n > 90 || 1 + t >= n || t < 6 then None
    else
      var hrp, tail := input[..n - 1 - t], input[n - t..];
      if (exists i :: 0 <= i < |hrp| && !PrintableChar(hrp[i])) || !AllCharset(tail) then None
      else if HasUpper(hrp + tail) && HasLower(hrp + tail) then None
      else if Polymod(1, HrpValues(LowerAll(hrp)) + Values(tail)) != 1 then None
      else Some((LowerAll(hrp), Values(tail)[..t - 6]))
  }

  // ---- the two are inverse ---------------------------------------------------------------

  lemma {:induction false} TailOf(u: seq<uint8>, v: seq<uint8>)
    requires forall i :: 0 <= i < |v| ==> v[i] != SEPARATOR
    ensures Tail(u + [SEPARATOR] + v) == |v|
  {
    var s := u + [SEPARATOR] + v;
    if |v| > 0 {
      assert s[..|s| - 1] == u + [SEPARATOR] + v[..|v| - 1];
      TailOf(u, v[..|v| - 1]);
    }
  }

  lemma {:induction false} TailIsClean(s: seq<uint8>)
    ensures forall i :: |s| - Tail(s) <= i < |s| ==> s[i] != SEPARATOR
    ensures Tail(s) < |s| ==> s[|s| - 1 - Tail(s)] == SEPARATOR
  {
    if |s| > 0 && s[|s| - 1] != SEPARATOR {
      TailIsClean(s[..|s| - 1]);
    }
  }

  lemma {:induction false} PackedSymbols(p: nat, n: nat)
    requires p < Pow(32, n)
    ensures Packed(SymbolsOf(p, n)) == p
  {
    if n > 0 {
      DivBounds(p, 32, Pow(32, n - 1));
      PackedSymbols(p / 32, n - 1);
      assert SymbolsOf(p, n)[..n - 1] == SymbolsOf(p / 32, n - 1);
    }
  }

  lemma {:induction false} SymbolsPacked(s: seq<nat>)
    requires Symbols(s)
    ensures SymbolsOf(Packed(s), |s|) == s
  {
    if |s| > 0 {
      var t := s[..|s| - 1];
      SymbolsPacked(t);
      DivModUnique(Packed(s), 32, Packed(t), s[|s| - 1]);
      assert s == t + [s[|s| - 1]];
    }
  }

  /** The register never exceeds 30 bits. */
  lemma GeneratorBound(b: nat)
    ensures Generator(b) < TWO30
  {
    hide Xor;
    BechPowers();
    var g0, g1, g2, g3, g4 := Pick(Bit(b, 0), 0x3b6a57b2), Pick(Bit(b, 1), 0x26508e6d), Pick(Bit(b, 2), 0x1ea119fa),
      Pick(Bit(b, 3), 0x3d4233dd), Pick(Bit(b, 4), 0x2a1462b3);
    XorBound(g0, g1, 30);
    XorBound(Xor(g0, g1), g2, 30);
    XorBound(Xor(Xor(g0, g1), g2), g3, 30);
    XorBound(Xor(Xor(Xor(g0, g1), g2), g3), g4, 30);
  }

  lemma StepBound(chk: nat)
    ensures PolymodStep(chk) < TWO30
  {
    hide Xor, Generator;
    BechPowers();
    GeneratorBound(chk / TWO25);
    XorBound((chk % TWO25) * 32, Generator(chk / TWO25), 30);
  }

  lemma {:induction false} PolymodBound(chk: nat, values: seq<nat>)
    requires chk < TWO30 && forall i :: 0 <= i < |values| ==> values[i] < TWO30
    ensures Polymod(chk, values) < TWO30
    decreases |values|
  {
    hide Xor, PolymodStep;
    if |values| > 0 {
      StepBound(chk);
      BechPowers();
      XorBound(PolymodStep(chk), values[0], 30);
      PolymodBound(Xor(PolymodStep(chk), values[0]), values[1..]);
    }
  }

  lemma SixSymbols()
    ensures Pow(32, 6) == TWO30
  {
    assert Pow(32, 1) == 32 && Pow(32, 2) == 1024;
    PowAdd(32, 2, 2);
    PowAdd(32, 4, 2);
  }

  /** Six symbols make the checksum right exactly if they are the computed ones. */
  lemma ChecksumDetermined(hrp: seq<uint8>, data: seq<nat>, s: seq<nat>)
    requires Symbols(data) && Symbols(s) && |s| == 6
    ensures Polymod(1, HrpValues(hrp) + (data + s)) == 1 <==> s == SymbolsOf(ChecksumOf(hrp, data), 6)
  {
    hide Xor, PolymodStep;
    var u := HrpValues(hrp) + data;
    assert HrpValues(hrp) + (data + s) == u + s;
    PolymodConcat(1, u, s);
    PolymodConcat(1, u, Zeros(6));
    ChecksumExact(Polymod(1, u), s);
    SixSymbols();
    PolymodBound(1, u + Zeros(6));
    BechPowers();
    XorBound(Polymod(1, u + Zeros(6)), 1, 30);
    PackedSymbols(ChecksumOf(hrp, data), 6);
    SymbolsPacked(s);
  }

  lemma LowerIdempotent(s: seq<uint8>)
    requires !HasUpper(s)
    ensures LowerAll(s) == s
  {}

  lemma Sections(hrp: seq<uint8>, chars: seq<uint8>)
    requires forall i :: 0 <= i < |chars| ==> chars[i] != SEPARATOR
    ensures var s := hrp + [SEPARATOR] + chars;
      Tail(s) == |chars| && s[..|s| - 1 - |chars|] == hrp && s[|s| - |chars|..] == chars
  {
    TailOf(hrp, chars);
    var s := hrp + [SEPARATOR] + chars;
    assert s[..|s| - 1 - |chars|] == hrp && s[|s| - |chars|..] == chars;
  }

  /** What was encoded decodes to itself, provided the human-readable part is not empty. */
  lemma EncodeDecode(hrp: seq<uint8>, data: seq<uint8>)
    requires Encode(hrp, data).Some?
    ensures Decode(Encode(hrp, data).value) == if |hrp| > 0 then Some((hrp, data)) else None
  {
    hide Polymod, HrpValues, ChecksumOf, SymbolsOf, Charset, CharsetRev, Tail;
    var sum := SymbolsOf(ChecksumOf(hrp, data), 6);
    var chars := Chars(data + sum);
    Sections(hrp, chars);
    LowerIdempotent(hrp);
    ValuesOfChars(data + sum);
    NoUpper(hrp, chars);
    ChecksumDetermined(hrp, data, sum);
    DecodeSections(hrp, chars, data, sum);
  }

  lemma DecodeSections(hrp: seq<uint8>, chars: seq<uint8>, data: seq<nat>, sum: seq<nat>)
    requires ValidHrp(hrp) && |hrp| + 1 + |chars| <= 90 && LowerAll(hrp) == hrp && !HasUpper(hrp + chars) && |sum| == 6
    requires AllCharset(chars) && Values(chars) == data + sum && Polymod(1, HrpValues(hrp) + (data + sum)) == 1
    requires var s := hrp + [SEPARATOR] + chars;
      Tail(s) == |chars| && s[..|s| - 1 - |chars|] == hrp && s[|s| - |chars|..] == chars
    ensures Decode(hrp + [SEPARATOR] + chars) == if |hrp| > 0 then Some((hrp, data)) else None
  {
    hide Polymod, HrpValues, Charset, CharsetRev, Tail, Values, AllCharset;
    assert (data + sum)[..|data|] == data;
  }

  lemma NoUpper(hrp: seq<uint8>, chars: seq<uint8>)
    requires ValidHrp(hrp) && forall i :: 0 <= i < |chars| ==> !IsUpper(chars[i])
    ensures !HasUpper(hrp + chars) && !HasUpper(hrp)
  {}

  /** Conversely, what is accepted is an encoding, up to the case of its letters. */
  lemma DecodeEncode(s: seq<uint8>)
    requires Decode(s).Some?
    ensures var d := Decode(s).value;
      |d.0| > 0 && (forall i :: 0 <= i < |d.1| ==> d.1[i] < 32) && Encode(d.0, d.1) == Some(LowerAll(s))
  {
    hide Polymod, HrpValues, ChecksumOf, SymbolsOf, Charset, CharsetRev, Tail;
    var n, t := |s|, Tail(s);
    TailIsClean(s);
    var hrp, tail := s[..n - 1 - t], s[n - t..];
    Accepted(hrp, tail);
    LowerSplit(s, hrp, tail);
  }

  lemma LowerSplit(s: seq<uint8>, hrp: seq<uint8>, tail: seq<uint8>)
    requires s == hrp + [SEPARATOR] + tail
    ensures LowerAll(s) == LowerAll(hrp) + [SEPARATOR] + LowerAll(tail)
  {}

  lemma Accepted(hrp: seq<uint8>, tail: seq<uint8>)
    requires AllCharset(tail) && |tail| >= 6 && |hrp| + 1 + |tail| <= 90
    requires forall i :: 0 <= i < |hrp| ==> PrintableChar(hrp[i])
    requires Polymod(1, HrpValues(LowerAll(hrp)) + Values(tail)) == 1
    ensures var data := Values(tail)[..|tail| - 6];
      (forall i :: 0 <= i < |data| ==> data[i] < 32)
      && Encode(LowerAll(hrp), data) == Some(LowerAll(hrp) + [SEPARATOR] + LowerAll(tail))
  {
    hide Polymod, HrpValues, ChecksumOf, SymbolsOf, Charset, CharsetRev;
    var v := Values(tail);
    var data, six := v[..|tail| - 6], v[|tail| - 6..];
    assert v == data + six;
    ChecksumDetermined(LowerAll(hrp), data, six);
    CharsOfValues(tail);
    LowerPrintable(hrp);
  }

  lemma ValuesOfChars(d: seq<nat>)
    requires Symbols(d)
    ensures AllCharset(Chars(d)) && Values(Chars(d)) == d
  {
    hide Charset, CharsetRev;
    var c := Chars(d);
    forall i | 0 <= i < |c| ensures CharsetRev(c[i]) != -1 && CharsetRev(c[i]) == d[i] {}
  }

  lemma CharsOfValues(tail: seq<uint8>)
    requires AllCharset(tail)
    ensures Chars(Values(tail)) == LowerAll(tail)
  {
    hide Charset, CharsetRev;
    forall i | 0 <= i < |tail| ensures Chars(Values(tail))[i] == LowerAll(tail)[i] {
      CharsetRevFacts(tail[i]);
    }
  }

  lemma LowerPrintable(hrp: seq<uint8>)
    requires forall i :: 0 <= i < |hrp| ==> PrintableChar(hrp[i])
    ensures ValidHrp(LowerAll(hrp))
  {}

  // ---- errors ----------------------------------------------------------------------------

  /** The step is injective on the register: nothing that was different becomes equal. */
  lemma StepZero(x: nat)
    requires x < TWO30 && PolymodStep(x) == 0
    ensures x == 0
  {
    hide Xor, Generator;
    var r, b := x % TWO25, x / TWO25;
    XorSolve(r * 32, Generator(b), 0);
    XorZeroRight(r * 32);
    assert Generator(b) % 32 == 0;
    GeneratorLowBits(b);
    GeneratorOfZero();
  }

  lemma GeneratorOfZero()
    ensures Generator(0) == 0
  {
    BitZero(0);
    BitZero(1);
    BitZero(2);
    BitZero(3);
    BitZero(4);
  }

  /** The low five bits of the generator combination are zero for no other input. */
  lemma GeneratorLowBits(b: nat)
    requires b < 32 && Generator(b) % 32 == 0
    ensures b == 0
  {
    hide Xor;
    BechPowers();
    var g0, g1, g2, g3, g4 := Pick(Bit(b, 0), 0x3b6a57b2), Pick(Bit(b, 1), 0x26508e6d), Pick(Bit(b, 2), 0x1ea119fa),
      Pick(Bit(b, 3), 0x3d4233dd), Pick(Bit(b, 4), 0x2a1462b3);
    var x := Generator(b);
    forall k | 0 <= k < 5 ensures SumClear(Bit(b, 0), Bit(b, 1), Bit(b, 2), Bit(b, 3), Bit(b, 4), k) {
      BitXor(Xor(Xor(Xor(g0, g1), g2), g3), g4, k);
      BitXor(Xor(Xor(g0, g1), g2), g3, k);
      BitXor(Xor(g0, g1), g2, k);
      BitXor(g0, g1, k);
      LowBitsClear(x, k);
    }
    GeneratorBits(Bit(b, 0), Bit(b, 1), Bit(b, 2), Bit(b, 3), Bit(b, 4));
    BitZero(0);
    BitZero(1);
    BitZero(2);
    BitZero(3);
    BitZero(4);
    BitsDetermine(b, 0, 5);
  }

  lemma LowBitsClear(x: nat, k: nat)
    requires x % 32 == 0 && k < 5
    ensures !Bit(x, k)
  {
    assert x == 32 * (x / 32);
    var y := x / 32;
    EvenHalf(16 * y);
    EvenHalf(8 * y);
    EvenHalf(4 * y);
    EvenHalf(2 * y);
    EvenHalf(y);
    assert Bit(x, k) == if k == 0 then false else Bit(16 * y, k - 1);
    assert k > 1 ==> Bit(16 * y, k - 1) == Bit(8 * y, k - 2);
    assert k > 2 ==> Bit(8 * y, k - 2) == Bit(4 * y, k - 3);
    assert k > 3 ==> Bit(4 * y, k - 3) == Bit(2 * y, k - 4);
  }

  lemma EvenHalf(y: nat)
    ensures (2 * y) % 2 == 0 && (2 * y) / 2 == y
  {}

  /** Bit k of the combination is clear. */
  predicate SumClear(b0: bool, b1: bool, b2: bool, b3: bool, b4: bool, k: nat) {
    !((((Bit(Pick(b0, 0x3b6a57b2), k) != Bit(Pick(b1, 0x26508e6d), k)) != Bit(Pick(b2, 0x1ea119fa), k))
      != Bit(Pick(b3, 0x3d4233dd), k)) != Bit(Pick(b4, 0x2a1462b3), k))
  }

  /** Five linear equations with only the zero solution. */
  lemma GeneratorBits(b0: bool, b1: bool, b2: bool, b3: bool, b4: bool)
    requires forall k :: 0 <= k < 5 ==> SumClear(b0, b1, b2, b3, b4, k)
    ensures !b0 && !b1 && !b2 && !b3 && !b4
  {
    forall k: nat ensures !Bit(0, k) { BitZero(k); }
    LowFive(0x3b6a57b2);
    LowFive(0x26508e6d);
    LowFive(0x1ea119fa);
    LowFive(0x3d4233dd);
    LowFive(0x2a1462b3);
    assert SumClear(b0, b1, b2, b3, b4, 0) && SumClear(b0, b1, b2, b3, b4, 1) && SumClear(b0, b1, b2, b3, b4, 2);
    assert SumClear(b0, b1, b2, b3, b4, 3) && SumClear(b0, b1, b2, b3, b4, 4);
  }

  /** The five low bits, spelled out by halving. */
  lemma LowFive(g: nat)
    ensures Bit(g, 0) == (g % 2 == 1) && Bit(g, 1) == (g / 2 % 2 == 1) && Bit(g, 2) == (g / 2 / 2 % 2 == 1)
    ensures Bit(g, 3) == (g / 2 / 2 / 2 % 2 == 1) && Bit(g, 4) == (g / 2 / 2 / 2 / 2 % 2 == 1)
  {
    assert Bit(g, 2) == Bit(g / 2, 1) && Bit(g, 3) == Bit(g / 2, 2) && Bit(g / 2, 2) == Bit(g / 2 / 2, 1);
    assert Bit(g, 4) == Bit(g / 2, 3) == Bit(g / 2 / 2, 2) == Bit(g / 2 / 2 / 2, 1);
  }

  /** Different registers stay different whatever follows. */
  lemma {:induction false} PolymodInjective(a: nat, b: nat, u: seq<nat>)
    requires a < TWO30 && b < TWO30 && a != b && forall i :: 0 <= i < |u| ==> u[i] < TWO30
    ensures Polymod(a, u) != Polymod(b, u)
    decreases |u|
  {
    hide Xor, PolymodStep;
    if |u| > 0 {
      BechPowers();
      StepBound(a);
      StepBound(b);
      XorBound(PolymodStep(a), u[0], 30);
      XorBound(PolymodStep(b), u[0], 30);
      DifferentSteps(a, b, u[0]);
      PolymodInjective(Xor(PolymodStep(a), u[0]), Xor(PolymodStep(b), u[0]), u[1..]);
    }
  }

  lemma DifferentSteps(a: nat, b: nat, x: nat)
    requires a < TWO30 && b < TWO30 && a != b
    ensures Xor(PolymodStep(a), x) != Xor(PolymodStep(b), x)
  {
    hide Xor, PolymodStep;
    BechPowers();
    XorCancel(PolymodStep(a), x);
    XorCancel(PolymodStep(b), x);
    if PolymodStep(a) == PolymodStep(b) {
      StepLinear(a, b);
      XorSelf(PolymodStep(a));
      XorBound(a, b, 30);
      StepZero(Xor(a, b));
      XorSolve(a, b, 0);
      XorZeroRight(a);
    }
  }

  /** One changed symbol always changes the final state: a single substitution is never accepted. */
  lemma SingleErrorDetected(chk: nat, u: seq<nat>, x: nat, y: nat, v: seq<nat>)
    requires chk < TWO30 && Symbols(u) && Symbols(v) && x < 32 && y < 32 && x != y
    ensures Polymod(chk, u + [x] + v) != Polymod(chk, u + [y] + v)
  {
    hide Xor, PolymodStep;
    var c := Polymod(chk, u);
    PolymodConcat(chk, u + [x], v);
    PolymodConcat(chk, u + [y], v);
    PolymodSnoc(chk, u, x);
    PolymodSnoc(chk, u, y);
    StepBound(c);
    BechPowers();
    XorBound(PolymodStep(c), x, 30);
    XorBound(PolymodStep(c), y, 30);
    XorCommutes(PolymodStep(c), x);
    XorCommutes(PolymodStep(c), y);
    XorCancel(x, PolymodStep(c));
    XorCancel(y, PolymodStep(c));
    PolymodInjective(Xor(PolymodStep(c), x), Xor(PolymodStep(c), y), v);
  }
}
