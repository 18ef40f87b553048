/** The loops of bech32_encode and bech32_decode; each computes the function of `BechText`. */
module BechCode {
  import opened Wrappers
  import opened Arith
  import opened Bits
  import opened Bech32
  import opened BechText

  /** One more value fed. */
  lemma Feed(v: seq<nat>, i: nat)
    requires i < |v|
    ensures Polymod(1, v[..i + 1]) == Xor(PolymodStep(Polymod(1, v[..i])), v[i])
  {
    assert v[..i + 1] == v[..i] + [v[i]];
    PolymodSnoc(1, v[..i], v[i]);
  }

  /** (p >> 5 * (n - 1 - i)) & 31 */
  lemma {:induction false} SymbolAt(p: nat, n: nat, i: nat)
    requires i < n
    ensures Pow(2, (n - 1 - i) * 5) > 0 && SymbolsOf(p, n)[i] == (p / Pow(2, (n - 1 - i) * 5)) % 32
  {
    PowPos(2, (n - 1 - i) * 5);
    if i == n - 1 {
      assert Pow(2, 0) == 1;
    } else {
      SymbolAt(p / 32, n - 1, i);
      assert SymbolsOf(p, n)[i] == SymbolsOf(p / 32, n - 1)[i];
      PowPos(2, (n - 2 - i) * 5);
      BechPowers();
      PowAdd(2, 5, (n - 2 - i) * 5);
      DivDiv(p, 32, Pow(2, (n - 2 - i) * 5));
    }
  }

  /** First pass over the human-readable part: its characters must be printable and not upper case. */
  method CheckHrp(hrp: seq<uint8>) returns (ok: bool, chk: nat)
    ensures ok <==> ValidHrp(hrp)
    ensures ok ==> chk == Polymod(1, HrpValues(hrp)[..|hrp|])
  {
    hide Xor, PolymodStep;
    chk := 1;
    ghost var v := HrpValues(hrp);
    var i := 0;
    while i < |hrp|
      invariant 0 <= i <= |hrp| && chk == Polymod(1, v[..i])
      invariant forall j :: 0 <= j < i ==> PrintableChar(hrp[j]) && !IsUpper(hrp[j])
    {
      var ch := hrp[i];
      if ch < 33 || ch > 126 { return false, 0; }
      if 65 <= ch && ch <= 90 { return false, 0; }
      Feed(v, i);
      chk := Xor(PolymodStep(chk), ch / 32);
      i := i + 1;
    }
    ok := true;
  }

  /** Second pass: the zero and the low bits; the characters are copied. */
  method CopyHrp(hrp: seq<uint8>, chk0: nat) returns (chk: nat, output: seq<uint8>)
    requires chk0 == Polymod(1, HrpValues(hrp)[..|hrp|])
    ensures chk == Polymod(1, HrpValues(hrp)) && output == hrp
  {
    hide Xor, PolymodStep;
    ghost var v, n := HrpValues(hrp), |hrp|;
    Feed(v, n);
    XorZeroRight(PolymodStep(chk0));
    chk := PolymodStep(chk0);
    output := [];
    var i := 0;
    while i < |hrp|
      invariant 0 <= i <= |hrp| && chk == Polymod(1, v[..n + 1 + i]) && output == hrp[..i]
    {
      Feed(v, n + 1 + i);
      assert v[n + 1 + i] == hrp[i] % 32;
      chk := Xor(PolymodStep(chk), hrp[i] % 32);
      output := output + [hrp[i]];
      i := i + 1;
    }
    assert v[..n + 1 + i] == v;
  }

  /** The data symbols. */
  method EncodeData(data: seq<uint8>, chk0: nat, ghost u: seq<nat>) returns (ok: bool, chk: nat, output: seq<uint8>)
    requires chk0 == Polymod(1, u)
    ensures ok <==> Symbols(data)
    ensures ok ==> chk == Polymod(1, u + data) && output == Chars(data)
  {
    hide Xor, PolymodStep;
    chk, output := chk0, [];
    assert u + data[..0] == u;
    var i := 0;
    while i < |data|
      invariant 0 <= i <= |data| && chk == Polymod(1, u + data[..i])
      invariant |output| == i && forall j :: 0 <= j < i ==> data[j] < 32 && output[j] == Charset(data[j])
    {
      if data[i] / 32 != 0 {
        assert data[i] >= 32;
        return false, 0, [];
      }
      assert u + data[..i + 1] == (u + data[..i]) + [data[i] as nat];
      PolymodSnoc(1, u + data[..i], data[i]);
      chk := Xor(PolymodStep(chk), data[i]);
      CharsetFacts(data[i]);
      output := output + [Charset(data[i])];
      i := i + 1;
    }
    assert data[..i] == data;
    ok := true;
  }

  /** Six more steps, the final constant, and the six checksum characters. */
  method EncodeChecksum(chk0: nat, ghost u: seq<nat>) returns (output: seq<uint8>)
    requires chk0 == Polymod(1, u)
    ensures output == Chars(SymbolsOf(Xor(Polymod(1, u + Zeros(6)), 1), 6))
  {
    hide Xor, PolymodStep;
    var chk := chk0;
    assert u + Zeros(0) == u;
    var i := 0;
    while i < 6
      invariant 0 <= i <= 6 && chk == Polymod(1, u + Zeros(i))
    {
      assert u + Zeros(i + 1) == (u + Zeros(i)) + [0];
      PolymodSnoc(1, u + Zeros(i), 0);
      XorZeroRight(PolymodStep(chk));
      chk := PolymodStep(chk);
      i := i + 1;
    }
    chk := Xor(chk, 1);
    output := [];
    i := 0;
    while i < 6
      invariant 0 <= i <= 6 && |output| == i
      invariant forall j :: 0 <= j < i ==> output[j] == Charset(SymbolsOf(chk, 6)[j])
    {
      SymbolAt(chk, 6, i);
      var symbol := (chk / Pow(2, (5 - i) * 5)) % 32;
      CharsetFacts(symbol);
      output := output + [Charset(symbol)];
      i := i + 1;
    }
  }

  /** bech32_encode */
  method EncodeString(hrp: seq<uint8>, data: seq<uint8>) returns (output: Option<seq<uint8>>)
    ensures output == Encode(hrp, data)
  {
    hide Xor, PolymodStep, HrpValues, Charset;
    var ok, chk := CheckHrp(hrp);
    if !ok { return None; }
    if |hrp| + 7 + |data| > 90 { return None; }
    var text, symbols, sum;
    chk, text := CopyHrp(hrp, chk);
    text := text + [49];
    ok, chk, symbols := EncodeData(data, chk, HrpValues(hrp));
    if !ok { return None; }
    sum := EncodeChecksum(chk, HrpValues(hrp) + data);
    CharsConcat(data, SymbolsOf(ChecksumOf(hrp, data), 6));
    assert text + symbols + sum == hrp + [SEPARATOR] + (symbols + sum);
    return Some(text + symbols + sum);
  }

  lemma CharsConcat(a: seq<nat>, b: seq<nat>)
    requires Symbols(a) && Symbols(b)
    ensures Chars(a + b) == Chars(a) + Chars(b)
  {}

  // ---- decoding --------------------------------------------------------------------------

  /** Counts back to the last separator. */
  method CountTail(input: seq<uint8>) returns (t: nat)
    ensures t == Tail(input)
  {
    t := 0;
    assert input[..|input|] == input;
    while t < |input| && input[(|input| - 1) - t] != 49
      invariant 0 <= t <= |input| && Tail(input) == t + Tail(input[..|input| - t])
    {
      assert input[..|input| - t][..|input| - t - 1] == input[..|input| - t - 1];
      t := t + 1;
    }
  }

  /** The human-readable part: lower-cased, checked, and fed twice. */
  method DecodeHrp(part: seq<uint8>) returns (ok: bool, hrp: seq<uint8>, chk: nat, lower: bool, upper: bool)
    ensures ok <==> forall i :: 0 <= i < |part| ==> PrintableChar(part[i])
    ensures ok ==> hrp == LowerAll(part) && chk == Polymod(1, HrpValues(hrp))
    ensures ok ==> (lower <==> HasLower(part)) && (upper <==> HasUpper(part))
  {
    hide Xor, PolymodStep, Polymod;
    ok, hrp, chk, lower, upper := true, [], 1, false, false;
    ghost var v, n := HrpValues(LowerAll(part)), |part|;
    StartFeed(v);
    var i := 0;
    while i < |part|
      invariant 0 <= i <= |part| && hrp == LowerAll(part)[..i] && chk == Polymod(1, v[..i])
      invariant forall j :: 0 <= j < i ==> PrintableChar(part[j])
      invariant lower <==> exists j :: 0 <= j < i && IsLower(part[j])
      invariant upper <==> exists j :: 0 <= j < i && IsUpper(part[j])
    {
      var ch := part[i];
      if ch < 33 || ch > 126 { return false, [], 0, false, false; }
      if 97 <= ch && ch <= 122 {
        lower := true;
      } else if 65 <= ch && ch <= 90 {
        upper := true;
        ch := (ch - 65) + 97;
      }
      hrp := hrp + [ch];
      Feed(v, i);
      chk := Xor(PolymodStep(chk), ch / 32);
      i := i + 1;
    }
    chk := FeedLowBits(part, chk);
  }

  lemma StartFeed(v: seq<nat>)
    ensures Polymod(1, v[..0]) == 1
  {}

  /** The low bits come from the characters as given; case does not change them. */
  method FeedLowBits(part: seq<uint8>, chk0: nat) returns (chk: nat)
    requires chk0 == Polymod(1, HrpValues(LowerAll(part))[..|part|])
    ensures chk == Polymod(1, HrpValues(LowerAll(part)))
  {
    hide Xor, PolymodStep, Polymod;
    ghost var v, n := HrpValues(LowerAll(part)), |part|;
    Feed(v, n);
    XorZeroRight(PolymodStep(chk0));
    chk := PolymodStep(chk0);
    var i := 0;
    while i < |part|
      invariant 0 <= i <= |part| && chk == Polymod(1, v[..n + 1 + i])
    {
      Feed(v, n + 1 + i);
      assert v[n + 1 + i] == Lower(part[i]) % 32 == part[i] % 32;
      chk := Xor(PolymodStep(chk), part[i] % 32);
      i := i + 1;
    }
    assert v[..n + 1 + i] == v;
  }

  /** The data part; all symbols enter the checksum, all but the last six are kept. */
  method DecodeData(tail: seq<uint8>, chk0: nat, ghost u: seq<nat>)
      returns (ok: bool, data: seq<nat>, chk: nat, lower: bool, upper: bool)
    requires |tail| >= 6 && chk0 == Polymod(1, u)
    ensures ok <==> AllCharset(tail)
    ensures ok ==> data == Values(tail)[..|tail| - 6] && chk == Polymod(1, u + Values(tail))
    ensures ok ==> (lower <==> HasLower(tail)) && (upper <==> HasUpper(tail))
  {
    hide Xor, PolymodStep, Polymod, CharsetRev, Charset;
    ok, data, chk, lower, upper := true, [], chk0, false, false;
    ghost var fed: seq<nat> := [];
    assert u + fed == u;
    var i := 0;
    while i < |tail|
      invariant 0 <= i <= |tail| && chk == Polymod(1, u + fed) && |fed| == i
      invariant forall j :: 0 <= j < i ==> CharsetRev(tail[j]) != -1 && fed[j] == CharsetRev(tail[j])
      invariant data == if i + 6 <= |tail| then fed else fed[..|tail| - 6]
      invariant lower <==> exists j :: 0 <= j < i && IsLower(tail[j])
      invariant upper <==> exists j :: 0 <= j < i && IsUpper(tail[j])
    {
      var v := CharsetRev(tail[i]);
      if 97 <= tail[i] && tail[i] <= 122 { lower := true; }
      if 65 <= tail[i] && tail[i] <= 90 { upper := true; }
      if v == -1 { return false, [], 0, false, false; }
      CharsetRevFacts(tail[i]);
      PolymodSnoc(1, u + fed, v);
      assert u + (fed + [v]) == (u + fed) + [v];
      chk := Xor(PolymodStep(chk), v);
      fed := fed + [v];
      if i + 6 < |tail| { data := data + [v]; }
      i := i + 1;
    }
    assert fed == Values(tail);
  }

  /** bech32_decode */
  method DecodeString(input: seq<uint8>) returns (r: Option<(seq<uint8>, seq<nat>)>)
    ensures r == Decode(input)
  {
    hide Polymod, HrpValues, CharsetRev, AllCharset, Values, Tail;
    if |input| < 8 || |input| > 90 { return None; }
    var t := CountTail(input);
    if 1 + t >= |input| || t < 6 { return None; }
    var n := |input|;
    var part, tail := input[..n - 1 - t], input[n - t..];
    var ok, hrp, chk, lower, upper := DecodeHrp(part);
    if !ok { return None; }
    var data, lower', upper';
    ok, data, chk, lower', upper' := DecodeData(tail, chk, HrpValues(hrp));
    if !ok { return None; }
    CaseOfConcat(part, tail);
    if (lower || lower') && (upper || upper') { return None; }
    return if chk == 1 then Some((hrp, data)) else None;
  }

  lemma CaseOfConcat(a: seq<uint8>, b: seq<uint8>)
    ensures HasUpper(a + b) <==> HasUpper(a) || HasUpper(b)
    ensures HasLower(a + b) <==> HasLower(a) || HasLower(b)
  {
    forall i | 0 <= i < |a| ensures (a + b)[i] == a[i] {}
    forall i | 0 <= i < |b| ensures (a + b)[|a| + i] == b[i] {}
    if HasUpper(b) { var i :| 0 <= i < |b| && IsUpper(b[i]); assert IsUpper((a + b)[|a| + i]); }
    if HasLower(b) { var i :| 0 <= i < |b| && IsLower(b[i]); assert IsLower((a + b)[|a| + i]); }
    if HasUpper(a) { var i :| 0 <= i < |a| && IsUpper(a[i]); assert IsUpper((a + b)[i]); }
    if HasLower(a) { var i :| 0 <= i < |a| && IsLower(a[i]); assert IsLower((a + b)[i]); }
  }
}
