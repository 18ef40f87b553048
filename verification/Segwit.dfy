/** Regrouping bits and segregated-witness addresses (BIP 173). */
module Segwit {
  import opened Wrappers
  import opened Arith
  import opened Bits
  import opened Digits
  import opened Bech32
  import opened BechText
  import opened BechCode

  /** The len base-b digits of v, most significant first. */
  function ToDigits(v: nat, b: nat, len: nat): (s: seq<uint8>)
    requires 1 < b <= 256
    ensures |s| == len && IsDigits(s, b)
    decreases len
  {
    LastDigit(v, b);
    if len == 0 then [] else ToDigits(v / b, b, len - 1) + [v % b]
  }

  lemma LastDigit(v: nat, b: nat)
    requires 1 < b <= 256
    ensures 0 <= v / b && 0 <= v % b < b && v == (v / b) * b + v % b
  {
    DivMod(v, b);
    if v / b < 0 { MulMono(v / b, -1, b); }
  }

  lemma {:induction false} ToDigitsValue(v: nat, b: nat, len: nat)
    requires 1 < b <= 256 && v < Pow(b, len)
    ensures Big(ToDigits(v, b, len), b) == v
    decreases len
  {
    if len > 0 {
      var q, r := QuotientBound(v, b, len);
      ToDigitsValue(q, b, len - 1);
      BigSnoc(ToDigits(q, b, len - 1), r, b);
    }
  }

  lemma QuotientBound(v: nat, b: nat, len: nat) returns (q: nat, r: nat)
    requires len > 0 && 1 < b <= 256 && v < Pow(b, len)
    ensures q < Pow(b, len - 1) && r < b && v == q * b + r && ToDigits(v, b, len) == ToDigits(q, b, len - 1) + [r]
  {
    LastDigit(v, b);
    q, r := v / b, v % b;
    assert Pow(b, len) == Pow(b, len - 1) * b;
    DivBounds(v, b, Pow(b, len - 1));
  }

  lemma DigitsAre(s: seq<uint8>, v: nat, b: nat)
    requires 1 < b <= 256 && IsDigits(s, b) && Big(s, b) == v
    ensures s == ToDigits(v, b, |s|)
  {
    BigBound(s, b);
    ToDigitsValue(v, b, |s|);
    BigUnique(s, ToDigits(v, b, |s|), b);
  }

  lemma GroupSize(bits: nat)
    requires 1 <= bits <= 8
    ensures 1 < Pow(2, bits) <= 256
  {
    TwoPowers();
    PowMono(2, 1, bits);
    PowMono(2, bits, 8);
    assert Pow(2, 1) == 2;
  }

  /** convert_bits: the input groups read as one number, regrouped; what is left over is padded with zeros,
      or must be zeros short of a whole input group. */
  function Convert(input: seq<uint8>, inbits: nat, outbits: nat, pad: bool): Option<seq<uint8>>
    requires 1 <= inbits <= 8 && 1 <= outbits <= 8 && IsDigits(input, Pow(2, inbits))
  {
    GroupSize(inbits);
    GroupSize(outbits);
    BigBound(input, Pow(2, inbits));
    GroupLengths(|input|, inbits, outbits);
    Leave(Big(input, Pow(2, inbits)), outbits, |input| * inbits % outbits, |input| * inbits / outbits, inbits, pad)
  }

  lemma GroupLengths(n: nat, inbits: nat, outbits: nat)
    requires outbits > 0
    ensures 0 <= n * inbits && 0 <= n * inbits / outbits && 0 <= n * inbits % outbits < outbits
  {
    MulMono(0, n, inbits);
    DivMod(n * inbits, outbits);
  }

  /** The number v as len groups and a rest of some bits. */
  function Leave(v: nat, outbits: nat, bits: nat, len: nat, inbits: nat, pad: bool): Option<seq<uint8>>
    requires 1 <= outbits <= 8 && bits < outbits
  {
    hide Pow, ToDigits;
    GroupSize(outbits);
    PowPos(2, bits);
    DivMod(v, Pow(2, bits));
    if pad then
      if bits == 0 then Some(ToDigits(v, Pow(2, outbits), len))
      else Some(ToDigits(v * Pow(2, outbits - bits), Pow(2, outbits), len + 1))
    else if v % Pow(2, bits) != 0 || bits >= inbits then None
    else QuotientNat(v, Pow(2, bits)); Some(ToDigits(v / Pow(2, bits), Pow(2, outbits), len))
  }

  lemma QuotientNat(v: nat, d: nat)
    requires d > 0
    ensures v / d >= 0
  {}

  // ---- the loop --------------------------------------------------------------------------

  /** The emitted groups and the low bits of the register account for the groups read. */
  ghost predicate Regrouped(out: seq<uint8>, val: nat, bits: nat, read: int, total: nat, outbits: nat)
    requires 1 <= outbits <= 8
  {
    && IsDigits(out, Pow(2, outbits)) && |out| * outbits + bits == total
    && Pow(2, bits) > 0 && read == Big(out, Pow(2, outbits)) * Pow(2, bits) + val % Pow(2, bits)
  }

  /** Taking in one group: the register wraps at 32 bits, above everything that is still needed. */
  lemma TakeIn(out: seq<uint8>, val: nat, bits: nat, read: int, total: nat, outbits: nat, inbits: nat, b: nat)
    requires 1 <= outbits <= 8 && 1 <= inbits <= 8 && bits < outbits && Regrouped(out, val, bits, read, total, outbits)
    requires b < Pow(2, inbits)
    ensures Or((val * Pow(2, inbits)) % WORD, b) < WORD
    ensures Regrouped(out, Or((val * Pow(2, inbits)) % WORD, b), bits + inbits, read * Pow(2, inbits) + b,
                      total + inbits, outbits)
  {
    hide Pow, Or, Big;
    var m, n := Pow(2, inbits), Pow(2, bits);
    PowPos(2, inbits);
    PowPos(2, 32 - inbits);
    TwoPowers();
    ShiftTruncated(val, inbits, 32);
    var low := val % Pow(2, 32 - inbits);
    DivMod(val, Pow(2, 32 - inbits));
    OrIsSum(low, b, inbits);
    PowAdd(2, bits, inbits);
    PowAdd(2, 32 - inbits, inbits);
    Below(low, Pow(2, 32 - inbits), b, m);
    KeepLow(val, inbits, bits);
    ShiftedRemainder(low, b, m, n);
    NewRead(Big(out, Pow(2, outbits)), n, m, val % n, b);
  }

  lemma Below(low: nat, w: nat, b: nat, m: nat)
    requires low < w && b < m
    ensures low * m + b < w * m
  {
    MulMono(low, w - 1, m);
    DistributeSub(w, 1, m);
  }

  /** The truncated register agrees with the full one in its low bits. */
  lemma KeepLow(val: nat, inbits: nat, bits: nat)
    requires inbits <= 8 && bits < 8
    ensures Pow(2, 32 - inbits) > 0 && Pow(2, bits) > 0
    ensures (val % Pow(2, 32 - inbits)) % Pow(2, bits) == val % Pow(2, bits)
  {
    PowPos(2, 32 - inbits);
    PowPos(2, bits);
    PowPos(2, 32 - inbits - bits);
    PowAdd(2, 32 - inbits - bits, bits);
    RemainderOfRemainder(val, Pow(2, 32 - inbits - bits), Pow(2, bits));
  }

  lemma RemainderOfRemainder(x: nat, g: nat, n: nat)
    requires g > 0 && n > 0
    ensures g * n > 0 && (x % (g * n)) % n == x % n
  {
    MulPos(g, n);
    DivMod(x, g * n);
    var q, r := x / (g * n), x % (g * n);
    DivMod(r, n);
    assert x == (q * g + r / n) * n + r % n by {
      Distribute(q * g, r / n, n);
      MulAssoc(q, g, n);
    }
    DivModUnique(x, n, q * g + r / n, r % n);
  }

  lemma ShiftedRemainder(low: nat, b: nat, m: nat, n: nat)
    requires m > 0 && n > 0 && b < m
    ensures n * m > 0 && (low * m + b) % (n * m) == (low % n) * m + b
  {
    MulPos(n, m);
    DivMod(low, n);
    var q, r := low / n, low % n;
    assert low * m + b == q * (n * m) + (r * m + b) by {
      Distribute(q * n, r, m);
      MulAssoc(q, n, m);
    }
    Below(r, n, b, m);
    MulPosOrZero(r, m);
    DivModUnique(low * m + b, n * m, q, r * m + b);
  }

  lemma MulPosOrZero(a: int, b: int)
    requires a >= 0 && b >= 0
    ensures a * b >= 0
  {}

  lemma NewRead(out: int, n: int, m: int, r: int, b: int)
    ensures (out * n + r) * m + b == out * (n * m) + (r * m + b)
  {
    Distribute(out * n, r, m);
    MulAssoc(out, n, m);
  }

  /** Emitting one group from the top of the pending bits. */
  lemma Emit(out: seq<uint8>, val: nat, bits: nat, read: int, total: nat, outbits: nat)
    requires 1 <= outbits <= 8 && bits >= outbits && Regrouped(out, val, bits, read, total, outbits)
    ensures Pow(2, bits - outbits) > 0 && Pow(2, outbits) > 0 && (val / Pow(2, bits - outbits)) % Pow(2, outbits) < 256
    ensures Regrouped(out + [(val / Pow(2, bits - outbits)) % Pow(2, outbits)], val, bits - outbits,
                      read, total, outbits)
  {
    GroupSize(outbits);
    var o, n := Pow(2, outbits), Pow(2, bits - outbits);
    PowPos(2, bits - outbits);
    PowAdd(2, outbits, bits - outbits);
    DivMod(val / n, o);
    var d := (val / n) % o;
    BigSnoc(out, d, o);
    TopGroup(val, o, n);
    assert Big(out, o) * (o * n) + (d * n + val % n) == (Big(out, o) * o + d) * n + val % n by {
      Distribute(Big(out, o) * o, d, n);
      MulAssoc(Big(out, o), o, n);
    }
    Distribute(|out|, 1, outbits);
  }

  lemma TopGroup(val: nat, o: nat, n: nat)
    requires o > 0 && n > 0
    ensures o * n > 0 && val % (o * n) == ((val / n) % o) * n + val % n
  {
    DivMod(val, n);
    ShiftedRemainder(val / n, val % n, n, o);
  }

  method ConvertBits(input: seq<uint8>, inbits: nat, outbits: nat, pad: bool) returns (r: Option<seq<uint8>>)
    requires 1 <= inbits <= 8 && 1 <= outbits <= 8 && IsDigits(input, Pow(2, inbits))
    ensures r == Convert(input, inbits, outbits, pad)
  {
    hide Or, Pow, Regrouped, Leave;
    GroupSize(outbits);
    ghost var i2 := Pow(2, inbits);
    var val: nat, bits, out: seq<uint8> := 0, 0, [];
    ghost var read, total := 0, 0;
    StartGroups(outbits);
    var k := 0;
    while k < |input|
      invariant 0 <= k <= |input| && 0 <= bits < outbits && total == k * inbits
      invariant read == Big(input[..k], i2) && val < WORD
      invariant Regrouped(out, val, bits, read, total, outbits)
    {
      TakeIn(out, val, bits, read, total, outbits, inbits, input[k]);
      BigStep(input, k, i2);
      Distribute(k, 1, inbits);
      val := Or((val * Pow(2, inbits)) % 0x1_0000_0000, input[k]);
      read, total := Big(input[..k + 1], i2), total + inbits;
      bits := bits + inbits;
      bits, out := EmitGroups(val, bits, out, read, total, outbits);
      k := k + 1;
    }
    assert input[..k] == input;
    r := FinishGroups(input, val, bits, out, inbits, outbits, pad);
  }

  lemma StartGroups(outbits: nat)
    requires 1 <= outbits <= 8
    ensures Regrouped([], 0, 0, 0, 0, outbits)
  {
    assert Pow(2, 0) == 1;
  }

  /** The inner loop. */
  method EmitGroups(val: nat, bits0: nat, out0: seq<uint8>, ghost read: int, ghost total: nat, outbits: nat)
      returns (bits: nat, out: seq<uint8>)
    requires 1 <= outbits <= 8 && Regrouped(out0, val, bits0, read, total, outbits)
    ensures bits < outbits && Regrouped(out, val, bits, read, total, outbits)
  {
    bits, out := bits0, out0;
    while bits >= outbits
      invariant Regrouped(out, val, bits, read, total, outbits)
    {
      Emit(out, val, bits, read, total, outbits);
      bits := bits - outbits;
      out := out + [(val / Pow(2, bits)) % Pow(2, outbits)];
    }
  }

  /** Padding, or the test that the rest is an incomplete group of zeros. */
  method FinishGroups(input: seq<uint8>, val: nat, bits: nat, out: seq<uint8>, inbits: nat, outbits: nat, pad: bool)
      returns (r: Option<seq<uint8>>)
    requires 1 <= inbits <= 8 && 1 <= outbits <= 8 && IsDigits(input, Pow(2, inbits)) && bits < outbits && val < WORD
    requires Regrouped(out, val, bits, Big(input, Pow(2, inbits)), |input| * inbits, outbits)
    ensures r == Convert(input, inbits, outbits, pad)
  {
    hide Pow, Big, ToDigits;
    ghost var v := Big(input, Pow(2, inbits));
    GroupCounts(input, out, val, bits, inbits, outbits);
    RestIs(val, bits, outbits);
    LeaveIs(out, val, bits, v, |input| * inbits, outbits, inbits, pad);
    var rest := ((val * Pow(2, outbits - bits)) % 0x1_0000_0000) % Pow(2, outbits);
    if pad {
      return if bits != 0 then Some(out + [rest]) else Some(out);
    }
    return if rest != 0 || bits >= inbits then None else Some(out);
  }

  /** The result, case by case, from the pending bits. */
  lemma LeaveIs(out: seq<uint8>, val: nat, bits: nat, v: nat, total: nat, outbits: nat, inbits: nat, pad: bool)
    requires 1 <= outbits <= 8 && bits < outbits && Regrouped(out, val, bits, v, total, outbits)
    requires Pow(2, bits) > 0 && v / Pow(2, bits) == Big(out, Pow(2, outbits)) && v % Pow(2, bits) == val % Pow(2, bits)
    ensures pad && bits != 0 ==> (val % Pow(2, bits)) * Pow(2, outbits - bits) < 256
    ensures pad && bits != 0 ==>
      (Leave(v, outbits, bits, |out|, inbits, pad) == Some(out + [(val % Pow(2, bits)) * Pow(2, outbits - bits)]))
    ensures pad && bits == 0 ==> Leave(v, outbits, bits, |out|, inbits, pad) == Some(out)
    ensures !pad ==>
      (Leave(v, outbits, bits, |out|, inbits, pad) ==
       if val % Pow(2, bits) != 0 || bits >= inbits then None else Some(out))
  {
    hide Pow, Big, ToDigits;
    GroupSize(outbits);
    DigitsAre(out, v / Pow(2, bits), Pow(2, outbits));
    if pad && bits != 0 {
      PaddedGroup(out, val, bits, v, total, outbits);
    } else if pad {
      PowZero();
      DivModUnique(v, 1, v, 0);
    }
  }

  lemma PowZero()
    ensures Pow(2, 0) == 1
  {}

  /** (val << (outbits - bits)) & maxv is the pending bits moved to the top of a group. */
  lemma RestIs(val: nat, bits: nat, outbits: nat)
    requires bits < outbits <= 8
    ensures Pow(2, bits) > 0 && Pow(2, outbits) > 0
    ensures ((val * Pow(2, outbits - bits)) % WORD) % Pow(2, outbits) == (val % Pow(2, bits)) * Pow(2, outbits - bits)
    ensures (val % Pow(2, bits)) * Pow(2, outbits - bits) == 0 <==> val % Pow(2, bits) == 0
  {
    PowPos(2, bits);
    PowPos(2, outbits);
    PowPos(2, outbits - bits);
    TwoPowers();
    PowPos(2, 32 - outbits);
    PowAdd(2, 32 - outbits, outbits);
    RemainderOfRemainder(val * Pow(2, outbits - bits), Pow(2, 32 - outbits), Pow(2, outbits));
    PowAdd(2, bits, outbits - bits);
    ShiftedRemainder(val, 0, Pow(2, outbits - bits), Pow(2, bits));
    if val % Pow(2, bits) != 0 { MulPos(val % Pow(2, bits), Pow(2, outbits - bits)); }
  }

  lemma GroupCounts(input: seq<uint8>, out: seq<uint8>, val: nat, bits: nat, inbits: nat, outbits: nat)
    requires 1 <= inbits <= 8 && 1 <= outbits <= 8 && bits < outbits && IsDigits(input, Pow(2, inbits))
    requires Regrouped(out, val, bits, Big(input, Pow(2, inbits)), |input| * inbits, outbits)
    ensures |out| == |input| * inbits / outbits && bits == |input| * inbits % outbits
    ensures Pow(2, bits) > 0 && Pow(2, inbits) > 0 && Pow(2, outbits) > 0
    ensures var v := Big(input, Pow(2, inbits));
      v >= 0 && v / Pow(2, bits) == Big(out, Pow(2, outbits)) && v % Pow(2, bits) == val % Pow(2, bits)
  {
    hide Pow, Big;
    PowPos(2, bits);
    PowPos(2, inbits);
    PowPos(2, outbits);
    BigBound(input, Pow(2, inbits));
    DivModUnique(|input| * inbits, outbits, |out|, bits);
    DivMod(val, Pow(2, bits));
    DivModUnique(Big(input, Pow(2, inbits)), Pow(2, bits), Big(out, Pow(2, outbits)), val % Pow(2, bits));
  }

  lemma PaddedGroup(out: seq<uint8>, val: nat, bits: nat, v: nat, total: nat, outbits: nat)
    requires 1 <= outbits <= 8 && 0 < bits < outbits && Regrouped(out, val, bits, v, total, outbits)
    ensures Pow(2, outbits) > 1 && (val % Pow(2, bits)) * Pow(2, outbits - bits) < Pow(2, outbits) <= 256
    ensures out + [(val % Pow(2, bits)) * Pow(2, outbits - bits)]
      == ToDigits(v * Pow(2, outbits - bits), Pow(2, outbits), |out| + 1)
  {
    hide Pow, ToDigits;
    GroupSize(outbits);
    var o, n, m := Pow(2, outbits), Pow(2, bits), Pow(2, outbits - bits);
    PowPos(2, outbits - bits);
    PowAdd(2, bits, outbits - bits);
    DivMod(val, n);
    Below(val % n, n, 0, m);
    MulPosOrZero(val % n, m);
    BigSnoc(out, (val % n) * m, o);
    NewRead(Big(out, o), n, m, val % n, 0);
    DigitsAre(out + [(val % n) * m], v * m, o);
  }

  // ---- eight to five and back ------------------------------------------------------------

  /** The padded groups are the digits of the bytes' number, shifted up by the bits of padding. */
  lemma PaddedGroups(bytes: seq<uint8>)
    ensures IsDigits(bytes, Pow(2, 8)) && Convert(bytes, 8, 5, true).Some? && Big(bytes, 256) >= 0
    ensures var groups, v := Convert(bytes, 8, 5, true).value, Big(bytes, 256);
      && |groups| == (8 * |bytes| + 4) / 5 && IsDigits(groups, Pow(2, 5)) && 5 * |groups| >= 8 * |bytes|
      && 0 <= v * Pow(2, 5 * |groups| - 8 * |bytes|) < Pow(32, |groups|)
      && groups == ToDigits(v * Pow(2, 5 * |groups| - 8 * |bytes|), 32, |groups|)
  {
    hide Pow, Big, ToDigits;
    BechPowers();
    TwoPowers();
    BigBound(bytes, 256);
    var v, n := Big(bytes, 256), |bytes|;
    var len, bits := n * 8 / 5, n * 8 % 5;
    var pad := if bits == 0 then 0 else 5 - bits;
    var groups := Convert(bytes, 8, 5, true).value;
    PaddingFits(v, n, len, bits);
    PowZero();
    PowPos(2, pad);
    assert groups == ToDigits(v * Pow(2, pad), 32, len + (if bits == 0 then 0 else 1));
  }

  /** Regrouping bytes into padded five-bit groups and back is the identity. */
  lemma RegroupBack(bytes: seq<uint8>)
    ensures IsDigits(bytes, Pow(2, 8)) && Convert(bytes, 8, 5, true).Some?
    ensures var groups := Convert(bytes, 8, 5, true).value;
      IsDigits(groups, Pow(2, 5)) && |groups| == (8 * |bytes| + 4) / 5 && Convert(groups, 5, 8, false) == Some(bytes)
  {
    hide Pow, Big, ToDigits;
    PaddedGroups(bytes);
    BechPowers();
    TwoPowers();
    var v, n := Big(bytes, 256), |bytes|;
    var groups := Convert(bytes, 8, 5, true).value;
    var pad := 5 * |groups| - 8 * n;
    ToDigitsValue(v * Pow(2, pad), 32, |groups|);
    DivModUnique(|groups| * 5, 8, n, pad);
    PowPos(2, pad);
    DivModUnique(v * Pow(2, pad), Pow(2, pad), v, 0);
    DigitsAre(bytes, v, 256);
  }

  /** The groups denote the bytes' number, shifted up by the bits of padding. */
  lemma GroupsDenote(bytes: seq<uint8>)
    ensures IsDigits(bytes, Pow(2, 8)) && Convert(bytes, 8, 5, true).Some?
    ensures var groups := Convert(bytes, 8, 5, true).value;
      && |groups| == (8 * |bytes| + 4) / 5 && 5 * |groups| >= 8 * |bytes|
      && Big(groups, 32) == Big(bytes, 256) * Pow(2, 5 * |groups| - 8 * |bytes|)
  {
    hide Pow, Big, ToDigits, Convert;
    PaddedGroups(bytes);
    var groups := Convert(bytes, 8, 5, true).value;
    ToDigitsValue(Big(bytes, 256) * Pow(2, 5 * |groups| - 8 * |bytes|), 32, |groups|);
  }

  /** The padded number has no more digits than there are groups. */
  lemma PaddingFits(v: nat, n: nat, len: nat, bits: nat)
    requires v < Pow(256, n) && n * 8 == len * 5 + bits && bits < 5
    ensures var pad := if bits == 0 then 0 else 5 - bits; v * Pow(2, pad) < Pow(32, len + (if bits == 0 then 0 else 1))
  {
    hide Pow;
    var pad := if bits == 0 then 0 else 5 - bits;
    var groups := len + (if bits == 0 then 0 else 1);
    BechPowers();
    TwoPowers();
    PowMul(2, 8, n);
    PowMul(2, 5, groups);
    PowAdd(2, 8 * n, pad);
    PowPos(2, pad);
    MulStrict(v, Pow(256, n), Pow(2, pad));
  }

  // ---- addresses -------------------------------------------------------------------------

  predicate ProgramAllowed(version: int, length: int) {
    version <= 16 && (version == 0 ==> length == 20 || length == 32) && 2 <= length <= 40
  }

  /** segwit_addr_encode; the version is stored in a byte. */
  function EncodeAddress(hrp: seq<uint8>, version: int, program: seq<uint8>): Option<seq<uint8>> {
    if !ProgramAllowed(version, |program|) then None
    else
      RegroupBack(program);
      Encode(hrp, [version % 256] + Convert(program, 8, 5, true).value)
  }

  /** segwit_addr_decode */
  function DecodeAddress(hrp: seq<uint8>, address: seq<uint8>): Option<(int, seq<uint8>)> {
    match Decode(address)
    case None => None
    case Some((actual, data)) =>
      DecodeEncode(address);
      GroupsAreDigits(data);
      if |data| == 0 || |data| > 65 || hrp != actual || data[0] > 16 then None
      else
        match Convert(data[1..], 5, 8, false)
        case None => None
        case Some(program) => if ProgramAllowed(data[0], |program|) then Some((data[0], program)) else None
  }

  lemma GroupsAreDigits(data: seq<nat>)
    requires forall i :: 0 <= i < |data| ==> data[i] < 32
    ensures Pow(2, 5) == 32 && (|data| > 0 ==> IsDigits(data[1..], Pow(2, 5)))
  {
    BechPowers();
  }

  /** An encoded address decodes to its version and program, if and only if the human-readable part is not empty
      and the version is not negative. (A negative version is encoded when its low byte is a valid symbol.) */
  lemma AddressRoundTrip(hrp: seq<uint8>, version: int, program: seq<uint8>)
    requires EncodeAddress(hrp, version, program).Some?
    ensures DecodeAddress(hrp, EncodeAddress(hrp, version, program).value) == Some((version, program))
      <==> |hrp| > 0 && 0 <= version
  {
    hide Encode, Decode, Convert;
    RegroupBack(program);
    var groups := Convert(program, 8, 5, true).value;
    EncodeDecode(hrp, [version % 256] + groups);
    assert ([version % 256] + groups)[1..] == groups;
  }

  /** What an address says: the human-readable part, a '1', the character of the version, then characters whose values
      denote the program, padded to whole groups, and six more. */
  lemma AddressDenotes(hrp: seq<uint8>, version: int, program: seq<uint8>)
    requires EncodeAddress(hrp, version, program).Some?
    ensures var a, n, g := EncodeAddress(hrp, version, program).value, |program|, (8 * |program| + 4) / 5;
      && 0 <= version % 256 < 32 && |a| == |hrp| + 8 + g
      && a[..|hrp|] == hrp && a[|hrp|] == 49 && a[|hrp| + 1] == Charset(version % 256)
      && AllCharset(a[|hrp| + 2..|hrp| + 2 + g])
      && 5 * g - 8 * n >= 0 && Big(Values(a[|hrp| + 2..|hrp| + 2 + g]), 32) == Big(program, 256) * Pow(2, 5 * g - 8 * n)
  {
    hide Convert, Charset, CharsetRev, ChecksumOf, SymbolsOf, Pow, Big;
    GroupsDenote(program);
    var groups := Convert(program, 8, 5, true).value;
    var data: seq<uint8> := [version % 256] + groups;
    assert Symbols(data) && data[0] == version % 256;
    var sum := SymbolsOf(ChecksumOf(hrp, data), 6);
    var a, g := EncodeAddress(hrp, version, program).value, |groups|;
    var chars := Chars(data + sum);
    assert a == hrp + [SEPARATOR] + chars;
    var middle := a[|hrp| + 2..|hrp| + 2 + g];
    forall i | 0 <= i < g ensures middle[i] == chars[1 + i] && CharsetRev(middle[i]) == groups[i] {
      assert (data + sum)[1 + i] == groups[i];
    }
    assert AllCharset(middle);
    assert Values(middle) == groups;
    assert chars[0] == Charset(version % 256);
    assert a[|hrp| + 1] == chars[0];
  }

  lemma Encodes(hrp: seq<uint8>, data: seq<uint8>)
    requires ValidHrp(hrp) && |hrp| + 7 + |data| <= 90 && Symbols(data)
    ensures Encode(hrp, data).Some?
  {
    hide ChecksumOf, SymbolsOf, Chars;
  }

  /** A negative version that is encoded all the same: -240 is stored as 16. */
  lemma NegativeVersion()
    ensures var program := seq(20, _ => 0);
      EncodeAddress([98, 99], -240, program).Some? &&
      DecodeAddress([98, 99], EncodeAddress([98, 99], -240, program).value) == Some((16, program))
  {
    hide Convert, Encode, Decode, Pow;
    var program := seq(20, _ => 0);
    RegroupBack(program);
    var groups := Convert(program, 8, 5, true).value;
    BechPowers();
    Encodes([98, 99], [16] + groups);
    EncodeDecode([98, 99], [16] + groups);
    assert ([16] + groups)[1..] == groups;
  }

  method SegwitEncode(hrp: seq<uint8>, version: int, program: seq<uint8>) returns (address: Option<seq<uint8>>)
    ensures address == EncodeAddress(hrp, version, program)
  {
    hide Encode, Convert;
    if version > 16 { return None; }
    if version == 0 && |program| != 20 && |program| != 32 { return None; }
    if |program| < 2 || |program| > 40 { return None; }
    RegroupBack(program);
    var groups := ConvertBits(program, 8, 5, true);
    address := EncodeString(hrp, [version % 256] + groups.value);
  }

  method SegwitDecode(hrp: seq<uint8>, address: seq<uint8>) returns (r: Option<(int, seq<uint8>)>)
    ensures r == DecodeAddress(hrp, address)
  {
    hide Encode, Decode, Convert;
    var decoded := DecodeString(address);
    if decoded.None? { return None; }
    var (actual, data) := decoded.value;
    DecodeEncode(address);
    GroupsAreDigits(data);
    if |data| == 0 || |data| > 65 { return None; }
    if hrp != actual { return None; }
    if data[0] > 16 { return None; }
    var program := ConvertBits(data[1..], 5, 8, false);
    if program.None? { return None; }
    var length := |program.value|;
    if length < 2 || length > 40 { return None; }
    if data[0] == 0 && length != 20 && length != 32 { return None; }
    return Some((data[0], program.value));
  }
}
