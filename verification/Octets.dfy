/** Conversion between 32 big-endian bytes and nine 30-bit limbs, and the remaining single-number loops. */
module Octets {
  import opened Arith
  import opened Digits
  import opened Bits
  import opened Residues
  import opened Bignum

  type Scalar = s: seq<uint8> | |s| == 32 witness seq(32, _ => 0)

  function ReadBe(data: seq<uint8>): (r: uint32)
    requires |data| == 4
    ensures r == Big(data, 256)
  {
    var a: int, b: int, c: int, d: int := data[0], data[1], data[2], data[3];
    ReadBeSum(data);
    Or(Or(Or(a * 0x100_0000, b * 0x1_0000), c * 0x100), d)
  }

  lemma ReadBeSum(data: seq<uint8>)
    requires |data| == 4
    ensures var a: int, b: int, c: int, d: int := data[0], data[1], data[2], data[3];
            Or(Or(Or(a * 0x100_0000, b * 0x1_0000), c * 0x100), d) == Big(data, 256) < WORD
  {
    hide Or;
    TwoPowers();
    var a: int, b: int, c: int, d: int := data[0], data[1], data[2], data[3];
    OrIsSum(a, b * 0x1_0000, 24);
    OrIsSum(a * 0x100 + b, c * 0x100, 16);
    OrIsSum((a * 0x100 + b) * 0x100 + c, d, 8);
    FourBytes(data);
  }

  lemma FourBytes(s: seq<int>)
    requires |s| == 4
    ensures Big(s, 256) == ((s[0] * 256 + s[1]) * 256 + s[2]) * 256 + s[3]
  {
    BigStep(s, 0, 256);
    BigStep(s, 1, 256);
    BigStep(s, 2, 256);
    BigStep(s, 3, 256);
    assert s[..4] == s && s[..0] == [];
  }

  function WriteBe(x: uint32): (r: seq<uint8>)
    ensures |r| == 4 && Big(r, 256) == x
  {
    ByteSum(x);
    var r: seq<uint8> := [x / 0x100_0000, x / 0x1_0000 % 0x100, x / 0x100 % 0x100, x % 0x100];
    FourBytes(r);
    r
  }

  lemma ByteSum(x: uint32)
    ensures (((x / 0x100_0000) * 256 + x / 0x1_0000 % 0x100) * 256 + x / 0x100 % 0x100) * 256 + x % 0x100 == x
    ensures x / 0x100_0000 < 0x100
  {
    var y, z := x / 0x100, x / 0x1_0000;
    assert y / 0x100 == z && z / 0x100 == x / 0x100_0000;
  }

  lemma Pow256()
    ensures Pow(256, 32) == TWO256
  {
    LimbPowers();
    TwoPowers();
    PowMul(2, 8, 32);
    PowMul(2, 30, 8);
    PowAdd(2, 240, 16);
  }

  /** The powers of two met in round i of the two conversion loops. */
  lemma RoundPowers(i: nat)
    requires i < 8
    ensures Pow(2, 2 * i) > 0 && Pow(2, 30 - 2 * i) > 0 && Pow(2, 2 * i) * Pow(2, 30 - 2 * i) == LIMB
    ensures Pow(2, 2 * i + 2) == 4 * Pow(2, 2 * i) && Pow(2, 30 - 2 * i) == 4 * Pow(2, 28 - 2 * i)
  {
    TwoPowers();
    PowPos(2, 2 * i);
    PowPos(2, 30 - 2 * i);
    PowAdd(2, 2 * i, 30 - 2 * i);
    PowAdd(2, 2 * i, 2);
    PowAdd(2, 28 - 2 * i, 2);
    assert Pow(2, 2) == 4;
  }

  /** Regrouping 32-bit words into 30-bit limbs: a word joined to the v = 2^(2i) waiting values. */
  lemma Regroup(limb: nat, temp: nat, v: nat, w: nat)
    requires limb < WORD && temp < v && v > 0 && w > 0 && v * w == LIMB
    ensures 0 <= temp + (limb % w) * v < LIMB
    ensures temp + limb * v == (temp + (limb % w) * v) + LIMB * (limb / w)
    ensures 0 <= limb / w < 4 * v <= 4 * LIMB
  {
    var hi, lo := limb / w, limb % w;
    DivMod(limb, w);
    MulMono(lo, w - 1, v);
    Distribute(w, -1, v);
    MulMono(0, lo, v);
    Distribute(hi * w, lo, v);
    assert (hi * w) * v == hi * (v * w);
    assert (4 * v) * w == WORD;
    DivBounds(limb, w, 4 * v);
    MulMono(1, w, v);
  }

  lemma RegroupTruncated(limb: nat, temp: nat, v: nat, w: nat)
    requires limb < WORD && temp < v && v > 0 && w > 0 && v * w == LIMB
    ensures 0 <= (limb % (4 * w)) * v + temp < WORD
    ensures ((limb % (4 * w)) * v + temp) % LIMB == temp + (limb % w) * v
  {
    var u := 4 * w;
    var h, l := limb / u, limb % u;
    DivMod(limb, u);
    MulMono(l, u - 1, v);
    Distribute(u, -1, v);
    assert u * v == WORD by { assert (4 * w) * v == 4 * (v * w); }
    MulMono(0, l, v);
    Regroup(l, temp, v, w);
    assert l % w == limb % w by {
      DivMod(l, w);
      assert limb == (4 * h + l / w) * w + l % w by { Distribute(4 * h, l / w, w); assert h * (4 * w) == (4 * h) * w; }
      DivModUnique(limb, w, 4 * h + l / w, l % w);
    }
    DivModUnique(l * v + temp, LIMB, l / w, temp + (limb % w) * v);
  }

  /** One round of the reading loop: round i keeps 2i bits waiting. */
  lemma ReadRound(limb: nat, temp: nat, i: nat)
    requires i < 8 && limb < WORD && temp < Pow(2, 2 * i)
    ensures Pow(2, 30 - 2 * i) > 0
    ensures var t := Or((limb * Pow(2, 2 * i)) % WORD, temp);
            t < WORD && temp + limb * Pow(2, 2 * i) == t % LIMB + LIMB * (limb / Pow(2, 30 - 2 * i))
    ensures 0 <= limb / Pow(2, 30 - 2 * i) < WORD
    ensures limb / Pow(2, 30 - 2 * i) < Pow(2, 2 * (i + 1))
  {
    RoundPowers(i);
    TwoPowers();
    ShiftTruncated(limb, 2 * i, 32);
    PowAdd(2, 30 - 2 * i, 2);
    assert Pow(2, 2) == 4;
    OrIsSum(limb % Pow(2, 32 - 2 * i), temp, 2 * i);
    Regroup(limb, temp, Pow(2, 2 * i), Pow(2, 30 - 2 * i));
    RegroupTruncated(limb, temp, Pow(2, 2 * i), Pow(2, 30 - 2 * i));
  }

  /** Weights of 32-bit words and 30-bit limbs. */
  lemma WordWeight(i: nat)
    ensures Pow(WORD, i) == Pow(2, 2 * i) * Pow(LIMB, i)
  {
    assert Pow(WORD, i) == Pow(2, 32 * i) by { TwoPowers(); PowMul(2, 32, i); }
    assert Pow(LIMB, i) == Pow(2, 30 * i) by { TwoPowers(); PowMul(2, 30, i); }
    PowAdd(2, 2 * i, 30 * i);
  }

  lemma ByteWeight(i: nat)
    ensures Pow(256, 4 * i) == Pow(WORD, i)
  {
    assert Pow(256, 4) == WORD;
    PowMul(256, 4, i);
  }

  /** The limbs written so far and the waiting bits account for the bytes read so far. */
  ghost predicate ReadSoFar(limbs: seq<int>, temp: int, data: seq<uint8>, i: nat) {
    && |data| == 32 && i <= 8 && |limbs| == i
    && Num(limbs, LIMB) + temp * Pow(LIMB, i) == Big(data[32 - 4 * i..], 256)
  }

  lemma ReadStep(data: seq<uint8>, i: nat, limbs: seq<int>, temp: int, word: int, d: int, temp': int)
    requires ReadSoFar(limbs, temp, data, i) && i < 8
    requires word == Big(data[28 - 4 * i..32 - 4 * i], 256)
    requires temp + word * Pow(2, 2 * i) == d + LIMB * temp'
    ensures ReadSoFar(limbs + [d], temp', data, i + 1)
  {
    assert data[28 - 4 * i..] == data[28 - 4 * i..32 - 4 * i] + data[32 - 4 * i..];
    BigConcat(data[28 - 4 * i..32 - 4 * i], data[32 - 4 * i..], 256);
    ByteWeight(i);
    WordWeight(i);
    NumSnoc(limbs, d, LIMB);
    RegroupStep(d, temp, temp', word, Pow(LIMB, i), Pow(2, 2 * i));
  }

  lemma RegroupStep(d: int, temp: int, temp': int, word: int, p: int, v: int)
    requires temp + word * v == d + LIMB * temp'
    ensures d * p + temp' * (LIMB * p) == temp * p + word * (v * p)
  {
    assert temp' * (LIMB * p) == (LIMB * temp') * p;
    Distribute(d, LIMB * temp', p);
    Distribute(temp, word * v, p);
    MulAssoc(word, v, p);
  }

  /** Round i: join the next word to the waiting bits, emit one limb, keep the rest waiting. */
  method ReadLimb(data: seq<uint8>, i: nat, temp: uint32, ghost limbs: seq<int>) returns (temp': uint32, d: uint32)
    requires i < 8 && temp < Pow(2, 2 * i) && ReadSoFar(limbs, temp, data, i)
    ensures temp' < Pow(2, 2 * (i + 1)) && d < LIMB && ReadSoFar(limbs + [d], temp', data, i + 1)
  {
    var limb: uint32 := ReadBe(data[28 - 4 * i..32 - 4 * i]);
    ReadRound(limb, temp, i);
    var joined: uint32 := Or((limb as int * Pow(2, 2 * i)) % 0x1_0000_0000, temp);
    d := joined % 0x4000_0000;
    temp' := limb / Pow(2, 30 - 2 * i);
    ReadStep(data, i, limbs, temp, limb, d, temp');
  }

  /** Reads 32 big-endian bytes into nine normalized limbs. */
  method BnReadBe(data: seq<uint8>, out: array<uint32>)
    requires |data| == 32 && out.Length == 9
    modifies out
    ensures Normalized(out)
    ensures Val(out) == Big(data, 256) && Val(out) < TWO256
  {
    var i := 0;
    var temp: uint32 := 0;
    assert data[32..] == [];
    while i < 8
      invariant 0 <= i <= 8
      invariant temp < Pow(2, 2 * i)
      invariant forall m :: 0 <= m < i ==> out[m] < LIMB
      invariant ReadSoFar(out[..i], temp, data, i)
    {
      ghost var before := out[..i];
      temp, out[i] := ReadLimb(data, i, temp, before);
      assert out[..i + 1] == before + [out[i]];
      i := i + 1;
    }
    ghost var before := out[..8];
    ReadEnd(data, before, temp);
    out[8] := temp;
    assert out[..] == before + [out[8]];
  }

  lemma ReadEnd(data: seq<uint8>, limbs: seq<int>, temp: int)
    requires ReadSoFar(limbs, temp, data, 8)
    ensures Num(limbs + [temp], LIMB) == Big(data, 256) < TWO256
    ensures Pow(2, 16) == 0x10000
  {
    assert data[0..] == data;
    NumSnoc(limbs, temp, LIMB);
    BigBound(data, 256);
    Pow256();
    TwoPowers();
  }

  // ---- writing ---------------------------------------------------------------------------

  /** The i words written so far hold the top bits; the low 16 - 2i bits of the last limb wait in temp. */
  ghost predicate WrittenSoFar(limbs: seq<int>, temp: int, bytes: seq<int>, i: nat) {
    && |limbs| == 9 && i <= 8 && |bytes| == 4 * i && Pow(2, 16 - 2 * i) > 0
    && Num(limbs[8 - i..], LIMB) == Big(bytes, 256) * Pow(2, 16 - 2 * i) + temp % Pow(2, 16 - 2 * i)
  }

  lemma WriteRound(limb: nat, temp: nat, i: nat)
    requires i < 8 && limb < LIMB && temp < LIMB
    ensures Pow(2, 14 - 2 * i) > 0 && Pow(2, 16 - 2 * i) == 4 * Pow(2, 14 - 2 * i)
    ensures Pow(2, 16 + 2 * i) * Pow(2, 14 - 2 * i) == LIMB
    ensures 0 <= limb / Pow(2, 14 - 2 * i) < WORD
    ensures var word := Or((temp * Pow(2, 16 + 2 * i)) % WORD, limb / Pow(2, 14 - 2 * i));
            word < WORD && word == (temp % Pow(2, 16 - 2 * i)) * Pow(2, 16 + 2 * i) + limb / Pow(2, 14 - 2 * i)
  {
    TwoPowers();
    PowPos(2, 14 - 2 * i);
    PowPos(2, 16 - 2 * i);
    PowPos(2, 16 + 2 * i);
    PowAdd(2, 14 - 2 * i, 2);
    assert Pow(2, 2) == 4;
    PowAdd(2, 16 + 2 * i, 14 - 2 * i);
    PowAdd(2, 16 - 2 * i, 16 + 2 * i);
    ShiftTruncated(temp, 16 + 2 * i, 32);
    var u, v, w := Pow(2, 16 - 2 * i), Pow(2, 16 + 2 * i), Pow(2, 14 - 2 * i);
    DivBounds(limb, w, v);
    MulMono(1, w, v);
    OrIsSum(temp % u, limb / w, 16 + 2 * i);
    DivMod(temp, u);
    MulMono(temp % u, u - 1, v);
    Distribute(u, -1, v);
    MulMono(0, temp % u, v);
  }

  lemma WriteStep(limbs: seq<int>, temp: int, bytes: seq<int>, i: nat, word: seq<int>)
    requires WrittenSoFar(limbs, temp, bytes, i) && i < 8 && IsDigits(limbs, LIMB) && |word| == 4
    requires Pow(2, 14 - 2 * i) > 0 && Pow(2, 16 - 2 * i) == 4 * Pow(2, 14 - 2 * i)
    requires Pow(2, 16 + 2 * i) * Pow(2, 14 - 2 * i) == LIMB
    requires Big(word, 256) == (temp % Pow(2, 16 - 2 * i)) * Pow(2, 16 + 2 * i) + limbs[7 - i] / Pow(2, 14 - 2 * i)
    ensures WrittenSoFar(limbs, limbs[7 - i], bytes + word, i + 1)
  {
    var limb := limbs[7 - i];
    var u, v, w := Pow(2, 16 - 2 * i), Pow(2, 16 + 2 * i), Pow(2, 14 - 2 * i);
    BigConcat(bytes, word, 256);
    assert Pow(256, 4) == WORD;
    TopLimbs(limbs, 7 - i);
    DivMod(limb, w);
    WriteRegroup(Big(bytes, 256), temp % u, limb / w, limb % w, u, v, w);
  }

  lemma WriteRegroup(b: int, t: int, q: int, r: int, u: int, v: int, w: int)
    requires u == 4 * w && v * w == LIMB
    ensures (b * WORD + (t * v + q)) * w + r == (q * w + r) + LIMB * (b * u + t)
  {
    assert (b * WORD) * w == LIMB * (b * u);
    assert (t * v) * w == t * (v * w);
    Distribute(b * WORD, t * v + q, w);
    Distribute(t * v, q, w);
  }

  /** Writes a fully reduced number as 32 big-endian bytes. */
  method BnWriteBe(input: array<uint32>, out: array<uint8>)
    requires Normalized(input) && Val(input) < TWO256 && out.Length == 32
    modifies out
    ensures Big(out[..], 256) == Val(input)
  {
    var i := 0;
    var temp: uint32 := input[8];
    WriteStart(input[..]);
    assert out[..0] == [];
    while i < 8
      invariant 0 <= i <= 8
      invariant temp < LIMB
      invariant WrittenSoFar(input[..], temp, out[..4 * i], i)
    {
      ghost var before := out[..4 * i];
      var limb: uint32 := input[7 - i];
      WriteRound(limb, temp, i);
      var word: uint32 := Or((temp as int * Pow(2, 16 + 2 * i)) % 0x1_0000_0000, limb / Pow(2, 14 - 2 * i));
      var bytes := WriteBe(word);
      out[4 * i], out[4 * i + 1], out[4 * i + 2], out[4 * i + 3] := bytes[0], bytes[1], bytes[2], bytes[3];
      WriteStep(input[..], temp, before, i, bytes);
      assert out[..4 * (i + 1)] == before + bytes;
      temp := limb;
      i := i + 1;
    }
    assert out[..32] == out[..] && input[0..] == input[..];
    assert Pow(2, 0) == 1;
  }

  /** A number below 2^256 leaves at most 16 bits in the top limb. */
  lemma WriteStart(limbs: seq<int>)
    requires |limbs| == 9 && IsDigits(limbs, LIMB) && Num(limbs, LIMB) < TWO256
    ensures WrittenSoFar(limbs, limbs[8], [], 0)
  {
    NormalizedBound(limbs);
    TwoPowers();
    assert limbs[8..] == [limbs[8]];
    NumOne(limbs[8]);
    assert limbs[8] < 0x10000;
    DivModUnique(limbs[8], 0x10000, 0, limbs[8]);
  }
}
