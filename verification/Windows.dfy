/** The word-level side of point_multiply: making the scalar odd and reading its windows. */
module Windows {
  import opened Arith
  import opened Bits
  import opened Digits
  import opened Residues
  import opened Bignum
  import opened Recoding

  /** The number that is recoded: odd, and congruent to k + 2^256 modulo the order. */
  function Recoded(k: int, n: int): int {
    k + TWO256 - (if k % 2 == 0 then n else 0)
  }

  lemma RecodedFacts(k: int, n: int)
    requires 0 <= k < n && Modulus(n) && n % 2 == 1
    ensures Recoded(k, n) % 2 == 1 && 0 < Recoded(k, n) < 2 * TWO256
    ensures Cong(Recoded(k, n) - TWO256, k, n)
  {
    CongIntro(k, k, 0, n);
    CongIntro(k - n, k, -1, n);
  }

  /** The columns added up by the first loop: limbs of 2^256 - 2^240 + ... spread over the words. */
  ghost function Columns(k: seq<int>, m: seq<int>): seq<int>
    requires |k| == |m| == 9
  {
    [0x4000_0000 + k[0] - m[0]] + seq(7, i requires 0 <= i < 7 => 0x3FFF_FFFF + k[i + 1] - m[i + 1])
      + [0xFFFF + k[8] - m[8]]
  }

  /** Adding 0x3fffffff to each low limb, 0xffff to the top one and 1 at the bottom adds 2^256. */
  lemma ColumnsValue(k: seq<int>, m: seq<int>)
    requires |k| == |m| == 9
    ensures |Columns(k, m)| == 9 && Num(Columns(k, m), LIMB) == Num(k, LIMB) - Num(m, LIMB) + TWO256
  {
    var ones := [0x4000_0000] + seq(7, i requires 0 <= i < 7 => 0x3FFF_FFFF) + [0xFFFF];
    OnesValue(ones);
    NumCombine(k, ones, 1, 1, LIMB);
    NumMinusScaled(Combine(k, ones, 1, 1), m, 1, LIMB);
    assert Columns(k, m) == MinusScaled(Combine(k, ones, 1, 1), m, 1);
  }

  lemma OnesValue(s: seq<int>)
    requires |s| == 9 && s[0] == 0x4000_0000 && s[8] == 0xFFFF
    requires forall i :: 1 <= i < 8 ==> s[i] == 0x3FFF_FFFF
    ensures Num(s, LIMB) == TWO256
  {
    OnesPrefix(s, 8);
    NumStep(s, 8, LIMB);
    LimbPowers();
    assert s[..9] == s;
  }

  lemma {:induction false} OnesPrefix(s: seq<int>, j: nat)
    requires 1 <= j <= 8 && |s| == 9 && s[0] == 0x4000_0000
    requires forall i :: 1 <= i < 8 ==> s[i] == 0x3FFF_FFFF
    ensures Num(s[..j], LIMB) == Pow(LIMB, j)
  {
    NumStep(s, j - 1, LIMB);
    if j > 1 {
      OnesPrefix(s, j - 1);
      var w := Pow(LIMB, j - 1);
      assert Pow(LIMB, j) == LIMB * w;
    } else {
      assert s[..0] == [];
      assert Pow(LIMB, 0) == 1 && Pow(LIMB, 1) == LIMB;
    }
  }

  /** The order where k is even, zero where k is odd. */
  ghost function Masked(order: seq<int>, even: bool): (m: seq<int>)
    ensures |m| == |order|
  {
    if even then order else seq(|order|, i => 0)
  }

  lemma {:induction false} ZerosValue(n: nat)
    ensures Num(seq(n, i => 0), LIMB) == 0
  {
    NumZero(seq(n, i => 0), LIMB);
  }

  lemma MaskedValue(order: seq<int>, even: bool)
    ensures Num(Masked(order, even), LIMB) == if even then Num(order, LIMB) else 0
  {
    ZerosValue(|order|);
  }

  /** The first loop of point_multiply: a := k + 2^256, minus the order if k is even. */
  method MakeOddScalar(k: array<uint32>, order: array<uint32>, a: array<uint32>)
    requires Normalized(k) && Normalized(order) && Modulus(Val(order)) && Val(order) % 2 == 1
    requires Val(k) < Val(order) && a.Length == 9 && a != k && a != order
    modifies a
    ensures Normalized(a) && Val(a) == Recoded(Val(k), Val(order))
  {
    hide Num, Pow;
    ghost var n := Val(order);
    RecodedFacts(Val(k), n);
    ParityOfLowLimb(k[..]);
    var even := k[0] % 2 == 0;
    ghost var m := Masked(order[..], even);
    ghost var d := Columns(k[..], m);
    MaskedValue(order[..], even);
    ColumnsValue(k[..], m);
    var tmp := LowColumns(k, order, a, even);
    FinishTop(a[..8], tmp, d);
    TopColumn(order, k);
    a[8] := tmp + 0xFFFF + k[8] - (if even then order[8] else 0);
    assert a[..] == a[..8] + [a[8]];
    assert d[8] == 0xFFFF + k[8] - m[8];
  }

  lemma TopColumn(order: array<uint32>, k: array<uint32>)
    requires Normalized(k) && Normalized(order) && Modulus(Val(order)) && Val(k) < Val(order)
    ensures order[8] <= 0xFFFF && k[8] <= 0xFFFF
  {
    DivMod(Val(order), TWO240);
    DivMod(Val(k), TWO240);
  }

  /** The eight masked limbs; tmp is the carry into the top limb. */
  method LowColumns(k: array<uint32>, order: array<uint32>, a: array<uint32>, even: bool) returns (tmp: uint32)
    requires Normalized(k) && Normalized(order) && a.Length == 9 && a != k && a != order
    modifies a
    ensures tmp <= 2 && forall i :: 0 <= i < 8 ==> a[i] < LIMB
    ensures Rippled(a[..], Columns(k[..], Masked(order[..], even)), 8, tmp, LIMB)
  {
    ghost var d := Columns(k[..], Masked(order[..], even));
    tmp := 1;
    RippleStart(a[..], d, LIMB);
    var j := 0;
    while j < 8
      invariant 0 <= j <= 8 && tmp <= 2 && (j == 0 ==> tmp == 1)
      invariant forall i :: 0 <= i < j ==> a[i] < LIMB
      invariant Rippled(a[..], d, j, if j == 0 then 0 else tmp, LIMB)
    {
      ghost var before, carry: int := a[..], if j == 0 then 0 else tmp;
      tmp := tmp + 0x3FFF_FFFF + k[j] - (if even then order[j] else 0);
      assert tmp == carry + d[j];
      a[j] := tmp % 0x4000_0000;
      tmp := tmp / 0x4000_0000;
      RippleLimb(before, a[..], d, j, carry, tmp);
      j := j + 1;
    }
  }

  /** The top word needs no mask: the whole number lies between 0 and 2^257. */
  lemma FinishTop(low: seq<int>, tmp: int, d: seq<int>)
    requires |low| == 8 && |d| == 9 && IsDigits(low, LIMB)
    requires Num(low, LIMB) + tmp * Pow(LIMB, 8) == Num(d[..8], LIMB)
    requires 0 < Num(d, LIMB) < 2 * TWO256
    ensures 0 <= tmp + d[8] < 0x20000
    ensures Num(low + [tmp + d[8]], LIMB) == Num(d, LIMB)
  {
    LimbPowers();
    NumStep(d, 8, LIMB);
    assert d[..9] == d;
    NumSnoc(low, tmp + d[8], LIMB);
    NumBound(low, LIMB);
    TopRange(Num(low, LIMB), tmp + d[8]);
  }

  lemma TopRange(v: int, t: int)
    requires 0 <= v < TWO240 && 0 < v + t * TWO240 < 2 * TWO256
    ensures 0 <= t < 0x20000
  {}

  // ---- windows ---------------------------------------------------------------------------

  /** The reader stands at bit 4*i, which is bit ashift of limb aptr; abits is that limb. */
  ghost predicate At(s: seq<int>, i: nat, aptr: nat, abits: uint32, ashift: nat) {
    |s| == 9 && aptr < 9 && ashift < 30 && 4 * i == 30 * aptr + ashift && abits == s[aptr]
  }

  /** abits >> ashift */
  function ShiftRight(x: uint32, k: nat): (r: uint32)
    ensures Pow(2, k) > 0 && r == x / Pow(2, k)
  {
    PowPos(2, k);
    MulMono(1, Pow(2, k), WORD);
    DivBounds(x, Pow(2, k), WORD);
    x / Pow(2, k)
  }

  /** abits << k in a 32-bit register */
  function ShiftLeft(x: uint32, k: nat): (r: uint32) {
    x * Pow(2, k) % WORD
  }

  /** The first window is the top five bits. */
  method FirstWindow(a: array<uint32>) returns (bits: uint32)
    requires Normalized(a) && Val(a) < 2 * TWO256
    ensures bits < 32 && bits == Window(Val(a), 63)
  {
    WindowInLimbs(a[..], 63, 8, 12);
    assert a[..][8..] == [a[8]];
    NumOne(a[8]);
    DivMod(Val(a), TWO240);
    assert Pow(2, 12) == 4096;
    bits := ShiftRight(a[8], 12);
  }

  /** Moves the reader four bits down and returns the window there. */
  method NextWindow(a: array<uint32>, ghost i: nat, aptr0: nat, abits0: uint32, ashift0: nat)
      returns (bits: uint32, aptr: nat, abits: uint32, ashift: nat)
    requires Normalized(a) && At(a[..], i + 1, aptr0, abits0, ashift0)
    ensures At(a[..], i, aptr, abits, ashift)
    ensures bits < 32 && bits == Window(Val(a), i)
  {
    aptr, abits := aptr0, abits0;
    if ashift0 < 4 {
      ashift := ashift0 + 26;
      bits := ShiftLeft(abits, 4 - ashift0);
      aptr := aptr - 1;
      abits := a[aptr];
      AcrossLimbs(a[..], i, aptr, 4 - ashift0);
      bits := Or(bits, ShiftRight(abits, ashift));
    } else {
      ashift := ashift0 - 4;
      InsideLimb(a[..], i, aptr, ashift);
      bits := ShiftRight(abits, ashift);
    }
    bits := bits % 32;
  }

  lemma InsideLimb(s: seq<int>, i: nat, j: nat, t: nat)
    requires |s| == 9 && IsDigits(s, LIMB) && j < 9 && 4 * i == 30 * j + t && t <= 25
    ensures Num(s, LIMB) >= 0 && Pow(2, t) > 0 && Window(Num(s, LIMB), i) == (s[j] / Pow(2, t)) % 32
  {
    WindowInLimbs(s, i, j, t);
    NumCons(s[j..], LIMB);
    assert s[j..][0] == s[j] && s[j..][1..] == s[j + 1..];
    NumBound(s[j + 1..], LIMB);
    WindowInside(s[j], Num(s[j + 1..], LIMB), t);
  }

  lemma AcrossLimbs(s: seq<int>, i: nat, j: nat, k: nat)
    requires |s| == 9 && IsDigits(s, LIMB) && j < 8 && 1 <= k <= 4 && 4 * i == 30 * j + 30 - k
    ensures Num(s, LIMB) >= 0
    ensures Or(ShiftLeft(s[j + 1], k), ShiftRight(s[j], 30 - k)) < WORD
    ensures Or(ShiftLeft(s[j + 1], k), ShiftRight(s[j], 30 - k)) % 32 == Window(Num(s, LIMB), i)
  {
    var x, y, h := s[j], s[j + 1], Num(s[j + 2..], LIMB);
    WindowInLimbs(s, i, j, 30 - k);
    NumCons(s[j..], LIMB);
    assert s[j..][0] == x && s[j..][1..] == s[j + 1..];
    NumCons(s[j + 1..], LIMB);
    assert s[j + 1..][0] == y && s[j + 1..][1..] == s[j + 2..];
    NumBound(s[j + 2..], LIMB);
    WindowAcross(x, y, h, k);
    JoinedBits(x, y, k);
  }

  lemma JoinedBits(x: uint32, y: uint32, k: nat)
    requires 1 <= k <= 4 && ShiftRight(x, 30 - k) < Pow(2, k)
    ensures var r := Or(ShiftLeft(y, k), ShiftRight(x, 30 - k));
      r < WORD && r % 32 == (y * Pow(2, k) + ShiftRight(x, 30 - k)) % 32
  {
    hide Or, Pow;
    var b, m := ShiftRight(x, 30 - k), Pow(2, k);
    TwoPowers();
    ShiftTruncated(y, k, 32);
    var h := y % Pow(2, 32 - k);
    OrIsSum(h, b, k);
    PowAdd(2, 32 - k, k);
    DivMod(y, Pow(2, 32 - k));
    MulMono(h, Pow(2, 32 - k) - 1, m);
    DistributeSub(Pow(2, 32 - k), 1, m);
    DivMod(y * m, WORD);
    AddThirtyTwos(h * m + b, 0x800_0000 * ((y * m) / WORD));
  }
}
