/** Recombination of secret shares: bitsliced arithmetic on 32 lanes, all overwritten in place. */
module Shamir {
  import opened Arith
  import opened Bits
  import opened Gf256
  import opened BitSlice
  import opened Lagrange

  // ---- slicing ---------------------------------------------------------------------------

  /** bit << k */
  function Placed(bit: uint32, k: nat): (r: uint32)
    requires bit <= 1 && k < 32
    ensures forall l :: Bit(r, l) == (bit == 1 && l == k)
  {
    TwoPowers();
    PowMono(2, k, 31);
    assert Pow(2, 32) == 2 * Pow(2, 31);
    forall l ensures Bit(bit * Pow(2, k), l) == (bit == 1 && l == k) {
      BitOfPower(k, l);
      BitZero(l);
    }
    bit * Pow(2, k)
  }

  /** Lanes below index hold bytes, lane index its first bits, the others 0. */
  ghost predicate Filled(r: array<uint32>, x: seq<uint8>, index: nat, bit: nat)
    requires r.Length == 8
    reads r
  {
    forall k, l :: 0 <= k < 8 && 0 <= l < 32 ==> FilledBit(r[k], x, index, bit, k, l)
  }

  ghost predicate FilledBit(w: uint32, x: seq<uint8>, index: nat, bit: nat, k: nat, l: nat) {
    Bit(w, l) == (l < |x| && (l < index || (l == index && k < bit)) && Bit(x[l], k))
  }

  method BitsliceBytes(r: array<uint32>, x: seq<uint8>, len: nat)
    requires r.Length == 8 && len <= |x| && len <= 32
    modifies r
    ensures forall l :: 0 <= l < 32 ==> Lane(r[..], l) == if l < len then ElemOf(x[l]) else ZERO
  {
    ClearWords(r);
    assert forall k, l :: 0 <= k < 8 && 0 <= l < 32 ==> FilledBit(r[k], x, 0, 0, k, l);
    var index := 0;
    while index < len
      invariant 0 <= index <= len && Filled(r, x, index, 0)
    {
      PlaceByte(r, x, index);
      index := index + 1;
    }
    forall l | 0 <= l < 32 ensures Lane(r[..], l) == if l < len then ElemOf(x[l]) else ZERO {
      assert forall k :: 0 <= k < 8 ==> FilledBit(r[k], x, len, 0, k, l);
    }
  }

  method ClearWords(r: array<uint32>)
    requires r.Length == 8
    modifies r
    ensures forall k, l :: 0 <= k < 8 && 0 <= l < 32 ==> !Bit(r[k], l)
  {
    var k := 0;
    while k < 8
      invariant 0 <= k <= 8 && forall i :: 0 <= i < k ==> r[i] == 0
    {
      r[k] := 0;
      k := k + 1;
    }
    forall l ensures !Bit(0, l) { BitZero(l); }
  }

  /** The inner loop: one byte into its lane. */
  method PlaceByte(r: array<uint32>, x: seq<uint8>, index: nat)
    requires r.Length == 8 && index < |x| && index < 32 && Filled(r, x, index, 0)
    modifies r
    ensures Filled(r, x, index + 1, 0)
  {
    var cur: uint32 := x[index];
    var bit := 0;
    while bit < 8
      invariant 0 <= bit <= 8 && Filled(r, x, index, bit)
    {
      ghost var before := r[..];
      r[bit] := OrWord(r[bit], Placed(BottomBit(cur, bit), index));
      var next := bit + 1;
      forall k, l | 0 <= k < 8 && 0 <= l < 32 ensures FilledBit(r[k], x, index, next, k, l) {
        assert FilledBit(before[k], x, index, bit, k, l);
      }
      bit := next;
    }
    ghost var next := index + 1;
    forall k, l | 0 <= k < 8 && 0 <= l < 32 ensures FilledBit(r[k], x, next, 0, k, l) {
      assert FilledBit(r[k], x, index, 8, k, l);
    }
  }

  /** The inverse: lane l becomes byte l. */
  method Unbitslice(r: array<uint8>, x: array<uint32>, len: nat)
    requires x.Length == 8 && len <= r.Length && len <= 32
    modifies r
    ensures forall l :: 0 <= l < len ==> ElemOf(r[l]) == Lane(x[..], l)
    ensures forall l :: len <= l < r.Length ==> r[l] == old(r[l])
  {
    ClearBytes(r, len);
    ghost var words := x[..];
    var bit := 0;
    while bit < 8
      invariant 0 <= bit <= 8 && x[..] == words
      invariant forall l, k :: 0 <= l < len && 0 <= k < 8 ==> Bit(r[l], k) == (k < bit && Bit(words[k], l))
      invariant forall l :: len <= l < r.Length ==> r[l] == old(r[l])
    {
      assert x[bit] == words[bit];
      ghost var before := r[..];
      assert forall l, k :: 0 <= l < len && 0 <= k < 8 ==> Bit(before[l], k) == (k < bit && Bit(words[k], l));
      CollectBit(r, x[bit], bit, len);
      assert forall l, k :: 0 <= l < len && 0 <= k < 8 ==>
        Bit(r[l], k) == (Bit(before[l], k) || (k == bit && Bit(words[bit], l)));
      bit := bit + 1;
    }
  }

  method ClearBytes(r: array<uint8>, len: nat)
    requires len <= r.Length
    modifies r
    ensures forall l, k :: 0 <= l < len && 0 <= k < 8 ==> !Bit(r[l], k)
    ensures forall l :: len <= l < r.Length ==> r[l] == old(r[l])
  {
    var i := 0;
    while i < len
      invariant 0 <= i <= len && forall l :: 0 <= l < i ==> r[l] == 0
      invariant forall l :: len <= l < r.Length ==> r[l] == old(r[l])
    {
      r[i] := 0;
      i := i + 1;
    }
    forall k ensures !Bit(0, k) { BitZero(k); }
  }

  function OrByte(a: uint8, b: uint32): (r: uint8)
    requires b < 256
    ensures forall l :: Bit(r, l) == (Bit(a, l) || Bit(b, l))
  {
    TwoPowers();
    OrBound(a, b, 8);
    OrWord(a, b)
  }

  /** One word's bits into bit position `bit` of the bytes. */
  method CollectBit(r: array<uint8>, cur: uint32, bit: nat, len: nat)
    requires len <= r.Length && len <= 32 && bit < 8
    modifies r
    ensures forall l, k :: 0 <= l < len && 0 <= k < 8 ==>
      Bit(r[l], k) == (old(Bit(r[l], k)) || (k == bit && Bit(cur, l)))
    ensures forall l :: len <= l < r.Length ==> r[l] == old(r[l])
  {
    var i := 0;
    while i < len
      invariant 0 <= i <= len
      invariant forall l, k :: 0 <= l < i && 0 <= k < 8 ==>
        Bit(r[l], k) == (old(Bit(r[l], k)) || (k == bit && Bit(cur, l)))
      invariant forall l :: i <= l < r.Length ==> r[l] == old(r[l])
    {
      SmallPlaced(BottomBit(cur, i), bit);
      r[i] := OrByte(r[i], Placed(BottomBit(cur, i), bit));
      i := i + 1;
    }
  }

  lemma SmallPlaced(b: uint32, k: nat)
    requires b <= 1 && k < 8
    ensures Placed(b, k) < 256
  {
    PowMono(2, k, 7);
    assert Pow(2, 7) == 128;
    PowPos(2, k);
  }

  /** The same byte in all lanes. */
  method BitsliceSetAll(r: array<uint32>, x: uint8)
    requires r.Length == 8
    modifies r
    ensures forall l :: 0 <= l < 32 ==> Lane(r[..], l) == ElemOf(x)
  {
    var k := 0;
    while k < 8
      invariant 0 <= k <= 8
      invariant forall i, l :: 0 <= i < k && 0 <= l < 32 ==> Bit(r[i], l) == Bit(x, i)
    {
      r[k] := Mask(BottomBit(x, k));
      k := k + 1;
    }
  }

  /** -b for a single bit b: 32 copies of b. */
  function Mask(b: uint32): (r: uint32)
    requires b <= 1
    ensures forall l :: 0 <= l < 32 ==> Bit(r, l) == (b == 1)
  {
    TwoPowers();
    forall l: nat ensures l < 32 ==> Bit(0xffff_ffff, l) && !Bit(0, l) {
      BitZero(l);
      if l < 32 { BitOfOnes(32, l); }
    }
    (0x1_0000_0000 - b) % 0x1_0000_0000
  }

  // ---- field operations on all lanes -----------------------------------------------------

  /** gf256_add */
  method GfAdd(r: array<uint32>, x: array<uint32>)
    requires r.Length == x.Length == 8
    modifies r
    ensures forall l :: 0 <= l < 32 ==> Lane(r[..], l) == Plus(old(Lane(r[..], l)), old(Lane(x[..], l)))
  {
    var k := 0;
    while k < 8
      invariant 0 <= k <= 8
      invariant forall i :: 0 <= i < k ==> r[i] == XorWord(old(r[i]), old(x[i]))
      invariant forall i :: k <= i < 8 ==> r[i] == old(r[i])
      invariant forall i :: k <= i < 8 ==> x[i] == old(x[i])
    {
      r[k] := XorWord(r[k], x[k]);
      k := k + 1;
    }
  }

  /** Where coefficient i of a2 is kept after k rounds: the words are not moved, their roles rotate. */
  function Turn(i: nat, k: nat): (j: nat)
    requires i < 8 && k <= 8
    ensures j < 8
  {
    if i >= k then i - k else i + 8 - k
  }

  function Rotated(s: seq<uint32>, k: nat): (r: seq<uint32>)
    requires |s| == 8 && k <= 8
    ensures |r| == 8 && forall i :: 0 <= i < 8 ==> r[i] == s[Turn(i, k)]
  {
    seq(8, i requires 0 <= i < 8 => s[Turn(i, k)])
  }

  /** In every lane: what is accumulated, plus the product still to come, is the whole product. */
  ghost predicate Accumulated(r: seq<uint32>, a2: seq<uint32>, a: seq<uint32>, b: seq<uint32>, k: nat)
    requires |r| == |a2| == |a| == |b| == 8 && k <= 8
  {
    forall l :: 0 <= l < 32 ==> AccumulatedLane(Lane(r, l), Lane(Rotated(a2, k), l), Lane(a, l), Lane(b, l), k)
  }

  function Halved(b: Elem, k: nat): Elem
    decreases k
  {
    if k == 0 then b else Halved(Half(b), k - 1)
  }

  ghost predicate AccumulatedLane(r: Elem, a2: Elem, a: Elem, b: Elem, k: nat) {
    Plus(r, Mul(a2, Halved(b, k))) == Mul(a, b)
  }

  lemma {:induction false} HalvedNext(b: Elem, k: nat)
    ensures Halved(b, k + 1) == Half(Halved(b, k))
    decreases k
  {
    if k > 0 { HalvedNext(Half(b), k - 1); }
  }

  lemma {:induction false} HalvedOdd(b: Elem, k: nat)
    requires k < 8
    ensures Odd(Halved(b, k)) == Coefficients(b)[k]
    decreases k
  {
    if k > 0 {
      var h := Half(b);
      HalvedOdd(h, k - 1);
      assert Coefficients(h)[k - 1] == Coefficients(b)[k];
    }
  }

  lemma HalvedOut(b: Elem)
    ensures Halved(b, 8) == ZERO
  {
    var b2 := Half(Half(b));
    var b4 := Half(Half(b2));
    var b6 := Half(Half(b4));
    HalvedTwice(b, 8);
    HalvedTwice(b2, 6);
    HalvedTwice(b4, 4);
    HalvedTwice(b6, 2);
    assert Half(Half(b6)) == ZERO;
  }

  lemma HalvedTwice(b: Elem, k: nat)
    requires k >= 2
    ensures Halved(b, k) == Halved(Half(Half(b)), k - 2)
  {
    assert Halved(b, k) == Halved(Half(b), k - 1);
  }

  /** One round in one lane. */
  lemma LaneRound(r: Elem, a2: Elem, a: Elem, b: Elem, k: nat, bit: bool)
    requires AccumulatedLane(r, a2, a, b, k) && k < 8
    requires bit == Coefficients(b)[k]
    ensures AccumulatedLane(Plus(r, Select(bit, a2)), Xtime(a2), a, b, k + 1)
  {
    var h := Halved(b, k);
    HalvedOdd(b, k);
    HalvedNext(b, k);
    MulStep(a2, h);
    PlusAssociates(r, Select(bit, a2), Mul(Xtime(a2), Half(h)));
  }

  /** w & bk, added to r except in the first round. */
  function MaskedSum(first: bool, r: uint32, w: uint32, bk: uint32): uint32 {
    if first then AndWord(w, bk) else XorWord(r, AndWord(w, bk))
  }

  /** r[i] ^= a2[...] & b[k], or an assignment in round 0. */
  method AddRound(r: array<uint32>, a2: array<uint32>, bk: uint32, k: nat)
    requires r.Length == a2.Length == 8 && r != a2 && k < 8
    modifies r
    ensures forall l :: 0 <= l < 32 ==>
      (Lane(r[..], l) == Plus(if k == 0 then ZERO else old(Lane(r[..], l)),
                              Select(Bit(bk, l), Lane(Rotated(a2[..], k), l))))
  {
    ghost var turned := Rotated(a2[..], k);
    var i := 0;
    while i < 8
      invariant 0 <= i <= 8
      invariant forall m :: 0 <= m < i ==> r[m] == MaskedSum(k == 0, old(r[m]), turned[m], bk)
      invariant forall m :: i <= m < 8 ==> r[m] == old(r[m])
    {
      assert turned[i] == a2[Turn(i, k)];
      r[i] := MaskedSum(k == 0, r[i], a2[Turn(i, k)], bk);
      i := i + 1;
    }
  }

  /** The reduction after round k: the top word becomes the new constant word and is added to three others. */
  method ReduceRound(a2: array<uint32>, k: nat)
    requires a2.Length == 8 && k < 8
    modifies a2
    ensures forall l :: 0 <= l < 32 ==>
      Lane(Rotated(a2[..], k + 1), l) == Xtime(old(Lane(Rotated(a2[..], k), l)))
  {
    ghost var before := a2[..];
    var top := a2[7 - k];
    a2[Turn(0, k)] := XorWord(a2[Turn(0, k)], top);
    a2[Turn(2, k)] := XorWord(a2[Turn(2, k)], top);
    a2[Turn(3, k)] := XorWord(a2[Turn(3, k)], top);
    forall l | 0 <= l < 32 ensures Lane(Rotated(a2[..], k + 1), l) == Xtime(Lane(Rotated(before, k), l)) {
      TurnedTop(before, a2[..], k, l);
    }
  }

  lemma TurnedTop(s: seq<uint32>, t: seq<uint32>, k: nat, l: nat)
    requires |s| == |t| == 8 && k < 8
    requires t == s[Turn(0, k) := XorWord(s[Turn(0, k)], s[7 - k])]
                   [Turn(2, k) := XorWord(s[Turn(2, k)], s[7 - k])][Turn(3, k) := XorWord(s[Turn(3, k)], s[7 - k])]
    ensures Lane(Rotated(t, k + 1), l) == Xtime(Lane(Rotated(s, k), l))
  {
    var u, v := Rotated(s, k), Rotated(t, k + 1);
    assert u[7] == s[7 - k] by { assert Turn(7, k) == 7 - k; }
    assert v[0] == u[7] && v[1] == XorWord(u[0], u[7]) && v[2] == u[1] && v[3] == XorWord(u[2], u[7]);
    assert v[4] == XorWord(u[3], u[7]) && v[5] == u[4] && v[6] == u[5] && v[7] == u[6];
  }

  /** gf256_mul: r may be a, but not b. */
  method GfMul(r: array<uint32>, a: array<uint32>, b: array<uint32>)
    requires r.Length == a.Length == b.Length == 8 && r != b
    modifies r
    ensures forall l :: 0 <= l < 32 ==> Lane(r[..], l) == Mul(old(Lane(a[..], l)), old(Lane(b[..], l)))
  {
    var a2 := new uint32[8];
    CopyWords(a2, a);
    ghost var a0, b0 := a[..], b[..];
    ghost var acc := seq(8, i => 0);
    StartRounds(acc, a2[..], a0, b0);
    var k := 0;
    while k < 8
      invariant 0 <= k <= 8 && b[..] == b0
      invariant |acc| == 8 && (k > 0 ==> acc == r[..]) && (k == 0 ==> acc == seq(8, i => 0))
      invariant Accumulated(acc, a2[..], a0, b0, k)
    {
      ghost var a2k := a2[..];
      AddRound(r, a2, b[k], k);
      ReduceRound(a2, k);
      NextRound(acc, a2k, r[..], a2[..], a0, b0, k);
      acc := r[..];
      k := k + 1;
    }
    FinishRounds(acc, a2[..], a0, b0);
  }

  method CopyWords(r: array<uint32>, x: array<uint32>)
    requires r.Length == x.Length == 8
    modifies r
    ensures r[..] == old(x[..])
  {
    var i := 0;
    while i < 8
      invariant 0 <= i <= 8 && forall m :: 0 <= m < i ==> r[m] == old(x[m])
      invariant r != x ==> x[..] == old(x[..])
      invariant r == x ==> forall m :: i <= m < 8 ==> r[m] == old(x[m])
    {
      r[i] := x[i];
      i := i + 1;
    }
  }

  lemma StartRounds(zero: seq<uint32>, a2: seq<uint32>, a: seq<uint32>, b: seq<uint32>)
    requires |zero| == |a2| == |a| == |b| == 8 && a2 == a && forall i :: 0 <= i < 8 ==> zero[i] == 0
    ensures Accumulated(zero, a2, a, b, 0)
  {
    assert Rotated(a2, 0) == a2;
    forall l | 0 <= l < 32 ensures AccumulatedLane(Lane(zero, l), Lane(Rotated(a2, 0), l), Lane(a, l), Lane(b, l), 0) {
      ZeroLane(zero, l);
      PlusZero(Mul(Lane(a, l), Lane(b, l)));
    }
  }

  lemma NextRound(acc: seq<uint32>, a2: seq<uint32>, r: seq<uint32>, a2': seq<uint32>, a: seq<uint32>, b: seq<uint32>,
                  k: nat)
    requires |acc| == |a2| == |r| == |a2'| == |a| == |b| == 8 && k < 8 && Accumulated(acc, a2, a, b, k)
    requires k == 0 ==> acc == seq(8, i => 0)
    requires forall l :: 0 <= l < 32 ==>
      Lane(r, l) == Plus(if k == 0 then ZERO else Lane(acc, l), Select(Bit(b[k], l), Lane(Rotated(a2, k), l)))
    requires forall l :: 0 <= l < 32 ==> Lane(Rotated(a2', k + 1), l) == Xtime(Lane(Rotated(a2, k), l))
    ensures Accumulated(r, a2', a, b, k + 1)
  {
    forall l | 0 <= l < 32
      ensures AccumulatedLane(Lane(r, l), Lane(Rotated(a2', k + 1), l), Lane(a, l), Lane(b, l), k + 1)
    {
      var s := Lane(acc, l);
      if k == 0 { ZeroLane(acc, l); }
      LaneBit(b, k, l);
      assert AccumulatedLane(s, Lane(Rotated(a2, k), l), Lane(a, l), Lane(b, l), k);
      LaneRound(s, Lane(Rotated(a2, k), l), Lane(a, l), Lane(b, l), k, Bit(b[k], l));
    }
  }

  lemma ZeroLane(zero: seq<uint32>, l: nat)
    requires |zero| == 8 && forall i :: 0 <= i < 8 ==> zero[i] == 0
    ensures Lane(zero, l) == ZERO
  {
    BitZero(l);
  }

  function Coefficients(e: Elem): (s: seq<bool>)
    ensures |s| == 8
  {
    [e.c0, e.c1, e.c2, e.c3, e.c4, e.c5, e.c6, e.c7]
  }

  lemma LaneBit(b: seq<uint32>, k: nat, l: nat)
    requires |b| == 8 && k < 8
    ensures Bit(b[k], l) == Coefficients(Lane(b, l))[k]
  {}

  lemma FinishRounds(r: seq<uint32>, a2: seq<uint32>, a: seq<uint32>, b: seq<uint32>)
    requires |r| == |a2| == |a| == |b| == 8 && Accumulated(r, a2, a, b, 8)
    ensures forall l :: 0 <= l < 32 ==> Lane(r, l) == Mul(Lane(a, l), Lane(b, l))
  {
    forall l | 0 <= l < 32 ensures Lane(r, l) == Mul(Lane(a, l), Lane(b, l)) {
      assert AccumulatedLane(Lane(r, l), Lane(Rotated(a2, 8), l), Lane(a, l), Lane(b, l), 8);
      HalvedOut(Lane(b, l));
      ZeroRight(Lane(Rotated(a2, 8), l));
      PlusZero(Lane(r, l));
    }
  }

  /** The words gf256_square leaves behind. */
  function SquareWords(x: seq<uint32>): (r: seq<uint32>)
    requires |x| == 8
    ensures |r| == 8
  {
    var r10 := XorWord(x[5], x[7]);
    var r8 := XorWord(x[4], x[6]);
    [XorWord(x[0], r8), XorWord(x[7], r8), XorWord(XorWord(x[1], r10), x[7]), XorWord(r10, r8),
     XorWord(XorWord(XorWord(x[2], x[6]), x[7]), r8), XorWord(XorWord(x[6], r10), x[7]),
     XorWord(XorWord(x[3], x[7]), r10), XorWord(x[7], x[6])]
  }

  lemma SquareLane(x: seq<uint32>, l: nat)
    requires |x| == 8
    ensures Lane(SquareWords(x), l) == Square(Lane(x, l))
  {}

  /** gf256_square: r may be x. */
  method GfSquare(r: array<uint32>, x: array<uint32>)
    requires r.Length == x.Length == 8
    modifies r
    ensures r[..] == SquareWords(old(x[..]))
  {
    hide XorWord;
    ghost var x0 := x[..];
    var r14, r12, r10, r8 := x[7], x[6], x[5], x[4];
    r[6] := x[3];
    r[4] := x[2];
    r[2] := x[1];
    r[0] := x[0];
    r10 := XorWord(r10, r14);
    r8 := XorWord(r8, r12);
    ReduceTop(r, r14, r12);
    ReduceMiddle(r, r14, r10);
    ReduceLow(r, r8);
    assert r[..] == SquareWords(x0);
  }

  /** The reductions of degrees 14 and 12. */
  method ReduceTop(r: array<uint32>, r14: uint32, r12: uint32)
    requires r.Length == 8
    modifies r
    ensures r[..] == old(r[..])[7 := XorWord(r14, r12)][6 := XorWord(old(r[6]), r14)]
      [4 := XorWord(old(r[4]), r12)][5 := r12]
  {
    r[7] := r14;
    r[6] := XorWord(r[6], r14);
    r[4] := XorWord(r[4], r12);
    r[5] := r12;
    r[7] := XorWord(r[7], r12);
  }

  /** The reductions of degrees 10 and 9; the coefficient of degree 9 always equals r14. */
  method ReduceMiddle(r: array<uint32>, r14: uint32, r10: uint32)
    requires r.Length == 8
    modifies r
    ensures r[..] == old(r[..])[2 := XorWord(XorWord(old(r[2]), r10), r14)][3 := r10]
      [5 := XorWord(XorWord(old(r[5]), r10), r14)][6 := XorWord(old(r[6]), r10)][1 := r14][4 := XorWord(old(r[4]), r14)]
  {
    r[2] := XorWord(r[2], r10);
    r[3] := r10;
    r[5] := XorWord(r[5], r10);
    r[6] := XorWord(r[6], r10);
    r[1] := r14;
    r[2] := XorWord(r[2], r14);
    r[4] := XorWord(r[4], r14);
    r[5] := XorWord(r[5], r14);
  }

  /** The reduction of degree 8. */
  method ReduceLow(r: array<uint32>, r8: uint32)
    requires r.Length == 8
    modifies r
    ensures r[..] == old(r[..])[0 := XorWord(old(r[0]), r8)][1 := XorWord(old(r[1]), r8)]
      [3 := XorWord(old(r[3]), r8)][4 := XorWord(old(r[4]), r8)]
  {
    r[0] := XorWord(r[0], r8);
    r[1] := XorWord(r[1], r8);
    r[3] := XorWord(r[3], r8);
    r[4] := XorWord(r[4], r8);
  }

  /** Squaring in every lane. */
  method GfSquareLanes(r: array<uint32>, x: array<uint32>)
    requires r.Length == x.Length == 8
    modifies r
    ensures forall l :: 0 <= l < 32 ==> Lane(r[..], l) == Square(old(Lane(x[..], l)))
  {
    ghost var x0 := x[..];
    GfSquare(r, x);
    forall l | 0 <= l < 32 ensures Lane(SquareWords(x0), l) == Square(Lane(x0, l)) {
      SquareLane(x0, l);
    }
  }

  /** gf256_inv: r and x are different arrays. */
  method GfInv(r: array<uint32>, x: array<uint32>)
    requires r.Length == x.Length == 8 && r != x
    modifies r
    ensures forall l :: 0 <= l < 32 ==> Lane(r[..], l) == Inverse(Lane(x[..], l))
  {
    hide Lane, Square, Mul;
    var y := new uint32[8];
    var z := new uint32[8];
    GfSquareLanes(y, x);
    GfSquareLanes(y, y);
    GfSquareLanes(r, y);
    GfMul(z, r, x);
    GfSquareLanes(r, r);
    GfMul(r, r, z);
    GfSquareLanes(r, r);
    GfSquareLanes(z, r);
    GfSquareLanes(z, z);
    GfMul(r, r, z);
    GfMul(r, r, y);
  }
}
