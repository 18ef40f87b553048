/** The compression function: 64 rounds over a message schedule that is kept in sixteen words. The standard's six
    logical functions and its constants are parameters (FIPS 180-4, section 6.2.2). */
module Sha256Rounds {
  import opened Arith
  import opened Sha256

  datatype Logic = Logic(
    constants: nat -> uint32,
    bigSigma0: uint32 -> uint32, bigSigma1: uint32 -> uint32, sigma0: uint32 -> uint32, sigma1: uint32 -> uint32,
    ch: (uint32, uint32, uint32) -> uint32, maj: (uint32, uint32, uint32) -> uint32)

  /** The eight working variables. */
  datatype Registers =
    Registers(a: uint32, b: uint32, c: uint32, d: uint32, e: uint32, f: uint32, g: uint32, h: uint32)

  function Wrap(x: nat): uint32 {
    x % 0x1_0000_0000
  }

  // ---- the standard --------------------------------------------------------------------------

  /** Word t of the schedule of all 64 words. */
  function Schedule(l: Logic, data: seq<uint32>, t: nat): uint32
    requires |data| == 16
  {
    if t < 16 then data[t]
    else
      Wrap(l.sigma1(Schedule(l, data, t - 2)) + Schedule(l, data, t - 7)
           + l.sigma0(Schedule(l, data, t - 15)) + Schedule(l, data, t - 16))
  }

  function Round(l: Logic, r: Registers, t: nat, w: uint32): Registers {
    var t1 := r.h + l.bigSigma1(r.e) + l.ch(r.e, r.f, r.g) + l.constants(t) + w;
    var t2 := l.bigSigma0(r.a) + l.maj(r.a, r.b, r.c);
    Registers(Wrap(t1 + t2), r.a, r.b, r.c, Wrap(r.d + t1), r.e, r.f, r.g)
  }

  function Rounds(l: Logic, data: seq<uint32>, r: Registers, n: nat): Registers
    requires |data| == 16
  {
    if n == 0 then r else Round(l, Rounds(l, data, r, n - 1), n - 1, Schedule(l, data, n - 1))
  }

  function Initial(s: seq<uint32>): Registers
    requires |s| == 8
  {
    Registers(s[0], s[1], s[2], s[3], s[4], s[5], s[6], s[7])
  }

  function Compress(l: Logic, state: seq<uint32>, data: seq<uint32>): (r: seq<uint32>)
    requires |state| == 8 && |data| == 16
    ensures |r| == 8
  {
    var v := Rounds(l, data, Initial(state), 64);
    [Wrap(state[0] + v.a), Wrap(state[1] + v.b), Wrap(state[2] + v.c), Wrap(state[3] + v.d),
     Wrap(state[4] + v.e), Wrap(state[5] + v.f), Wrap(state[6] + v.g), Wrap(state[7] + v.h)]
  }

  /** The rounds as two intertwined recurrences: b, c and d are the last values of a, and f, g and h those of e. */
  lemma TwoStreams(l: Logic, data: seq<uint32>, r: Registers, n: nat)
    requires |data| == 16 && n >= 3
    ensures var r0, r1, r2, r3, next := Rounds(l, data, r, n), Rounds(l, data, r, n - 1), Rounds(l, data, r, n - 2),
        Rounds(l, data, r, n - 3), Rounds(l, data, r, n + 1);
      && Cong(next.e, r3.a + r3.e + l.bigSigma1(r0.e) + l.ch(r0.e, r1.e, r2.e) + l.constants(n)
                      + Schedule(l, data, n), WORD)
      && Cong(next.a + r3.a, next.e + l.bigSigma0(r0.a) + l.maj(r0.a, r1.a, r2.a), WORD)
  {
    hide Schedule, Wrap;
    var r0 := Rounds(l, data, r, n);
    var w := Schedule(l, data, n);
    Shifted(l, data, r, n);
    Shifted(l, data, r, n - 1);
    Shifted(l, data, r, n - 2);
    RoundSums(l, r0, n, w);
  }

  /** One round moves the values along. */
  lemma Shifted(l: Logic, data: seq<uint32>, r: Registers, n: nat)
    requires |data| == 16 && n >= 1
    ensures var now, before := Rounds(l, data, r, n), Rounds(l, data, r, n - 1);
      now.b == before.a && now.c == before.b && now.d == before.c && now.f == before.e && now.g == before.f
      && now.h == before.g
  {
    hide Schedule, Wrap;
  }

  lemma RoundSums(l: Logic, r: Registers, t: nat, w: uint32)
    ensures var next := Round(l, r, t, w);
      && Cong(next.e, r.d + r.h + l.bigSigma1(r.e) + l.ch(r.e, r.f, r.g) + l.constants(t) + w, WORD)
      && Cong(next.a + r.d, next.e + l.bigSigma0(r.a) + l.maj(r.a, r.b, r.c), WORD)
  {
    var t1: nat := r.h + l.bigSigma1(r.e) + l.ch(r.e, r.f, r.g) + l.constants(t) + w;
    var t2: nat := l.bigSigma0(r.a) + l.maj(r.a, r.b, r.c);
    var d: nat := r.d;
    CongMod(d + t1, WORD);
    CongMod(t1 + t2, WORD);
    CongIntro(d, d, 0, WORD);
    CongIntro(t2, t2, 0, WORD);
    CongAdd((t1 + t2) % WORD, t1 + t2, d, d, WORD);
    CongAdd((d + t1) % WORD, d + t1, t2, t2, WORD);
  }

  // ---- the code --------------------------------------------------------------------------------

  /** Every addition of the code wraps; the sum is that of the standard, which wraps once. */
  lemma WrapSum(x: nat, y: nat)
    ensures Wrap(Wrap(x) + y) == Wrap(x + y) && Wrap(x + Wrap(y)) == Wrap(x + y)
  {
    CongMod(x, WORD);
    CongMod(y, WORD);
    CongIntro(x, x, 0, WORD);
    CongIntro(y, y, 0, WORD);
    CongAdd(x % WORD, x, y, y, WORD);
    CongAdd(x, x, y % WORD, y, WORD);
    CongIsMod(x % WORD + y, x + y, WORD);
    CongIsMod(x + y % WORD, x + y, WORD);
  }

  /** One round on the working variables. */
  method NextRegisters(l: Logic, r: Registers, j: nat, w: uint32) returns (next: Registers)
    ensures next == Round(l, r, j, w)
  {
    hide Wrap;
    var s1: int := Wrap(r.h + l.bigSigma1(r.e));
    var s2: int := Wrap(s1 + l.ch(r.e, r.f, r.g));
    var s3: int := Wrap(s2 + l.constants(j));
    var t1: int := Wrap(s3 + w);
    var t2: int := Wrap(l.bigSigma0(r.a) + l.maj(r.a, r.b, r.c));
    FiveTerms(r.h, l.bigSigma1(r.e), l.ch(r.e, r.f, r.g), l.constants(j), w);
    var x: nat := r.h + l.bigSigma1(r.e) + l.ch(r.e, r.f, r.g) + l.constants(j) + w;
    var y: nat := l.bigSigma0(r.a) + l.maj(r.a, r.b, r.c);
    WrapSum(x, y);
    WrapSum(Wrap(x), y);
    WrapSum(r.d, x);
    next := Registers(Wrap(t1 + t2), r.a, r.b, r.c, Wrap(r.d + t1), r.e, r.f, r.g);
  }

  lemma FiveTerms(a: nat, b: nat, c: nat, d: nat, e: nat)
    ensures Wrap(Wrap(Wrap(Wrap(a + b) + c) + d) + e) == Wrap(a + b + c + d + e)
  {
    hide Wrap;
    WrapSum(a + b, c);
    WrapSum(a + b + c, d);
    WrapSum(a + b + c + d, e);
  }

  /** The last sixteen words of the schedule, each at its index modulo sixteen. */
  ghost predicate Window(l: Logic, data: seq<uint32>, w: seq<uint32>, j: nat)
    requires |data| == 16
  {
    |w| == 16 && forall t: nat :: t < j <= t + 16 ==> w[t % 16] == Schedule(l, data, t)
  }

  /** The next word of the schedule from the sixteen words. */
  method Expand(l: Logic, w: array<uint32>, j: nat, ghost data: seq<uint32>)
    requires |data| == 16 && w.Length == 16 && j >= 16 && Window(l, data, w[..], j)
    modifies w
    ensures Window(l, data, w[..], j + 1) && w[j % 16] == Schedule(l, data, j)
  {
    hide Wrap, Schedule;
    ghost var before := w[..];
    InWindow(l, data, before, j);
    var s0: int := l.sigma0(w[(j + 1) % 16]);
    var s1: int := l.sigma1(w[(j + 14) % 16]);
    var sum: int := Wrap(s1 + w[(j + 9) % 16]);
    sum := Wrap(sum + s0);
    FourTerms(l, data, j);
    w[j % 16] := Wrap(sum + w[j % 16]);
    WindowMoves(l, data, before, w[..], j);
  }

  lemma InWindow(l: Logic, data: seq<uint32>, w: seq<uint32>, j: nat)
    requires |data| == 16 && j >= 16 && Window(l, data, w, j)
    ensures w[(j + 1) % 16] == Schedule(l, data, j - 15) && w[(j + 14) % 16] == Schedule(l, data, j - 2)
    ensures w[(j + 9) % 16] == Schedule(l, data, j - 7) && w[j % 16] == Schedule(l, data, j - 16)
  {
    hide Schedule;
    assert (j - 15) % 16 == (j + 1) % 16 && (j - 2) % 16 == (j + 14) % 16;
    assert (j - 7) % 16 == (j + 9) % 16 && (j - 16) % 16 == j % 16;
  }

  lemma FourTerms(l: Logic, data: seq<uint32>, j: nat)
    requires |data| == 16 && j >= 16
    ensures var s1: int, w7: int := l.sigma1(Schedule(l, data, j - 2)), Schedule(l, data, j - 7);
      var s0: int, w16: int := l.sigma0(Schedule(l, data, j - 15)), Schedule(l, data, j - 16);
      Schedule(l, data, j) == Wrap(Wrap(Wrap(s1 + w7) + s0) + w16)
  {
    hide Wrap;
    var s1: int, w7: int := l.sigma1(Schedule(l, data, j - 2)), Schedule(l, data, j - 7);
    var s0: int, w16: int := l.sigma0(Schedule(l, data, j - 15)), Schedule(l, data, j - 16);
    WrapSum(s1 + w7, s0);
    WrapSum(s1 + w7 + s0, w16);
  }

  lemma WindowMoves(l: Logic, data: seq<uint32>, before: seq<uint32>, after: seq<uint32>, j: nat)
    requires |data| == 16 && j >= 16 && Window(l, data, before, j) && |after| == 16
    requires after == before[j % 16 := Schedule(l, data, j)]
    ensures Window(l, data, after, j + 1)
  {
    hide Schedule;
    forall t: nat | t < j + 1 <= t + 16 ensures after[t % 16] == Schedule(l, data, t) {
      if t < j { OtherPlace(t, j); }
    }
  }

  lemma OtherPlace(t: nat, j: nat)
    requires t < j < t + 16
    ensures t % 16 != j % 16
  {}

  /** The first loop, with the words of the block. */
  method FirstRounds(l: Logic, data: seq<uint32>, r0: Registers, w: array<uint32>) returns (r: Registers)
    requires |data| == 16 && w.Length == 16
    modifies w
    ensures w[..] == data && r == Rounds(l, data, r0, 16)
  {
    hide Wrap, Schedule, Round;
    r := r0;
    var j := 0;
    while j < 16
      invariant 0 <= j <= 16 && w[..j] == data[..j] && r == Rounds(l, data, r0, j)
    {
      w[j] := data[j];
      FirstWords(l, data, j);
      r := NextRegisters(l, r, j, w[j]);
      j := j + 1;
    }
    assert w[..16] == w[..] && data[..16] == data;
  }

  /** The second loop, with words expanded in place. */
  method LaterRounds(l: Logic, data: seq<uint32>, r0: Registers, w: array<uint32>, r16: Registers)
      returns (r: Registers)
    requires |data| == 16 && w.Length == 16 && Window(l, data, w[..], 16) && r16 == Rounds(l, data, r0, 16)
    modifies w
    ensures r == Rounds(l, data, r0, 64)
  {
    hide Wrap, Schedule, Round, Window;
    r := r16;
    var j := 16;
    while j < 64
      invariant 16 <= j <= 64 && Window(l, data, w[..], j) && r == Rounds(l, data, r0, j)
    {
      Expand(l, w, j, data);
      r := NextRegisters(l, r, j, w[j % 16]);
      j := j + 1;
    }
  }

  /** sha256_Transform: two loops over the working variables and a circular schedule. */
  method Transform(l: Logic, state: seq<uint32>, data: seq<uint32>) returns (out: seq<uint32>)
    requires |state| == 8 && |data| == 16
    ensures out == Compress(l, state, data)
  {
    hide Wrap, Rounds, Window;
    var w := new uint32[16](_ => 0);
    var r16 := FirstRounds(l, data, Initial(state), w);
    WindowStarts(l, data, w[..]);
    var r := LaterRounds(l, data, Initial(state), w, r16);
    out := [Wrap(state[0] + r.a), Wrap(state[1] + r.b), Wrap(state[2] + r.c), Wrap(state[3] + r.d),
            Wrap(state[4] + r.e), Wrap(state[5] + r.f), Wrap(state[6] + r.g), Wrap(state[7] + r.h)];
  }

  lemma FirstWords(l: Logic, data: seq<uint32>, t: nat)
    requires |data| == 16 && t < 16
    ensures Schedule(l, data, t) == data[t]
  {}

  lemma WindowStarts(l: Logic, data: seq<uint32>, w: seq<uint32>)
    requires |data| == 16 && w == data
    ensures Window(l, data, w, 16)
  {
    forall t: nat | t < 16 ensures w[t % 16] == Schedule(l, data, t) {
      FirstWords(l, data, t);
    }
  }

  /** The hash built on this compression function meets what the streaming context asks of one. */
  lemma StandardHash(l: Logic, initial: seq<uint32>)
    requires |initial| == 8
    ensures ValidHash(Hash(initial, (s: seq<uint32>, d: seq<uint32>) =>
      if |s| == 8 && |d| == 16 then Compress(l, s, d) else seq(8, _ => 0)))
  {}
}
