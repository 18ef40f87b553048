/** The packed register of bn_inverse: nine 32-bit words holding one number little-endian from the
    front (the first len1 words) and another big-endian from the back (the rest). */
module Combo {
  import opened Arith
  import opened Digits
  import opened Bits

  /** Word i counted from the back. */
  ghost function Back(a: seq<int>): (r: seq<int>)
    requires |a| == 9
    ensures |r| == 9 && forall i :: 0 <= i < 9 ==> r[i] == a[8 - i]
  {
    seq(9, i requires 0 <= i < 9 => a[8 - i])
  }

  /** The words hold u in front and s behind. */
  ghost predicate Packed(a: seq<int>, len: int, u: int, s: int) {
    && |a| == 9 && 0 <= len <= 9 && IsDigits(a, WORD)
    && Num(a[..len], WORD) == u
    && Num(Back(a)[..9 - len], WORD) == s
  }

  /** The front number has no leading zero word. */
  ghost predicate Trimmed(a: seq<int>, len: int) {
    |a| == 9 && 1 <= len <= 9 && a[len - 1] != 0
  }

  lemma WordParity(s: seq<int>, h: nat, m: nat)
    requires |s| > 0 && h * m == WORD && m > 0
    ensures Num(s, WORD) % m == s[0] % m
  {
    NumCons(s, WORD);
    var t := Num(s[1..], WORD);
    DivMod(s[0], m);
    assert WORD * t == (h * t) * m by { assert (h * m) * t == (h * t) * m; }
    Distribute(s[0] / m, h * t, m);
    DivModUnique(Num(s, WORD), m, s[0] / m + h * t, s[0] % m);
  }

  lemma PackedParity(a: seq<int>, len: int, u: int, s: int)
    requires Packed(a, len, u, s) && 1 <= len <= 8
    ensures u % 2 == a[0] % 2 && s % 2 == a[8] % 2
  {
    WordParity(a[..len], 0x8000_0000, 2);
    WordParity(Back(a)[..9 - len], 0x8000_0000, 2);
  }

  // ---- adjusting the length --------------------------------------------------------------

  lemma TrimStep(a: seq<int>, len: int, u: int, s: int)
    requires Packed(a, len, u, s) && len >= 1 && a[len - 1] == 0
    ensures Packed(a, len - 1, u, s)
  {
    NumStep(a, len - 1, WORD);
    NumStep(Back(a), 9 - len, WORD);
  }

  /** A positive front number has a non-zero word. */
  lemma FrontNotEmpty(a: seq<int>, len: int, u: int, s: int)
    requires Packed(a, len, u, s) && u > 0
    ensures len >= 1
  {}

  /** The words a front number and a back number need, from the product bound. */
  lemma BackFits(a: seq<int>, len: int, u: int, s: int, t: int)
    requires Packed(a, len, u, s) && Trimmed(a, len) && t >= 0 && u * t < Pow(WORD, 8)
    ensures t < Pow(WORD, 9 - len)
  {
    TopWord(a, len, u);
    var p, q := Pow(WORD, len - 1), Pow(WORD, 9 - len);
    PowAdd(WORD, len - 1, 9 - len);
    PowPos(WORD, len - 1);
    if t >= q {
      MulMono(q, t, p);
      MulMono(p, u, t);
    }
  }

  lemma TopWord(a: seq<int>, len: int, u: int)
    requires |a| == 9 && IsDigits(a, WORD) && Trimmed(a, len) && Num(a[..len], WORD) == u
    ensures u >= Pow(WORD, len - 1)
  {
    NumStep(a, len - 1, WORD);
    NumBound(a[..len - 1], WORD);
    PowPos(WORD, len - 1);
    MulMono(1, a[len - 1], Pow(WORD, len - 1));
  }

  // ---- shifting by whole words -----------------------------------------------------------

  lemma ShiftWordFacts(a: seq<int>, len: int, u: int, s: int) returns (u': int)
    requires Packed(a, len, u, s) && len >= 1 && a[0] == 0
    ensures u == u' * WORD && Packed(a[1..] + [0], len - 1, u', s * WORD)
  {
    var b := a[1..] + [0];
    NumCons(a[..len], WORD);
    assert a[..len][1..] == b[..len - 1];
    u' := Num(b[..len - 1], WORD);
    var t := Back(b)[..10 - len];
    NumCons(t, WORD);
    assert t[1..] == Back(a)[..9 - len];
  }

  // ---- shifting by bits ------------------------------------------------------------------

  /** Right shift of a little-endian number by m = 2^j across word boundaries. */
  lemma {:induction false} ShiftedRight(s: seq<int>, t: seq<int>, m: nat, n: nat)
    requires |s| == |t| && |s| > 0 && m > 0 && m * n == WORD
    requires forall i :: 0 <= i < |s| - 1 ==> t[i] == s[i] / m + (s[i + 1] % m) * n
    requires t[|s| - 1] == s[|s| - 1] / m
    ensures Num(s, WORD) == Num(t, WORD) * m + s[0] % m
  {
    NumCons(s, WORD);
    NumCons(t, WORD);
    DivMod(s[0], m);
    if |s| == 1 {
      assert s[1..] == [] && t[1..] == [];
    } else {
      ShiftedRight(s[1..], t[1..], m, n);
      ShiftRightDigit(s[0], s[0] / m, s[0] % m, s[1] % m, Num(s[1..], WORD), Num(t[1..], WORD), m, n);
    }
  }

  lemma ShiftRightDigit(x: int, q: int, x0: int, r: int, hs: int, ht: int, m: int, n: int)
    requires x == q * m + x0 && m * n == WORD && hs == ht * m + r
    ensures x + WORD * hs == ((q + r * n) + WORD * ht) * m + x0
  {
    assert (r * n) * m == WORD * r by { assert (r * n) * m == r * (m * n); }
    assert (WORD * ht) * m == WORD * (ht * m);
    Distribute(q + r * n, WORD * ht, m);
    Distribute(q, r * n, m);
  }

  /** The bits that a left shift moves from word j - 1 into word j. */
  function Spill(s: seq<int>, j: nat, n: nat): int
    requires j <= |s| && n > 0
  {
    if j == 0 then 0 else s[j - 1] / n
  }

  ghost predicate IsShiftedLeft(s: seq<int>, t: seq<int>, m: nat, n: nat)
    requires n > 0
  {
    |s| == |t| && forall i :: 0 <= i < |s| ==> t[i] == (s[i] % n) * m + Spill(s, i, n)
  }

  lemma SplitWord(x: int, c: int, m: nat, n: nat)
    requires n > 0 && m * n == WORD
    ensures ((x % n) * m + c) + (x / n) * WORD == c + m * x
  {
    DivMod(x, n);
    var q, r := x / n, x % n;
    assert q * WORD == m * (q * n) by { assert m * (q * n) == q * (m * n); }
    DistributeLeft(m, q * n, r);
  }

  ghost function Spills(s: seq<int>, n: nat): (c: seq<int>)
    requires n > 0
    ensures |c| == |s| + 1 && forall j :: 0 <= j <= |s| ==> c[j] == Spill(s, j, n)
  {
    seq(|s| + 1, j requires 0 <= j <= |s| => Spill(s, j, n))
  }

  /** Left shift by m = 2^j, lowest word first: each word keeps its low bits and receives the word below's high bits. */
  lemma ShiftedLeft(s: seq<int>, t: seq<int>, m: nat, n: nat)
    requires n > 0 && m * n == WORD && IsShiftedLeft(s, t, m, n)
    ensures Rippled(t, Scaled(s, m), |s|, Spill(s, |s|, n), WORD)
  {
    var c, d := Spills(s, n), Scaled(s, m);
    forall i | 0 <= i < |s| ensures t[i] + c[i + 1] * WORD == c[i] + d[i] {
      SplitWord(s[i], Spill(s, i, n), m, n);
    }
    RippleAll(t, d, c, |s|, WORD);
  }

  /** A shift that stays within the available words loses nothing. */
  lemma ShiftedLeftFits(s: seq<int>, t: seq<int>, m: nat, n: nat)
    requires n > 0 && m * n == WORD && IsShiftedLeft(s, t, m, n) && IsDigits(s, WORD) && IsDigits(t, WORD)
    requires Num(s, WORD) * m < Pow(WORD, |s|)
    ensures Num(t, WORD) == Num(s, WORD) * m
  {
    ShiftedLeft(s, t, m, n);
    NumScaled(s, m, WORD);
    NumBound(s, WORD);
    MulMono(0, Num(s, WORD), m);
    RippleEnd(t, Scaled(s, m), Spill(s, |s|, n), WORD);
  }

  // ---- the register and its in-place operations ------------------------------------------

  class Register {
    const a: array<uint32>
    var len1: int

    ghost predicate Holds(u: int, s: int)
      reads this, a
    {
      Packed(a[..], len1, u, s)
    }

    ghost predicate IsTrimmed()
      reads this, a
    {
      Trimmed(a[..], len1)
    }

    constructor (low: seq<uint32>, last: uint32)
      requires |low| == 8
      ensures fresh(a) && len1 == 8
      ensures Holds(Num(low, WORD), last)
    {
      a := new uint32[9](i requires 0 <= i < 9 => if i < 8 then low[i] else last);
      len1 := 8;
      new;
      assert a[..8] == low;
      NumStep(Back(a[..]), 0, WORD);
      assert Pow(WORD, 0) == 1;
    }

    /** Drops leading zero words of the front number; they become leading zero words of the back number. */
    method AdjustLength(ghost u: int, ghost s: int)
      requires Holds(u, s) && u > 0
      modifies this
      ensures Holds(u, s) && IsTrimmed() && len1 <= old(len1)
    {
      FrontNotEmpty(a[..], len1, u, s);
      while a[len1 - 1] == 0
        invariant Holds(u, s) && 1 <= len1 <= old(len1)
        decreases len1
      {
        TrimStep(a[..], len1, u, s);
        len1 := len1 - 1;
        FrontNotEmpty(a[..], len1, u, s);
      }
    }

    /** Shifts the front number right and the back number left by one word. */
    method ShiftWord(ghost u: int, ghost s: int) returns (ghost u': int)
      requires Holds(u, s) && IsTrimmed() && u > 0 && a[0] == 0
      modifies this, a
      ensures u == u' * WORD && Holds(u', s * WORD) && IsTrimmed() && len1 == old(len1) - 1
    {
      ghost var before: seq<int> := a[..];
      var i := 0;
      while i < 8
        modifies a
        invariant 0 <= i <= 8
        invariant forall m :: 0 <= m < i ==> a[m] == before[m + 1]
        invariant forall m :: i <= m < 9 ==> a[m] == before[m]
      {
        a[i] := a[i + 1];
        i := i + 1;
      }
      a[i] := 0;
      assert a[..] == before[1..] + [0];
      u' := ShiftWordFacts(before, len1, u, s);
      assert u' > 0;
      len1 := len1 - 1;
      FrontNotEmpty(a[..], len1, u', s * WORD);
    }

    /** Shifts by whole words while the lowest word is zero. */
    method ShiftWords(ghost u: int, ghost s: int, k: nat) returns (k': nat, ghost u': int)
      requires Holds(u, s) && IsTrimmed() && u > 0
      modifies this, a
      ensures k' >= k && u == u' * Pow(2, k' - k) && Holds(u', s * Pow(2, k' - k))
      ensures IsTrimmed() && a[0] != 0 && len1 <= old(len1)
    {
      k', u' := k, u;
      ghost var s', p := s, 1;
      assert Pow(2, 0) == 1;
      while a[0] == 0
        invariant 1 <= len1 <= old(len1) && k' >= k && IsTrimmed()
        invariant p == Pow(2, k' - k) && u == u' * p && s' == s * p && Holds(u', s') && u' > 0
        decreases len1
      {
        ghost var u0 := u';
        u' := ShiftWord(u', s');
        WordShiftComposes(u, s, u0, u', s', p, k' - k);
        s', p, k' := s' * WORD, p * WORD, k' + 32;
      }
    }

    /** Counts the trailing zero bits of the lowest word. */
    method CountZeroBits() returns (j: nat)
      requires a.Length == 9 && a[0] != 0
      ensures j < 32 && Pow(2, j) > 0 && a[0] % Pow(2, j) == 0 && (a[0] / Pow(2, j)) % 2 == 1
    {
      j := 0;
      assert Pow(2, 0) == 1;
      while (a[0] / Pow(2, j)) % 2 == 0
        invariant 0 <= j < 32 && Pow(2, j) > 0 && a[0] % Pow(2, j) == 0
        decreases 32 - j
      {
        NextZeroBit(a[0], j);
        j := j + 1;
      }
    }

    /** Shifts the front number right and the back number left by j bits; a front word that becomes zero
        is handed to the back number. */
    method ShiftBits(j: nat, ghost u: int, ghost s: int) returns (ghost u': int)
      requires 1 <= j < 32 && Holds(u, s) && IsTrimmed() && u > 0 && s >= 0 && len1 <= 8
      requires Pow(2, j) > 0 && a[0] % Pow(2, j) == 0 && u * s < Pow(WORD, 8)
      modifies this, a
      ensures u == u' * Pow(2, j) && Holds(u', s * Pow(2, j)) && IsTrimmed() && len1 <= old(len1)
      ensures a[0] % 2 == (old(a[0]) / Pow(2, j)) % 2
    {
      ghost var s0, len0 := a[..], len1;
      ghost var m, n := Pow(2, j), Pow(2, 32 - j);
      BitPowers(j);
      ShiftFront(j);
      ghost var s1 := a[..];
      var i := len1 - 1;
      if a[i] == 0 {
        len1 := len1 - 1;
      } else {
        i := i + 1;
      }
      u' := FrontShifted(s0, s1, len0, len1, u, s, m, n);
      ShiftedParity(s0, s1, m, n, len0);
      ShiftBack(i, j);
      BackShifted(s1, a[..], len1, u, u', s, m, n);
    }

    /** Words 0..len1 shifted right in place. */
    method ShiftFront(j: nat)
      requires 1 <= j < 32 && a.Length == 9 && 1 <= len1 <= 8
      modifies a
      ensures Pow(2, j) > 0 && FrontDone(old(a[..]), a[..], len1, Pow(2, j), Pow(2, 32 - j))
    {
      hide Pow, ShiftRightWord;
      BitPowers(j);
      var i := 0;
      while i + 1 < len1
        invariant 0 <= i < len1
        invariant forall k :: 0 <= k < i ==>
          a[k] == old(a[k]) / Pow(2, j) + (old(a[k + 1]) % Pow(2, j)) * Pow(2, 32 - j)
        invariant forall k :: i <= k < 9 ==> a[k] == old(a[k])
      {
        a[i] := ShiftRightWord(a[i], a[i + 1], j);
        i := i + 1;
      }
      DivModUnique(0, Pow(2, j), 0, 0);
      a[i] := ShiftRightWord(a[i], 0, j);
    }

    /** Words from..9 shifted left in place. */
    method ShiftBack(from: nat, j: nat)
      requires 1 <= j < 32 && a.Length == 9 && from <= 8
      modifies a
      ensures Pow(2, 32 - j) > 0 && BackDone(old(a[..]), a[..], from, Pow(2, j), Pow(2, 32 - j))
    {
      hide Pow, ShiftLeftWord;
      BitPowers(j);
      var i := from;
      while i < 8
        invariant from <= i <= 8
        invariant forall k :: from <= k < i ==>
          a[k] == (old(a[k]) % Pow(2, 32 - j)) * Pow(2, j) + old(a[k + 1]) / Pow(2, 32 - j)
        invariant forall k :: i <= k < 9 || 0 <= k < from ==> a[k] == old(a[k])
      {
        a[i] := ShiftLeftWord(a[i], a[i + 1], j);
        i := i + 1;
      }
      DivModUnique(0, Pow(2, 32 - j), 0, 0);
      a[i] := ShiftLeftWord(a[i], 0, j);
    }
  }

  /** t is s with words 0..len shifted right by m = 2^32 / n across word boundaries. */
  ghost predicate FrontDone(s: seq<int>, t: seq<int>, len: int, m: nat, n: nat)
    requires m > 0
  {
    && |s| == |t| == 9 && 1 <= len <= 8
    && (forall k :: 0 <= k < len - 1 ==> t[k] == s[k] / m + (s[k + 1] % m) * n)
    && t[len - 1] == s[len - 1] / m
    && (forall k :: len <= k < 9 ==> t[k] == s[k])
  }

  /** t is s with words from..9 shifted left by m across word boundaries, towards the front. */
  ghost predicate BackDone(s: seq<int>, t: seq<int>, from: int, m: nat, n: nat)
    requires n > 0
  {
    && |s| == |t| == 9 && 0 <= from <= 8
    && (forall k :: 0 <= k < from ==> t[k] == s[k])
    && (forall k :: from <= k < 8 ==> t[k] == (s[k] % n) * m + s[k + 1] / n)
    && t[8] == (s[8] % n) * m
  }

  lemma AtLeastTwo(j: nat)
    requires j >= 1
    ensures Pow(2, j) >= 2 && Pow(2, j) % 2 == 0
  {
    PowPos(2, j - 1);
    assert Pow(2, j) == 2 * Pow(2, j - 1);
  }

  lemma BitPowers(j: nat)
    requires 1 <= j < 32
    ensures Pow(2, j) >= 2 && Pow(2, 32 - j) >= 2 && Pow(2, j) * Pow(2, 32 - j) == WORD
    ensures Pow(2, 32 - j) % 2 == 0
  {
    TwoPowers();
    PowAdd(2, j, 32 - j);
    AtLeastTwo(j);
    AtLeastTwo(32 - j);
  }

  /** The lowest shifted word has the parity of the lowest word divided by m. */
  lemma ShiftedParity(s0: seq<int>, s1: seq<int>, m: nat, n: nat, len: int)
    requires m > 0 && n % 2 == 0 && FrontDone(s0, s1, len, m, n)
    ensures s1[0] % 2 == (s0[0] / m) % 2
  {
    if len > 1 {
      var r, h := s0[1] % m, n / 2;
      assert r * n == 2 * (r * h);
    }
  }

  lemma NextZeroBit(x: uint32, j: nat)
    requires x > 0 && j < 32 && Pow(2, j) > 0 && x % Pow(2, j) == 0 && (x / Pow(2, j)) % 2 == 0
    ensures j + 1 < 32 && Pow(2, j + 1) > 0 && x % Pow(2, j + 1) == 0
  {
    var p := Pow(2, j);
    DivMod(x, p);
    var h := (x / p) / 2;
    assert x == h * (2 * p) + 0;
    DivModUnique(x, 2 * p, h, 0);
    if j == 31 {
      TwoPowers();
      if h >= 1 { MulMono(1, h, WORD); }
    }
  }

  /** (x >> j) | (above << (32 - j)) on 32-bit words. */
  function ShiftRightWord(x: uint32, above: uint32, j: nat): (r: uint32)
    requires 1 <= j < 32
    ensures Pow(2, j) > 0 && r == x / Pow(2, j) + (above % Pow(2, j)) * Pow(2, 32 - j)
  {
    JoinedWord(above, x, 32 - j);
    Or((above * Pow(2, 32 - j)) % 0x1_0000_0000, x / Pow(2, j))
  }

  /** (x << j) | (below >> (32 - j)) on 32-bit words. */
  function ShiftLeftWord(x: uint32, below: uint32, j: nat): (r: uint32)
    requires 1 <= j < 32
    ensures Pow(2, 32 - j) > 0 && r == (x % Pow(2, 32 - j)) * Pow(2, j) + below / Pow(2, 32 - j)
  {
    JoinedWord(x, below, j);
    Or((x * Pow(2, j)) % 0x1_0000_0000, below / Pow(2, 32 - j))
  }

  /** The high bits of one word joined below the low bits of another. */
  lemma JoinedWord(x: uint32, y: uint32, j: nat)
    requires 1 <= j < 32
    ensures Pow(2, 32 - j) > 0 && 0 <= y / Pow(2, 32 - j)
    ensures Or((x * Pow(2, j)) % WORD, y / Pow(2, 32 - j)) == (x % Pow(2, 32 - j)) * Pow(2, j) + y / Pow(2, 32 - j)
    ensures (x % Pow(2, 32 - j)) * Pow(2, j) + y / Pow(2, 32 - j) < WORD
  {
    TwoPowers();
    BitPowers(j);
    ShiftTruncated(x, j, 32);
    JoinBound(x, y, Pow(2, j), Pow(2, 32 - j));
    OrIsSum(x % Pow(2, 32 - j), y / Pow(2, 32 - j), j);
  }

  lemma JoinBound(x: uint32, y: uint32, m: nat, n: nat)
    requires m > 0 && n > 0 && m * n == WORD
    ensures 0 <= y / n < m && 0 <= x % n < n && (x % n) * m + y / n < WORD
  {
    DivBounds(y, n, m);
    DivMod(x, n);
    MulMono(x % n, n - 1, m);
    Distribute(n, -1, m);
  }

  lemma BackIsShiftedLeft(s: seq<int>, t: seq<int>, from: nat, m: nat, n: nat)
    requires n > 0 && BackDone(s, t, from, m, n)
    ensures IsShiftedLeft(Back(s)[..9 - from], Back(t)[..9 - from], m, n)
  {
    var x, y := Back(s)[..9 - from], Back(t)[..9 - from];
    forall i | 0 <= i < 9 - from ensures y[i] == (x[i] % n) * m + Spill(x, i, n) {
      assert y[i] == t[8 - i] && x[i] == s[8 - i];
      if i > 0 { assert x[i - 1] == s[8 - i + 1]; }
    }
  }

  /** The first half of a bit shift: the front number is divided, and a vanishing top word changes sides. */
  lemma FrontShifted(s0: seq<int>, s1: seq<int>, len0: int, len1: int, u: int, s: int, m: nat, n: nat) returns (u': int)
    requires Packed(s0, len0, u, s) && Trimmed(s0, len0) && u > 0 && IsDigits(s1, WORD)
    requires m >= 2 && n >= 2 && m * n == WORD && s0[0] % m == 0 && FrontDone(s0, s1, len0, m, n)
    requires len1 == if s1[len0 - 1] == 0 then len0 - 1 else len0
    ensures u == u' * m && u' > 0 && Packed(s1, len1, u', s) && Trimmed(s1, len1)
  {
    ShiftedRight(s0[..len0], s1[..len0], m, n);
    u' := Num(s1[..len0], WORD);
    assert u' > 0 by { if u' <= 0 { MulMono(u', 0, m); } }
    assert Back(s1)[..9 - len0] == Back(s0)[..9 - len0];
    if len1 < len0 {
      FrontLosesWord(s0, s1, len0, u', s, m, n);
    }
  }

  lemma FrontLosesWord(s0: seq<int>, s1: seq<int>, len: int, u: int, s: int, m: nat, n: nat)
    requires Packed(s1, len, u, s) && u > 0 && Trimmed(s0, len) && s1[len - 1] == 0
    requires m > 0 && n > 0 && IsDigits(s0, WORD) && FrontDone(s0, s1, len, m, n)
    ensures Packed(s1, len - 1, u, s) && Trimmed(s1, len - 1)
  {
    TrimStep(s1, len, u, s);
    FrontNotEmpty(s1, len - 1, u, s);
    var top, low := s0[len - 1], s0[len - 2];
    DivMod(top, m);
    MulMono(1, top % m, n);
    QuotientNonNegative(low, m);
  }

  lemma QuotientNonNegative(x: int, m: int)
    requires x >= 0 && m > 0
    ensures x / m >= 0
  {
    DivMod(x, m);
    if x / m < 0 { MulMono(x / m, -1, m); }
  }

  /** Moving a factor from one number to the other keeps their product. */
  lemma ProductKept(u: int, u': int, s: int, m: int)
    requires u == u' * m && s >= 0 && m >= 0
    ensures u' * (s * m) == u * s && s * m >= 0
  {
    assert u' * (s * m) == (u' * m) * s;
    MulMono(0, s, m);
  }

  /** The second half: the back number is multiplied; the product bound says it still fits. */
  lemma BackShifted(s1: seq<int>, t: seq<int>, len: int, u: int, u': int, s: int, m: nat, n: nat)
    requires Packed(s1, len, u', s) && Trimmed(s1, len) && len <= 8 && IsDigits(t, WORD)
    requires s >= 0 && n > 0 && m * n == WORD && u == u' * m && u * s < Pow(WORD, 8)
    requires BackDone(s1, t, len, m, n)
    ensures Packed(t, len, u', s * m) && Trimmed(t, len)
    ensures t[0] == s1[0]
  {
    assert t[..len] == s1[..len];
    ProductKept(u, u', s, m);
    BackFits(s1, len, u', s, s * m);
    BackIsShiftedLeft(s1, t, len, m, n);
    ShiftedLeftFits(Back(s1)[..9 - len], Back(t)[..9 - len], m, n);
  }

  lemma WordShiftComposes(u: int, s: int, u0: int, u1: int, s0: int, p: int, t: nat)
    requires u == u0 * p && s0 == s * p && u0 == u1 * WORD && u0 > 0 && p == Pow(2, t)
    ensures u == u1 * (p * WORD) && s0 * WORD == s * (p * WORD) && u1 > 0 && p * WORD == Pow(2, t + 32)
  {
    TwoPowers();
    PowAdd(2, t, 32);
    assert (u1 * WORD) * p == u1 * (p * WORD);
    MulAssoc(s, p, WORD);
  }

  // ---- operations on two registers -------------------------------------------------------

  lemma LongerIsLarger(a: seq<int>, b: seq<int>, la: int, lb: int, u: int, v: int, s: int, r: int)
    requires Packed(a, la, u, s) && Packed(b, lb, v, r) && Trimmed(a, la) && lb < la
    ensures v < u
  {
    TopWord(a, la, u);
    NumBound(b[..lb], WORD);
    PowMono(WORD, lb, la - 1);
  }

  /** The topmost differing word decides. */
  lemma DecidedAt(a: seq<int>, b: seq<int>, len: nat, i: nat)
    requires |a| == |b| == 9 && i < len <= 9 && IsDigits(a, WORD) && IsDigits(b, WORD)
    requires a[i] > b[i] && forall k :: i < k < len ==> a[k] == b[k]
    ensures Num(a[..len], WORD) > Num(b[..len], WORD)
  {
    hide Num, Pow;
    NumSplit(a[..len], i + 1, WORD);
    NumSplit(b[..len], i + 1, WORD);
    assert a[..len][..i + 1] == a[..i + 1] && b[..len][..i + 1] == b[..i + 1];
    assert a[..len][i + 1..] == b[..len][i + 1..];
    NumStep(a, i, WORD);
    NumStep(b, i, WORD);
    NumBound(a[..i], WORD);
    NumBound(b[..i], WORD);
    MulMono(b[i] + 1, a[i], Pow(WORD, i));
    Distribute(b[i], 1, Pow(WORD, i));
  }

  /** Compares the two front numbers: positive, zero or negative like u - v. */
  method Compare(us: Register, vr: Register, ghost u: int, ghost s: int, ghost v: int, ghost r: int) returns (cmp: int)
    requires us.Holds(u, s) && vr.Holds(v, r) && us.IsTrimmed() && vr.IsTrimmed()
    ensures (cmp > 0 <==> u > v) && (cmp == 0 <==> u == v)
  {
    cmp := us.len1 - vr.len1;
    if cmp > 0 {
      LongerIsLarger(us.a[..], vr.a[..], us.len1, vr.len1, u, v, s, r);
    } else if cmp < 0 {
      LongerIsLarger(vr.a[..], us.a[..], vr.len1, us.len1, v, u, r, s);
    } else {
      var i := us.len1 - 1;
      while i >= 0 && us.a[i] == vr.a[i]
        invariant -1 <= i < us.len1
        invariant forall k :: i < k < us.len1 ==> us.a[k] == vr.a[k]
      {
        i := i - 1;
      }
      if i == -1 {
        assert us.a[..us.len1] == vr.a[..vr.len1];
      } else if us.a[i] > vr.a[i] {
        cmp := 1;
        DecidedAt(us.a[..], vr.a[..], us.len1, i);
      } else {
        cmp := -1;
        DecidedAt(vr.a[..], us.a[..], us.len1, i);
      }
    }
  }

  /** The columns of front(even) - front(odd), the shorter number padded with zeros. */
  ghost function Differences(e: seq<int>, o: seq<int>, le: nat, lo: nat): (d: seq<int>)
    requires |e| == |o| == 9 && lo <= le <= 9
    ensures |d| == le && forall i :: 0 <= i < le ==> d[i] == e[i] - (if i < lo then o[i] else 0)
  {
    seq(le, i requires 0 <= i < le => e[i] - (if i < lo then o[i] else 0))
  }

  lemma DifferencesValue(e: seq<int>, o: seq<int>, le: nat, lo: nat)
    requires |e| == |o| == 9 && lo <= le <= 9
    ensures Num(Differences(e, o, le, lo), WORD) == Num(e[..le], WORD) - Num(o[..lo], WORD)
  {
    var p := o[..lo] + seq(le - lo, _ => 0);
    NumTrim(p, lo, WORD);
    assert p[..lo] == o[..lo];
    NumDifference(Differences(e, o, le, lo), e[..le], p, 1, WORD);
  }

  /** The borrow loop of the subtraction: words 0..le of e lose words 0..lo of o. */
  method SubtractWords(e: array<uint32>, o: array<uint32>, le: nat, lo: nat) returns (ghost carry: int)
    requires e != o && e.Length == o.Length == 9 && lo <= le <= 9
    modifies e
    ensures forall k :: le <= k < 9 ==> e[k] == old(e[k])
    ensures Rippled(e[..], Differences(old(e[..]), o[..], le, lo), le, carry, WORD)
  {
    ghost var e0, d := e[..], Differences(e[..], o[..], le, lo);
    ghost var y := e0;
    carry := 0;
    RippleStart(y, d, WORD);
    var temp: uint64 := 1;
    var i := 0;
    while i < le
      invariant 0 <= i <= le && temp <= 1 && carry == temp as int - 1
      invariant y == e[..] && forall k :: i <= k < 9 ==> y[k] == e0[k]
      invariant Rippled(y, d, i, carry, WORD)
    {
      var x: uint32 := if i < lo then o[i] else 0;
      assert d[i] == e[i] - x as int;
      temp := temp + 0xFFFF_FFFF + e[i] - x;
      e[i] := temp % 0x1_0000_0000;
      temp := temp / 0x1_0000_0000;
      ghost var before, carry0 := y, carry;
      y, carry := y[i := e[i]], temp as int - 1;
      RippleWord(before, y, d, i, carry0, carry);
      i := i + 1;
    }
  }

  /** front(even) := front(even) - front(odd), for a larger and trimmed even number. */
  method SubtractFront(even: Register, odd: Register, ghost eu: int, ghost es: int, ghost ou: int, ghost os: int)
    requires even != odd && even.a != odd.a && even.Holds(eu, es) && odd.Holds(ou, os) && odd.len1 <= even.len1
    requires eu >= ou
    modifies even.a
    ensures even.Holds(eu - ou, es)
  {
    ghost var e, o := even.a[..], odd.a[..];
    DifferencesValue(e, o, even.len1, odd.len1);
    NumBound(o[..odd.len1], WORD);
    ghost var carry := SubtractWords(even.a, odd.a, even.len1, odd.len1);
    FrontReplaced(e, even.a[..], Differences(e, o, even.len1, odd.len1), even.len1, carry, eu, es, eu - ou);
  }

  lemma RippleWord(x: seq<int>, x': seq<int>, d: seq<int>, j: nat, carry: int, carry': int)
    requires Rippled(x, d, j, carry, WORD) && j < |d|
    requires |x'| == |x| && x'[..j] == x[..j]
    requires x'[j] + carry' * 0x1_0000_0000 == carry + d[j]
    ensures Rippled(x', d, j + 1, carry', WORD)
  {
    RippleStep(x, x', d, j, carry, carry', WORD);
  }

  lemma FrontReplaced(e: seq<int>, t: seq<int>, d: seq<int>, len: int, carry: int, eu: int, es: int, u: int)
    requires Packed(e, len, eu, es) && |t| == 9 && IsDigits(t, WORD) && |d| == len
    requires forall k :: len <= k < 9 ==> t[k] == e[k]
    requires Rippled(t, d, len, carry, WORD) && Num(d, WORD) == u && 0 <= u <= eu
    ensures Packed(t, len, u, es)
  {
    NumBound(e[..len], WORD);
    assert t[..len][..len] == t[..len];
    RippleEnd(t[..len], d, carry, WORD);
    assert Back(t)[..9 - len] == Back(e)[..9 - len];
  }

  /** The columns of back(odd) + back(even), lowest word first. */
  ghost function Sums(o: seq<int>, e: seq<int>, lo: nat, le: nat): (d: seq<int>)
    requires |e| == |o| == 9 && lo <= le <= 9
    ensures |d| == 9 - lo && forall i :: 0 <= i < 9 - lo ==> d[i] == o[8 - i] + (if i < 9 - le then e[8 - i] else 0)
  {
    seq(9 - lo, i requires 0 <= i < 9 - lo => o[8 - i] + (if i < 9 - le then e[8 - i] else 0))
  }

  lemma SumsValue(o: seq<int>, e: seq<int>, lo: nat, le: nat)
    requires |e| == |o| == 9 && lo <= le <= 9
    ensures Num(Sums(o, e, lo, le), WORD) == Num(Back(o)[..9 - lo], WORD) + Num(Back(e)[..9 - le], WORD)
  {
    var p := Back(e)[..9 - le] + seq(le - lo, _ => 0);
    NumTrim(p, 9 - le, WORD);
    assert p[..9 - le] == Back(e)[..9 - le];
    NumLinear(Sums(o, e, lo, le), Back(o)[..9 - lo], p, 1, 1, WORD);
  }

  /** The carry loop of the addition, from the last word towards the front. */
  method AddWords(o: array<uint32>, e: array<uint32>, lo: nat, le: nat) returns (ghost carry: int)
    requires e != o && e.Length == o.Length == 9 && lo <= le <= 9
    modifies o
    ensures forall k :: 0 <= k < lo ==> o[k] == old(o[k])
    ensures Rippled(Back(o[..]), Sums(old(o[..]), e[..], lo, le), 9 - lo, carry, WORD)
  {
    hide Num, Pow;
    ghost var o0, d := o[..], Sums(o[..], e[..], lo, le);
    ghost var y := Back(o0);
    carry := 0;
    RippleStart(y, d, WORD);
    var temp: uint64 := 0;
    var i := 8;
    while i >= lo
      invariant lo - 1 <= i <= 8 && temp <= 1 && carry == temp as int
      invariant forall k :: 0 <= k <= i ==> o[k] == o0[k]
      invariant |y| == 9 && forall k :: 0 <= k < 9 ==> y[k] == o[8 - k]
      invariant Rippled(y, d, 8 - i, carry, WORD)
    {
      var x: uint32 := if i >= le then e[i] else 0;
      assert d[8 - i] == o[i] as int + x;
      temp := temp + o[i] + x;
      o[i] := temp % 0x1_0000_0000;
      temp := temp / 0x1_0000_0000;
      ghost var before, carry0 := y, carry;
      y, carry := y[8 - i := o[i]], temp;
      RippleWord(before, y, d, 8 - i, carry0, carry);
      i := i - 1;
    }
    assert y == Back(o[..]);
  }

  /** back(odd) := back(odd) + back(even); the words freed by the shrinking front number suffice. */
  method AddBack(odd: Register, even: Register, ghost ou: int, ghost os: int, ghost eu: int, ghost es: int)
    requires even != odd && even.a != odd.a && even.Holds(eu, es) && odd.Holds(ou, os) && odd.len1 <= even.len1
    requires odd.IsTrimmed() && os >= 0 && es >= 0 && ou * (os + es) < Pow(WORD, 8)
    modifies odd.a
    ensures odd.Holds(ou, os + es) && odd.IsTrimmed()
  {
    hide Num, Pow;
    ghost var o, e := odd.a[..], even.a[..];
    SumsValue(o, e, odd.len1, even.len1);
    ghost var carry := AddWords(odd.a, even.a, odd.len1, even.len1);
    BackReplaced(o, odd.a[..], Sums(o, e, odd.len1, even.len1), odd.len1, carry, ou, os, os + es);
  }

  lemma BackReplaced(o: seq<int>, t: seq<int>, d: seq<int>, len: int, carry: int, ou: int, os: int, s: int)
    requires Packed(o, len, ou, os) && Trimmed(o, len) && |t| == 9 && IsDigits(t, WORD) && |d| == 9 - len
    requires forall k :: 0 <= k < len ==> t[k] == o[k]
    requires Rippled(Back(t), d, 9 - len, carry, WORD) && Num(d, WORD) == s && s >= 0 && ou * s < Pow(WORD, 8)
    ensures Packed(t, len, ou, s) && Trimmed(t, len)
  {
    assert t[..len] == o[..len];
    BackFits(o, len, ou, os, s);
    var y := Back(t)[..9 - len];
    assert y[..9 - len] == y;
    RippleEnd(y, d, carry, WORD);
  }
}
