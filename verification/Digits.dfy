/** Little-endian positional numbers over an arbitrary base, and the carry step every limb loop performs. */
module Digits {
  import opened Arith

  /** The number whose digit i (possibly larger than the base, or negative) has weight b^i. */
  ghost function Num(s: seq<int>, b: nat): int {
    if |s| == 0 then 0 else Num(s[..|s| - 1], b) + s[|s| - 1] * Pow(b, |s| - 1)
  }

  ghost predicate IsDigits(s: seq<int>, b: nat) {
    forall i :: 0 <= i < |s| ==> 0 <= s[i] < b
  }

  lemma NumStep(s: seq<int>, j: nat, b: nat)
    requires j < |s|
    ensures Num(s[..j + 1], b) == Num(s[..j], b) + s[j] * Pow(b, j)
  {
    assert s[..j + 1][..j] == s[..j];
  }

  lemma NumSnoc(s: seq<int>, d: int, b: nat)
    ensures Num(s + [d], b) == Num(s, b) + d * Pow(b, |s|)
  {
    assert (s + [d])[..|s|] == s;
  }

  lemma {:induction false} NumConcat(s: seq<int>, t: seq<int>, b: nat)
    ensures Num(s + t, b) == Num(s, b) + Pow(b, |s|) * Num(t, b)
  {
    if |t| == 0 {
      assert s + t == s;
    } else {
      var t' := t[..|t| - 1];
      var d := t[|t| - 1];
      assert s + t == (s + t') + [d];
      NumSnoc(s + t', d, b);
      NumConcat(s, t', b);
      PowAdd(b, |s|, |t'|);
      assert d * (Pow(b, |s|) * Pow(b, |t'|)) == Pow(b, |s|) * (d * Pow(b, |t'|));
    }
  }

  lemma NumSplit(s: seq<int>, i: nat, b: nat)
    requires i <= |s|
    ensures Num(s, b) == Num(s[..i], b) + Pow(b, i) * Num(s[i..], b)
  {
    assert s == s[..i] + s[i..];
    NumConcat(s[..i], s[i..], b);
  }

  lemma NumCons(s: seq<int>, b: nat)
    requires |s| > 0
    ensures Num(s, b) == s[0] + b * Num(s[1..], b)
  {
    NumSplit(s, 1, b);
    assert s[..1] == [] + [s[0]];
    NumSnoc([], s[0], b);
    assert Pow(b, 0) == 1 && Pow(b, 1) == b;
  }

  /** Digits below the base give a number below b^length. */
  lemma {:induction false} NumBound(s: seq<int>, b: nat)
    requires b > 0 && IsDigits(s, b)
    ensures 0 <= Num(s, b) < Pow(b, |s|)
  {
    if |s| > 0 {
      var n := |s| - 1;
      NumBound(s[..n], b);
      PowPos(b, n);
      MulMono(s[n], b - 1, Pow(b, n));
      assert (b - 1) * Pow(b, n) == b * Pow(b, n) - Pow(b, n);
      MulMono(0, s[n], Pow(b, n));
    }
  }

  lemma {:induction false} NumZero(s: seq<int>, b: nat)
    requires forall i :: 0 <= i < |s| ==> s[i] == 0
    ensures Num(s, b) == 0
  {
    if |s| > 0 {
      NumZero(s[..|s| - 1], b);
    }
  }

  /** The number splits at digit i into remainder and quotient by b^i. */
  lemma NumDivMod(s: seq<int>, i: nat, b: nat)
    requires b > 0 && i <= |s| && IsDigits(s, b)
    ensures Pow(b, i) > 0
    ensures Num(s, b) / Pow(b, i) == Num(s[i..], b) && Num(s, b) % Pow(b, i) == Num(s[..i], b)
  {
    NumSplit(s, i, b);
    NumBound(s[..i], b);
    PowPos(b, i);
    RemQuot(Num(s, b), Pow(b, i), Num(s[i..], b), Num(s[..i], b));
  }

  /** A digit string of given length is determined by its number. */
  lemma {:induction false} NumUnique(s: seq<int>, t: seq<int>, b: nat)
    requires b > 0 && |s| == |t| && IsDigits(s, b) && IsDigits(t, b) && Num(s, b) == Num(t, b)
    ensures s == t
  {
    if |s| > 0 {
      var n := |s| - 1;
      NumDivMod(s, n, b);
      NumDivMod(t, n, b);
      NumUnique(s[..n], t[..n], b);
      assert Num([s[n]], b) == s[n] by { assert s[n..][..0] == []; assert Pow(b, 0) == 1; }
      assert Num([t[n]], b) == t[n];
      assert s[n..] == [s[n]] && t[n..] == [t[n]];
      assert s == s[..n] + [s[n]] && t == t[..n] + [t[n]];
    }
  }

  /** Digits up to four bases large stay below five times the top power. */
  lemma {:induction false} NumLooseBound(s: seq<int>, b: nat)
    requires b >= 4 && IsDigits(s, 4 * b)
    ensures 0 <= Num(s, b) < 5 * Pow(b, |s|)
  {
    if |s| > 0 {
      var n := |s| - 1;
      NumLooseBound(s[..n], b);
      PowPos(b, n);
      MulMono(s[n], 4 * b - 1, Pow(b, n));
      assert (4 * b - 1) * Pow(b, n) == 4 * (b * Pow(b, n)) - Pow(b, n);
      MulMono(0, s[n], Pow(b, n));
      MulMono(4, b, Pow(b, n));
    }
  }

  /** Leading zeros: a number below b^n has no digit at or above position n. */
  lemma HighDigitsZero(s: seq<int>, n: nat, b: nat)
    requires b > 0 && n <= |s| && IsDigits(s, b) && Num(s, b) < Pow(b, n)
    ensures forall m :: n <= m < |s| ==> s[m] == 0
  {
    NumSplit(s, n, b);
    NumBound(s[..n], b);
    NumBound(s[n..], b);
    var h := Num(s[n..], b);
    if h > 0 { MulMono(1, h, Pow(b, n)); }
    var z := seq(|s| - n, i => 0);
    NumZero(z, b);
    NumUnique(s[n..], z, b);
    forall m | n <= m < |s| ensures s[m] == 0 {
      assert s[m] == s[n..][m - n];
    }
  }

  lemma {:induction false} NumTrim(s: seq<int>, n: nat, b: nat)
    requires n <= |s| && forall m :: n <= m < |s| ==> s[m] == 0
    ensures Num(s, b) == Num(s[..n], b)
  {
    if n == |s| {
      assert s[..n] == s;
    } else {
      NumTrim(s[..|s| - 1], n, b);
      assert s[..|s| - 1][..n] == s[..n];
    }
  }

  /** A number that is zero above the slice lo..hi is its low part plus the shifted slice. */
  lemma NumSlice(s: seq<int>, lo: nat, hi: nat, b: nat)
    requires lo <= hi <= |s| && forall m :: hi <= m < |s| ==> s[m] == 0
    ensures Num(s, b) == Num(s[..lo], b) + Pow(b, lo) * Num(s[lo..hi], b)
  {
    NumTrim(s, hi, b);
    NumSplit(s[..hi], lo, b);
    assert s[..hi][..lo] == s[..lo] && s[..hi][lo..] == s[lo..hi];
  }

  // ---- big-endian numbers ----------------------------------------------------------------

  /** The number whose most significant digit comes first. */
  function Big(s: seq<int>, b: nat): int {
    if |s| == 0 then 0 else Big(s[..|s| - 1], b) * b + s[|s| - 1]
  }

  lemma BigSnoc(s: seq<int>, d: int, b: nat)
    ensures Big(s + [d], b) == Big(s, b) * b + d
  {
    assert (s + [d])[..|s|] == s;
  }

  lemma BigStep(s: seq<int>, j: nat, b: nat)
    requires j < |s|
    ensures Big(s[..j + 1], b) == Big(s[..j], b) * b + s[j]
  {
    assert s[..j + 1][..j] == s[..j];
  }

  lemma {:induction false} BigConcat(s: seq<int>, t: seq<int>, b: nat)
    ensures Big(s + t, b) == Big(s, b) * Pow(b, |t|) + Big(t, b)
  {
    if |t| == 0 {
      assert s + t == s;
    } else {
      var t' := t[..|t| - 1];
      assert s + t == (s + t') + [t[|t| - 1]];
      BigSnoc(s + t', t[|t| - 1], b);
      BigConcat(s, t', b);
      Distribute(Big(s, b) * Pow(b, |t'|), Big(t', b), b);
      assert Big(s, b) * Pow(b, |t'|) * b == Big(s, b) * Pow(b, |t|);
    }
  }

  lemma {:induction false} BigBound(s: seq<int>, b: nat)
    requires b > 0 && IsDigits(s, b)
    ensures 0 <= Big(s, b) < Pow(b, |s|)
  {
    if |s| > 0 {
      var n := |s| - 1;
      BigBound(s[..n], b);
      MulMono(Big(s[..n], b), Pow(b, n) - 1, b);
      MulMono(0, Big(s[..n], b), b);
      Distribute(Pow(b, n), -1, b);
    }
  }

  lemma {:induction false} BigUnique(s: seq<int>, t: seq<int>, b: nat)
    requires b > 0 && |s| == |t| && IsDigits(s, b) && IsDigits(t, b) && Big(s, b) == Big(t, b)
    ensures s == t
  {
    if |s| > 0 {
      var n := |s| - 1;
      DivModUnique(Big(s, b), b, Big(s[..n], b), s[n]);
      DivModUnique(Big(t, b), b, Big(t[..n], b), t[n]);
      BigUnique(s[..n], t[..n], b);
      assert s == s[..n] + [s[n]] && t == t[..n] + [t[n]];
    }
  }

  // ---- pointwise combinations and carry loops --------------------------------------------

  ghost function Combine(a: seq<int>, b: seq<int>, x: int, y: int): (r: seq<int>)
    requires |a| == |b|
    ensures |r| == |a| && forall i :: 0 <= i < |a| ==> r[i] == x * a[i] + y * b[i]
  {
    seq(|a|, i requires 0 <= i < |a| => x * a[i] + y * b[i])
  }

  lemma {:induction false} NumLinear(r: seq<int>, s: seq<int>, t: seq<int>, x: int, y: int, b: nat)
    requires |r| == |s| == |t| && forall i :: 0 <= i < |r| ==> r[i] == x * s[i] + y * t[i]
    ensures Num(r, b) == x * Num(s, b) + y * Num(t, b)
  {
    if |s| > 0 {
      var n := |s| - 1;
      NumLinear(r[..n], s[..n], t[..n], x, y, b);
      CombineDigit(s[n], t[n], x, y, Pow(b, n), Num(s[..n], b), Num(t[..n], b));
    }
  }

  lemma NumCombine(s: seq<int>, t: seq<int>, x: int, y: int, b: nat)
    requires |s| == |t|
    ensures Num(Combine(s, t, x, y), b) == x * Num(s, b) + y * Num(t, b)
  {
    NumLinear(Combine(s, t, x, y), s, t, x, y, b);
  }

  lemma CombineDigit(s: int, t: int, x: int, y: int, w: int, m: int, n: int)
    ensures x * m + y * n + (x * s + y * t) * w == x * (m + s * w) + y * (n + t * w)
  {
    Distribute(x * s, y * t, w);
    MulAssoc(x, s, w);
    MulAssoc(y, t, w);
    assert x * (m + s * w) == x * m + x * (s * w);
    assert y * (n + t * w) == y * n + y * (t * w);
  }

  ghost function MinusScaled(a: seq<int>, b: seq<int>, c: int): (r: seq<int>)
    requires |a| == |b|
    ensures |r| == |a| && forall i :: 0 <= i < |a| ==> r[i] == a[i] - c * b[i]
  {
    seq(|a|, i requires 0 <= i < |a| => a[i] - c * b[i])
  }

  lemma {:induction false} NumDifference(r: seq<int>, s: seq<int>, t: seq<int>, c: int, b: nat)
    requires |r| == |s| == |t| && forall i :: 0 <= i < |r| ==> r[i] == s[i] - c * t[i]
    ensures Num(r, b) == Num(s, b) - c * Num(t, b)
  {
    if |s| > 0 {
      var n := |s| - 1;
      NumDifference(r[..n], s[..n], t[..n], c, b);
      MinusDigit(s[n], t[n], c, Pow(b, n), Num(s[..n], b), Num(t[..n], b));
    }
  }

  lemma NumMinusScaled(s: seq<int>, t: seq<int>, c: int, b: nat)
    requires |s| == |t|
    ensures Num(MinusScaled(s, t, c), b) == Num(s, b) - c * Num(t, b)
  {
    NumDifference(MinusScaled(s, t, c), s, t, c, b);
  }

  lemma MinusDigit(s: int, t: int, c: int, w: int, m: int, n: int)
    ensures m - c * n + (s - c * t) * w == m + s * w - c * (n + t * w)
  {
    assert (s - c * t) * w == s * w - c * (t * w);
    assert c * (n + t * w) == c * n + c * (t * w);
  }

  ghost function Scaled(s: seq<int>, m: int): (r: seq<int>)
    ensures |r| == |s| && forall i :: 0 <= i < |s| ==> r[i] == m * s[i]
  {
    seq(|s|, i requires 0 <= i < |s| => m * s[i])
  }

  lemma {:induction false} NumScaled(s: seq<int>, m: int, b: nat)
    ensures Num(Scaled(s, m), b) == m * Num(s, b)
  {
    if |s| > 0 {
      var n := |s| - 1;
      NumScaled(s[..n], m, b);
      assert Scaled(s, m)[..n] == Scaled(s[..n], m);
      var w, x := Pow(b, n), Num(s[..n], b);
      MulAssoc(m, s[n], w);
      DistributeLeft(m, x, s[n] * w);
    }
  }

  /** After j steps of a carry loop over the columns d: the j emitted digits and the pending carry
      account for the first j columns. */
  ghost predicate Rippled(x: seq<int>, d: seq<int>, j: nat, carry: int, b: nat) {
    && j <= |d| <= |x|
    && Num(x[..j], b) + carry * Pow(b, j) == Num(d[..j], b)
  }

  lemma RippleStart(x: seq<int>, d: seq<int>, b: nat)
    requires |d| <= |x|
    ensures Rippled(x, d, 0, 0, b)
  {}

  lemma RippleStep(x: seq<int>, x': seq<int>, d: seq<int>, j: nat, carry: int, carry': int, b: nat)
    requires Rippled(x, d, j, carry, b) && j < |d|
    requires |x'| == |x| && x'[..j] == x[..j]
    requires x'[j] + carry' * b == carry + d[j]
    ensures Rippled(x', d, j + 1, carry', b)
  {
    NumStep(x', j, b);
    NumStep(d, j, b);
    var w := Pow(b, j);
    calc {
      x'[j] * w + carry' * (b * w);
      { MulAssoc(carry', b, w); Distribute(x'[j], carry' * b, w); }
      (x'[j] + carry' * b) * w;
      { Distribute(carry, d[j], w); }
      carry * w + d[j] * w;
    }
  }

  /** The same for digits and carries given all at once. */
  lemma {:induction false} RippleAll(x: seq<int>, d: seq<int>, c: seq<int>, j: nat, b: nat)
    requires j <= |d| == |x| && |c| == |d| + 1 && c[0] == 0
    requires forall i :: 0 <= i < |d| ==> x[i] + c[i + 1] * b == c[i] + d[i]
    ensures Rippled(x, d, j, c[j], b)
  {
    if j > 0 {
      RippleAll(x, d, c, j - 1, b);
      assert x[j - 1] + c[j] * b == c[j - 1] + d[j - 1];
      RippleStep(x, x, d, j - 1, c[j - 1], c[j], b);
    }
  }

  /** When the true value fits, the final carry is dropped without loss. */
  lemma RippleEnd(x: seq<int>, d: seq<int>, carry: int, b: nat)
    requires b > 0 && |x| == |d| && IsDigits(x, b) && Rippled(x, d, |d|, carry, b)
    requires 0 <= Num(d, b) < Pow(b, |d|)
    ensures Num(x, b) == Num(d, b) && carry == 0
  {
    assert x[..|d|] == x && d[..|d|] == d;
    NumBound(x, b);
    CarryIsZero(Num(x, b), carry, Num(d, b), Pow(b, |d|));
  }

  /** Otherwise the digits are the value modulo b^length. */
  lemma RippleEndMod(x: seq<int>, d: seq<int>, carry: int, b: nat)
    requires b > 0 && |x| == |d| && IsDigits(x, b) && Rippled(x, d, |d|, carry, b)
    ensures Pow(b, |d|) > 0 && Num(x, b) == Num(d, b) % Pow(b, |d|)
  {
    assert x[..|d|] == x && d[..|d|] == d;
    NumBound(x, b);
    PowPos(b, |d|);
    DivModUnique(Num(d, b), Pow(b, |d|), carry, Num(x, b));
  }

  /** A truncated carry is zero when the number it would leave behind already fits. */
  lemma CarryIsZero(v: int, c: int, target: int, m: int)
    requires v + c * m == target && 0 <= v < m && 0 <= target < m
    ensures c == 0 && v == target
  {
    if c > 0 { MulMono(1, c, m); } else if c < 0 { MulMono(c, -1, m); }
  }

  /** After j digits of an exact division by m: m times the digits so far and the pending word
      account for the first j + 1 columns. */
  ghost predicate DividedSoFar(x: seq<int>, d: seq<int>, j: nat, tmp: int, m: int, b: nat) {
    && j < |d| <= |x| + 1
    && m * (Num(x[..j], b) + tmp * Pow(b, j)) == Num(d[..j + 1], b)
  }

  lemma DivideStart(x: seq<int>, d: seq<int>, tmp: int, m: int, b: nat)
    requires 0 < |d| <= |x| + 1 && m * tmp == d[0]
    ensures DividedSoFar(x, d, 0, tmp, m, b)
  {
    NumStep(d, 0, b);
    assert Pow(b, 0) == 1;
  }

  lemma DivideStep(x: seq<int>, x': seq<int>, d: seq<int>, j: nat, tmp: int, tmp': int, m: int, b: nat)
    requires DividedSoFar(x, d, j, tmp, m, b) && j + 1 < |d| && |x'| == |x| && x'[..j] == x[..j]
    requires m * (x'[j] + tmp' * b) == m * tmp + d[j + 1] * b
    ensures DividedSoFar(x', d, j + 1, tmp', m, b)
  {
    NumStep(x', j, b);
    NumStep(d, j + 1, b);
    DivideIdentity(Num(x[..j], b), x'[j], tmp, tmp', d[j + 1], m, b, Pow(b, j));
  }

  lemma DivideIdentity(acc: int, x: int, tmp: int, tmp': int, d: int, m: int, b: int, w: int)
    requires m * (x + tmp' * b) == m * tmp + d * b
    ensures m * ((acc + x * w) + tmp' * (b * w)) == m * (acc + tmp * w) + d * (b * w)
  {
    calc {
      m * ((acc + x * w) + tmp' * (b * w));
      { MulAssoc(tmp', b, w); Distribute(x, tmp' * b, w); }
      m * (acc + (x + tmp' * b) * w);
      { DistributeLeft(m, acc, (x + tmp' * b) * w); MulAssoc(m, x + tmp' * b, w); }
      m * acc + (m * tmp + d * b) * w;
      { Distribute(m * tmp, d * b, w); MulAssoc(m, tmp, w); MulAssoc(d, b, w); DistributeLeft(m, acc, tmp * w); }
      m * (acc + tmp * w) + d * (b * w);
    }
  }
}
