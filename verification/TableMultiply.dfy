/** Multiples of the generator from a table: the same signed digits as in point_multiply, least significant first. */
module TableMultiply {
  import opened Arith
  import opened Bits
  import opened Digits
  import opened Residues
  import opened Bignum
  import opened Curve
  import opened Multiples
  import opened Jacobian
  import opened CurvePoints
  import opened Recoding
  import opened Windows
  import opened PointMultiply

  // ---- lower parts -----------------------------------------------------------------------------

  /** The number formed by digits 0..i-1. */
  ghost function Lower(a: nat, i: nat): int {
    if i == 0 then 0 else Lower(a, i - 1) + Digit(a, i - 1) * Pow(16, i - 1)
  }

  /** Upper and lower parts make up the whole. */
  lemma {:induction false} LowerUpper(a: nat, i: nat)
    requires i <= 64
    ensures Upper(a, i) * Pow(16, i) + Lower(a, i) == Upper(a, 0)
    decreases i
  {
    hide Digit;
    if i == 0 {
      assert Pow(16, 0) == 1;
    } else {
      LowerUpper(a, i - 1);
      assert Upper(a, i - 1) == 16 * Upper(a, i) + Digit(a, i - 1);
      MoveDigit(Upper(a, i), Digit(a, i - 1), Pow(16, i - 1));
    }
  }

  lemma MoveDigit(u: int, d: int, w: int)
    ensures (16 * u + d) * w == u * (16 * w) + d * w
  {}

  /** Lower parts are odd and below the next power in absolute value. */
  lemma {:induction false} LowerBound(a: nat, i: nat)
    ensures 0 - Pow(16, i) < Lower(a, i) < Pow(16, i) && (i > 0 ==> Lower(a, i) % 2 == 1)
  {
    hide Digit;
    if i == 0 {
      assert Pow(16, 0) == 1;
    } else {
      LowerBound(a, i - 1);
      DigitRange(a, i - 1);
      BoundStep(Lower(a, i - 1), Digit(a, i - 1), Pow(16, i - 1));
      if i == 1 {
        assert Pow(16, 0) == 1;
      } else {
        EvenTerm(Lower(a, i - 1), Digit(a, i - 1), Pow(16, i - 2));
      }
    }
  }

  lemma DigitRange(a: nat, i: nat)
    ensures -15 <= Digit(a, i) <= 15 && Digit(a, i) % 2 == 1
  {}

  lemma BoundStep(v: int, d: int, w: int)
    requires -w < v < w && -15 <= d <= 15
    ensures -(16 * w) < v + d * w < 16 * w
  {
    MulMono(d, 15, w);
    MulMono(-15, d, w);
  }

  lemma EvenTerm(v: int, d: int, w: int)
    requires v % 2 == 1
    ensures (v + d * (16 * w)) % 2 == 1
  {
    assert d * (16 * w) == 2 * (8 * (d * w));
  }

  /** No partial sum is a multiple of the order. */
  lemma LowerNotMultiple(k: int, n: int, i: nat)
    requires 0 < k < n && Modulus(n) && n % 2 == 1 && 1 <= i <= 64
    ensures Recoded(k, n) >= 0 && !Cong(Lower(Recoded(k, n), i), 0, n)
  {
    hide Lower;
    RecodedFacts(k, n);
    var a := Recoded(k, n);
    if i == 64 {
      WholeLower(a);
      UpperNotMultiple(k, n, 0);
    } else {
      LowerBound(a, i);
      PowMono(16, i, 63);
      SixteenPowers();
      SmallNotMultiple(Lower(a, i), n);
    }
  }

  lemma TermNotMultiple(d: int, i: nat, n: int)
    requires Modulus(n) && n % 2 == 1 && IsPrime(n) && 0 < d < 16
    ensures !Cong(d * Pow(16, i), 0, n)
  {
    PowerNotMultiple(i, n);
    SmallNotMultiple(d, n);
    if Cong(d * Pow(16, i), 0, n) { EuclidLemma(d, Pow(16, i), n); }
  }

  lemma {:induction false} PowerNotMultiple(i: nat, n: int)
    requires Modulus(n) && IsPrime(n)
    ensures !Cong(Pow(16, i), 0, n)
  {
    if i == 0 {
      SmallNotMultiple(1, n);
    } else {
      PowerNotMultiple(i - 1, n);
      SmallNotMultiple(16, n);
      if Cong(Pow(16, i), 0, n) { EuclidLemma(16, Pow(16, i - 1), n); }
    }
  }

  // ---- windows ---------------------------------------------------------------------------------

  /** a >>= 4, limb by limb */
  method ShiftFour(a: array<uint32>)
    requires Normalized(a)
    modifies a
    ensures Normalized(a) && Val(a) == old(Val(a)) / 16
  {
    hide FourLower, Num;
    ghost var s: seq<int> := a[..];
    var j := 0;
    while j < 8
      invariant 0 <= j <= 8 && forall m :: j <= m < 9 ==> a[m] == s[m]
      invariant forall m :: 0 <= m < j ==> a[m] == s[m] / 16 + s[m + 1] % 16 * 0x400_0000 && a[m] < LIMB
    {
      assert a[j] == s[j] && a[j + 1] == s[j + 1];
      a[j] := FourLower(a[j], a[j + 1]);
      j := j + 1;
    }
    a[8] := a[8] / 16;
    Sixteenth(s, a[..], 0);
    assert s[0..] == s && a[..][0..] == a[..];
  }

  function FourLower(x: uint32, above: uint32): (r: uint32)
    requires x < LIMB && above < LIMB
    ensures r == x / 16 + above % 16 * 0x400_0000 < LIMB
  {
    TwentySix();
    OrIsSum(above % 16, x / 16, 26);
    Or(above % 16 * 0x400_0000, x / 16)
  }

  lemma TwentySix()
    ensures Pow(2, 26) == 0x400_0000
  {
    TwoPowers();
    PowAdd(2, 24, 2);
    assert Pow(2, 2) == 4;
  }

  lemma {:induction false} Sixteenth(s: seq<int>, t: seq<int>, j: nat)
    requires |s| == |t| == 9 && j <= 8 && IsDigits(s, LIMB)
    requires forall m :: 0 <= m < 8 ==> t[m] == s[m] / 16 + s[m + 1] % 16 * 0x400_0000
    requires t[8] == s[8] / 16
    ensures 16 * Num(t[j..], LIMB) + s[j] % 16 == Num(s[j..], LIMB)
    decreases 8 - j
  {
    NumCons(s[j..], LIMB);
    NumCons(t[j..], LIMB);
    assert s[j..][1..] == s[j + 1..] && t[j..][1..] == t[j + 1..];
    if j < 8 {
      Sixteenth(s, t, j + 1);
    } else {
      assert s[9..] == [] && t[9..] == [];
    }
  }

  /** The low window of the shifted scalar. */
  lemma LowWindow(s: seq<int>, a: nat, i: nat)
    requires |s| == 9 && IsDigits(s, LIMB) && Pow(16, i) > 0 && Num(s, LIMB) == a / Pow(16, i)
    ensures s[0] % 32 == Window(a, i)
  {
    NumCons(s, LIMB);
    LowFive(s[0], Num(s[1..], LIMB));
  }

  lemma LowFive(x: int, h: int)
    ensures (x + LIMB * h) % 32 == x % 32
  {
    assert LIMB * h == 32 * (0x200_0000 * h);
    DivMod(x, 32);
    DivModUnique(x + LIMB * h, 32, x / 32 + 0x200_0000 * h, x % 32);
  }

  /** The lowest bit of a window is the highest bit of the window below, which carries its sign. */
  lemma WindowsOverlap(a: nat, i: nat)
    requires i > 0
    ensures Window(a, i) % 2 == 1 <==> Window(a, i - 1) >= 16
  {
    PowPos(16, i);
    PowPos(16, i - 1);
    DivDiv(a, Pow(16, i - 1), 16);
    assert Pow(16, i - 1) * 16 == Pow(16, i);
    OverlapBit(a / Pow(16, i - 1));
  }

  lemma OverlapBit(x: nat)
    ensures (x / 16 % 32) % 2 == 1 <==> x % 32 >= 16
  {
    var q, r := x / 32, x % 32;
    var h := if r < 16 then 0 else 1;
    DivModUnique(x, 16, 2 * q + h, r - 16 * h);
    DivMod(2 * q + h, 32);
  }

  /** The masked window is odd exactly if this window and the last have the same sign. */
  lemma SameSigns(a: nat, i: nat)
    requires i > 0
    ensures var w, s := Window(a, i), SignWord(Window(a, i));
      (Xor(w, s) % 16) % 2 == 1 <==> s == SignWord(Window(a, i - 1))
  {
    hide Xor, Window;
    var w := Window(a, i);
    WindowsOverlap(a, i);
    XorParts(w, SignWord(w));
    LowBitKept(Xor(w, SignWord(w)));
  }

  lemma LowBitKept(x: nat)
    ensures (x % 16) % 2 == x % 2
  {}

  // ---- negating the ordinate -------------------------------------------------------------------

  /** Replacing y by 2p - y negates the point. */
  lemma NegatedOrdinate(c: Params, x: int, y: int, z: int, q: Point)
    requires ValidParams(c) && OnCurve(c, q) && Represents(c, x, y, z, q)
    ensures Represents(c, x, 2 * c.p - y, z, Negate(c, q))
  {
    var p, w := c.p, (z * z) * z;
    CongMod(-q.y, p);
    CongIntro(w, w, 0, p);
    CongMul((-q.y) % p, -q.y, w, w, p);
    CongIntro(2 * p - y, 0 - y, 2, p);
    CongIntro(0, 0, 0, p);
    CongSub(0, 0, y, q.y * w, p);
    assert (-q.y) * w == 0 - q.y * w;
  }

  /** The ordinate of a point that is not its own opposite does not vanish. */
  lemma OrdinateNotZero(c: Params, x: int, y: int, z: int, q: Point)
    requires ValidParams(c) && OnCurve(c, q) && Represents(c, x, y, z, q) && !Opposite(c, q, q)
    ensures y != 0
  {
    var p, w := c.p, (z * z) * z;
    if y == 0 {
      if Cong(q.y * w, 0, p) { EuclidLemma(q.y, w, p); }
      if Cong(w, 0, p) { EuclidLemma(z * z, z, p); }
      if Cong(z * z, 0, p) { EuclidLemma(z, z, p); }
      CongAdd(q.y, 0, q.y, 0, p);
    }
  }

  /** conditional_negate on the ordinate. */
  method NegateOrdinateIf(c: Params, cond: bool, j: JacobianPoint, ghost q: Point, ghost m: int)
    requires Setting(c, q) && !Cong(m, 0, c.n) && j.Stands(c, Multiple(c, m, q))
    modifies j
    ensures j.Stands(c, Multiple(c, if cond then -m else m, q))
  {
    hide Multiple, Cong;
    if cond {
      ghost var w := Multiple(c, m, q);
      DoubleSafe(c, q, m);
      OrdinateNotZero(c, j.x, j.y, j.z, w);
      NegatedOrdinate(c, j.x, j.y, j.z, w);
      MultipleNegated(c, m, q);
      NegateOnCurve(c, w);
      j.y := 2 * c.p - j.y;
    }
  }

  // ---- the loop --------------------------------------------------------------------------------

  /** cp[i][j] = (2*j + 1) * 16^i * G, row after row. */
  ghost predicate IsTable(c: Params, g: Point, cp: seq<CurvePoint>)
    requires ValidParams(c)
    reads cp
  {
    |cp| == 512 && forall i, j :: 0 <= i < 64 && 0 <= j < 8 ==> EntryStands(c, g, cp, i, j)
  }

  ghost predicate EntryStands(c: Params, g: Point, cp: seq<CurvePoint>, i: nat, j: nat)
    requires ValidParams(c) && |cp| == 512 && i < 64 && j < 8
    reads cp
  {
    cp[8 * i + j].Stands(c, Multiple(c, (2 * j + 1) * Pow(16, i), g))
  }

  /** The accumulator stands for the lower part, up to the sign of its last window. */
  ghost predicate Accumulated(c: Params, j: JacobianPoint, g: Point, a: nat, i: nat)
    requires ValidParams(c) && i > 0
    reads j
  {
    j.Stands(c, Multiple(c, Signed(Lower(a, i), SignWord(Window(a, i - 1))), g))
  }

  /** One round: the accumulator gets the sign of the new window, then the table entry is added. */
  method AddDigit(c: Params, jres: JacobianPoint, lowbits: uint32, entry: CurvePoint, ghost g: Point, ghost k: int,
                  ghost i: nat)
    requires Setting(c, g) && 0 < k < c.n && 1 <= i < 64 && Recoded(k, c.n) >= 0
    requires var w := Window(Recoded(k, c.n), i); lowbits == Xor(w, SignWord(w)) % 16
    requires entry.Stands(c, Multiple(c, (2 * (lowbits / 2) + 1) * Pow(16, i), g))
    requires Accumulated(c, jres, g, Recoded(k, c.n), i)
    modifies jres
    ensures Accumulated(c, jres, g, Recoded(k, c.n), i + 1)
  {
    hide Multiple, Cong, Xor, Window, Lower, Recoded, SignedDigit;
    ghost var a := Recoded(k, c.n);
    ghost var s0, s := SignWord(Window(a, i - 1)), SignWord(Window(a, i));
    SameSigns(a, i);
    LowerNotMultiple(k, c.n, i);
    LowerNotMultiple(k, c.n, i + 1);
    NegatedNotMultiple(Lower(a, i), c.n);
    NegatedNotMultiple(Lower(a, i + 1), c.n);
    NegateOrdinateIf(c, lowbits % 2 == 0, jres, g, Signed(Lower(a, i), s0));
    TableIndex(Window(a, i), s);
    ghost var d := 2 * (lowbits / 2) + 1;
    TermNotMultiple(d, i, c.n);
    NextLower(a, i, s, d);
    AddSafe(c, g, Signed(Lower(a, i), s), d * Pow(16, i));
    PointJacobianAdd(c, entry, jres, Multiple(c, d * Pow(16, i), g), Multiple(c, Signed(Lower(a, i), s), g));
  }

  lemma NextLower(a: nat, i: nat, s: uint32, d: int)
    requires d == Signed(SignedDigit(Window(a, i)), s)
    ensures Signed(Lower(a, i), s) + d * Pow(16, i) == Signed(Lower(a, i + 1), s)
  {
    hide Pow, Window, SignedDigit;
    var v, w := SignedDigit(Window(a, i)), Pow(16, i);
    assert Lower(a, i + 1) == Lower(a, i) + v * w;
    MinusTimes(v, w);
  }

  lemma MinusTimes(v: int, w: int)
    ensures (-v) * w == -(v * w)
  {}

  /** The lowest window of the shifted scalar, with its sign folded in. */
  method LowBits(a: array<uint32>, ghost k: nat, ghost i: nat) returns (lowbits: uint32)
    requires Normalized(a) && Pow(16, i) > 0 && Val(a) == k / Pow(16, i)
    ensures var w := Window(k, i); lowbits == Xor(w, SignWord(w)) % 16 < 16
  {
    hide Xor, Window, Num;
    LowWindow(a[..], k, i);
    lowbits := a[0] % 32;
    var folded: nat := Xor(lowbits, if lowbits / 16 >= 1 then 0 else 0xffff_ffff);
    lowbits := folded % 16;
  }

  /** The first digit: its table entry over a random denominator. */
  method FirstDigit(c: Params, a: array<uint32>, cp: seq<CurvePoint>, jres: JacobianPoint, ghost g: Point, ghost k: int)
    requires Setting(c, g) && IsTable(c, g, cp) && 0 < k < c.n && Normalized(a) && Val(a) == Recoded(k, c.n)
    modifies jres
    ensures Accumulated(c, jres, g, Val(a), 1)
  {
    hide Multiple, Cong, Xor, Window, Recoded, SignedDigit;
    ghost var v := Val(a);
    assert Pow(16, 0) == 1;
    DivModUnique(v, 1, v, 0);
    RecodedFacts(k, c.n);
    var lowbits := LowBits(a, v, 0);
    TableIndex(Window(v, 0), SignWord(Window(v, 0)));
    ghost var m := 2 * (lowbits / 2) + 1;
    NextLower(v, 0, SignWord(Window(v, 0)), m);
    SmallNotMultiple(m, c.n);
    MultipleVanishes(c, g, c.n, m);
    MultipleOnCurve(c, m, g);
    assert EntryStands(c, g, cp, 0, lowbits / 2);
    CurveToJacobian(c, cp[lowbits / 2], jres, Multiple(c, m, g));
  }

  /** The loop over the other 63 digits. */
  method AddDigits(c: Params, a: array<uint32>, cp: seq<CurvePoint>, jres: JacobianPoint, ghost g: Point, ghost k: int)
    requires Setting(c, g) && IsTable(c, g, cp) && 0 < k < c.n && Normalized(a) && Val(a) == Recoded(k, c.n)
    requires Accumulated(c, jres, g, Val(a), 1)
    modifies jres, a
    ensures Accumulated(c, jres, g, old(Val(a)), 64)
    ensures Normalized(a) && Pow(16, 63) > 0 && Val(a) == old(Val(a)) / Pow(16, 63)
  {
    hide Multiple, Cong, Xor, Window, Recoded, Accumulated, Num, IsTable;
    ghost var v := Val(a);
    assert Pow(16, 0) == 1;
    DivModUnique(v, 1, v, 0);
    RecodedFacts(k, c.n);
    var i := 1;
    while i < 64
      invariant 1 <= i <= 64 && Normalized(a) && Pow(16, i - 1) > 0 && Val(a) == v / Pow(16, i - 1)
      invariant Accumulated(c, jres, g, v, i) && IsTable(c, g, cp)
    {
      ShiftFour(a);
      PowPos(16, i);
      DivDiv(v, Pow(16, i - 1), 16);
      assert Pow(16, i - 1) * 16 == Pow(16, i);
      var lowbits := LowBits(a, v, i);
      var entry := TableEntry(c, cp, i, lowbits / 2, g);
      AddDigit(c, jres, lowbits, entry, g, k, i);
      i := i + 1;
    }
  }

  method TableEntry(c: Params, cp: seq<CurvePoint>, i: nat, j: nat, ghost g: Point) returns (entry: CurvePoint)
    requires ValidParams(c) && IsTable(c, g, cp) && i < 64 && j < 8
    ensures entry.Stands(c, Multiple(c, (2 * j + 1) * Pow(16, i), g))
  {
    assert EntryStands(c, g, cp, i, j);
    entry := cp[8 * i + j];
  }

  /** res := k * G for every k below the order, given the table of odd multiples of the powers of sixteen. */
  method ScalarMultiply(c: Params, k: array<uint32>, order: array<uint32>, cp: seq<CurvePoint>, res: CurvePoint,
                        ghost g: Point)
    requires Setting(c, g) && IsTable(c, g, cp)
    requires Normalized(k) && Normalized(order) && Val(order) == c.n && Val(k) < c.n
    modifies res
    ensures res.Stands(c, Multiple(c, Val(k), g))
  {
    hide Accumulated, Window, Lower, IsTable;
    var a := new uint32[9];
    MakeOddScalar(k, order, a);
    var isZero := BnIsZero(k);
    if isZero {
      res.x, res.y := 0, 0;
      return;
    }
    ghost var v := Val(a);
    RecodedFacts(Val(k), c.n);
    var jres := new JacobianPoint(0, 0, 0);
    FirstDigit(c, a, cp, jres, g, Val(k));
    AddDigits(c, a, cp, jres, g, Val(k));
    LowWindow(a[..], v, 63);
    Finish(c, a, jres, res, g, Val(k), v);
  }

  /** The sign of the last window is undone, and the point is made affine. */
  method Finish(c: Params, a: array<uint32>, jres: JacobianPoint, res: CurvePoint, ghost g: Point, ghost k: int,
                ghost v: nat)
    requires Setting(c, g) && 0 < k < c.n && v == Recoded(k, c.n) && Accumulated(c, jres, g, v, 64)
    requires a.Length == 9 && a[0] % 32 == Window(v, 63)
    modifies jres, res
    ensures res.Stands(c, Multiple(c, k, g))
  {
    hide Multiple, Cong, Window, Lower, Recoded, Upper, Pow;
    LowerNotMultiple(k, c.n, 64);
    NegatedNotMultiple(Lower(v, 64), c.n);
    WholeLower(v);
    ghost var sign := SignWord(Window(v, 63));
    var negative := (a[0] / 16) % 2 == 0;
    SignBit(a[0]);
    NegateOrdinateIf(c, negative, jres, g, Signed(Lower(v, 64), sign));
    DigitsTotal(c, g, k, sign);
    JacobianToCurve(c, jres, res, Multiple(c, k, g));
  }

  lemma WholeLower(a: nat)
    ensures Lower(a, 64) == Upper(a, 0)
  {
    hide Lower, Pow;
    LowerUpper(a, 64);
    assert Upper(a, 64) == 0;
  }

  lemma SignBit(x: nat)
    ensures (x / 16) % 2 == 0 <==> SignWord(x % 32) != 0
  {
    var q, r := x / 32, x % 32;
    var h := if r < 16 then 0 else 1;
    DivModUnique(x, 16, 2 * q + h, r - 16 * h);
  }
}
