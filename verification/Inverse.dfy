/** bn_inverse: the Almost Modular Inverse on two packed registers, then division by 2^k modulo the prime. */
module Inverse {
  import opened Arith
  import opened Bits
  import opened Digits
  import opened Residues
  import opened Bignum
  import opened Combo
  import opened Octets

  // ---- the algorithm on integers ---------------------------------------------------------

  /** The loop invariant on numbers. The front numbers are eu and ou, the back numbers es and os; sg is 1 when
      the even register is the one that started with the prime, -1 otherwise. */
  ghost predicate Almost(x: int, p: int, eu: int, es: int, ou: int, os: int, sg: int, k: nat) {
    && eu >= 1 && ou >= 1 && es >= 0 && os >= 0 && (sg == 1 || sg == -1)
    && eu * es + ou * os == p
    && (if sg == 1 then ou < p else eu < p)
    && Cong(x * es, sg * (ou * Pow(2, k)), p)
    && Cong(x * os, -sg * (eu * Pow(2, k)), p)
    && eu * ou * Pow(2, k) < p * p
  }

  lemma AlmostStart(x: int, p: int)
    requires 0 < x < p
    ensures Almost(x, p, x, 0, p, 1, -1, 0)
  {
    assert Pow(2, 0) == 1;
    assert -(-1) * (x * 1) == x;
    CongIntro(x * 0, -1 * (p * 1), 1, p);
    assert -1 * (p * 1) == -p;
    MulStrict(x, p, p);
  }

  /** Moving m = 2^t from the front to the back of the even register. */
  lemma AlmostHalve(x: int, p: int, eu: int, eu': int, es: int, ou: int, os: int, sg: int, k: nat, t: nat)
    requires Almost(x, p, eu, es, ou, os, sg, k) && eu == eu' * Pow(2, t)
    ensures Almost(x, p, eu', es * Pow(2, t), ou, os, sg, k + t)
  {
    var m, w := Pow(2, t), Pow(2, k);
    PowPos(2, t);
    PowAdd(2, k, t);
    PositiveFactor(eu, eu', m);
    ProductKept(eu, eu', es, m);
    CongMul(x * es, sg * (ou * w), m, m, p);
    MulAssoc(x, es, m);
    HalveWeights(eu', ou, sg, w, m);
    MulMono(0, es, m);
  }

  lemma PositiveFactor(u: int, u': int, m: int)
    requires u >= 1 && m >= 1 && u == u' * m
    ensures 1 <= u' <= u
  {
    if u' <= 0 { MulMono(u', 0, m); }
    MulMono(1, m, u');
  }

  lemma HalveWeights(eu: int, ou: int, sg: int, w: int, m: int)
    ensures (sg * (ou * w)) * m == sg * (ou * (w * m))
    ensures -sg * ((eu * m) * w) == -sg * (eu * (w * m))
    ensures (eu * m) * ou * w == eu * ou * (w * m)
  {
    MulAssoc(sg, ou * w, m);
    MulAssoc(ou, w, m);
    assert (eu * m) * w == eu * (w * m);
    assert (eu * m) * ou * w == ((eu * m) * w) * ou;
    assert eu * ou * (w * m) == (eu * (w * m)) * ou;
  }

  /** The two registers change roles. */
  lemma AlmostSwap(x: int, p: int, eu: int, es: int, ou: int, os: int, sg: int, k: nat)
    requires Almost(x, p, eu, es, ou, os, sg, k)
    ensures Almost(x, p, ou, os, eu, es, -sg, k)
  {
    assert eu * ou == ou * eu;
  }

  /** The larger front number loses the smaller one; the smaller's back number gains the other. */
  lemma AlmostSubtract(x: int, p: int, eu: int, es: int, ou: int, os: int, sg: int, k: nat)
    requires Almost(x, p, eu, es, ou, os, sg, k) && eu > ou
    ensures Almost(x, p, eu - ou, es, ou, os + es, sg, k)
  {
    var w := Pow(2, k);
    PowPos(2, k);
    DistributeSub(eu, ou, es);
    DistributeLeft(ou, os, es);
    DistributeLeft(x, os, es);
    CongAdd(x * os, -sg * (eu * w), x * es, sg * (ou * w), p);
    DistributeSub(eu, ou, w);
    SignedDifference(sg, eu * w, ou * w);
    MulMono(eu - ou, eu, ou);
    MulMono((eu - ou) * ou, eu * ou, w);
  }

  lemma SignedDifference(sg: int, a: int, b: int)
    requires sg == 1 || sg == -1
    ensures -sg * a + sg * b == -sg * (a - b)
  {}

  /** The exponent never leaves the range of a 512-bit product. */
  lemma ExponentBound(x: int, p: int, eu: int, es: int, ou: int, os: int, sg: int, k: nat)
    requires Almost(x, p, eu, es, ou, os, sg, k) && 0 < p < TWO256
    ensures k < 512
  {
    MulMono(1, eu, ou);
    PowPos(2, k);
    MulMono(1, eu * ou, Pow(2, k));
    MulMono(p, TWO256, p);
    MulMono(p, TWO256, TWO256);
    if k >= 512 {
      PowMono(2, 512, k);
      TwoTo512();
    }
  }

  lemma TwoTo512()
    ensures Pow(2, 512) == TWO256 * TWO256 && Pow(WORD, 8) == TWO256
  {
    TwoPowers();
    assert Pow(WORD, 2) == 0x1_0000_0000_0000_0000;
    PowAdd(WORD, 2, 2);
    PowAdd(WORD, 4, 4);
    PowMul(2, 32, 8);
    PowAdd(2, 256, 256);
  }

  /** The products the registers must hold stay below 2^256. */
  lemma ProductsFit(x: int, p: int, eu: int, es: int, ou: int, os: int, sg: int, k: nat)
    requires Almost(x, p, eu, es, ou, os, sg, k) && p < TWO256
    ensures eu * es < Pow(WORD, 8) && ou * os < Pow(WORD, 8)
  {
    TwoTo512();
    MulMono(0, es, eu);
    MulMono(0, os, ou);
  }

  /** Equal front numbers are both 1, so the back number of the first register is the inverse up to 2^k. */
  lemma AlmostDone(x: int, p: int, u: int, es: int, os: int, sg: int, k: nat)
    requires IsPrime(p) && p % 2 == 1 && Almost(x, p, u, es, u, os, sg, k)
    ensures u == 1
    ensures var s := if sg == 1 then es else os; 0 <= s < p && Cong(x * s, Pow(2, k), p)
  {
    DistributeLeft(u, es, os);
    assert p == u * (es + os);
    assert u == 1 by {
      CongIntro(p, 0, es + os, u);
      assert Cong(p, 0, u);
    }
    var s := if sg == 1 then es else os;
    if s == p {
      CongIntro(x * p, 0, x, p);
      PowerOfTwoNotMultiple(k, p);
    }
  }

  /** An odd prime divides no power of two. */
  lemma {:induction false} PowerOfTwoNotMultiple(k: nat, p: int)
    requires IsPrime(p) && p % 2 == 1
    ensures !Cong(Pow(2, k), 0, p)
  {
    if k == 0 {
      assert Pow(2, 0) == 1;
      if Cong(1, 0, p) { CongUnique(1, 0, p); }
    } else if Cong(Pow(2, k), 0, p) {
      PowerOfTwoNotMultiple(k - 1, p);
      EuclidLemma(2, Pow(2, k - 1), p);
      CongUnique(2, 0, p);
    }
  }

  // ---- limbs to words and back -----------------------------------------------------------

  /** The words emitted so far and the waiting bits account for the limbs read so far. */
  ghost predicate WordsSoFar(words: seq<int>, temp: int, limbs: seq<int>, i: nat) {
    && |limbs| == 9 && i <= 8 && |words| == i && 0 <= temp < Pow(2, 30 - 2 * i)
    && Num(words, WORD) + temp * Pow(WORD, i) == Num(limbs[..i + 1], LIMB)
  }

  lemma WordRoundPowers(i: nat)
    requires i < 8
    ensures Pow(2, 2 + 2 * i) > 0 && Pow(2, 30 - 2 * i) * Pow(2, 2 + 2 * i) == WORD
    ensures Pow(2, 28 - 2 * i) * Pow(2, 2 + 2 * i) == LIMB && Pow(2, 28 - 2 * i) <= LIMB
  {
    TwoPowers();
    PowPos(2, 2 + 2 * i);
    PowAdd(2, 30 - 2 * i, 2 + 2 * i);
    PowAdd(2, 28 - 2 * i, 2 + 2 * i);
    PowMono(2, 28 - 2 * i, 30);
  }

  lemma WordRound(limb: nat, temp: nat, i: nat)
    requires i < 8 && limb < LIMB && temp < Pow(2, 30 - 2 * i)
    ensures Pow(2, 2 + 2 * i) > 0 && 0 <= limb / Pow(2, 2 + 2 * i) < Pow(2, 30 - 2 * (i + 1)) <= LIMB
    ensures var word := Or((limb * Pow(2, 30 - 2 * i)) % WORD, temp);
            word < WORD && word + (limb / Pow(2, 2 + 2 * i)) * WORD == temp + limb * Pow(2, 30 - 2 * i)
  {
    hide Or, Pow;
    TwoPowers();
    WordRoundPowers(i);
    ShiftTruncated(limb, 30 - 2 * i, 32);
    assert 32 - (30 - 2 * i) == 2 + 2 * i;
    DivBounds(limb, Pow(2, 2 + 2 * i), Pow(2, 28 - 2 * i));
    SplitWord(limb, temp, Pow(2, 30 - 2 * i), Pow(2, 2 + 2 * i));
    OrIsSum(limb % Pow(2, 2 + 2 * i), temp, 30 - 2 * i);
    LowPartBound(limb, temp, Pow(2, 30 - 2 * i), Pow(2, 2 + 2 * i));
  }

  lemma LowPartBound(x: int, t: int, v: int, w: int)
    requires w > 0 && 0 <= t < v && w * v == WORD
    ensures 0 <= (x % w) * v + t < WORD
  {
    DivMod(x, w);
    MulMono(x % w, w - 1, v);
    DistributeSub(w, 1, v);
    MulMono(0, x % w, v);
  }

  lemma WordStep(words: seq<int>, temp: int, limbs: seq<int>, i: nat, word: int, temp': int)
    requires WordsSoFar(words, temp, limbs, i) && i < 8
    requires word + temp' * WORD == temp + limbs[i + 1] * Pow(2, 30 - 2 * i) && 0 <= temp' < Pow(2, 30 - 2 * (i + 1))
    ensures WordsSoFar(words + [word], temp', limbs, i + 1)
  {
    NumStep(limbs, i + 1, LIMB);
    NumSnoc(words, word, WORD);
    LimbWeight(i);
    var w, v, l := Pow(WORD, i), Pow(2, 30 - 2 * i), limbs[i + 1];
    calc {
      word * w + temp' * (WORD * w);
      { MulAssoc(temp', WORD, w); Distribute(word, temp' * WORD, w); }
      (temp + l * v) * w;
      { Distribute(temp, l * v, w); MulAssoc(l, v, w); }
      temp * w + l * (v * w);
    }
  }

  lemma LimbWeight(i: nat)
    requires i < 8
    ensures Pow(LIMB, i + 1) == Pow(2, 30 - 2 * i) * Pow(WORD, i)
  {
    assert Pow(WORD, i) == Pow(2, 32 * i) by { TwoPowers(); PowMul(2, 32, i); }
    assert Pow(LIMB, i + 1) == Pow(2, 30 * (i + 1)) by { TwoPowers(); PowMul(2, 30, i + 1); }
    PowAdd(2, 30 - 2 * i, 32 * i);
  }

  /** Converts nine 30-bit limbs below 2^256 to eight 32-bit words. */
  method ToWords(val: array<uint32>) returns (words: seq<uint32>)
    requires Normalized(val) && Val(val) < TWO256
    ensures |words| == 8 && Num(words, WORD) == Val(val)
  {
    TwoPowers();
    words := [];
    var temp: uint32 := val[0];
    WordsStart(val[..]);
    var i := 0;
    while i < 8
      invariant 0 <= i <= 8 && WordsSoFar(words, temp, val[..], i)
    {
      var limb: uint32 := val[i + 1];
      WordRound(limb, temp, i);
      var word: uint32 := Or((limb as int * Pow(2, 30 - 2 * i)) % 0x1_0000_0000, temp);
      WordStep(words, temp, val[..], i, word, limb / Pow(2, 2 + 2 * i));
      words := words + [word];
      temp := limb / Pow(2, 2 + 2 * i);
      i := i + 1;
    }
    WordsEnd(words, temp, val[..]);
  }

  lemma WordsStart(limbs: seq<int>)
    requires |limbs| == 9 && IsDigits(limbs, LIMB)
    ensures WordsSoFar([], limbs[0], limbs, 0)
  {
    TwoPowers();
    NumStep(limbs, 0, LIMB);
    assert Pow(LIMB, 0) == 1 && Pow(WORD, 0) == 1;
  }

  lemma WordsEnd(words: seq<uint32>, temp: int, limbs: seq<int>)
    requires WordsSoFar(words, temp, limbs, 8) && 0 <= Num(limbs, LIMB) < TWO256
    ensures Num(words, WORD) == Num(limbs, LIMB)
  {
    assert limbs[..9] == limbs;
    TwoTo512();
    NumBound(words, WORD);
    CarryIsZero(Num(words, WORD), temp, Num(limbs, LIMB), TWO256);
  }

  /** The limbs emitted so far and the waiting bits account for the words read so far. */
  ghost predicate LimbsSoFar(limbs: seq<int>, temp: int, words: seq<int>, i: nat) {
    && |words| == 8 && i <= 8 && |limbs| == i && 0 <= temp < Pow(2, 2 * i)
    && Num(limbs, LIMB) + temp * Pow(LIMB, i) == Num(words[..i], WORD)
  }

  lemma LimbStep(limbs: seq<int>, temp: int, words: seq<int>, i: nat, d: int, temp': int)
    requires LimbsSoFar(limbs, temp, words, i) && i < 8 && 0 <= temp' < Pow(2, 2 * (i + 1))
    requires temp + words[i] * Pow(2, 2 * i) == d + LIMB * temp'
    ensures LimbsSoFar(limbs + [d], temp', words, i + 1)
  {
    NumStep(words, i, WORD);
    NumSnoc(limbs, d, LIMB);
    WordWeight(i);
    RegroupStep(d, temp, temp', words[i], Pow(LIMB, i), Pow(2, 2 * i));
  }

  /** (word << 2i) & 0x3FFFFFFF joined with the waiting bits. */
  lemma LimbRound(word: nat, temp: nat, i: nat)
    requires i < 8 && word < WORD && temp < Pow(2, 2 * i)
    ensures Pow(2, 30 - 2 * i) > 0 && 0 <= word / Pow(2, 30 - 2 * i) < Pow(2, 2 * (i + 1))
    ensures word / Pow(2, 30 - 2 * i) < WORD
    ensures var d := Or((word * Pow(2, 2 * i)) % LIMB, temp);
            d < LIMB && temp + word * Pow(2, 2 * i) == d + LIMB * (word / Pow(2, 30 - 2 * i))
  {
    TwoPowers();
    RoundPowers(i);
    ShiftTruncated(word, 2 * i, 30);
    OrIsSum(word % Pow(2, 30 - 2 * i), temp, 2 * i);
    Regroup(word, temp, Pow(2, 2 * i), Pow(2, 30 - 2 * i));
  }

  /** Converts the back number of a register to nine limbs. */
  method FromBack(a: array<uint32>, x: array<uint32>)
    requires a.Length == 9 && x.Length == 9 && a != x
    modifies x
    ensures Normalized(x) && Val(x) == Num(Back(a[..])[..8], WORD)
  {
    ghost var words := Back(a[..])[..8];
    TwoPowers();
    var temp32: uint32 := 0;
    assert Pow(2, 0) == 1;
    var i := 0;
    while i < 8
      invariant 0 <= i <= 8
      invariant forall m :: 0 <= m < i ==> x[m] < LIMB
      invariant LimbsSoFar(x[..i], temp32, words, i)
    {
      ghost var before := x[..i];
      var word: uint32 := a[8 - i];
      assert words[i] == word;
      LimbRound(word, temp32, i);
      x[i] := Or((word as int * Pow(2, 2 * i)) % 0x4000_0000, temp32);
      assert x[..i + 1] == before + [x[i]];
      LimbStep(before, temp32, words, i, x[i], word / Pow(2, 30 - 2 * i));
      temp32 := word / Pow(2, 30 - 2 * i);
      i := i + 1;
    }
    ghost var before := x[..8];
    x[i] := temp32;
    assert x[..] == before + [x[8]];
    NumSnoc(before, temp32, LIMB);
    assert words[..8] == words && Pow(2, 16) == 0x1_0000;
  }

  // ---- division by a power of two modulo the prime ---------------------------------------

  /** -1/p0 modulo 2^32 for an odd p0, by repeated squaring of p0 - 1. */
  method NegatedInverse(p0: uint32) returns (inverse: uint32)
    requires p0 % 2 == 1
    ensures Cong(p0 * inverse, -1, WORD)
  {
    var amone: uint32 := p0 - 1;
    inverse := (p0 as int - 2) % 0x1_0000_0000;
    ghost var e := 1;
    assert Pow(2, 1) == 2;
    InverseSeed(p0);
    while amone != 0
      invariant 1 <= e <= 32 && Pow(2, e) > 0 && amone % Pow(2, e) == 0
      invariant Cong(p0 * inverse, amone * amone - 1, WORD)
      decreases 32 - e
    {
      SquareDivisible(amone, e);
      InverseRound(p0, inverse, amone);
      amone := (amone as int * amone) % 0x1_0000_0000;
      inverse := (inverse as int * (amone + 1)) % 0x1_0000_0000;
      e := if 2 * e < 32 then 2 * e else 32;
    }
  }

  lemma InverseSeed(p0: int)
    ensures Cong(p0 * ((p0 - 2) % WORD), (p0 - 1) * (p0 - 1) - 1, WORD)
  {
    CongMod(p0 - 2, WORD);
    CongMul(p0, p0, (p0 - 2) % WORD, p0 - 2, WORD);
    assert p0 * (p0 - 2) == (p0 - 1) * (p0 - 1) - 1;
  }

  lemma InverseRound(p0: int, inverse: int, amone: int)
    requires Cong(p0 * inverse, amone * amone - 1, WORD)
    ensures var s := (amone * amone) % WORD; Cong(p0 * ((inverse * (s + 1)) % WORD), s * s - 1, WORD)
  {
    var s := (amone * amone) % WORD;
    CongMod(amone * amone, WORD);
    CongSub(amone * amone, s, 1, 1, WORD);
    CongMod(inverse * (s + 1), WORD);
    CongMul(p0, p0, (inverse * (s + 1)) % WORD, inverse * (s + 1), WORD);
    CongMul(p0 * inverse, s - 1, s + 1, s + 1, WORD);
    MulAssoc(p0, inverse, s + 1);
    assert (s - 1) * (s + 1) == s * s - 1;
  }

  lemma SquareMultiple(q: int, e: nat, f: nat)
    requires f <= 2 * e
    ensures (q * Pow(2, e)) * (q * Pow(2, e)) == ((q * q) * Pow(2, 2 * e - f)) * Pow(2, f)
  {
    PowAdd(2, e, e);
    PowAdd(2, 2 * e - f, f);
    var d, g, h := Pow(2, e), Pow(2, 2 * e - f), Pow(2, f);
    assert (q * d) * (q * d) == (q * q) * (d * d);
    MulAssoc(q * q, g, h);
  }

  lemma RemainderMultiple(x: int, c: int, f: nat)
    requires f <= 32 && x == c * Pow(2, f)
    ensures Pow(2, f) > 0 && (x % WORD) % Pow(2, f) == 0
  {
    TwoPowers();
    PowPos(2, f);
    PowAdd(2, 32 - f, f);
    DivMod(x, WORD);
    var g, h, w := x / WORD, Pow(2, 32 - f), Pow(2, f);
    assert g * WORD == (g * h) * w by { MulAssoc(g, h, w); }
    DistributeSub(c, g * h, w);
    DivModUnique(x % WORD, w, c - g * h, 0);
  }

  /** Squaring doubles the number of trailing zero bits. */
  lemma SquareDivisible(a: uint32, e: nat)
    requires a != 0 && 1 <= e <= 32 && Pow(2, e) > 0 && a % Pow(2, e) == 0
    ensures e < 32
    ensures var f := if 2 * e < 32 then 2 * e else 32; Pow(2, f) > 0 && ((a as int * a) % WORD) % Pow(2, f) == 0
  {
    if e == 32 {
      TwoPowers();
      DivModUnique(a, WORD, 0, a);
    }
    DivMod(a, Pow(2, e));
    var q, f := a / Pow(2, e), if 2 * e < 32 then 2 * e else 32;
    SquareMultiple(q, e, f);
    RemainderMultiple(a as int * a, (q * q) * Pow(2, 2 * e - f), f);
  }

  /** The quotient of an exact division of s + f * p by m > f stays below p. */
  lemma DivideEnd(y: seq<int>, d: seq<int>, temp: int, s: int, f: int, p: int, m: int)
    requires |y| == 8 && |d| == 8 && IsDigits(y, WORD) && 0 <= s < p < TWO256 && 0 <= f < m
    requires DividedSoFar(y, d, 7, temp, m, WORD) && Num(d, WORD) == s + f * p
    ensures temp < WORD
    ensures var q := Num(y[..7] + [temp], WORD); 0 <= q < p && Cong(q * m, s, p)
  {
    assert d[..8] == d;
    var q := Num(y[..7], WORD) + temp * Pow(WORD, 7);
    NumSnoc(y[..7], temp, WORD);
    MulMono(f, m - 1, p);
    Distribute(m, -1, p);
    MulMono(0, f, p);
    assert q >= 0 by { if q < 0 { MulMono(q, -1, m); } }
    assert q < p by { if q >= p { MulMono(p, q, m); } }
    NumBound(y[..7], WORD);
    TwoTo512();
    if temp >= WORD { MulMono(WORD, temp, Pow(WORD, 7)); }
    CongIntro(q * m, s, f, p);
  }

  lemma FactorMakesMultiple(y0: uint32, p0: uint32, inverse: uint32, bits: nat)
    requires 1 <= bits <= 32 && Cong(p0 as int * inverse, -1, WORD)
    ensures Pow(2, bits) > 0
    ensures var f := (inverse as int * y0) % Pow(2, bits);
            0 <= f < Pow(2, bits) && (y0 as int + p0 as int * f) % Pow(2, bits) == 0
  {
    TwoPowers();
    PowPos(2, bits);
    PowAdd(2, 32 - bits, bits);
    var m, h := Pow(2, bits), Pow(2, 32 - bits);
    var f := (inverse as int * y0) % m;
    var t := CongQuotient(p0 as int * inverse, -1, WORD);
    MulAssoc(t, h, m);
    CongIntro(p0 as int * inverse, -1, t * h, m);
    CongMod(inverse as int * y0, m);
    CongMul(p0, p0, f, inverse as int * y0, m);
    CongMul(p0 as int * inverse, -1, y0, y0, m);
    MulAssoc(p0, inverse, y0);
    CongAdd(y0, y0, p0 as int * f, -1 * y0 as int, m);
    CongIsMod(y0 as int + p0 as int * f, 0, m);
    DivModUnique(0, m, 0, 0);
    DivMod(inverse as int * y0, m);
  }

  /** One column of the division: it never exceeds 64 bits, and for full words it reaches 2^64 - 1. */
  lemma ColumnFits(a: uint32, p: uint32, f: nat, bits: nat, temp: uint32)
    requires 1 <= bits <= 32 && f < Pow(2, bits)
    ensures 0 <= (a as int + p as int * f) * Pow(2, 32 - bits) + temp < WORD * WORD
    ensures 0 <= a as int + p as int * f <= (WORD - 1) * Pow(2, bits)
  {
    TwoPowers();
    PowAdd(2, bits, 32 - bits);
    var m, h := Pow(2, bits), Pow(2, 32 - bits);
    MulMono(0, p, f);
    MulMono(p, WORD - 1, f);
    MulMono(f, m - 1, WORD - 1);
    var c := a as int + p as int * f;
    MulMono(c, (WORD - 1) * m, h);
    MulMono(0, c, h);
    MulAssoc(WORD - 1, m, h);
  }

  /** factor = s * (-1/prime) modulo 2^bits, which makes s + factor * prime a multiple of 2^bits. */
  method ChooseFactor(y0: uint32, p0: uint32, inverse: uint32, bits: nat) returns (f: nat)
    requires 1 <= bits <= 32 && Cong(p0 as int * inverse, -1, WORD)
    ensures 0 < Pow(2, bits) && f < Pow(2, bits) && (y0 as int + p0 as int * f) % Pow(2, bits) == 0
  {
    FactorMakesMultiple(y0, p0, inverse, bits);
    f := (inverse as int * y0) % Pow(2, bits);
  }

  /** The lowest column, divided by 2^bits. */
  function FirstColumn(a: uint32, p: uint32, f: nat, bits: nat): (temp: uint64)
    requires 1 <= bits <= 32 && 0 <= f < Pow(2, bits) && Pow(2, bits) > 0
    requires (a as int + p as int * f) % Pow(2, bits) == 0
    ensures Pow(2, bits) * temp == a as int + p as int * f && temp < WORD
  {
    var d := a as int + p as int * f;
    ColumnFits(a, p, f, bits, 0);
    DivMod(d, Pow(2, bits));
    DivBounds(d, Pow(2, bits), WORD);
    d / Pow(2, bits)
  }

  /** A further column, moved down by 2^bits into the running word. */
  function NextColumn(a: uint32, p: uint32, f: nat, bits: nat, temp: uint32): (temp': uint64)
    requires 1 <= bits <= 32 && 0 <= f < Pow(2, bits)
    ensures temp' / 0x1_0000_0000 < WORD
    ensures Pow(2, bits) * temp' == Pow(2, bits) * temp + (a as int + p as int * f) * WORD
  {
    ColumnFits(a, p, f, bits, temp);
    BitsComplement(bits);
    ColumnIdentity(a as int + p as int * f, temp, Pow(2, bits), Pow(2, 32 - bits));
    (a as int + p as int * f) * Pow(2, 32 - bits) + temp
  }

  lemma BitsComplement(bits: nat)
    requires 1 <= bits <= 32
    ensures Pow(2, bits) * Pow(2, 32 - bits) == WORD
  {
    TwoPowers();
    PowAdd(2, bits, 32 - bits);
  }

  lemma ColumnIdentity(d: int, temp: int, m: int, h: int)
    requires m * h == WORD
    ensures m * (d * h + temp) == m * temp + d * WORD
  {
    DistributeLeft(m, d * h, temp);
    assert m * (d * h) == d * (m * h);
  }

  /** Replaces the back number s of the register by (s + f * p) / 2^bits, with f chosen so that the division is
      exact. It serves the full words (bits = 32) as well as the final partial word. */
  method DivideByPower(a: array<uint32>, pp: seq<uint32>, inverse: uint32, bits: nat, ghost s: int, ghost p: int)
    returns (ghost s': int)
    requires a.Length == 9 && |pp| == 8 && 1 <= bits <= 32
    requires Num(Back(a[..])[..8], WORD) == s && Num(pp, WORD) == p && 0 <= s < p < TWO256
    requires Cong(pp[0] as int * inverse, -1, WORD)
    modifies a
    ensures Num(Back(a[..])[..8], WORD) == s' && 0 <= s' < p
    ensures Cong(s' * Pow(2, bits), s, p)
  {
    ghost var y0 := Back(a[..])[..8];
    var temp, factor;
    ghost var y;
    temp, factor, y := DivideColumns(a, pp, inverse, bits, y0);
    NumCombine(y0, pp, 1, factor, WORD);
    DivideEnd(y, Combine(y0, pp, 1, factor), temp, s, factor, p, Pow(2, bits));
    a[1] := temp % 0x1_0000_0000;
    s' := Num(y[..7] + [temp], WORD);
    assert Back(a[..])[..8] == y[..7] + [temp];
  }

  /** The column loop: all words but the last receive the shifted sums, the pending word is returned. */
  method DivideColumns(a: array<uint32>, pp: seq<uint32>, inverse: uint32, bits: nat, ghost y0: seq<int>)
    returns (temp: uint64, factor: nat, ghost y: seq<int>)
    requires a.Length == 9 && |pp| == 8 && 1 <= bits <= 32 && y0 == Back(a[..])[..8]
    requires Cong(pp[0] as int * inverse, -1, WORD)
    modifies a
    ensures factor < Pow(2, bits)
    ensures |y| == 8 && forall k :: 0 <= k < 8 ==> y[k] == a[8 - k]
    ensures DividedSoFar(y, Combine(y0, pp, 1, factor), 7, temp, Pow(2, bits), WORD)
  {
    factor := ChooseFactor(a[8], pp[0], inverse, bits);
    ghost var d := Combine(y0, pp, 1, factor);
    ghost var m := Pow(2, bits);
    y := y0;
    temp := FirstColumn(a[8], pp[0], factor, bits);
    assert d[0] == y0[0] + factor * pp[0];
    DivideStart(y, d, temp, m, WORD);
    var i := 0;
    while i < 7
      invariant 0 <= i <= 7 && temp < WORD
      invariant |y| == 8 && forall k :: 0 <= k < 8 ==> y[k] == a[8 - k]
      invariant forall k :: i <= k < 8 ==> y[k] == y0[k]
      invariant DividedSoFar(y, d, i, temp, m, WORD)
    {
      assert d[i + 1] == y0[i + 1] + factor * pp[i + 1];
      ghost var before, temp0: int := y, temp;
      temp := NextColumn(a[8 - (i + 1)], pp[i + 1], factor, bits, temp);
      ghost var sum := temp;
      a[8 - i] := temp % 0x1_0000_0000;
      temp := temp / 0x1_0000_0000;
      assert sum == a[8 - i] as int + temp * WORD;
      y := y[i := a[8 - i]];
      DivideStep(before, y, d, i, temp0, temp, m, WORD);
      i := i + 1;
    }
  }

  // ---- the main loop ---------------------------------------------------------------------

  /** Makes the even register's front number odd and trimmed, moving 2^(k' - k) to its back number. */
  method MakeOdd(even: Register, k: nat, ghost eu: int, ghost es: int) returns (k': nat, ghost eu': int)
    requires even.Holds(eu, es) && eu > 0 && es >= 0 && even.len1 <= 8 && eu * es < Pow(WORD, 8)
    modifies even, even.a
    ensures k' >= k && eu == eu' * Pow(2, k' - k) && even.Holds(eu', es * Pow(2, k' - k))
    ensures even.IsTrimmed() && even.len1 <= 8 && eu' % 2 == 1
  {
    hide Num;
    even.AdjustLength(eu, es);
    ghost var u1, s1, k1;
    k', u1 := even.ShiftWords(eu, es, k);
    k1, s1 := k', es * Pow(2, k' - k);
    var j := even.CountZeroBits();
    if j > 0 {
      ShiftKeepsBound(eu, u1, es, k1 - k);
      eu' := even.ShiftBits(j, u1, s1);
      k' := k' + j;
      ShiftsCompose(eu, u1, eu', es, k1 - k, j);
    } else {
      eu' := u1;
      assert Pow(2, 0) == 1;
    }
    PackedParity(even.a[..], even.len1, eu', es * Pow(2, k' - k));
  }

  lemma ShiftKeepsBound(u: int, u1: int, s: int, t: nat)
    requires u == u1 * Pow(2, t) && u > 0 && s >= 0 && u * s < Pow(WORD, 8)
    ensures u1 > 0 && s * Pow(2, t) >= 0 && u1 * (s * Pow(2, t)) < Pow(WORD, 8)
  {
    PowPos(2, t);
    PositiveFactor(u, u1, Pow(2, t));
    ProductKept(u, u1, s, Pow(2, t));
  }

  lemma ShiftsCompose(u: int, u1: int, u2: int, s: int, t: nat, j: nat)
    requires u == u1 * Pow(2, t) && u1 == u2 * Pow(2, j)
    ensures u == u2 * Pow(2, t + j) && (s * Pow(2, t)) * Pow(2, j) == s * Pow(2, t + j)
  {
    PowAdd(2, t, j);
    assert (u2 * Pow(2, j)) * Pow(2, t) == u2 * (Pow(2, t) * Pow(2, j));
    MulAssoc(s, Pow(2, t), Pow(2, j));
  }

  /** A multiple by 2^t of an even number, or by a positive power of two, is even. */
  lemma BackStaysEven(u: int, u': int, s: int, t: nat)
    requires u == u' * Pow(2, t) && u' % 2 == 1 && (u % 2 == 0 || s % 2 == 0)
    ensures (s * Pow(2, t)) % 2 == 0
  {
    if t == 0 {
      assert Pow(2, 0) == 1;
    } else {
      var h := s * Pow(2, t - 1);
      assert s * Pow(2, t) == 2 * h by { assert s * (2 * Pow(2, t - 1)) == 2 * (s * Pow(2, t - 1)); }
    }
  }

  /** The numbers behind the loop: front and back of the even and of the odd register, the sign, the exponent. */
  datatype Numbers = Numbers(eu: int, es: int, ou: int, os: int, sg: int, k: nat)

  ghost predicate Invariant(even: Register, odd: Register, n: Numbers, x: int, p: int)
    reads even, even.a, odd, odd.a
  {
    && even != odd && even.a != odd.a && even.len1 <= 8 && odd.len1 <= 8
    && even.Holds(n.eu, n.es) && odd.Holds(n.ou, n.os) && odd.IsTrimmed()
    && Almost(x, p, n.eu, n.es, n.ou, n.os, n.sg, n.k)
  }

  lemma Parities(a: int, b: int, c: int, d: int)
    ensures a % 2 == 1 && b % 2 == 1 ==> (a - b) % 2 == 0
    ensures (c + d) % 2 == (d + c) % 2
    ensures c % 2 == 0 && d % 2 == 1 ==> (c + d) % 2 == 1
  {}

  /** First half of an iteration: the even front number becomes odd, the even back number is even. */
  method HalveStep(even: Register, odd: Register, k: nat, ghost n: Numbers, ghost x: int, ghost p: int)
    returns (k': nat, ghost n': Numbers)
    requires Invariant(even, odd, n, x, p) && n.k == k && p < TWO256 && (n.eu % 2 == 0 || n.es % 2 == 0)
    modifies even, even.a
    ensures Invariant(even, odd, n', x, p) && n'.k == k' && even.IsTrimmed()
    ensures n'.eu % 2 == 1 && n'.es % 2 == 0 && n'.eu <= n.eu
    ensures n'.ou == n.ou && n'.os == n.os && n'.sg == n.sg
  {
    ProductsFit(x, p, n.eu, n.es, n.ou, n.os, n.sg, k);
    ghost var eu;
    k', eu := MakeOdd(even, k, n.eu, n.es);
    n' := Numbers(eu, n.es * Pow(2, k' - k), n.ou, n.os, n.sg, k');
    AlmostHalve(x, p, n.eu, eu, n.es, n.ou, n.os, n.sg, k, k' - k);
    BackStaysEven(n.eu, eu, n.es, k' - k);
    PowPos(2, k' - k);
    PositiveFactor(n.eu, eu, Pow(2, k' - k));
  }

  /** Second half, for a larger even front number: it loses the odd one, whose back number gains the even one. */
  method SubtractStep(even: Register, odd: Register, ghost n: Numbers, ghost x: int, ghost p: int)
      returns (ghost n': Numbers)
    requires Invariant(even, odd, n, x, p) && even.IsTrimmed() && n.eu > n.ou && p < TWO256
    requires n.eu % 2 == 1 && n.ou % 2 == 1 && (n.es + n.os) % 2 == 1
    modifies even.a, odd.a
    ensures Invariant(even, odd, n', x, p) && n'.eu % 2 == 0 && n'.os % 2 == 1
    ensures n'.eu == n.eu - n.ou && n'.ou == n.ou && n'.sg == n.sg && n'.k == n.k
  {
    hide Pow, Num;
    n' := Numbers(n.eu - n.ou, n.es, n.ou, n.os + n.es, n.sg, n.k);
    Parities(n.eu, n.ou, n.os, n.es);
    LargerIsLonger(even.a[..], odd.a[..], even.len1, odd.len1, n.eu, n.ou, n.es, n.os);
    SubtractFront(even, odd, n.eu, n.es, n.ou, n.os);
    AlmostSubtract(x, p, n.eu, n.es, n.ou, n.os, n.sg, n.k);
    ProductsFit(x, p, n.eu - n.ou, n.es, n.ou, n.os + n.es, n.sg, n.k);
    AddBack(odd, even, n.ou, n.os, n.eu - n.ou, n.es);
  }

  /** The parities the loop asserts on the words themselves. */
  lemma AssertedParities(even: Register, odd: Register, n: Numbers, x: int, p: int)
    requires Invariant(even, odd, n, x, p)
    ensures odd.a[0] % 2 == n.ou % 2 && odd.a[8] % 2 == n.os % 2
    ensures even.IsTrimmed() ==> even.a[0] % 2 == n.eu % 2 && even.a[8] % 2 == n.es % 2
  {
    PackedParity(odd.a[..], odd.len1, n.ou, n.os);
    if even.IsTrimmed() {
      PackedParity(even.a[..], even.len1, n.eu, n.es);
    }
  }

  /** Compares the front numbers of us and vr, whichever of them is called even. */
  method CompareFronts(us: Register, vr: Register, even: Register, odd: Register, ghost n: Numbers, ghost x: int,
                       ghost p: int)
    returns (cmp: int)
    requires Invariant(even, odd, n, x, p) && even.IsTrimmed()
    requires ((even == us && odd == vr) || (even == vr && odd == us))
    ensures cmp == 0 <==> n.eu == n.ou
    ensures cmp > 0 <==> if even == us then n.eu > n.ou else n.ou > n.eu
  {
    if even == us {
      cmp := Compare(us, vr, n.eu, n.es, n.ou, n.os);
    } else {
      cmp := Compare(us, vr, n.ou, n.os, n.eu, n.es);
    }
  }

  lemma SwapRoles(even: Register, odd: Register, n: Numbers, x: int, p: int) returns (n': Numbers)
    requires Invariant(even, odd, n, x, p) && even.IsTrimmed()
    ensures n' == Numbers(n.ou, n.os, n.eu, n.es, -n.sg, n.k) && Invariant(odd, even, n', x, p)
  {
    n' := Numbers(n.ou, n.os, n.eu, n.es, -n.sg, n.k);
    AlmostSwap(x, p, n.eu, n.es, n.ou, n.os, n.sg, n.k);
  }

  /** Lets even name the register with the larger front number, unless the two are equal. */
  method OrderFronts(us: Register, vr: Register, even: Register, odd: Register, ghost n: Numbers, ghost x: int,
                     ghost p: int)
    returns (done: bool, even': Register, odd': Register, ghost n': Numbers)
    requires Invariant(even, odd, n, x, p) && even.IsTrimmed()
    requires (odd == us && even == vr && n.sg == -1) || (odd == vr && even == us && n.sg == 1)
    ensures Invariant(even', odd', n', x, p) && even'.IsTrimmed()
    ensures (odd' == us && even' == vr && n'.sg == -1) || (odd' == vr && even' == us && n'.sg == 1)
    ensures if done then n'.eu == n'.ou else n'.eu > n'.ou
    ensures n' == n || n' == Numbers(n.ou, n.os, n.eu, n.es, -n.sg, n.k)
  {
    var cmp := CompareFronts(us, vr, even, odd, n, x, p);
    done, even', odd', n' := cmp == 0, even, odd, n;
    if cmp != 0 && (cmp > 0) != (even == us) {
      n' := SwapRoles(even, odd, n, x, p);
      even', odd' := odd, even;
    }
  }

  lemma LoopEnd(us: Register, even: Register, odd: Register, n: Numbers, x: int, p: int) returns (s: int)
    requires Invariant(even, odd, n, x, p) && even.IsTrimmed() && n.eu == n.ou && IsPrime(p) && p % 2 == 1 && p < TWO256
    requires us == if n.sg == 1 then even else odd
    ensures us.Holds(1, s) && us.len1 == 1 && 0 <= s < p && n.k < 512 && Cong(x * s, Pow(2, n.k), p)
  {
    AlmostDone(x, p, n.eu, n.es, n.os, n.sg, n.k);
    ExponentBound(x, p, n.eu, n.es, n.ou, n.os, n.sg, n.k);
    s := if n.sg == 1 then n.es else n.os;
    OneWordFront(us.a[..], us.len1, s);
  }

  /** The loop of the Almost Modular Inverse: on exit the register us holds 1 in front and s behind, and
      x * s = 2^k mod p. */
  method AlmostInverse(us: Register, vr: Register, ghost x: int, ghost p: int) returns (k: nat, ghost s: int)
    requires us != vr && us.a != vr.a && us.len1 == 8 && vr.len1 == 8
    requires us.Holds(p, 1) && vr.Holds(x, 0) && 0 < x < p && IsPrime(p) && p % 2 == 1 && Modulus(p)
    modifies us, us.a, vr, vr.a
    ensures us.Holds(1, s) && us.len1 == 1 && 0 <= s < p && k < 512
    ensures Cong(x * s, Pow(2, k), p)
  {
    hide Num, Pow, Cong, Packed, Back;
    k := 0;
    var odd, even := us, vr;
    ghost var n := Numbers(x, 0, p, 1, -1, 0);
    AlmostStart(x, p);
    FullFront(us.a[..], p);
    while true
      invariant (odd == us && even == vr && n.sg == -1) || (odd == vr && even == us && n.sg == 1)
      invariant Invariant(even, odd, n, x, p) && n.k == k
      invariant n.ou % 2 == 1 && n.os % 2 == 1 && (n.eu % 2 == 0 || n.es % 2 == 0)
      decreases n.eu + n.ou
    {
      AssertedParities(even, odd, n, x, p);
      assert odd.a[0] % 2 == 1 && odd.a[8] % 2 == 1;
      ghost var n0 := n;
      k, n := HalveStep(even, odd, k, n, x, p);
      AssertedParities(even, odd, n, x, p);
      assert even.a[0] % 2 == 1 && even.a[8] % 2 == 0;
      Parities(n.eu, n.ou, n.es, n.os);

      var done;
      done, even, odd, n := OrderFronts(us, vr, even, odd, n, x, p);
      if done {
        s := LoopEnd(us, even, odd, n, x, p);
        break;
      }
      n := SubtractStep(even, odd, n, x, p);
    }
  }

  lemma FullFront(a: seq<int>, p: int)
    requires Packed(a, 8, p, 1) && Modulus(p)
    ensures Trimmed(a, 8)
  {
    NumBound(a[..7], WORD);
    PowAdd(WORD, 7, 1);
    TwoTo512();
    assert Pow(WORD, 1) == WORD;
    NumStep(a, 7, WORD);
  }

  lemma OneWordFront(a: seq<int>, len: int, s: int)
    requires Packed(a, len, 1, s) && Trimmed(a, len)
    ensures len == 1
  {
    assert Pow(WORD, 1) == WORD;
    if len > 1 {
      PowMono(WORD, 1, len - 1);
      TopWord(a, len, 1);
    }
  }

  lemma LargerIsLonger(a: seq<int>, b: seq<int>, la: int, lb: int, u: int, v: int, s: int, r: int)
    requires Packed(a, la, u, s) && Packed(b, lb, v, r) && Trimmed(b, lb) && u >= v
    ensures lb <= la
  {
    if la < lb {
      LongerIsLarger(b, a, lb, la, v, u, r, s);
    }
  }

  /** x := 1/x modulo prime, for x not a multiple of the prime. */
  method BnInverse(x: array<uint32>, prime: array<uint32>)
    requires Normalized(x) && GoodPrime(prime) && x != prime
    requires IsPrime(Val(prime)) && !Cong(Val(x), 0, Val(prime))
    modifies x
    ensures Normalized(x) && 0 <= Val(x) < Val(prime)
    ensures Cong(Val(x) * old(Val(x)), 1, Val(prime))
  {
    ghost var x0, p := Val(x), Val(prime);
    ReduceInput(x, prime);
    ghost var x1 := Val(x);
    var pp := ToWords(prime);
    var xw := ToWords(x);
    var us := new Register(pp, 1);
    var vr := new Register(xw, 0);
    var k;
    ghost var s;
    k, s := AlmostInverse(us, vr, x1, p);
    DivideOut(us.a, pp, k, s, x1, p);
    FromBack(us.a, x);
    InverseOfReduced(x0, x1, Val(x), p);
  }

  /** The input must fit eight words: full reduction first. */
  method ReduceInput(x: array<uint32>, prime: array<uint32>)
    requires Normalized(x) && GoodPrime(prime) && x != prime
    requires IsPrime(Val(prime)) && !Cong(Val(x), 0, Val(prime))
    modifies x
    ensures Normalized(x) && 0 < Val(x) < Val(prime) && Cong(Val(x), old(Val(x)), Val(prime))
    ensures Val(prime) % 2 == 1
  {
    ghost var x0, p := Val(x), Val(prime);
    PrimeIsOdd(p);
    BnFastMod(x, prime);
    BnMod(x, prime);
  }

  lemma InverseOfReduced(x0: int, x1: int, s: int, p: int)
    requires Cong(x1, x0, p) && Cong(x1 * s, 1, p)
    ensures Cong(s * x0, 1, p)
  {
    CongMul(x1, x0, s, s, p);
    assert x0 * s == s * x0;
  }

  /** Divides the back number by 2^k: whole words first, then the remaining bits. */
  method DivideOut(a: array<uint32>, pp: seq<uint32>, k0: nat, ghost s0: int, ghost x: int, ghost p: int)
    requires a.Length == 9 && |pp| == 8 && Num(pp, WORD) == p && IsPrime(p) && p % 2 == 1 && p < TWO256
    requires Num(Back(a[..])[..8], WORD) == s0 && 0 <= s0 < p && Cong(x * s0, Pow(2, k0), p)
    modifies a
    ensures 0 <= Num(Back(a[..])[..8], WORD) < p && Cong(x * Num(Back(a[..])[..8], WORD), 1, p)
  {
    WordParity(pp, 0x8000_0000, 2);
    var inverse := NegatedInverse(pp[0]);
    var k := k0;
    ghost var s := s0;
    while k >= 32
      invariant Num(Back(a[..])[..8], WORD) == s && 0 <= s < p
      invariant Cong(x * s, Pow(2, k), p)
    {
      ghost var t := s;
      s := DivideByPower(a, pp, inverse, 32, s, p);
      DivideInverse(x, t, s, k, 32, p);
      k := k - 32;
    }
    if k > 0 {
      ghost var t := s;
      s := DivideByPower(a, pp, inverse, k, s, p);
      DivideInverse(x, t, s, k, k, p);
    }
    assert Pow(2, 0) == 1;
  }

  lemma PrimeIsOdd(p: int)
    requires IsPrime(p) && p > 2
    ensures p % 2 == 1
  {
    CongIsMod(p, 0, 2);
  }

  /** Dividing s by 2^t modulo p lowers the exponent of x * s = 2^k by t. */
  lemma DivideInverse(x: int, s: int, s': int, k: nat, t: nat, p: int)
    requires IsPrime(p) && p % 2 == 1 && t <= k
    requires Cong(x * s, Pow(2, k), p) && Cong(s' * Pow(2, t), s, p)
    ensures Cong(x * s', Pow(2, k - t), p)
  {
    PowAdd(2, k - t, t);
    CongMul(x, x, s' * Pow(2, t), s, p);
    MulAssoc(x, s', Pow(2, t));
    PowerOfTwoNotMultiple(t, p);
    CongCancel(x * s', Pow(2, k - t), Pow(2, t), p);
  }
}
