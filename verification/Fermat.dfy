/** Fermat's little theorem by the binomial theorem, and square roots modulo primes of the form 4k + 3. */
module Fermat {
  import opened Arith

  /** The binomial coefficient, by Pascal's rule. */
  function Choose(n: nat, k: nat): (c: nat)
    ensures k > n ==> c == 0
    ensures k == n ==> c == 1
    decreases n
  {
    if k == 0 then 1 else if n == 0 then 0 else Choose(n - 1, k - 1) + Choose(n - 1, k)
  }

  /** The first m terms of the expansion of (1 + a)^n. */
  function Expansion(n: nat, a: nat, m: nat): nat {
    if m == 0 then 0 else Expansion(n, a, m - 1) + Choose(n, m - 1) * Pow(a, m - 1)
  }

  lemma ChooseNone(n: nat)
    ensures Choose(n, 0) == Choose(n + 1, 0) == 1
  {}

  lemma PascalRule(n: nat, m: nat)
    requires m > 0
    ensures Choose(n + 1, m) == Choose(n, m - 1) + Choose(n, m)
  {}

  /** Pascal's rule for whole expansions. */
  lemma {:induction false} ExpansionStep(n: nat, a: nat, m: nat)
    ensures Expansion(n + 1, a, m + 1) == Expansion(n, a, m + 1) + a * Expansion(n, a, m)
    decreases m
  {
    hide Choose;
    if m == 0 {
      ChooseNone(n);
      assert Expansion(n + 1, a, 0) == Expansion(n, a, 0) == 0;
    } else {
      ExpansionStep(n, a, m - 1);
      var c, d, w := Choose(n, m - 1), Choose(n, m), Pow(a, m - 1);
      PascalRule(n, m);
      PascalTerm(a, w, c, d, Expansion(n, a, m - 1), Expansion(n, a, m));
    }
  }

  /** Pascal's rule for one term: e is the expansion before it, e' with it. */
  lemma PascalTerm(a: nat, w: nat, c: nat, d: nat, e: nat, e': nat)
    requires e' == e + c * w
    ensures (e' + a * e) + (c + d) * (a * w) == (e' + d * (a * w)) + a * e'
  {
    Distribute(c, d, a * w);
    DistributeLeft(a, e, c * w);
    assert c * (a * w) == a * (c * w);
  }

  /** Terms beyond the exponent vanish. */
  lemma ExpansionEnds(n: nat, a: nat)
    ensures Expansion(n, a, n + 2) == Expansion(n, a, n + 1)
  {}

  lemma {:induction false} Binomial(n: nat, a: nat)
    ensures Expansion(n, a, n + 1) == Pow(1 + a, n)
  {
    if n == 0 {
      assert Expansion(0, a, 0) == 0 && Choose(0, 0) == 1 && Pow(a, 0) == 1;
    } else {
      Binomial(n - 1, a);
      ExpansionStep(n - 1, a, n);
      ExpansionEnds(n - 1, a);
      Distribute(1, a, Pow(1 + a, n - 1));
    }
  }

  /** k * C(n, k) = n * C(n - 1, k - 1) */
  lemma {:induction false} Absorption(n: nat, k: nat)
    requires 0 < k <= n
    ensures k * Choose(n, k) == n * Choose(n - 1, k - 1)
    decreases n
  {
    if n > 1 && k < n {
      Absorption(n - 1, k);
      if k == 1 {
        assert Choose(n - 1, 0) == 1 && Choose(n - 2, 0) == 1;
      } else {
        Absorption(n - 1, k - 1);
        AbsorptionStep(n, k, Choose(n - 1, k - 1), Choose(n - 1, k), Choose(n - 2, k - 2), Choose(n - 2, k - 1));
      }
    } else if n > 1 {
      assert Choose(n - 1, k - 1) == 1;
    } else {
      assert Choose(0, 0) == 1 && Choose(0, 1) == 0;
    }
  }

  lemma AbsorptionStep(n: nat, k: nat, a: nat, b: nat, c: nat, d: nat)
    requires k > 1 && n > 1 && a == c + d && k * b == (n - 1) * d && (k - 1) * a == (n - 1) * c
    ensures k * (a + b) == n * a
  {
    DistributeLeft(k, a, b);
    DistributeSub(k, 1, a);
    DistributeSub(n, 1, a);
    DistributeLeft(n - 1, c, d);
  }

  /** A prime divides its inner binomial coefficients. */
  lemma InnerVanishes(p: nat, k: nat)
    requires IsPrime(p) && 0 < k < p
    ensures Cong(Choose(p, k), 0, p)
  {
    Absorption(p, k);
    CongIntro(k * Choose(p, k), 0, Choose(p - 1, k - 1), p);
    EuclidLemma(k, Choose(p, k), p);
    if Cong(k, 0, p) { CongUnique(k, 0, p); }
  }

  lemma {:induction false} ExpansionMod(p: nat, a: nat, m: nat)
    requires IsPrime(p) && 1 <= m <= p
    ensures Cong(Expansion(p, a, m), 1, p)
    decreases m
  {
    if m == 1 {
      assert Expansion(p, a, 0) == 0 && Choose(p, 0) == 1 && Pow(a, 0) == 1;
      CongIntro(1, 1, 0, p);
    } else {
      ExpansionMod(p, a, m - 1);
      InnerVanishes(p, m - 1);
      CongIntro(Pow(a, m - 1), Pow(a, m - 1), 0, p);
      CongMul(Choose(p, m - 1), 0, Pow(a, m - 1), Pow(a, m - 1), p);
      CongAdd(Expansion(p, a, m - 1), 1, Choose(p, m - 1) * Pow(a, m - 1), 0, p);
    }
  }

  /** a^p = a modulo p */
  lemma {:induction false} PowPrime(p: nat, a: nat)
    requires IsPrime(p)
    ensures Cong(Pow(a, p), a, p)
    decreases a
  {
    if a == 0 {
      assert Pow(0, p) == 0 * Pow(0, p - 1);
      CongIntro(0, 0, 0, p);
    } else {
      PowPrime(p, a - 1);
      Binomial(p, a - 1);
      ExpansionMod(p, a - 1, p);
      CongAdd(Expansion(p, a - 1, p), 1, Pow(a - 1, p), a - 1, p);
      assert Choose(p, p) == 1;
    }
  }

  /** a^(p-1) = 1 modulo p, unless p divides a. */
  lemma Fermat(p: nat, a: nat)
    requires IsPrime(p) && !Cong(a, 0, p)
    ensures Cong(Pow(a, p - 1), 1, p)
  {
    PowPrime(p, a);
    assert Pow(a, p) == Pow(a, p - 1) * a;
    assert 1 * a == a;
    CongCancel(Pow(a, p - 1), 1, a, p);
  }

  // ---- square roots ----------------------------------------------------------------------------

  ghost predicate IsSquare(r: int, p: int) {
    exists y: nat :: y < p && Cong(y * y, r, p)
  }

  /** The candidate: r^((p+1)/4). */
  function Candidate(r: nat, p: nat): nat {
    Pow(r, (p + 1) / 4)
  }

  lemma {:induction false} CongPow(a: nat, b: nat, n: nat, m: int)
    requires Cong(a, b, m)
    ensures Cong(Pow(a, n), Pow(b, n), m)
    decreases n
  {
    if n == 0 {
      CongIntro(1, 1, 0, m);
    } else {
      CongPow(a, b, n - 1, m);
      CongMul(a, b, Pow(a, n - 1), Pow(b, n - 1), m);
    }
  }

  /** For a square the candidate is a root. */
  lemma CandidateSquared(y: nat, r: nat, p: nat)
    requires IsPrime(p) && p % 4 == 3 && Cong(y * y, r, p)
    ensures Cong(Candidate(r, p) * Candidate(r, p), r, p)
  {
    hide Pow;
    var k := (p + 1) / 4;
    var s := Pow(r, k);
    PowAdd(r, k, k);
    CongPow(y * y, r, k + k, p);
    Squares(y, k + k);
    assert k + k + (k + k) == p + 1;
    assert Cong(Pow(y, p + 1), s * s, p);
    PowAdd(y, p - 1, 2);
    PowTwo(y);
    if Cong(y, 0, p) {
      CongMul(y, 0, y, y, p);
      CongMul(Pow(y, p - 1), Pow(y, p - 1), y * y, 0, p) by { CongIntro(Pow(y, p - 1), Pow(y, p - 1), 0, p); }
    } else {
      Fermat(p, y);
      CongIntro(y * y, y * y, 0, p);
      CongMul(Pow(y, p - 1), 1, y * y, y * y, p);
    }
  }

  lemma PowTwo(y: nat)
    ensures Pow(y, 2) == y * y
  {
    assert Pow(y, 1) == y;
  }

  /** (y^2)^n = y^(2n) */
  lemma Squares(y: nat, n: nat)
    ensures Pow(y * y, n) == Pow(y, n + n)
  {
    PowTwo(y);
    PowMul(y, 2, n);
  }

  /** The candidate is a root exactly if there is one. */
  lemma RootExact(r: nat, p: nat)
    requires IsPrime(p) && p % 4 == 3
    ensures Cong(Candidate(r, p) * Candidate(r, p), r, p) <==> IsSquare(r, p)
  {
    if y: nat :| y < p && Cong(y * y, r, p) {
      CandidateSquared(y, r, p);
    }
    if Cong(Candidate(r, p) * Candidate(r, p), r, p) {
      var s := Candidate(r, p);
      DivMod(s, p);
      CongMod(s, p);
      CongMul(s % p, s, s % p, s, p);
      assert Cong((s % p) * (s % p), r, p);
    }
  }

  /** There are at most two roots, and they are opposite. */
  lemma TwoRoots(y: nat, z: nat, p: nat)
    requires IsPrime(p) && y < p && z < p && Cong(y * y, z * z, p)
    ensures z == y || z == p - y || (z == 0 && y == 0)
  {
    CongSub(y * y, z * z, z * z, z * z, p);
    assert y * y - z * z == (y - z) * (y + z);
    EuclidLemma(y - z, y + z, p);
    if Cong(y - z, 0, p) {
      CongAdd(y - z, 0, z, z, p) by { CongIntro(z, z, 0, p); }
      CongUnique(y, z, p);
    } else {
      SumVanishes(y + z, p);
    }
  }

  lemma SumVanishes(s: nat, p: nat)
    requires p > 0 && s < 2 * p && Cong(s, 0, p)
    ensures s == 0 || s == p
  {
    if s < p { CongUnique(s, 0, p); }
    if s >= p {
      CongShift(s, -1, p);
      CongUnique(s - p, 0, p);
    }
  }
}
