/** Powers, division with remainder, congruences and primes: the integer facts every layer uses. */
module Arith {

  type uint8 = x: int | 0 <= x < 0x100
  type uint32 = x: int | 0 <= x < 0x1_0000_0000
  type uint64 = x: int | 0 <= x < 0x1_0000_0000_0000_0000

  const WORD: nat := 0x1_0000_0000

  // ---- powers ----------------------------------------------------------------------------

  function Pow(b: nat, e: nat): nat {
    if e == 0 then 1 else b * Pow(b, e - 1)
  }

  lemma {:induction false} PowAdd(b: nat, m: nat, n: nat)
    ensures Pow(b, m + n) == Pow(b, m) * Pow(b, n)
  {
    if m > 0 {
      PowAdd(b, m - 1, n);
      MulAssoc(b, Pow(b, m - 1), Pow(b, n));
    }
  }

  lemma {:induction false} PowMul(b: nat, m: nat, n: nat)
    ensures Pow(Pow(b, m), n) == Pow(b, m * n)
  {
    if n > 0 {
      PowMul(b, m, n - 1);
      PowAdd(b, m, m * (n - 1));
      assert m + m * (n - 1) == m * n;
    }
  }

  lemma {:induction false} PowPos(b: nat, e: nat)
    requires b > 0
    ensures Pow(b, e) >= 1
  {
    if e > 0 {
      PowPos(b, e - 1);
      MulMono(1, Pow(b, e - 1), b);
    }
  }

  lemma {:induction false} PowMono(b: nat, m: nat, n: nat)
    requires b > 0 && m <= n
    ensures Pow(b, m) <= Pow(b, n)
  {
    PowAdd(b, m, n - m);
    PowPos(b, n - m);
    PowPos(b, m);
    MulMono(1, Pow(b, n - m), Pow(b, m));
  }

  lemma {:induction false} PowBaseMono(a: nat, b: nat, e: nat)
    requires a <= b
    ensures Pow(a, e) <= Pow(b, e)
  {
    if e > 0 {
      PowBaseMono(a, b, e - 1);
      MulMono(Pow(a, e - 1), Pow(b, e - 1), a);
      MulMono(a, b, Pow(b, e - 1));
    }
  }

  // ---- products and quotients ------------------------------------------------------------

  lemma MulAssoc(a: int, b: int, c: int)
    ensures a * (b * c) == (a * b) * c
  {}

  lemma Distribute(a: int, b: int, c: int)
    ensures (a + b) * c == a * c + b * c
  {}

  lemma DistributeSub(a: int, b: int, c: int)
    ensures (a - b) * c == a * c - b * c
  {}

  lemma DistributeLeft(a: int, b: int, c: int)
    ensures a * (b + c) == a * b + a * c
  {}

  lemma MulMono(a: int, b: int, c: int)
    requires a <= b && 0 <= c
    ensures a * c <= b * c
    ensures c * a <= c * b
  {}

  lemma MulStrict(a: int, b: int, c: int)
    requires a < b && 0 < c
    ensures a * c < b * c
  {}

  lemma MulPos(a: int, b: int)
    requires a > 0 && b > 0
    ensures a * b > 0
  {}

  lemma DivMod(x: int, d: int)
    requires d > 0
    ensures x == (x / d) * d + x % d && 0 <= x % d < d
  {}

  lemma DivModUnique(x: int, d: int, q: int, r: int)
    requires d > 0 && 0 <= r < d && x == q * d + r
    ensures x / d == q && x % d == r
  {
    DivMod(x, d);
    var q', r' := x / d, x % d;
    if q < q' {
      MulMono(q + 1, q', d);
    } else if q' < q {
      MulMono(q' + 1, q, d);
    }
  }

  lemma RemQuot(x: int, d: int, q: int, r: int)
    requires 0 <= r < d && x == r + d * q
    ensures x / d == q && x % d == r
  {
    DivModUnique(x, d, q, r);
  }

  lemma DivBounds(x: int, d: int, n: int)
    requires d > 0 && 0 <= x < n * d
    ensures 0 <= x / d < n
  {
    DivMod(x, d);
    if x / d < 0 { MulMono(x / d, -1, d); }
    if x / d >= n { MulMono(n, x / d, d); }
  }

  lemma DivDiv(x: nat, a: nat, b: nat)
    requires a > 0 && b > 0
    ensures a * b > 0 && (x / a) / b == x / (a * b)
  {
    MulPos(a, b);
    var q, r := x / a, x % a;
    var q2, r2 := q / b, q % b;
    DivMod(x, a);
    DivMod(q, b);
    assert x == q2 * (a * b) + (r2 * a + r) by {
      assert q * a == (q2 * b + r2) * a;
      assert (q2 * b + r2) * a == q2 * (a * b) + r2 * a;
    }
    MulMono(r2, b - 1, a);
    assert (b - 1) * a == a * b - a;
    assert 0 <= r2 * a;
    DivModUnique(x, a * b, q2, r2 * a + r);
  }

  // ---- congruences -----------------------------------------------------------------------

  ghost predicate Offset(x: int, a: int, q: int, m: int) {
    x == a + q * m
  }

  ghost predicate Member(x: int, a: int, m: int) {
    exists q :: Offset(x, a, q, m)
  }

  /** The residue class of a modulo m. */
  ghost function Class(a: int, m: int): iset<int> {
    iset x | Member(x, a, m)
  }

  /** Congruence is equality of residue classes, so it is an equivalence by construction
      and no division enters a proof that uses it. `CongIsMod` ties it to `%`. */
  ghost predicate Cong(a: int, b: int, m: int) {
    Class(a, m) == Class(b, m)
  }

  lemma ClassSubset(a: int, b: int, q: int, m: int)
    requires a == b + q * m
    ensures Class(a, m) <= Class(b, m)
  {
    forall x | Member(x, a, m) ensures Member(x, b, m) {
      var k :| Offset(x, a, k, m);
      Distribute(k, q, m);
      assert Offset(x, b, k + q, m);
    }
  }

  lemma CongIntro(a: int, b: int, q: int, m: int)
    requires a == b + q * m
    ensures Cong(a, b, m)
  {
    ClassSubset(a, b, q, m);
    Distribute(q, -q, m);
    ClassSubset(b, a, -q, m);
  }

  lemma CongQuotient(a: int, b: int, m: int) returns (q: int)
    requires Cong(a, b, m)
    ensures a == b + q * m
  {
    assert Offset(a, a, 0, m);
    assert a in Class(a, m);
    q :| Offset(a, b, q, m);
  }

  lemma CongIsMod(a: int, b: int, m: int)
    requires m > 0
    ensures Cong(a, b, m) <==> a % m == b % m
  {
    CongMod(a, m);
    CongMod(b, m);
    if Cong(a, b, m) {
      var q := CongQuotient(a % m, b % m, m);
      DivModUnique(a % m, m, q, b % m);
      DivModUnique(a % m, m, 0, a % m);
    }
  }

  lemma CongMod(a: int, m: int)
    requires m > 0
    ensures Cong(a % m, a, m)
  {
    DivMod(a, m);
    CongIntro(a, a % m, a / m, m);
  }

  lemma CongAdd(a: int, b: int, c: int, d: int, m: int)
    requires Cong(a, b, m) && Cong(c, d, m)
    ensures Cong(a + c, b + d, m)
  {
    var q := CongQuotient(a, b, m);
    var r := CongQuotient(c, d, m);
    Distribute(q, r, m);
    CongIntro(a + c, b + d, q + r, m);
  }

  lemma CongSub(a: int, b: int, c: int, d: int, m: int)
    requires Cong(a, b, m) && Cong(c, d, m)
    ensures Cong(a - c, b - d, m)
  {
    var q := CongQuotient(a, b, m);
    var r := CongQuotient(c, d, m);
    Distribute(q, -r, m);
    Distribute(r, -r, m);
    CongIntro(a - c, b - d, q - r, m);
  }

  lemma CongMul(a: int, b: int, c: int, d: int, m: int)
    requires Cong(a, b, m) && Cong(c, d, m)
    ensures Cong(a * c, b * d, m)
  {
    var q := CongQuotient(a, b, m);
    var r := CongQuotient(c, d, m);
    ProductQuotient(b, d, q, r, m);
    CongIntro((b + q * m) * (d + r * m), b * d, b * r + q * d + q * m * r, m);
  }

  lemma ProductQuotient(b: int, d: int, q: int, r: int, m: int)
    ensures (b + q * m) * (d + r * m) == b * d + (b * r + q * d + q * m * r) * m
  {
    var x, y := q * m, r * m;
    assert (b + x) * (d + y) == b * d + b * y + x * d + x * y;
    assert b * y == (b * r) * m;
    assert x * d == (q * d) * m;
    assert x * y == (q * m * r) * m;
    assert (b * r) * m + (q * d) * m + (q * m * r) * m == (b * r + q * d + q * m * r) * m;
  }

  lemma CongUnique(a: int, b: int, m: int)
    requires 0 <= a < m && 0 <= b < m && Cong(a, b, m)
    ensures a == b
  {
    var q := CongQuotient(a, b, m);
    if q > 0 { MulMono(1, q, m); } else if q < 0 { MulMono(q, -1, m); }
  }

  /** Multiples of the modulus may be added freely. */
  lemma CongShift(a: int, q: int, m: int)
    ensures Cong(a + q * m, a, m) && Cong(a - q * m, a, m)
  {
    CongIntro(a + q * m, a, q, m);
    Distribute(q, -q, m);
    CongIntro(a - q * m, a, -q, m);
  }

  // ---- divisibility, greatest common divisors and primes ---------------------------------

  ghost predicate IsPrime(p: int) {
    p > 1 && forall d :: 1 < d < p ==> !Cong(p, 0, d)
  }

  /** Bezout: Euclid's algorithm on (a, b) with the two cofactors. */
  lemma {:induction false} Bezout(a: nat, b: nat) returns (g: nat, s: int, t: int)
    requires a > 0 || b > 0
    ensures g > 0 && Cong(a, 0, g) && Cong(b, 0, g)
    ensures g == s * a + t * b
    decreases b
  {
    if b == 0 {
      g, s, t := a, 1, 0;
      CongIntro(a, 0, 1, a);
    } else {
      DivMod(a, b);
      var q := a / b;
      var s', t';
      g, s', t' := Bezout(b, a - q * b);
      s, t := t', s' - q * t';
      assert s * a + t * b == t' * (a - q * b) + s' * b by {
        assert (s' - q * t') * b == s' * b - t' * (q * b);
      }
      CongMul(q, q, b, 0, g);
      CongAdd(q * b, 0, a - q * b, 0, g);
    }
  }

  /** A number that is not a multiple of a prime has an inverse modulo that prime. */
  lemma {:induction false} InverseExists(x: int, p: int) returns (r: int)
    requires IsPrime(p) && !Cong(x, 0, p)
    ensures 0 <= r < p && Cong(r * x, 1, p)
  {
    var x' := x % p;
    CongMod(x, p);
    var g, s, t := Bezout(x', p);
    assert g <= p by {
      if g > p { CongUnique(p, 0, g); }
    }
    assert g == 1;
    r := s % p;
    CongMod(s, p);
    CongMul(r, s, x, x', p);
    CongIntro(s * x', 1, -t, p);
  }

  /** A prime that divides a product divides a factor. */
  lemma EuclidLemma(a: int, b: int, p: int)
    requires IsPrime(p) && Cong(a * b, 0, p)
    ensures Cong(a, 0, p) || Cong(b, 0, p)
  {
    if !Cong(a, 0, p) {
      var r := InverseExists(a, p);
      CongMul(r, r, a * b, 0, p);
      CongMul(r * a, 1, b, b, p);
      assert r * (a * b) == (r * a) * b;
    }
  }

  /** Cancelling a factor that is not a multiple of the prime. */
  lemma CongCancel(a: int, b: int, c: int, p: int)
    requires IsPrime(p) && !Cong(c, 0, p) && Cong(a * c, b * c, p)
    ensures Cong(a, b, p)
  {
    CongSub(a * c, b * c, b * c, b * c, p);
    assert a * c - b * c == (a - b) * c;
    EuclidLemma(a - b, c, p);
    CongAdd(a - b, 0, b, b, p);
  }
}
