/** Bech32 strings (BIP 173): the checksum as a linear map, encoding, decoding, and that they are inverse. */
module Bech32 {
  import opened Arith
  import opened Bits
  import opened BitSlice

  // ---- exclusive or of numbers -----------------------------------------------------------

  lemma XorFour(a: nat, b: nat, c: nat, d: nat)
    ensures Xor(Xor(a, b), Xor(c, d)) == Xor(Xor(a, c), Xor(b, d))
  {
    XorAssociates(Xor(a, b), c, d);
    XorAssociates(a, b, c);
    XorCommutes(b, c);
    XorAssociates(a, c, b);
    XorAssociates(Xor(a, c), b, d);
  }

  lemma {:induction false} XorZeroRight(a: nat)
    ensures Xor(a, 0) == a && Xor(0, a) == a
  {}

  lemma XorDouble(a: nat, b: nat)
    ensures Xor(2 * a, 2 * b) == 2 * Xor(a, b)
  {
    if a > 0 && b > 0 {
      assert (2 * a + 2 * b) % 2 == 0 && (2 * a) / 2 == a && (2 * b) / 2 == b;
    }
  }

  lemma {:induction false} XorDivided(a: nat, b: nat, k: nat)
    ensures Pow(2, k) > 0 && Xor(a, b) / Pow(2, k) == Xor(a / Pow(2, k), b / Pow(2, k))
  {
    PowPos(2, k);
    if k == 0 {
      assert Pow(2, 0) == 1;
    } else {
      PowPos(2, k - 1);
      XorDivided(a / 2, b / 2, k - 1);
      XorParts(a, b);
      DivDiv(a, 2, Pow(2, k - 1));
      DivDiv(b, 2, Pow(2, k - 1));
      DivDiv(Xor(a, b), 2, Pow(2, k - 1));
    }
  }

  lemma ModOfHalf(x: nat, m: nat)
    requires m > 0
    ensures x % (2 * m) == 2 * ((x / 2) % m) + x % 2
  {
    var q, r := (x / 2) / m, (x / 2) % m;
    DivMod(x / 2, m);
    assert x == q * (2 * m) + (2 * r + x % 2) by { assert q * (2 * m) == 2 * (q * m); }
    DivModUnique(x, 2 * m, q, 2 * r + x % 2);
  }

  lemma XorOfParts(a: nat, b: nat)
    ensures Xor(a, b) == (a + b) % 2 + 2 * Xor(a / 2, b / 2)
  {}

  lemma RemainderStep(a: nat, b: nat, m: nat)
    requires m > 0 && Xor(a / 2, b / 2) % m == Xor((a / 2) % m, (b / 2) % m)
    ensures Xor(a, b) % (2 * m) == Xor(a % (2 * m), b % (2 * m))
  {
    hide Xor;
    XorParts(a, b);
    var x, y, z := (a / 2) % m, (b / 2) % m, Xor(a, b);
    assert (z / 2) % m == Xor(x, y);
    ModOfHalf(a, m);
    ModOfHalf(b, m);
    ModOfHalf(z, m);
    PartsJoined(x, a % 2, y, b % 2);
    SameParity(a, b);
    assert Xor(a % (2 * m), b % (2 * m)) == (a % 2 + b % 2) % 2 + 2 * Xor(x, y);
  }

  lemma {:induction false} XorRemainder(a: nat, b: nat, k: nat)
    ensures Pow(2, k) > 0 && Xor(a, b) % Pow(2, k) == Xor(a % Pow(2, k), b % Pow(2, k))
  {
    PowPos(2, k);
    if k == 0 {
      assert Pow(2, 0) == 1;
    } else {
      PowPos(2, k - 1);
      XorRemainder(a / 2, b / 2, k - 1);
      RemainderStep(a, b, Pow(2, k - 1));
    }
  }

  lemma SameParity(a: nat, b: nat)
    ensures (a + b) % 2 == (a % 2 + b % 2) % 2
  {}

  lemma PartsJoined(x: nat, s: nat, y: nat, t: nat)
    requires s < 2 && t < 2
    ensures Xor(2 * x + s, 2 * y + t) == (s + t) % 2 + 2 * Xor(x, y)
  {
    hide Xor;
    XorOfParts(2 * x + s, 2 * y + t);
    SplitOff(x, s);
    SplitOff(y, t);
    SameParity(2 * x + s, 2 * y + t);
  }

  lemma SplitOff(x: nat, s: nat)
    requires s < 2
    ensures (2 * x + s) / 2 == x && (2 * x + s) % 2 == s
  {}

  // ---- the checksum ----------------------------------------------------------------------

  const TWO25: nat := 0x200_0000
  const TWO30: nat := 0x4000_0000

  /** -(bit & 1) & g */
  function Pick(bit: bool, g: nat): nat {
    if bit then g else 0
  }

  /** The generator combination for the five bits shifted out. */
  function Generator(b: nat): nat {
    Xor(Xor(Xor(Xor(Pick(Bit(b, 0), 0x3b6a57b2), Pick(Bit(b, 1), 0x26508e6d)), Pick(Bit(b, 2), 0x1ea119fa)),
            Pick(Bit(b, 3), 0x3d4233dd)), Pick(Bit(b, 4), 0x2a1462b3))
  }

  /** bech32_polymod_step: multiply by x modulo the generator polynomial over GF(32). */
  function PolymodStep(pre: nat): (r: nat) {
    Xor((pre % TWO25) * 32, Generator(pre / TWO25))
  }

  lemma PickXor(x: bool, y: bool, g: nat)
    ensures Pick(x != y, g) == Xor(Pick(x, g), Pick(y, g))
  {
    XorSelf(g);
    XorZeroRight(g);
    XorZeroRight(0);
  }

  lemma GeneratorLinear(a: nat, b: nat)
    ensures Generator(Xor(a, b)) == Xor(Generator(a), Generator(b))
  {
    hide Xor, Pick;
    BitXor(a, b, 0);
    BitXor(a, b, 1);
    BitXor(a, b, 2);
    BitXor(a, b, 3);
    BitXor(a, b, 4);
    PickXor(Bit(a, 0), Bit(b, 0), 0x3b6a57b2);
    PickXor(Bit(a, 1), Bit(b, 1), 0x26508e6d);
    PickXor(Bit(a, 2), Bit(b, 2), 0x1ea119fa);
    PickXor(Bit(a, 3), Bit(b, 3), 0x3d4233dd);
    PickXor(Bit(a, 4), Bit(b, 4), 0x2a1462b3);
    var a0, a1, a2, a3, a4 := Pick(Bit(a, 0), 0x3b6a57b2), Pick(Bit(a, 1), 0x26508e6d), Pick(Bit(a, 2), 0x1ea119fa),
      Pick(Bit(a, 3), 0x3d4233dd), Pick(Bit(a, 4), 0x2a1462b3);
    var b0, b1, b2, b3, b4 := Pick(Bit(b, 0), 0x3b6a57b2), Pick(Bit(b, 1), 0x26508e6d), Pick(Bit(b, 2), 0x1ea119fa),
      Pick(Bit(b, 3), 0x3d4233dd), Pick(Bit(b, 4), 0x2a1462b3);
    XorFour(a0, b0, a1, b1);
    XorFour(Xor(a0, a1), Xor(b0, b1), a2, b2);
    XorFour(Xor(Xor(a0, a1), a2), Xor(Xor(b0, b1), b2), a3, b3);
    XorFour(Xor(Xor(Xor(a0, a1), a2), a3), Xor(Xor(Xor(b0, b1), b2), b3), a4, b4);
  }

  lemma BechPowers()
    ensures Pow(2, 25) == TWO25 && Pow(2, 30) == TWO30 && Pow(2, 5) == 32
  {
    TwoPowers();
    PowAdd(2, 24, 1);
    assert Pow(2, 1) == 2 && Pow(2, 5) == 32;
  }

  lemma ShiftLinear(x: nat, y: nat)
    ensures Xor(x, y) * 32 == Xor(x * 32, y * 32)
  {
    hide Xor;
    XorDouble(x, y);
    XorDouble(2 * x, 2 * y);
    XorDouble(4 * x, 4 * y);
    XorDouble(8 * x, 8 * y);
    XorDouble(16 * x, 16 * y);
  }

  /** The step is linear over exclusive or. */
  lemma StepLinear(a: nat, b: nat)
    ensures PolymodStep(Xor(a, b)) == Xor(PolymodStep(a), PolymodStep(b))
  {
    hide Xor, Generator;
    BechPowers();
    XorRemainder(a, b, 25);
    XorDivided(a, b, 25);
    ShiftLinear(a % TWO25, b % TWO25);
    GeneratorLinear(a / TWO25, b / TWO25);
    XorFour((a % TWO25) * 32, (b % TWO25) * 32, Generator(a / TWO25), Generator(b / TWO25));
  }

  /** Feeding values one after the other. */
  function Polymod(chk: nat, values: seq<nat>): nat
    decreases |values|
  {
    if |values| == 0 then chk else Polymod(Xor(PolymodStep(chk), values[0]), values[1..])
  }

  lemma {:induction false} PolymodConcat(chk: nat, u: seq<nat>, v: seq<nat>)
    ensures Polymod(chk, u + v) == Polymod(Polymod(chk, u), v)
    decreases |u|
  {
    if |u| == 0 {
      assert u + v == v;
    } else {
      assert (u + v)[0] == u[0] && (u + v)[1..] == u[1..] + v;
      PolymodConcat(Xor(PolymodStep(chk), u[0]), u[1..], v);
    }
  }

  lemma PolymodSnoc(chk: nat, u: seq<nat>, x: nat)
    ensures Polymod(chk, u + [x]) == Xor(PolymodStep(Polymod(chk, u)), x)
  {
    PolymodConcat(chk, u, [x]);
    assert [x][1..] == [];
  }

  function XorAll(u: seq<nat>, v: seq<nat>): (r: seq<nat>)
    requires |u| == |v|
    ensures |r| == |u| && forall i :: 0 <= i < |r| ==> r[i] == Xor(u[i], v[i])
  {
    seq(|u|, i requires 0 <= i < |u| => Xor(u[i], v[i]))
  }

  /** The checksum is linear in the state and all values together. */
  lemma {:induction false} PolymodLinear(a: nat, b: nat, u: seq<nat>, v: seq<nat>)
    requires |u| == |v|
    ensures Polymod(Xor(a, b), XorAll(u, v)) == Xor(Polymod(a, u), Polymod(b, v))
    decreases |u|
  {
    hide Xor, PolymodStep;
    if |u| > 0 {
      assert XorAll(u, v)[1..] == XorAll(u[1..], v[1..]);
      StepLinear(a, b);
      XorFour(PolymodStep(a), PolymodStep(b), u[0], v[0]);
      PolymodLinear(Xor(PolymodStep(a), u[0]), Xor(PolymodStep(b), v[0]), u[1..], v[1..]);
    }
  }

  // ---- six symbols fill the register without reduction -----------------------------------

  /** Up to five symbols in the register: the next step is a plain shift. */
  lemma PlainStep(x: nat, v: nat)
    requires x < TWO25 && v < 32
    ensures Xor(PolymodStep(x), v) == x * 32 + v
  {
    DivModUnique(x, TWO25, 0, x);
    BitZero(0);
    BitZero(1);
    BitZero(2);
    BitZero(3);
    BitZero(4);
    assert Generator(0) == 0;
    XorZeroRight(x * 32);
    BechPowers();
    DisjointXor(x, v, 5);
  }

  lemma DoublePower(x: nat, k: nat)
    requires k > 0
    ensures x * Pow(2, k) == 2 * (x * Pow(2, k - 1))
  {}

  /** Exclusive or with a number below the cleared low bits is addition. */
  lemma {:induction false} DisjointXor(x: nat, v: nat, k: nat)
    requires v < Pow(2, k)
    ensures Xor(x * Pow(2, k), v) == x * Pow(2, k) + v
  {
    hide Xor;
    if k == 0 {
      assert Pow(2, 0) == 1;
      XorZeroRight(x);
    } else {
      var y := x * Pow(2, k - 1);
      DisjointXor(x, v / 2, k - 1);
      DoublePower(x, k);
      PartsJoined(y, 0, v / 2, v % 2);
      assert v == 2 * (v / 2) + v % 2;
    }
  }

  predicate Symbols(s: seq<nat>) {
    forall i :: 0 <= i < |s| ==> s[i] < 32
  }

  /** The number whose base-32 digits are the symbols. */
  function Packed(s: seq<nat>): nat {
    if |s| == 0 then 0 else Packed(s[..|s| - 1]) * 32 + s[|s| - 1]
  }

  lemma {:induction false} PackedBound(s: seq<nat>)
    requires Symbols(s)
    ensures Packed(s) < Pow(32, |s|)
  {
    if |s| > 0 { PackedBound(s[..|s| - 1]); }
  }

  lemma {:induction false} FillRegister(s: seq<nat>)
    requires Symbols(s) && |s| <= 6
    ensures Polymod(0, s) == Packed(s)
  {
    if |s| > 0 {
      var t, v := s[..|s| - 1], s[|s| - 1];
      FillRegister(t);
      assert s == t + [v];
      PolymodSnoc(0, t, v);
      PackedBound(t);
      SmallRegister(|t|);
      PlainStep(Packed(t), v);
    }
  }

  lemma SmallRegister(n: nat)
    requires n <= 5
    ensures Pow(32, n) <= TWO25
  {
    assert Pow(32, 1) == 32 && Pow(32, 2) == 1024;
    PowAdd(32, 2, 2);
    PowAdd(32, 4, 1);
    PowMono(32, n, 5);
  }

  function Zeros(n: nat): (s: seq<nat>)
    ensures |s| == n && forall i :: 0 <= i < n ==> s[i] == 0
  {
    seq(n, i => 0)
  }

  /** Six appended symbols end in state 1 exactly if they are what six zeros leave, plus 1. */
  lemma ChecksumExact(chk: nat, s: seq<nat>)
    requires Symbols(s) && |s| == 6
    ensures Polymod(chk, s) == 1 <==> Packed(s) == Xor(Polymod(chk, Zeros(6)), 1)
  {
    hide Xor, PolymodStep;
    assert XorAll(Zeros(6), s) == s by {
      forall i | 0 <= i < 6 ensures Xor(Zeros(6)[i], s[i]) == s[i] { XorZeroRight(s[i]); }
    }
    XorZeroRight(chk);
    PolymodLinear(chk, 0, Zeros(6), s);
    FillRegister(s);
    var z, p := Polymod(chk, Zeros(6)), Packed(s);
    XorSolve(z, p, 1);
  }

  /** z ^ p = c exactly if p = z ^ c. */
  lemma XorSolve(z: nat, p: nat, c: nat)
    ensures Xor(z, p) == c <==> p == Xor(z, c)
  {
    XorAssociates(z, z, p);
    XorAssociates(z, z, c);
    XorSelf(z);
    XorZeroRight(p);
    XorZeroRight(c);
  }
}
