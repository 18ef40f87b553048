/** The curve constants both programs use. */
module Secp256k1 {
  import opened Arith
  import opened Digits
  import opened Residues
  import opened Bignum
  import opened Curve

  const ORDER: nat := 0xFFFFFFFF_FFFFFFFF_FFFFFFFF_FFFFFFFE_BAAEDCE6_AF48A03B_BFD25E8C_D0364141
  const FIELD: nat := 0xFFFFFFFF_FFFFFFFF_FFFFFFFF_FFFFFFFF_FFFFFFFF_FFFFFFFF_FFFFFFFE_FFFFFC2F

  /** Both are within the library's range of moduli, and odd. */
  lemma ConstantsInRange()
    ensures Modulus(ORDER) && Modulus(FIELD) && ORDER % 2 == 1 && FIELD % 2 == 1
  {}

  lemma NineLimbs(s: seq<int>)
    requires |s| == 9
    ensures Num(s, LIMB) == s[0] + LIMB * (s[1] + LIMB * (s[2] + LIMB * (s[3] + LIMB * (s[4]
      + LIMB * (s[5] + LIMB * (s[6] + LIMB * (s[7] + LIMB * s[8])))))))
  {
    assert s[9..] == [];
    Shift(s, 8);
    Shift(s, 7);
    Shift(s, 6);
    Shift(s, 5);
    Shift(s, 4);
    Shift(s, 3);
    Shift(s, 2);
    Shift(s, 1);
    Shift(s, 0);
    assert s[0..] == s;
  }

  lemma Shift(s: seq<int>, i: nat)
    requires i < |s|
    ensures Num(s[i..], LIMB) == s[i] + LIMB * Num(s[i + 1..], LIMB)
  {
    NumCons(s[i..], LIMB);
    assert s[i..][1..] == s[i + 1..];
  }

  /** The limb table of the curve file denotes the order. */
  method Order() returns (n: array<uint32>)
    ensures fresh(n) && GoodPrime(n) && Val(n) == ORDER
  {
    n := new uint32[9][0x10364141, 0x3f497a33, 0x348a03bb, 0x2bb739ab, 0x3ffffeba,
                       0x3fffffff, 0x3fffffff, 0x3fffffff, 0xffff];
    NineLimbs(n[..]);
    ConstantsInRange();
  }

  /** The limb table of the curve file denotes the field prime. */
  method Prime() returns (p: array<uint32>)
    ensures fresh(p) && GoodPrime(p) && Val(p) == FIELD
  {
    p := new uint32[9][0x3ffffc2f, 0x3ffffffb, 0x3fffffff, 0x3fffffff, 0x3fffffff,
                       0x3fffffff, 0x3fffffff, 0x3fffffff, 0xffff];
    NineLimbs(p[..]);
    ConstantsInRange();
  }

  /** The curve y^2 = x^3 + 7 and its generator. */
  const CURVE: Params := Params(FIELD, 0, 7, ORDER)
  const GENERATOR: Point := Affine(GENERATOR_X, GENERATOR_Y)
  const GENERATOR_X: nat := 0x79BE667E_F9DCBBAC_55A06295_CE870B07_029BFCDB_2DCE28D9_59F2815B_16F81798
  const GENERATOR_Y: nat := 0x483ADA77_26A3C465_5DA4FBFC_0E1108A8_FD17B448_A6855419_9C47D08F_FB10D4B8

  /** The trace of the curve, and the second coefficient in the norm form of its multiple by four. */
  const TRACE: nat := 0x1_45512319_50B75FC4_402DA172_2FC9BAEF
  const COFACTOR: nat := 0xE4437ED6_010E8828_6F547FA9_0ABFE4C3

  /** The order belongs to the field: for a curve y^2 = x^3 + b it differs from p + 1 by a trace whose square falls
      short of 4p by three times a square. */
  lemma OrderAndField()
    ensures ORDER == FIELD + 1 - TRACE && 4 * FIELD == TRACE * TRACE + 3 * (COFACTOR * COFACTOR)
  {}

  /** GENERATOR_X^3 + 7 - GENERATOR_Y^2 over the field modulus. */
  const QUOTIENT: nat :=
    0x1B888E01_A06E9740_17A28A5B_4DA43616_9761C973_0B7AEEDF_75FC60F6_A33CFC77 * TWO256
    + 0x92FE7471_1F025D59_0B10E57F_1B3A7CE3_8FFC4C88_5C515894_B45C19C9_F413E5E9

  /** The generator of both programs is a point of the curve, given that the field modulus is prime. */
  lemma GeneratorOnCurve()
    requires IsPrime(FIELD)
    ensures ValidParams(CURVE) && OnCurve(CURVE, GENERATOR)
  {
    ConstantsInRange();
    if Cong(7, 0, FIELD) { CongUnique(7, 0, FIELD); }
    var x, y: int := GENERATOR_X, GENERATOR_Y;
    CongIntro(y * y, x * x * x + 7, 0 - QUOTIENT, FIELD);
  }

  /** The limb tables of the generator's coordinates. */
  method Generator() returns (x: array<uint32>, y: array<uint32>)
    ensures fresh(x) && fresh(y) && Normalized(x) && Normalized(y) && Affine(Val(x), Val(y)) == GENERATOR
  {
    x := new uint32[9][0x16f81798, 0x27ca056c, 0x1ce28d95, 0x26ff36cb, 0x70b0702, 0x18a573a, 0xbbac55a, 0x199fbe77,
                       0x79be];
    y := new uint32[9][0x3b10d4b8, 0x311f423f, 0x28554199, 0x5ed1229, 0x1108a8fd, 0x13eff038, 0x3c4655da, 0x369dc9a8,
                       0x483a];
    NineLimbs(x[..]);
    NineLimbs(y[..]);
  }
}
