/** Compressed points: 33 bytes holding the parity of the ordinate and the abscissa (section 2.3 of SEC 1), as the
    client and the server read and write them. */
module PointCodec {
  import opened Wrappers
  import opened Arith
  import opened Digits
  import opened Residues
  import opened Curve
  import opened Fermat
  import opened Sqrt
  import opened Bignum
  import opened Multiply
  import opened Octets
  import opened Scalars
  import opened Secp256k1
  import C = ClientCrypto
  import R = ClientCurve

  /** Curves whose square roots are powers. */
  ghost predicate Rootable(c: Params) {
    ValidParams(c) && c.p % 4 == 3 && 0 <= c.b < c.p
  }

  function EncodePoint(x: nat, y: nat): (s: seq<uint8>)
    ensures |s| == 33
  {
    [if y % 2 == 1 then 3 else 2] + BytesOf(x, 32)
  }

  /** The candidate for the ordinate. */
  function RootAt(c: Params, x: nat): (y: nat)
    requires c.p > 0
    ensures y < c.p
  {
    DivMod(Cubic(c, x), c.p);
    DivMod(Candidate(Cubic(c, x) % c.p, c.p), c.p);
    Candidate(Cubic(c, x) % c.p, c.p) % c.p
  }

  /** The root of the parity asked for. */
  function Pick(y0: nat, wantOdd: bool, p: nat): (y: nat)
    requires y0 < p
    ensures y <= p
  {
    if (y0 % 2 == 1) == wantOdd then y0 else p - y0
  }

  /** Decoding: the abscissa may be any 256-bit number; the ordinate is the root of the parity asked for. */
  function DecodePoint(c: Params, s: seq<uint8>): (r: Option<(nat, nat)>)
    requires c.p > 0
    ensures r.Some? ==> |s| == 33 && r.value.0 == IntOf(s[1..]) && r.value.1 <= c.p
  {
    if |s| != 33 || (s[0] != 2 && s[0] != 3) then None
    else
      var x: nat := IntOf(s[1..]);
      var y0 := RootAt(c, x);
      if (y0 * y0) % c.p != Cubic(c, x) % c.p then None
      else Some((x, Pick(y0, s[0] == 3, c.p)))
  }

  /** The candidate is a root exactly if the point equation has a solution for x. */
  lemma RootAtExact(c: Params, x: nat)
    requires Rootable(c)
    ensures (RootAt(c, x) * RootAt(c, x)) % c.p == Cubic(c, x) % c.p <==> IsSquare(Cubic(c, x), c.p)
  {
    hide Candidate;
    var p, v := c.p, Cubic(c, x);
    DivMod(v, p);
    var r: nat := v % p;
    CongMod(v, p);
    var s, y0 := Candidate(r, p), RootAt(c, x);
    CongMod(s, p);
    CongMul(y0, s, y0, s, p);
    RootExact(r, p);
    CongIsMod(y0 * y0, v, p);
    SquareResidue(r, v, p);
  }

  lemma SquareResidue(r: int, v: int, p: int)
    requires Cong(r, v, p)
    ensures IsSquare(r, p) <==> IsSquare(v, p)
  {
    if y: nat :| y < p && Cong(y * y, r, p) { assert Cong(y * y, v, p); }
    if y: nat :| y < p && Cong(y * y, v, p) { assert Cong(y * y, r, p); }
  }

  lemma Picked(y0: nat, wantOdd: bool, p: nat, v: int)
    requires y0 < p && p % 2 == 1 && Cong(y0 * y0, v, p)
    ensures Cong(Pick(y0, wantOdd, p) * Pick(y0, wantOdd, p), v, p) && (Pick(y0, wantOdd, p) % 2 == 1 <==> wantOdd)
  {
    CongIntro(p - y0, 0 - y0, 1, p);
    CongMul(p - y0, 0 - y0, p - y0, 0 - y0, p);
    assert (0 - y0) * (0 - y0) == y0 * y0;
  }

  /** Decoding succeeds exactly for a right prefix and an abscissa that has a point; the ordinate solves the equation
      and has the parity of the prefix. It is the prime itself exactly if the cubic vanishes and the prefix is 3, and
      the result is a reduced point exactly if neither coordinate reaches the prime. */
  lemma DecodeExact(c: Params, s: seq<uint8>)
    requires Rootable(c)
    ensures DecodePoint(c, s).Some? <==>
      |s| == 33 && (s[0] == 2 || s[0] == 3) && IsSquare(Cubic(c, IntOf(s[1..])), c.p)
    ensures DecodePoint(c, s).Some? ==>
      var (x, y) := DecodePoint(c, s).value;
      && Cong(y * y, Cubic(c, x), c.p) && y % 2 == s[0] % 2
      && (y == c.p <==> Cong(Cubic(c, x), 0, c.p) && s[0] == 3)
      && (OnCurve(c, Affine(x, y)) <==> x < c.p && !(Cong(Cubic(c, x), 0, c.p) && s[0] == 3))
  {
    hide RootAt, Candidate, Cubic, IntOf, IsSquare;
    if |s| == 33 && (s[0] == 2 || s[0] == 3) {
      var x: nat := IntOf(s[1..]);
      RootAtExact(c, x);
      if DecodePoint(c, s).Some? {
        CongIsMod(RootAt(c, x) * RootAt(c, x), Cubic(c, x), c.p);
        Picked(RootAt(c, x), s[0] == 3, c.p, Cubic(c, x));
        ZeroRoot(RootAt(c, x), Cubic(c, x), c.p);
      }
    }
  }

  /** The root vanishes exactly for a vanishing square. */
  lemma ZeroRoot(y: nat, v: int, p: nat)
    requires IsPrime(p) && y < p && Cong(y * y, v, p)
    ensures y == 0 <==> Cong(v, 0, p)
  {
    if Cong(v, 0, p) {
      EuclidLemma(y, y, p);
      CongUnique(y, 0, p);
    }
    CongIntro(0, 0, 0, p);
  }

  /** Among the two roots the parity tells which one is meant. */
  lemma PickedRoot(y: nat, y0: nat, p: nat)
    requires IsPrime(p) && p % 2 == 1 && y < p && y0 < p && Cong(y * y, y0 * y0, p)
    ensures Pick(y0, y % 2 == 1, p) == y
  {
    TwoRoots(y, y0, p);
  }

  /** Decoding an encoded point of the curve returns it. */
  lemma DecodeEncoded(c: Params, q: Point)
    requires Rootable(c) && OnCurve(c, q) && q.Affine?
    ensures DecodePoint(c, EncodePoint(q.x, q.y)) == Some((q.x, q.y))
  {
    hide RootAt, Candidate, BytesOf, Cubic, IntOf;
    var s := EncodePoint(q.x, q.y);
    assert s[1..] == BytesOf(q.x, 32);
    Pow256();
    IntOfBytesOf(q.x, 32);
    RootAtExact(c, q.x);
    var y0 := RootAt(c, q.x);
    assert IsSquare(Cubic(c, q.x), c.p);
    CongIsMod(y0 * y0, Cubic(c, q.x), c.p);
    SameSquare(q.y * q.y, y0 * y0, Cubic(c, q.x), c.p);
    PickedRoot(q.y, y0, c.p);
  }

  lemma SameSquare(a: int, b: int, v: int, p: int)
    requires Cong(a, v, p) && Cong(b, v, p)
    ensures Cong(a, b, p)
  {}

  /** Encoding what was decoded returns the bytes, unreduced coordinates included. */
  lemma EncodeDecoded(c: Params, s: seq<uint8>)
    requires Rootable(c) && DecodePoint(c, s).Some?
    ensures var (x, y) := DecodePoint(c, s).value; EncodePoint(x, y) == s
  {
    hide RootAt, Candidate, BytesOf, IntOf;
    BytesOfIntOf(s[1..]);
    DecodeExact(c, s);
    assert s == [s[0]] + s[1..];
  }

  // ---- the client ----------------------------------------------------------------------------

  /** encodeCompressedPoint: fails for the point at infinity. */
  method ClientEncode(point: Point) returns (out: Option<seq<uint8>>)
    requires point.Affine? ==> 0 <= point.x && 0 <= point.y
    ensures out == if point.Infinity? then None else Some(EncodePoint(point.x, point.y))
  {
    if point.Infinity? { return None; }
    var bytes := C.BigIntToBytes(point.x, 32);
    return Some([if point.y % 2 == 1 then 3 else 2] + bytes);
  }

  /** decodeCompressedPoint on a curve with a = 0 */
  method ClientDecode(c: Params, point: seq<uint8>) returns (r: Option<(nat, nat)>)
    requires Rootable(c) && c.a == 0
    ensures r == DecodePoint(c, point)
  {
    hide Candidate, IntOf;
    if |point| != 33 { return None; }
    var prefix := point[0];
    if prefix != 2 && prefix != 3 { return None; }
    var x := C.BytesToBigInt(point[1..]);
    var rhs := R.NonNegative(x * x * x + c.b, c.p);
    assert Cubic(c, x) == x * x * x + c.b;
    DivMod(Cubic(c, x), c.p);
    var yCandidate := ModPow(rhs, (c.p + 1) / 4, c.p);
    ReducedPower(rhs, c.p);
    if R.NonNegative(yCandidate * yCandidate, c.p) != rhs { return None; }
    var isOdd := yCandidate % 2 == 1;
    var y := if isOdd == (prefix == 3) then yCandidate else c.p - yCandidate;
    return Some((x, y));
  }

  lemma ReducedPower(rhs: nat, p: nat)
    requires rhs < p && p % 4 == 3
    ensures (p + 1) / 4 > 0 && Pow(rhs % p, (p + 1) / 4) == Candidate(rhs, p)
  {
    hide Pow;
    ModOnce(rhs, p);
  }

  // ---- unreduced abscissas -------------------------------------------------------------------

  const ROOT_OF_EIGHT: nat := 0x4218F20A_E6C646B3_63DB6860_5822FB14_264CA8D2_587FDD6F_BC750D58_7E76A7EE
  const EIGHT_QUOTIENT: nat := 0x1110DF3B_E5E21E67_76516A5F_A6702D71_D937B261_4804CCE0_315F9575_458FF784

  /** The client decodes the abscissa p + 1, which the server refuses. */
  lemma UnreducedAccepted(c: Params)
    requires Rootable(c) && c.p == FIELD && c.a == 0 && c.b == 7
    ensures var key := [2] + BytesOf(FIELD + 1, 32);
      DecodePoint(c, key).Some? && DecodePoint(c, key).value.0 == c.p + 1
  {
    hide BytesOf, IntOf, DecodePoint, Candidate;
    var key := [2] + BytesOf(FIELD + 1, 32);
    assert key[1..] == BytesOf(FIELD + 1, 32);
    Pow256();
    IntOfBytesOf(FIELD + 1, 32);
    CubicAtOne(c);
    CongIntro(ROOT_OF_EIGHT * ROOT_OF_EIGHT, 8, EIGHT_QUOTIENT, FIELD) by { RootSquared(); }
    assert Cong(ROOT_OF_EIGHT * ROOT_OF_EIGHT, Cubic(c, FIELD + 1), FIELD);
    DecodeExact(c, key);
  }

  lemma RootSquared()
    ensures ROOT_OF_EIGHT * ROOT_OF_EIGHT == 8 + EIGHT_QUOTIENT * FIELD
  {}

  lemma CubicAtOne(c: Params)
    requires c.p == FIELD && c.a == 0 && c.b == 7
    ensures Cong(Cubic(c, FIELD + 1), 8, FIELD)
  {
    var x := FIELD + 1;
    CongIntro(x, 1, 1, FIELD);
    CongMul(x, 1, x, 1, FIELD);
    CongMul(x * x, 1, x, 1, FIELD);
    CongIntro(7, 7, 0, FIELD);
    CongAdd(x * x * x, 1, 7, 7, FIELD);
  }

  // ---- the server ----------------------------------------------------------------------------

  /** The field prime and the coefficient b of the curve, in limbs. */
  ghost predicate CurveNumbers(c: Params, prime: array<uint32>, b: array<uint32>)
    reads prime, b
  {
    Rootable(c) && GoodPrime(prime) && Val(prime) == c.p && Normalized(b) && Val(b) == c.b && b != prime
  }

  lemma LowLimb(s: seq<int>)
    requires |s| == 9 && IsDigits(s, LIMB)
    ensures s[0] == Num(s, LIMB) % 0x4000_0000
  {
    NumCons(s, LIMB);
    NumBound(s[1..], LIMB);
    DivModUnique(Num(s, LIMB), LIMB, Num(s[1..], LIMB), s[0]);
  }

  /** y := x^3 + a*x modulo the prime, up to partial reduction */
  method CubicPart(c: Params, x: array<uint32>, y: array<uint32>, prime: array<uint32>)
    requires Rootable(c) && GoodPrime(prime) && Val(prime) == c.p && Normalized(x) && Val(x) < TWO256
    requires y.Length == 9 && y != x && y != prime
    modifies y
    ensures Normalized(y) && 0 <= Val(y) < 2 * c.p
    ensures Cong(Val(y), Val(x) * Val(x) * Val(x) + c.a * Val(x), c.p)
  {
    hide Num, Fits, MulMod;
    ghost var v := Val(x);
    CopyLimbs(y, x);
    FitsBelow180(v, v, c.p);
    BnMultiply(x, y, prime);
    ghost var square := Val(y);
    LowLimb(prime[..]);
    BnSubi(y, -c.a, prime);
    ghost var shifted := Val(y);
    FitsBelow180(v, shifted, c.p);
    BnMultiply(x, y, prime);
    CubicSteps(c, v, square, shifted, Val(y));
  }

  lemma CubicSteps(c: Params, v: int, square: int, shifted: int, y: int)
    requires Cong(square, v * v, c.p) && Cong(shifted, square - (-c.a), c.p) && Cong(y, v * shifted, c.p)
    ensures Cong(y, v * v * v + c.a * v, c.p)
  {
    CongIntro(c.a, c.a, 0, c.p);
    CongAdd(square, v * v, c.a, c.a, c.p);
    CongIntro(v, v, 0, c.p);
    CongMul(v, v, shifted, v * v + c.a, c.p);
    assert v * (v * v + c.a) == v * v * v + c.a * v;
  }

  /** uncompress_coords */
  method UncompressCoords(c: Params, odd: uint8, x: array<uint32>, y: array<uint32>, prime: array<uint32>,
                          b: array<uint32>)
    requires CurveNumbers(c, prime, b) && Normalized(x) && Val(x) < TWO256
    requires y.Length == 9 && y != x && y != prime && y != b
    modifies y
    ensures Normalized(y) && Val(y) == Pick(RootAt(c, Val(x)), odd % 2 == 1, c.p)
  {
    hide Num, Candidate, RootAt;
    CubicPart(c, x, y, prime);
    ghost var v := Val(x);
    CongIntro(c.b, c.b, 0, c.p);
    CongAdd(Val(y), v * v * v + c.a * v, c.b, c.b, c.p);
    BnAdd(y, b);
    SameRoot(c, v, Val(y));
    BnSqrt(y, prime);
    LowParity(y[..]);
    if odd % 2 != y[0] % 2 {
      BnSubtract(prime, y, y);
      SmallDifference(c.p, RootAt(c, v));
    }
  }

  /** The power of any representative has the same residue. */
  lemma SameRoot(c: Params, x: nat, r: nat)
    requires c.p > 0 && Cong(r, Cubic(c, x), c.p)
    ensures Candidate(r, c.p) % c.p == RootAt(c, x)
  {
    var v := Cubic(c, x);
    DivMod(v, c.p);
    CongMod(v, c.p);
    CongPow(r, v % c.p, (c.p + 1) / 4, c.p);
    CongIsMod(Candidate(r, c.p), Candidate(v % c.p, c.p), c.p);
  }

  lemma LowParity(s: seq<int>)
    requires |s| == 9 && IsDigits(s, LIMB)
    ensures s[0] % 2 == Num(s, LIMB) % 2
  {
    ParityOfLowLimb(s);
  }

  lemma SmallDifference(p: nat, y: nat)
    requires y < p < TWO256
    ensures (p - y) % TWO270 == p - y
  {
    ModOnce(p - y, TWO270);
  }

  /** y^2, fully reduced */
  method SquareOf(y: array<uint32>, prime: array<uint32>) returns (y2: array<uint32>)
    requires GoodPrime(prime) && Normalized(y) && Val(y) < Val(prime)
    ensures fresh(y2) && Normalized(y2) && Val(y2) == (Val(y) * Val(y)) % Val(prime)
  {
    hide Num, Fits, MulMod;
    y2 := NewNumber(0);
    CopyLimbs(y2, y);
    FitsBelow180(Val(y), Val(y), Val(prime));
    BnMultiply(y, y2, prime);
    CongIsMod(Val(y2), Val(y) * Val(y), Val(prime));
    BnMod(y2, prime);
  }

  /** x^3 + a*x + b, fully reduced */
  method CubicOf(c: Params, x: array<uint32>, prime: array<uint32>, b: array<uint32>) returns (x3: array<uint32>)
    requires CurveNumbers(c, prime, b) && Normalized(x) && Val(x) < c.p
    ensures fresh(x3) && Normalized(x3) && Val(x3) == Cubic(c, Val(x)) % c.p
  {
    hide Num, Fits, MulMod;
    x3 := NewNumber(0);
    CubicPart(c, x, x3, prime);
    ghost var v, part := Val(x), Val(x3);
    BnAddMod(x3, b, prime);
    CongIntro(c.b, c.b, 0, c.p);
    CongAdd(part, v * v * v + c.a * v, c.b, c.b, c.p);
    CongIsMod(Val(x3), Cubic(c, v), c.p);
    BnMod(x3, prime);
  }

  /** ecdsa_validate_pubkey */
  method ValidatePubkey(c: Params, x: array<uint32>, y: array<uint32>, prime: array<uint32>, b: array<uint32>)
      returns (ok: bool)
    requires CurveNumbers(c, prime, b) && Normalized(x) && Normalized(y)
    ensures ok <==> OnCurve(c, Affine(Val(x), Val(y)))
  {
    hide Num, Cubic;
    var xZero := BnIsZero(x);
    var yZero := BnIsZero(y);
    if xZero && yZero {
      OriginOff(c);
      return false;
    }
    var xLess := BnIsLess(x, prime);
    var yLess := BnIsLess(y, prime);
    if !xLess || !yLess { return false; }
    var y2 := SquareOf(y, prime);
    var x3 := CubicOf(c, x, prime, b);
    ok := BnIsEqual(x3, y2);
    CongIsMod(Val(y) * Val(y), Cubic(c, Val(x)), c.p);
  }

  lemma OriginOff(c: Params)
    requires ValidParams(c)
    ensures !OnCurve(c, Affine(0, 0))
  {
    assert Cubic(c, 0) == c.b;
  }

  /** ecdsa_read_pubkey: accepts exactly the compressed keys that the client decodes to reduced coordinates, and the
      uncompressed keys, of 65 bytes, whose coordinates are those of a point. */
  method ReadPubkey(c: Params, key: seq<uint8>, prime: array<uint32>, b: array<uint32>)
      returns (ok: bool, x: array<uint32>, y: array<uint32>)
    requires CurveNumbers(c, prime, b) && |key| >= 33 && (key[0] == 4 ==> |key| >= 65)
    ensures fresh(x) && fresh(y) && Normalized(x) && Normalized(y)
    ensures key[0] != 4 ==> (ok <==> DecodesReduced(c, key[..33]))
    ensures key[0] != 4 && ok ==> DecodePoint(c, key[..33]) == Some((Val(x) as nat, Val(y) as nat))
    ensures key[0] == 4 ==> Val(x) == IntOf(key[1..33]) && Val(y) == IntOf(key[33..65])
    ensures key[0] == 4 ==> (ok <==> OnCurve(c, Affine(Val(x), Val(y))))
  {
    hide Num, RootAt, Candidate, Cubic;
    x := NewNumber(0);
    y := NewNumber(0);
    if key[0] == 4 {
      BnReadBe(key[1..33], x);
      BnReadBe(key[33..65], y);
      ok := ValidatePubkey(c, x, y, prime, b);
      return;
    }
    if key[0] != 2 && key[0] != 3 { return false, x, y; }
    assert key[..33][1..] == key[1..33];
    BnReadBe(key[1..33], x);
    UncompressCoords(c, key[0], x, y, prime, b);
    ok := ValidatePubkey(c, x, y, prime, b);
    ReadAgrees(c, key[..33], Val(x), Val(y));
  }

  /** The client decodes the bytes to a point of the curve with reduced coordinates. */
  ghost predicate DecodesReduced(c: Params, s: seq<uint8>)
    requires Rootable(c)
  {
    DecodePoint(c, s).Some? && OnCurve(c, Affine(DecodePoint(c, s).value.0, DecodePoint(c, s).value.1))
  }

  lemma ReadAgrees(c: Params, key: seq<uint8>, x: nat, y: nat)
    requires Rootable(c) && |key| == 33 && (key[0] == 2 || key[0] == 3)
    requires x == IntOf(key[1..]) && y == Pick(RootAt(c, x), key[0] % 2 == 1, c.p)
    ensures DecodePoint(c, key).Some? ==> DecodePoint(c, key) == Some((x, y))
    ensures OnCurve(c, Affine(x, y)) ==> DecodePoint(c, key).Some?
  {
    hide RootAt, Candidate, Cubic, IntOf;
    if OnCurve(c, Affine(x, y)) {
      assert IsSquare(Cubic(c, x), c.p);
      DecodeExact(c, key);
    }
  }

  /** compress_coords */
  method CompressCoords(x: array<uint32>, y: array<uint32>) returns (out: seq<uint8>)
    requires Normalized(x) && Normalized(y) && Val(x) < TWO256
    ensures out == EncodePoint(Val(x), Val(y))
  {
    hide Num, BytesOf;
    var bytes := new uint8[32](_ => 0);
    BnWriteBe(x, bytes);
    ScalarIs(bytes[..], Val(x));
    LowParity(y[..]);
    out := [if y[0] % 2 == 1 then 3 else 2] + bytes[..];
  }
}
