/** The server's scalar arithmetic: 32-byte strings through the limb library and back. */
module CryptoOps {
  import opened Arith
  import opened Digits
  import opened Residues
  import opened Bignum
  import opened Multiply
  import opened Octets
  import opened Scalars
  import opened Secp256k1

  method ScalarToBn(scalar: Scalar) returns (value: array<uint32>)
    ensures fresh(value) && Normalized(value) && Val(value) == IntOf(scalar) && Val(value) < TWO256
  {
    value := new uint32[9];
    BnReadBe(scalar, value);
  }

  method BnToScalar(value: array<uint32>) returns (out: Scalar)
    requires Normalized(value) && Val(value) < TWO256
    ensures out == BytesOf(Val(value), 32) && IntOf(out) == Val(value)
  {
    var bytes := new uint8[32];
    BnWriteBe(value, bytes);
    out := bytes[..];
    ScalarIs(out, Val(value));
  }

  /** One conditional subtraction brings a number below 2n into range; a second one handles 2n. */
  lemma ModTwice(v: int, n: int)
    requires n > 0 && 0 <= v
    ensures v <= 2 * n ==> Mod(Mod(v, n), n) == v % n
    ensures Mod(Mod(v, n), n) == if v < 3 * n then v % n else v - 2 * n
  {
    if v < n { DivModUnique(v, n, 0, v); }
    else if v < 2 * n { DivModUnique(v, n, 1, v - n); }
    else if v < 3 * n { DivModUnique(v, n, 2, v - 2 * n); }
  }

  /** The canonical sum, for all 32-byte inputs. */
  method ModAdd(lhs: Scalar, rhs: Scalar) returns (out: Scalar)
    ensures out == BytesOf((IntOf(lhs) + IntOf(rhs)) % ORDER, 32)
  {
    hide Big, Pow, Num;
    ConstantsInRange();
    var n := Order();
    var sum := ScalarToBn(lhs);
    var other := ScalarToBn(rhs);
    BnAddMod(sum, other, n);
    BnMod(sum, n);
    CongIsMod(Val(sum), IntOf(lhs) + IntOf(rhs), ORDER);
    DivModUnique(Val(sum), ORDER, 0, Val(sum));
    out := BnToScalar(sum);
  }

  /** The canonical product, for all 32-byte inputs. */
  method ModMul(lhs: Scalar, rhs: Scalar) returns (out: Scalar)
    ensures out == BytesOf((IntOf(lhs) * IntOf(rhs)) % ORDER, 32)
  {
    hide Big, Pow, Num;
    ConstantsInRange();
    var n := Order();
    var result := ScalarToBn(lhs);
    var factor := ScalarToBn(rhs);
    FitsBelow180(Val(factor), Val(result), ORDER);
    BnMultiply(factor, result, n);
    BnMod(result, n);
    assert IntOf(rhs) * IntOf(lhs) == IntOf(lhs) * IntOf(rhs);
    CongIsMod(Val(result), IntOf(lhs) * IntOf(rhs), ORDER);
    DivModUnique(Val(result), ORDER, 0, Val(result));
    out := BnToScalar(result);
  }

  /** What mod_sub returns: canonical exactly if the difference is below the order (see ModSubCanonical). */
  function Difference(l: nat, r: nat): int {
    if l - r < ORDER then (l - r) % ORDER else l - r
  }

  method ModSub(lhs: Scalar, rhs: Scalar) returns (out: Scalar)
    ensures IntOf(out) == Difference(IntOf(lhs), IntOf(rhs))
  {
    ConstantsInRange();
    var n := Order();
    var result := new uint32[9];
    var left := ScalarToBn(lhs);
    var right := ScalarToBn(rhs);
    BnSubtractMod(left, right, result, n);
    ghost var v := Val(result);
    ModTwice(v, ORDER);
    BnMod(result, n);
    BnMod(result, n);
    CongIsMod(v, IntOf(lhs) - IntOf(rhs), ORDER);
    out := BnToScalar(result);
  }

  /** mod_sub is canonical if and only if its true difference is below the order. */
  lemma ModSubCanonical(l: nat, r: nat)
    requires l < TWO256 && r < TWO256
    ensures Difference(l, r) == (l - r) % ORDER <==> l - r < ORDER
    ensures Cong(Difference(l, r), l - r, ORDER)
  {
    DivMod(l - r, ORDER);
    CongMod(l - r, ORDER);
    CongIntro(l - r, l - r, 0, ORDER);
  }

  /** Subtracting zero from the order is not reduced. */
  lemma ModSubUnreduced()
    ensures Difference(ORDER, 0) == ORDER && (ORDER - 0) % ORDER == 0
  {}

  /** The canonical negative, for all 32-byte inputs; zero is returned as it is. */
  method ModNegate(value: Scalar) returns (out: Scalar)
    ensures out == BytesOf((0 - IntOf(value)) % ORDER, 32)
  {
    hide Big, Pow;
    var allZero := AllZero(value);
    if allZero {
      out := value;
      ScalarIs(out, 0);
      return;
    }
    var input := ScalarToBn(value);
    out := NegateNumber(input);
  }

  method AllZero(value: Scalar) returns (zero: bool)
    ensures zero <==> IntOf(value) == 0
  {
    zero := true;
    var i := 0;
    while i < 32
      invariant 0 <= i <= 32
      invariant zero <==> forall m :: 0 <= m < i ==> value[m] == 0
    {
      zero := zero && value[i] == 0;
      i := i + 1;
    }
    ghost var zeros: seq<uint8> := seq(32, _ => 0);
    ZeroBytes(32);
    if zero {
      assert value == zeros;
    } else if IntOf(value) == 0 {
      BigUnique(value, zeros, 256);
      assert false;
    }
  }

  lemma {:induction false} ZeroBytes(n: nat)
    ensures Big(seq(n, _ => 0), 256) == 0
  {
    if n > 0 {
      ZeroBytes(n - 1);
      assert seq(n, _ => 0)[..n - 1] == seq(n - 1, _ => 0);
    }
  }

  /** 0 - x through bn_subtractmod and two bn_mods, as in mod_negate and compute_alice_share. */
  method NegateNumber(x: array<uint32>) returns (out: Scalar)
    requires Normalized(x) && Val(x) <= 2 * ORDER
    ensures out == BytesOf((0 - Val(x)) % ORDER, 32)
  {
    hide BytesOf, Big, Pow;
    ConstantsInRange();
    var n := Order();
    var result := new uint32[9];
    var zero := new uint32[9](_ => 0);
    NumZero(zero[..], LIMB);
    BnSubtractMod(zero, x, result, n);
    ghost var v := Val(result);
    ModTwice(v, ORDER);
    BnMod(result, n);
    BnMod(result, n);
    CongIsMod(v, 0 - Val(x), ORDER);
    out := BnToScalar(result);
  }
}
