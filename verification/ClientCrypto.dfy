/** The client's scalar arithmetic on unbounded integers. */
module ClientCrypto {
  import opened Arith
  import opened Bits
  import opened Digits
  import opened Octets
  import opened Scalars
  import opened Secp256k1

  /** bytesToBigInt: shift and or, byte by byte. */
  method BytesToBigInt(bytes: seq<uint8>) returns (value: nat)
    ensures value == IntOf(bytes)
  {
    value := 0;
    var i := 0;
    while i < |bytes|
      invariant 0 <= i <= |bytes| && value == Big(bytes[..i], 256)
    {
      BigStep(bytes, i, 256);
      AppendByte(value, bytes[i]);
      BigBound(bytes[..i + 1], 256);
      value := Or(value * 256, bytes[i]);
      i := i + 1;
    }
    assert bytes[..|bytes|] == bytes;
  }

  lemma AppendByte(v: nat, b: uint8)
    ensures Or(v * 256, b) == v * 256 + b
  {
    TwoPowers();
    OrIsSum(v, b, 8);
  }

  /** bigIntToBytes: the low bytes, written from the end. */
  method BigIntToBytes(value: nat, length: nat) returns (out: seq<uint8>)
    ensures out == BytesOf(value, length)
  {
    var bytes := new uint8[length](_ => 0);
    var remaining := value;
    var i := length - 1;
    assert bytes[length..] == [];
    while i >= 0
      invariant -1 <= i < length
      invariant BytesOf(value, length) == BytesOf(remaining, i + 1) + bytes[i + 1..]
    {
      assert BytesOf(remaining, i + 1) == BytesOf(remaining / 256, i) + [remaining % 256];
      bytes[i] := remaining % 256;
      remaining := remaining / 256;
      assert bytes[i..] == [bytes[i]] + bytes[i + 1..];
      i := i - 1;
    }
    assert bytes[0..] == bytes[..];
    out := bytes[..];
  }

  method ModAdd(lhs: seq<uint8>, rhs: seq<uint8>) returns (out: seq<uint8>)
    ensures out == BytesOf((IntOf(lhs) + IntOf(rhs)) % ORDER, 32)
  {
    var l := BytesToBigInt(lhs);
    var r := BytesToBigInt(rhs);
    out := BigIntToBytes((l + r) % ORDER, 32);
  }

  method ModMul(lhs: seq<uint8>, rhs: seq<uint8>) returns (out: seq<uint8>)
    ensures out == BytesOf((IntOf(lhs) * IntOf(rhs)) % ORDER, 32)
  {
    var l := BytesToBigInt(lhs);
    var r := BytesToBigInt(rhs);
    out := BigIntToBytes((l * r) % ORDER, 32);
  }
}
