/** One correlated oblivious transfer: choice bits, masking, key derivation and the two parties' answers. */
module Transfer {
  import opened Wrappers
  import opened Arith
  import opened Bits
  import opened BitSlice
  import opened Digits
  import opened Octets
  import opened Scalars
  import opened Secp256k1
  import opened Curve
  import opened Multiples
  import opened PointMultiply

  // ---- choice bits -----------------------------------------------------------------------

  /** Bit number index of a big-endian byte string. */
  function GetBit(bytes: seq<uint8>, index: nat): (bit: int)
    requires index < 8 * |bytes|
    ensures bit == 0 || bit == 1
  {
    PowPos(2, index % 8);
    (bytes[|bytes| - 1 - index / 8] / Pow(2, index % 8)) % 2
  }

  function ChoiceBits(bytes: seq<uint8>, n: nat): (s: seq<int>)
    requires n <= 8 * |bytes|
    ensures |s| == n && forall i :: 0 <= i < n ==> s[i] == GetBit(bytes, i)
  {
    seq(n, i requires 0 <= i < n => GetBit(bytes, i))
  }

  /** get_bit reads the binary digit of the number the bytes denote. */
  lemma GetBitIsDigit(bytes: seq<uint8>, index: nat)
    requires index < 8 * |bytes|
    ensures Pow(2, index) > 0 && GetBit(bytes, index) == (IntOf(bytes) / Pow(2, index)) % 2
  {
    DivMod(index, 8);
    BitAt(bytes, index / 8, index % 8, index);
  }

  lemma BitAt(bytes: seq<uint8>, j: nat, t: nat, index: nat)
    requires j < |bytes| && t < 8 && index == 8 * j + t
    ensures Pow(2, index) > 0 && Pow(2, t) > 0
    ensures (IntOf(bytes) / Pow(2, index)) % 2 == (bytes[|bytes| - 1 - j] / Pow(2, t)) % 2
  {
    var h := ByteOfNumber(bytes, j);
    QuotientInSteps(IntOf(bytes), j, t);
    BitOfLowByte(h, bytes[|bytes| - 1 - j], t);
  }

  lemma QuotientInSteps(v: nat, j: nat, t: nat)
    ensures Pow(256, j) > 0 && Pow(2, t) > 0 && Pow(2, 8 * j + t) > 0
    ensures v / Pow(2, 8 * j + t) == (v / Pow(256, j)) / Pow(2, t)
  {
    PowPos(256, j);
    PowPos(2, t);
    PowPos(2, 8 * j + t);
    DivDiv(v, Pow(256, j), Pow(2, t));
    TwoPowers();
    PowMul(2, 8, j);
    PowAdd(2, 8 * j, t);
  }

  /** Dropping j bytes leaves a number whose low byte is byte j from the end. */
  lemma ByteOfNumber(bytes: seq<uint8>, j: nat) returns (h: nat)
    requires j < |bytes|
    ensures Pow(256, j) > 0 && IntOf(bytes) / Pow(256, j) == h * 256 + bytes[|bytes| - 1 - j]
  {
    var l := |bytes|;
    var high, b, low := bytes[..l - 1 - j], bytes[l - 1 - j], bytes[l - j..];
    assert bytes == (high + [b]) + low;
    BigConcat(high + [b], low, 256);
    BigSnoc(high, b, 256);
    BigBound(low, 256);
    BigBound(high, 256);
    PowPos(256, j);
    h := Big(high, 256);
    DivModUnique(IntOf(bytes), Pow(256, j), h * 256 + b, Big(low, 256));
  }

  lemma BitOfLowByte(h: nat, b: uint8, t: nat)
    requires t < 8
    ensures Pow(2, t) > 0 && ((h * 256 + b) / Pow(2, t)) % 2 == (b / Pow(2, t)) % 2
  {
    PowPos(2, t);
    var m, g := Pow(2, t), Pow(2, 7 - t);
    PowAdd(2, t, 7 - t);
    assert Pow(2, 7) == 128;
    DivMod(b, m);
    var q, r := b / m, b % m;
    HighByteLifted(h, b, m, g, q, r);
    DivModUnique(h * 256 + b, m, q + 2 * (h * g), r);
    TwosDropped(q, h * g);
  }

  lemma HighByteLifted(h: int, b: int, m: int, g: int, q: int, r: int)
    requires m * g == 128 && b == q * m + r
    ensures h * 256 + b == (q + 2 * (h * g)) * m + r
  {
    Distribute(q, 2 * (h * g), m);
    assert (h * g) * m == h * (m * g);
  }

  lemma TwosDropped(q: int, k: int)
    ensures (q + 2 * k) % 2 == q % 2
  {}

  /** The first n bits, weighted by powers of two, rebuild the number modulo 2^n. */
  lemma {:induction false} BitsRebuild(bytes: seq<uint8>, n: nat)
    requires n <= 8 * |bytes|
    ensures Pow(2, n) > 0 && Num(ChoiceBits(bytes, n), 2) == IntOf(bytes) % Pow(2, n)
  {
    PowPos(2, n);
    if n == 0 {
      assert Pow(2, 0) == 1;
    } else {
      var v := IntOf(bytes);
      PowPos(2, n - 1);
      BitsRebuild(bytes, n - 1);
      var s := ChoiceBits(bytes, n);
      assert s == ChoiceBits(bytes, n - 1) + [GetBit(bytes, n - 1)];
      NumSnoc(ChoiceBits(bytes, n - 1), GetBit(bytes, n - 1), 2);
      GetBitIsDigit(bytes, n - 1);
      OneMoreBit(v, Pow(2, n - 1));
    }
  }

  lemma OneMoreBit(v: int, m: int)
    requires m > 0
    ensures v % (2 * m) == v % m + ((v / m) % 2) * m
  {
    DivMod(v, m);
    var q, r := v / m, v % m;
    assert q == 2 * (q / 2) + q % 2;
    Distribute(2 * (q / 2), q % 2, m);
    assert (2 * (q / 2)) * m == (q / 2) * (2 * m);
    MulMono(q % 2, 1, m);
    MulMono(0, q % 2, m);
    DivModUnique(v, 2 * m, q / 2, (q % 2) * m + r);
  }

  // ---- masking ---------------------------------------------------------------------------

  function XorByte(a: uint8, b: uint8): (r: uint8) {
    XorBound(a, b, 8);
    TwoPowers();
    Xor(a, b)
  }

  /** The message masked by a key of at least its length. */
  function Masked(message: seq<uint8>, key: seq<uint8>): (r: seq<uint8>)
    requires |message| <= |key|
    ensures |r| == |message|
  {
    seq(|message|, i requires 0 <= i < |message| => XorByte(message[i], key[i]))
  }

  /** xor_encrypt / xorEncrypt */
  method XorEncrypt(message: seq<uint8>, key: seq<uint8>) returns (out: seq<uint8>)
    requires |message| <= |key|
    ensures out == Masked(message, key)
  {
    var bytes := new uint8[|message|](_ => 0);
    var i := 0;
    while i < |message|
      invariant 0 <= i <= |message|
      invariant forall j :: 0 <= j < i ==> bytes[j] == XorByte(message[j], key[j])
    {
      bytes[i] := XorByte(message[i], key[i]);
      i := i + 1;
    }
    out := bytes[..];
  }

  /** Masking twice with the same key restores the message. */
  lemma MaskedTwice(message: seq<uint8>, key: seq<uint8>)
    requires |message| <= |key|
    ensures Masked(Masked(message, key), key) == message
  {
    forall i | 0 <= i < |message| ensures Masked(Masked(message, key), key)[i] == message[i] {
      XorCancel(message[i], key[i]);
    }
  }

  /** A bit of the masked message is the message's exactly where the key's bit is clear. */
  lemma MaskedBits(message: seq<uint8>, key: seq<uint8>, i: nat, t: nat)
    requires i < |message| <= |key|
    ensures Bit(Masked(message, key)[i], t) == (Bit(message[i], t) != Bit(key[i], t))
  {
    BitXor(message[i], key[i], t);
  }

  /** A masked message is opened by the key it was masked with, and by no other. */
  lemma OneKeyOpens(message: Scalar, key: Scalar, other: Scalar)
    ensures Masked(Masked(message, key), other) == message <==> other == key
  {
    MaskedTwice(message, key);
    if Masked(Masked(message, key), other) == message {
      forall i | 0 <= i < 32 ensures other[i] == key[i] {
        SameMask(Masked(message, key)[i], other[i], key[i]);
      }
    }
  }

  lemma SameMask(a: uint8, k: uint8, l: uint8)
    requires XorByte(a, k) == XorByte(a, l)
    ensures k == l
  {
    hide Xor;
    XorCommutes(a, k);
    XorCommutes(a, l);
    XorCancel(k, a);
    XorCancel(l, a);
  }

  // ---- the parties -----------------------------------------------------------------------

  /** The curve, its generator, and the hash that turns coordinates into keys. */
  datatype Setup = Setup(c: Params, g: Point, hash: seq<uint8> -> Scalar)

  ghost predicate ValidSetup(s: Setup) {
    Setting(s.c, s.g) && s.c.n == ORDER && s.c.a == 0
  }

  /** is_valid_scalar */
  predicate ValidScalar(k: Scalar) {
    0 < IntOf(k) < ORDER
  }

  ghost function Generated(s: Setup, k: Scalar): Point
    requires IsPrime(s.c.p)
  {
    Multiple(s.c, IntOf(k), s.g)
  }

  /** The hash of the shared point's abscissa, as 32 bytes. */
  function Key(s: Setup, q: Point): Scalar
    requires q.Affine? && q.x >= 0
  {
    s.hash(BytesOf(q.x, 32))
  }

  /** No two 32-byte strings have the same hash. */
  ghost predicate Injective(hash: seq<uint8> -> Scalar) {
    forall u: Scalar, v: Scalar :: hash(u) == hash(v) ==> u == v
  }

  /** The key is the hash of the 32 bytes that denote the abscissa. */
  lemma KeyIs(s: Setup, q: Point) returns (u: Scalar)
    requires ValidParams(s.c) && OnCurve(s.c, q) && q.Affine?
    ensures IntOf(u) == q.x && Key(s, q) == s.hash(u)
  {
    Pow256();
    IntOfBytesOf(q.x, 32);
    u := BytesOf(q.x, 32);
  }

  /** Keys are equal exactly for points with equal abscissas. */
  lemma KeyDetermines(s: Setup, q: Point, r: Point)
    requires ValidParams(s.c) && Injective(s.hash) && OnCurve(s.c, q) && OnCurve(s.c, r) && q.Affine? && r.Affine?
    ensures Key(s, q) == Key(s, r) <==> q.x == r.x
  {
    hide BytesOf, Cubic, Key;
    var u := KeyIs(s, q);
    var v := KeyIs(s, r);
    if q.x == r.x { BytesOfIntOf(u); BytesOfIntOf(v); }
  }

  datatype Encrypted = Encrypted(m0: Scalar, m1: Scalar)

  /** Alice's side of one transfer. */
  datatype AliceOT = AliceOT(m0: Scalar, m1: Scalar, ui: Scalar, a: Scalar, pointA: Point)

  /** m0 is drawn, m1 is m0 + x. */
  ghost function NewAlice(s: Setup, x: Scalar, m0: Scalar, a: Scalar): AliceOT
    requires IsPrime(s.c.p)
  {
    AliceOT(m0, BytesOf((IntOf(m0) + IntOf(x)) % ORDER, 32), m0, a, Generated(s, a))
  }

  /** processResponse: fails when a point to be encoded is at infinity. */
  ghost function ProcessResponse(s: Setup, alice: AliceOT, pointB: Point): Option<Encrypted>
    requires ValidParams(s.c) && OnCurve(s.c, pointB) && OnCurve(s.c, alice.pointA)
  {
    var bMinusA := Add(s.c, pointB, Negate(s.c, alice.pointA));
    var shared0, shared1 := Multiple(s.c, IntOf(alice.a), pointB), Multiple(s.c, IntOf(alice.a), bMinusA);
    NegateOnCurve(s.c, alice.pointA);
    AddOnCurve(s.c, pointB, Negate(s.c, alice.pointA));
    MultipleOnCurve(s.c, IntOf(alice.a), pointB);
    MultipleOnCurve(s.c, IntOf(alice.a), bMinusA);
    if shared0.Infinity? || bMinusA.Infinity? || shared1.Infinity? then None
    else Some(Encrypted(Masked(alice.m0, Key(s, shared0)), Masked(alice.m1, Key(s, shared1))))
  }

  /** Bob's decryption key for Alice's point. */
  ghost function BobKey(s: Setup, b: Scalar, pointA: Point): Option<Scalar>
    requires ValidParams(s.c) && OnCurve(s.c, pointA)
  {
    var shared := Multiple(s.c, IntOf(b), pointA);
    MultipleOnCurve(s.c, IntOf(b), pointA);
    if !ValidScalar(b) || shared.Infinity? then None else Some(Key(s, shared))
  }

  /** Bob's answer: b*G, plus Alice's point for a set choice bit; fails at infinity. */
  ghost function BobReply(s: Setup, choice: int, b: Scalar, pointA: Point): Option<Point>
    requires IsPrime(s.c.p)
  {
    if choice == 0 then Some(Generated(s, b))
    else if Add(s.c, Generated(s, b), pointA).Infinity? then None
    else Some(Add(s.c, Generated(s, b), pointA))
  }

  /** decrypt_message */
  function Decrypt(choice: int, key: Scalar, e: Encrypted): Scalar {
    Masked(if choice == 0 then e.m0 else e.m1, key)
  }

  /** What Bob is to learn: m0, or m0 + x. */
  function Correlated(x: Scalar, m0: Scalar, choice: int): Scalar {
    if choice == 0 then m0 else BytesOf((IntOf(m0) + IntOf(x)) % ORDER, 32)
  }

  lemma NonZeroScalar(s: Setup, k: int)
    requires ValidSetup(s) && 0 < k < ORDER
    ensures !Cong(k, 0, ORDER)
  {
    SmallNotMultiple(k, ORDER);
  }

  /** Multiples of the generator, and multiples of those. */
  lemma NestedMultiple(s: Setup, k: nat, m: int)
    requires ValidSetup(s)
    ensures OnCurve(s.c, Multiple(s.c, m, s.g)) && OnCurve(s.c, Multiple(s.c, k * m, s.g))
    ensures Multiple(s.c, k, Multiple(s.c, m, s.g)) == Multiple(s.c, k * m, s.g)
    ensures Multiple(s.c, k * m, s.g).Infinity? <==> Cong(k, 0, ORDER) || Cong(m, 0, ORDER)
    ensures Multiple(s.c, m, s.g).Infinity? <==> Cong(m, 0, ORDER)
  {
    MultipleOnCurve(s.c, m, s.g);
    MultipleOnCurve(s.c, k * m, s.g);
    MultipleMultiple(s.c, k, m, s.g);
    MultipleVanishes(s.c, s.g, ORDER, k * m);
    MultipleVanishes(s.c, s.g, ORDER, m);
    if Cong(k, 0, ORDER) { CongMul(k, 0, m, m, ORDER); }
    if Cong(m, 0, ORDER) { CongMul(k, k, m, 0, ORDER); }
    if Cong(k * m, 0, ORDER) { EuclidLemma(k, m, ORDER); }
  }

  /** The two secrets that make a transfer fail: equal ones for choice 0, ones adding up to the order for 1. */
  predicate Collision(choice: int, a: Scalar, b: Scalar) {
    if choice == 0 then IntOf(a) == IntOf(b) else IntOf(a) + IntOf(b) == ORDER
  }

  /** Bob's answer fails exactly on a collision for choice 1; otherwise it is a known multiple. */
  lemma ReplyIs(s: Setup, choice: int, a: Scalar, b: Scalar)
    requires ValidSetup(s) && ValidScalar(a) && ValidScalar(b) && (choice == 0 || choice == 1)
    ensures var r := BobReply(s, choice, b, Generated(s, a));
      && (r.None? <==> choice == 1 && Collision(choice, a, b))
      && (r.Some? ==> r.value == Multiple(s.c, IntOf(b) + choice * IntOf(a), s.g) && OnCurve(s.c, r.value))
  {
    var ka, kb := IntOf(a), IntOf(b);
    MultipleAdd(s.c, kb, ka, s.g);
    MultipleVanishes(s.c, s.g, ORDER, kb + ka);
    MultipleOnCurve(s.c, kb, s.g);
    MultipleOnCurve(s.c, kb + ka, s.g);
    SumVanishes(ka, kb);
  }

  lemma SumVanishes(a: int, b: int)
    requires 0 < a < ORDER && 0 < b < ORDER
    ensures Cong(b + a, 0, ORDER) <==> a + b == ORDER
    ensures Cong(b - a, 0, ORDER) <==> a == b
  {
    if Cong(b + a, 0, ORDER) {
      CongShift(b + a, 1, ORDER);
      if a + b < ORDER { SmallNotMultiple(a + b, ORDER); }
      if a + b > ORDER { SmallNotMultiple(a + b - ORDER, ORDER); }
    }
    if a + b == ORDER { CongIntro(b + a, 0, 1, ORDER); }
    if a != b { SmallNotMultiple(b - a, ORDER); }
    CongIntro(0, 0, 0, ORDER);
  }

  /** The points both parties hash are the same multiple of the generator. */
  lemma SharedPoint(s: Setup, a: Scalar, b: Scalar)
    requires ValidSetup(s) && ValidScalar(a) && ValidScalar(b)
    ensures OnCurve(s.c, Generated(s, a)) && OnCurve(s.c, Generated(s, b))
    ensures var q := Multiple(s.c, IntOf(a), Generated(s, b));
      q.Affine? && OnCurve(s.c, q) && BobKey(s, b, Generated(s, a)) == Some(Key(s, q))
  {
    var ka, kb := IntOf(a), IntOf(b);
    NonZeroScalar(s, ka);
    NonZeroScalar(s, kb);
    NestedMultiple(s, kb, ka);
    NestedMultiple(s, ka, kb);
    assert ka * kb == kb * ka;
  }

  /** Alice's answer to the point m*G: her two keys come from a*m*G and a*(m - a)*G. */
  lemma ResponseIs(s: Setup, alice: AliceOT, m: int)
    requires ValidSetup(s) && ValidScalar(alice.a) && alice.pointA == Generated(s, alice.a) && !Cong(m, 0, ORDER)
    ensures OnCurve(s.c, Multiple(s.c, m, s.g)) && OnCurve(s.c, alice.pointA)
    ensures var ka := IntOf(alice.a);
      var q0, q1 := Multiple(s.c, ka, Multiple(s.c, m, s.g)), Multiple(s.c, ka, Multiple(s.c, m - ka, s.g));
      var e := ProcessResponse(s, alice, Multiple(s.c, m, s.g));
      && OnCurve(s.c, q0) && OnCurve(s.c, q1) && q0.Affine?
      && (e.None? <==> Cong(m - ka, 0, ORDER)) && (e.Some? ==> q1.Affine?)
      && (e.Some? ==> e.value == Encrypted(Masked(alice.m0, Key(s, q0)), Masked(alice.m1, Key(s, q1))))
  {
    var ka := IntOf(alice.a);
    NonZeroScalar(s, ka);
    NestedMultiple(s, ka, m);
    MultipleOnCurve(s.c, ka, s.g);
    MultipleNegated(s.c, ka, s.g);
    MultipleAdd(s.c, m, -ka, s.g);
    NestedMultiple(s, ka, m - ka);
  }

  /** One transfer between honest parties: Bob's key opens exactly the message he chose, and Alice fails
      exactly on a collision for choice 0. */
  lemma TransferCorrect(s: Setup, x: Scalar, m0: Scalar, a: Scalar, b: Scalar, choice: int)
    requires ValidSetup(s) && ValidScalar(a) && ValidScalar(b) && (choice == 0 || choice == 1)
    requires BobReply(s, choice, b, Generated(s, a)).Some?
    ensures var alice := NewAlice(s, x, m0, a);
      var reply := BobReply(s, choice, b, alice.pointA).value;
      && OnCurve(s.c, alice.pointA) && OnCurve(s.c, reply)
      && var key := BobKey(s, b, alice.pointA);
         var e := ProcessResponse(s, alice, reply);
         && key.Some? && (e.None? <==> choice == 0 && Collision(choice, a, b))
         && (e.Some? ==> Decrypt(choice, key.value, e.value) == Correlated(x, m0, choice))
  {
    hide Cong, Big, Multiple, BytesOf, Pow;
    ReplyIs(s, choice, a, b);
    SharedPoint(s, a, b);
    Opened(s, NewAlice(s, x, m0, a), b, choice);
  }

  /** Alice's answer to (b + choice*a)*G holds the chosen message under Bob's key. */
  lemma Opened(s: Setup, alice: AliceOT, b: Scalar, choice: int)
    requires ValidSetup(s) && ValidScalar(alice.a) && ValidScalar(b) && (choice == 0 || choice == 1)
    requires alice.pointA == Generated(s, alice.a) && !(choice == 1 && Collision(choice, alice.a, b))
    ensures var m := IntOf(b) + choice * IntOf(alice.a);
      && OnCurve(s.c, Multiple(s.c, m, s.g)) && OnCurve(s.c, alice.pointA)
      && var key := BobKey(s, b, alice.pointA);
         var e := ProcessResponse(s, alice, Multiple(s.c, m, s.g));
         && key.Some? && (e.None? <==> choice == 0 && Collision(choice, alice.a, b))
         && (e.Some? ==> Decrypt(choice, key.value, e.value) == if choice == 0 then alice.m0 else alice.m1)
  {
    hide ProcessResponse, BobKey, Multiple, Cong, Big;
    var ka, kb := IntOf(alice.a), IntOf(b);
    NonZeroScalar(s, kb);
    SumVanishes(ka, kb);
    SharedPoint(s, alice.a, b);
    var key := BobKey(s, b, alice.pointA).value;
    if choice == 0 {
      ResponseIs(s, alice, kb);
      MaskedTwice(alice.m0, key);
    } else {
      ResponseIs(s, alice, kb + ka);
      MaskedTwice(alice.m1, key);
    }
  }

  // ---- what the receiver cannot open -------------------------------------------------------

  /** Alice's two keys are those of a * m * G and a * (m - a) * G. */
  lemma TwoKeys(s: Setup, a: Scalar, m: int)
    requires ValidSetup(s) && ValidScalar(a) && Injective(s.hash)
    requires !Cong(m, 0, ORDER) && !Cong(m - IntOf(a), 0, ORDER)
    ensures var q0, q1 := Multiple(s.c, IntOf(a) * m, s.g), Multiple(s.c, IntOf(a) * (m - IntOf(a)), s.g);
      && OnCurve(s.c, q0) && OnCurve(s.c, q1) && q0.Affine? && q1.Affine?
      && (Key(s, q0) == Key(s, q1) <==> Cong(2 * m, IntOf(a), ORDER))
  {
    hide BytesOf, Cubic, Times, Cong;
    var k := IntOf(a);
    NonZeroScalar(s, k);
    NestedMultiple(s, k, m);
    NestedMultiple(s, k, m - k);
    var q0, q1 := Multiple(s.c, k * m, s.g), Multiple(s.c, k * (m - k), s.g);
    KeyDetermines(s, q0, q1);
    MultiplesSameX(s.c, s.g, ORDER, k * m, k * (m - k));
    OppositeFactors(k, m, ORDER);
  }

  /** a * m = a * (m - a) never, and a * m = -a * (m - a) exactly if 2 * m = a. */
  lemma OppositeFactors(a: int, m: int, n: int)
    requires IsPrime(n) && !Cong(a, 0, n)
    ensures !Cong(a * m, a * (m - a), n)
    ensures Cong(a * m, -(a * (m - a)), n) <==> Cong(2 * m, a, n)
  {
    hide Cong;
    var x, y := a * m, a * (m - a);
    assert x - y == a * a && x + y == a * (2 * m - a) by {
      DistributeLeft(a, m, -a);
      DistributeLeft(a, m, m - a);
    }
    CongIntro(y, y, 0, n);
    CongIntro(a, a, 0, n);
    if Cong(x, y, n) {
      CongSub(x, y, y, y, n);
      EuclidLemma(a, a, n);
    }
    if Cong(x, -y, n) {
      CongAdd(x, -y, y, y, n);
      EuclidLemma(a, 2 * m - a, n);
      CongAdd(2 * m - a, 0, a, a, n);
    }
    if Cong(2 * m, a, n) {
      CongSub(2 * m, a, a, a, n);
      CongMul(a, a, 2 * m - a, 0, n);
      CongSub(x + y, 0, y, y, n);
    }
  }

  /** Alice's answer under her two keys. */
  lemma AliceKeys(s: Setup, alice: AliceOT, m: int) returns (k0: Scalar, k1: Scalar)
    requires ValidSetup(s) && ValidScalar(alice.a) && alice.pointA == Generated(s, alice.a) && Injective(s.hash)
    requires !Cong(m, 0, ORDER) && !Cong(m - IntOf(alice.a), 0, ORDER)
    ensures OnCurve(s.c, Multiple(s.c, m, s.g)) && OnCurve(s.c, alice.pointA)
    ensures ProcessResponse(s, alice, Multiple(s.c, m, s.g))
      == Some(Encrypted(Masked(alice.m0, k0), Masked(alice.m1, k1)))
    ensures k0 == k1 <==> Cong(2 * m, IntOf(alice.a), ORDER)
    ensures var ka := IntOf(alice.a);
      var q0, q1 := Multiple(s.c, ka, Multiple(s.c, m, s.g)), Multiple(s.c, ka, Multiple(s.c, m - ka, s.g));
      && OnCurve(s.c, q0) && OnCurve(s.c, q1) && q0.Affine? && q1.Affine? && k0 == Key(s, q0) && k1 == Key(s, q1)
  {
    hide Cong, Multiple, ProcessResponse, Key, Masked;
    var ka := IntOf(alice.a);
    ResponseIs(s, alice, m);
    TwoKeys(s, alice.a, m);
    MultipleMultiple(s.c, ka, m, s.g);
    MultipleMultiple(s.c, ka, m - ka, s.g);
    k0 := Key(s, Multiple(s.c, ka * m, s.g));
    k1 := Key(s, Multiple(s.c, ka * (m - ka), s.g));
  }

  /** Bob's key does not open the message he did not choose, except when twice his secret is Alice's secret (choice 0)
      or its opposite (choice 1): for an injective hash these are the only pairs for which Alice's two keys coincide. */
  lemma OnlyChosenOpens(s: Setup, alice: AliceOT, b: Scalar, choice: int)
    requires ValidSetup(s) && ValidScalar(alice.a) && ValidScalar(b) && (choice == 0 || choice == 1)
    requires alice.pointA == Generated(s, alice.a) && Injective(s.hash) && !Collision(choice, alice.a, b)
    ensures OnCurve(s.c, alice.pointA) && BobReply(s, choice, b, alice.pointA).Some?
    ensures var reply := BobReply(s, choice, b, alice.pointA).value;
      && OnCurve(s.c, reply)
      && var e, key := ProcessResponse(s, alice, reply), BobKey(s, b, alice.pointA);
         && e.Some? && key.Some?
         && (Decrypt(1 - choice, key.value, e.value) == (if choice == 0 then alice.m1 else alice.m0)
             <==> Cong(2 * IntOf(b), if choice == 0 then IntOf(alice.a) else -IntOf(alice.a), ORDER))
  {
    hide Cong, Multiple, BytesOf, Pow, ProcessResponse, BobKey, Masked, Key, Injective, IntOf;
    var ka, kb := IntOf(alice.a), IntOf(b);
    var m := kb + choice * ka;
    ReplyIs(s, choice, alice.a, b);
    SharedPoint(s, alice.a, b);
    NonZeroScalar(s, kb);
    SumVanishes(ka, kb);
    var k0, k1 := AliceKeys(s, alice, m);
    if choice == 0 {
      OneKeyOpens(alice.m1, k1, k0);
    } else {
      OneKeyOpens(alice.m0, k0, k1);
      TwiceShifted(ka, kb);
    }
  }

  /** A pair of secrets for which Bob's key opens both messages: a = 2 and b = 1, for choice 0. */
  lemma BothOpen(s: Setup, x: Scalar, m0: Scalar)
    requires ValidSetup(s) && Injective(s.hash)
    ensures var a, b := BytesOf(2, 32), BytesOf(1, 32);
      && ValidScalar(a) && ValidScalar(b) && OnCurve(s.c, Generated(s, a)) && BobReply(s, 0, b, Generated(s, a)).Some?
      && var alice, reply := NewAlice(s, x, m0, a), BobReply(s, 0, b, Generated(s, a)).value;
         && OnCurve(s.c, reply)
         && var e, key := ProcessResponse(s, alice, reply), BobKey(s, b, alice.pointA);
            e.Some? && key.Some? && Decrypt(1, key.value, e.value) == alice.m1
  {
    hide Cong, Multiple, Pow, ProcessResponse, BobKey, Masked, Key, Injective, IntOf;
    var a, b := BytesOf(2, 32), BytesOf(1, 32);
    Pow256();
    IntOfBytesOf(2, 32);
    IntOfBytesOf(1, 32);
    CongIntro(2 * 1, 2, 0, ORDER);
    OnlyChosenOpens(s, NewAlice(s, x, m0, a), b, 0);
  }

  lemma TwiceShifted(a: int, b: int)
    ensures Cong(2 * (b + a), a, ORDER) <==> Cong(2 * b, -a, ORDER)
  {
    CongIntro(2 * a, 2 * a, 0, ORDER);
    if Cong(2 * b, -a, ORDER) { CongAdd(2 * b, -a, 2 * a, 2 * a, ORDER); }
    if Cong(2 * (b + a), a, ORDER) { CongSub(2 * (b + a), a, 2 * a, 2 * a, ORDER); }
  }
}
