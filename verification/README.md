# Two-party multiplicative-to-additive shares: a verified model

A client (Alice, TypeScript) holds a scalar x, a server (Bob, C++) holds a scalar y. They run one correlated
oblivious transfer for each of the 256 bits of y and end with additive shares U + V = x * y modulo the order of
secp256k1. The server computes on the limb arithmetic of trezor-crypto and speaks nanopb messages; the client
computes on big integers. This project models both sides, from the 30-bit limbs up to whole runs of the
protocol, and proves that they compute the same thing and that the thing is right. Helper files of the same
library (Shamir sharing, Bech32, Base58, the derivation cache) are modelled where a hard law holds of them.

## How the model is laid out

| files | content |
|---|---|
| `Arith`, `Digits`, `Bits`, `Residues` | integers, positional numbers, bitwise operators on unbounded naturals, congruences and the exact values of the partial reductions |
| `Bignum`, `Multiply`, `Octets` | the limb routines, in place on arrays of nine words, each proved equal to a function on the numbers the limbs denote |
| `Combo`, `Inverse` | the packed buffers of the modular inverse, and the inverse itself |
| `Curve`, `Multiples` | the chord-and-tangent sum, and multiples of a point in its cyclic group |
| `Jacobian`, `CurvePoints`, `Recoding`, `Windows`, `PointMultiply` | the point routines on objects whose coordinates are overwritten, the signed digits of the scalar, and the scalar multiplication |
| `Secp256k1`, `Scalars`, `CryptoOps`, `ClientCrypto`, `ClientCurve` | the constants, 32-byte scalars, and the scalar and point operations of both programs |
| `Mta`, `Transfer`, `Protocol`, `Parties` | the shares and their test, one oblivious transfer, the session as a state machine over two channels, and the two programs' round loops |
| `Gf256`, `Lagrange`, `BitSlice`, `Shamir`, `Recombine` | the field of 256 elements, interpolation, and the bit-sliced recombination of shares |
| `Bech32`, `BechText`, `BechCode`, `BechField`, `Segwit` | the checksum, its text form, the checksum as arithmetic over the field of 32 elements, and segregated-witness addresses (BIP 173) |
| `Base58`, `Base58Code` | Base58 and its two conversion loops |
| `Bip32` | private derivation and the cache over it |
| `Varint`, `Streams` | base-128 integers and the byte streams they travel on |
| `Fields`, `Messages`, `MessageCode`, `ProtoCodec` | packed message descriptors and their iterator, messages as sequences of fields, the encoder and decoder over streams and structures in memory, and the seven message types |
| `Frames`, `Wire`, `Session` | length-prefixed frames cut into arbitrary chunks, the session's messages as bodies of frames, and the session over bytes as a refinement of `Protocol` |
| `Fermat`, `Sqrt`, `PointCodec` | Fermat's little theorem, square roots by powers on limbs and on big integers, and compressed points on both sides |
| `PointSubtract` | the server's point subtraction |
| `TableMultiply` | multiples of the generator from the precomputed table |
| `Sha256`, `Sha256Rounds` | the streaming context of SHA-256 and the rolling schedule of its compression |

Code that works in place is modelled in place: a bignum is an `array` of nine words, points, registers, streams
and caches are classes. 32-bit and 64-bit words are integer subset types, so that assigning to one proves that
nothing is lost; where the code relies on wrapping, the wrap is written out. A mask of low bits is `%`, a right
shift is `/`, a left shift is `*` with the wrap of the word. `Cong(a, b, m)` says that a and b are congruent
modulo m.

The curve layer computes on the numbers that limbs denote. Each limb routine is proved to compute exactly the
function the curve layer uses (`BnMultiply` computes `MulMod`, `BnFastMod` computes `FastMod`, and so on), and
the curve layer meets the bound of every routine it uses (`Jacobian.Mul`, `Sub`, `Plus`, `Twice`, `Half`,
`LessSmall`).

## Assumptions

- The field modulus and the group order of the curve are prime, and the sum of points is associative (`Curve.ValidParams`,
  `Multiples.Group`, `Transfer.ValidSetup`). Closure, commutativity, neutral and opposite elements are proved, and that
  adding the opposite of a point undoes a sum (`Multiples.SumCancels`).
- In the protocol the hash that derives a key from an abscissa is an arbitrary function, and so are the six logical
  functions and the constants of SHA-256, the HMAC-based derivation step, and the public key of a private key.
  Only `Transfer.KeyDetermines`, `Transfer.OnlyChosenOpens` and `Transfer.BothOpen` take the hash to be injective on
  32-byte strings.
- Scalars drawn at random are arbitrary scalars in range.
- `TableMultiply` takes the table to hold the odd multiples of the powers of sixteen of the generator.

## What the code does not keep

| property | where it fails | exact condition |
|---|---|---|
| the server's test accepts right shares | `Mta.VerifyRejectsRightShares`, `Mta.VerifyRejectsLargeShares` | `Mta.VerifyExact`, `Mta.VerifyLargeResidue`, `Mta.VerifySmallProduct` |
| `mod_sub` returns a canonical residue | `CryptoOps.ModSubUnreduced` (no caller in the protocol) | `CryptoOps.ModSubCanonical` |
| a transfer between honest parties completes | colliding random scalars: b = a for choice 0 sends infinity to the encoder, b = -a for choice 1 | `Protocol.FailedByCollision`, `Transfer.ReplyIs`, `Transfer.TransferCorrect` |
| Bob's key opens only the message he chose | `Transfer.BothOpen`: a = 2 and b = 1 | `Transfer.OnlyChosenOpens` |
| Bech32 decodes what it encodes | an empty human-readable part | `BechText.EncodeDecode` |
| an address decodes to its version | `Segwit.NegativeVersion` | `Segwit.AddressRoundTrip` |
| the decoded Base58 length fits the buffer | `Base58.LengthPastBuffer` | `Base58.DecodedLength` |
| `point_subtract` returns the difference | `PointSubtract.OppositeNeverRight`: every P - (-P) | `PointSubtract.PointSubtract`; on the two points alone: `PointSubtract.FieldExact`, `PointSubtract.FieldLargeResidue` |
| the declared size of a message holds it | `ProtoCodec.EncryptedNeverFits`: OTEncrypted takes 82 bytes, 80 are declared, so `encode_ot_encrypted` always returns nothing (only the client sends this message, with its own encoder) | `ProtoCodec.DeclaredSizeSuffices`, `ProtoCodec.CodecRoundTrip` |
| client and server accept the same compressed keys | `PointCodec.UnreducedAccepted`: the client decodes the abscissa p + 1 | `PointCodec.DecodeExact`, `PointCodec.ReadPubkey` |
| a read of a frame returns or fails | `Frames.HangingRead`: a read begun after the peer closed | `Frames.FramedSocket.Read`, `Frames.FramedSocket.Resume` |
| a written frame is read back | bodies of 2^32 bytes or more, which the server cuts and the client refuses | `Frames.FramedReadBack`, `Frames.ClientWrite` |

## Model

| member | source | states |
|---|---|---|
| `Bignum.BnFastMod` | server/external/trezor-crypto/bignum.c:470-488 | Any nine 32-bit words are normalized while the multiple of the prime indicated by the top limb is taken off; a normalized number ends congruent and below twice the prime. |
| `Bignum.BnMod` | server/external/trezor-crypto/bignum.c:357-364 | A partly reduced number becomes its canonical residue. |
| `Bignum.BnIsLess` | server/external/trezor-crypto/bignum.c:240-252 | The result is true exactly when the first number is smaller. |
| `Bignum.BnIsEqual` | server/external/trezor-crypto/bignum.c:254-264 | The result is true exactly when the numbers are equal. |
| `Bignum.BnAddMod` | server/external/trezor-crypto/bignum.c:852-858 | Any two normalized numbers: the result is normalized, below twice the prime and congruent to the sum, and equals the exact value AddMod. |
| `Bignum.BnSubtractMod` | server/external/trezor-crypto/bignum.c:877-889 | The result is a + 2p - b in normalized limbs, without a wrapping 32-bit column even where a column meets its bound exactly. |
| `Bignum.BnMultK` | server/external/trezor-crypto/bignum.c:346-355 | Any normalized number times k <= 4: normalized, below twice the prime, congruent to k * x. |
| `Bignum.BnMultHalf` | server/external/trezor-crypto/bignum.c:325-344 | The result times two is congruent to x, and twice it is at most x + p. |
| `Bignum.BnConditionalNegate` | server/external/trezor-crypto/ecdsa.c:165-179 | A partly reduced number becomes 2p - a or stays, and both ends meet the asserted bound on the top limb. |
| `Multiply.BnMultiply` | server/external/trezor-crypto/bignum.c:366-466 | Schoolbook product and ten interleaved reduce steps: the result is normalized, below twice the prime and congruent to k * x whenever the product is below 2^270 * 2p; no 64-bit column wraps. |
| `Octets.BnReadBe` | server/external/trezor-crypto/bignum.c:81-98 | The limbs hold the number the 32 bytes denote. |
| `Octets.BnWriteBe` | server/external/trezor-crypto/bignum.c:100-112 | The 32 bytes denote the number in the limbs. |
| `Scalars.BytesOfIntOf` | server/external/trezor-crypto/bignum.c:81-112 | Reading and writing back restores every byte string. |
| `Scalars.IntOfBytesOf` | server/external/trezor-crypto/bignum.c:81-112 | Writing and reading back restores every number that fits. |
| `Scalars.ByteAt` | server/external/trezor-crypto/bignum.c:81-112 | Each byte is the digit of the number at its place, the first byte being the most significant. |
| `Inverse.AlmostInverse` | server/external/trezor-crypto/bignum.c:604-762 | The Almost Modular Inverse on two packed buffers: u*s + v*r = p throughout, the numbers growing from the back never meet those shrinking from the front, and the loop ends within 512 halvings with x*s = 2^k mod p. |
| `Inverse.DivideOut` | server/external/trezor-crypto/bignum.c:763-822 | Division by 2^k, a word at a time and then by the remaining bits, stays below the prime without 64-bit overflow and leaves the inverse. |
| `Inverse.BnInverse` | server/external/trezor-crypto/bignum.c:565-834 | For a prime in (2^256 - 2^224, 2^256) and every x that is not a multiple of it: terminates with r < prime and r * x = 1 modulo the prime. |
| `Curve.AddOnCurve` | client/src/crypto_ops.ts:189-219 | The chord-and-tangent sum of two points of the curve is on the curve. |
| `Curve.SlopeUnique` | client/src/crypto_ops.ts:200-218 | Every solution of the slope equation yields the same third point. |
| `Curve.AddCommutes` | client/src/crypto_ops.ts:189-219 | The sum does not depend on the order of the points. |
| `Multiples.MultipleAdd` | server/external/trezor-crypto/ecdsa.c:419-538 | Integer multiples of a point add up, over positive and negative factors. |
| `Multiples.MultipleVanishes` | server/external/trezor-crypto/ecdsa.c:419-538 | A multiple is infinity exactly for multiples of the order. |
| `Multiples.MultipleRespectsCong` | server/external/trezor-crypto/ecdsa.c:419-538 | Multiples depend on the factor modulo the order only. |
| `Multiples.SumCancels` | server/external/trezor-crypto/ecdsa.c:43-87 | Adding the opposite of a point undoes adding it if and only if the sum was not that point again; proved from the chord and tangent formulas without associativity. |
| `Multiples.MultiplesSameX` | server/external/trezor-crypto/ecdsa.c:419-538 | Two multiples have the same abscissa if and only if their factors are congruent up to sign modulo the order. |
| `CurvePoints.DoublingDetected` | server/external/trezor-crypto/ecdsa.c:286-297 | The comparison of the partly reduced difference with the prime recognizes equal abscissas exactly. |
| `CurvePoints.PointJacobianAdd` | server/external/trezor-crypto/ecdsa.c:231-348 | The overwritten point is the affine sum after division by z^2 and z^3, equal points included; coordinates stay partly reduced and every routine is called within its bound. |
| `CurvePoints.PointJacobianDouble` | server/external/trezor-crypto/ecdsa.c:350-416 | The overwritten point is the double after division by z^2 and z^3; coordinates stay partly reduced. |
| `CurvePoints.PointAdd` | server/external/trezor-crypto/ecdsa.c:43-87 | All five branches: infinity on either side, equal points, opposite points, and the chord give the sum. |
| `CurvePoints.PointDouble` | server/external/trezor-crypto/ecdsa.c:89-130 | Infinity, a point of order two, and the tangent give the double. |
| `Recoding.UpperValue` | server/external/trezor-crypto/ecdsa.c:419-538 | The partial sums of signed odd digits have a closed form, at every window. |
| `Recoding.UpperTotal` | server/external/trezor-crypto/ecdsa.c:419-538 | The 64 signed digits of the odd number 2^256 + k add up to k. |
| `Recoding.UpperBelowOrder` | server/external/trezor-crypto/ecdsa.c:419-538 | Every proper partial sum is odd and below the order in absolute value, so no intermediate point is infinity. |
| `Recoding.TableIndex` | server/external/trezor-crypto/ecdsa.c:483-531 | The index computed with the sign mask selects the odd multiple \|digit\|. |
| `Windows.MakeOddScalar` | server/external/trezor-crypto/ecdsa.c:439-466 | The scalar becomes 2^256 + k, minus the order for even k, in nine limbs. |
| `Windows.NextWindow` | server/external/trezor-crypto/ecdsa.c:508-521 | The pointer, the cached limb and the shift move four bits down, also across a limb boundary, and deliver the five-bit window. |
| `PointMultiply.CurveToJacobian` | server/external/trezor-crypto/ecdsa.c:197-211 | The point over an arbitrary non-zero denominator represents the affine point. |
| `PointMultiply.JacobianToCurve` | server/external/trezor-crypto/ecdsa.c:213-229 | The fully reduced affine point that the coordinates represent. |
| `PointMultiply.OddMultiples` | server/external/trezor-crypto/ecdsa.c:470-482 | The table holds the multiples 1, 3, ..., 15 of the point. |
| `PointMultiply.Accumulate` | server/external/trezor-crypto/ecdsa.c:483-533 | The loop keeps the accumulator at the partial digit sum up to the tracked sign, and no Jacobian formula meets infinity. |
| `PointMultiply.PointMultiply` | server/external/trezor-crypto/ecdsa.c:418-538 | For every k below the order, zero included, and whatever denominator is drawn: the result is k times the point. |
| `Secp256k1.Prime` | server/external/trezor-crypto/secp256k1.c:26-30 | The nine words denote the field prime, which is odd and above 2^256 - 2^224, as the reduction needs. |
| `Secp256k1.OrderAndField` | server/external/trezor-crypto/secp256k1.c:26-40 | The order belongs to the field: it is p + 1 - t with 4p = t^2 + 3v^2, as for every curve y^2 = x^3 + b. |
| `Secp256k1.GeneratorOnCurve` | client/src/crypto_ops.ts:13-20 | The generator is a point of y^2 = x^3 + 7, and these parameters meet every assumption on curves but the primality of p. |
| `Secp256k1.Generator` | server/external/trezor-crypto/secp256k1.c:32-37 | The limb tables of the server denote the generator of the client. |
| `CryptoOps.ModAdd` | server/src/crypto_ops.cpp:82-88 | The canonical sum, for all 32-byte inputs. |
| `CryptoOps.ModMul` | server/src/crypto_ops.cpp:100-106 | The canonical product, for all 32-byte inputs. |
| `CryptoOps.ModNegate` | server/src/crypto_ops.cpp:108-120 | The canonical negative, for all 32-byte inputs. |
| `CryptoOps.ModSub` | server/src/crypto_ops.cpp:90-98 | The exact value returned, which may be unreduced. |
| `CryptoOps.ModSubCanonical` | server/src/crypto_ops.cpp:90-98 | The difference is canonical if and only if lhs - rhs is below the order; it is always congruent. |
| `CryptoOps.ModSubUnreduced` | server/src/crypto_ops.cpp:90-98 | A concrete unreduced result: the order minus zero. |
| `ClientCrypto.BytesToBigInt` | client/src/crypto_ops.ts:118-124 | The integer equals the number the bytes denote. |
| `ClientCrypto.BigIntToBytes` | client/src/crypto_ops.ts:126-136 | The low bytes of the value, for any length. |
| `ClientCurve.ModInverse` | client/src/crypto_ops.ts:159-176 | Terminates with the inverse in [0, modulus), and throws exactly when there is none. |
| `ClientCurve.NegatePoint` | client/src/crypto_ops.ts:178-187 | The opposite point: the same abscissa, the ordinate negated modulo the prime. |
| `ClientCurve.AddPoints` | client/src/crypto_ops.ts:189-219 | The same sum as the server, on the curve. |
| `ClientCurve.ScalarMultiply` | client/src/crypto_ops.ts:221-241 | Double-and-add gives the multiple, and throws exactly outside [1, n - 1]. |
| `Mta.ComputeAliceShare` | server/src/ot_protocol.cpp:54-92 | The canonical 32 bytes of minus the weighted sum, for all inputs. |
| `Mta.ComputeBobShare` | server/src/ot_protocol.cpp:94-118 | The canonical 32 bytes of the weighted sum, for all inputs. |
| `Mta.ClientAliceShare` | client/src/ot_protocol.ts:54-60 | The same 32 bytes as the server. |
| `Mta.ClientBobShare` | client/src/ot_protocol.ts:62-68 | The same 32 bytes as the server. |
| `Mta.ClientVerify` | client/src/ot_protocol.ts:70-74 | True exactly for congruent shares. |
| `Mta.VerifyMta` | server/src/ot_protocol.cpp:120-136 | True implies congruent; the exact value is the equality of two partial reductions. |
| `Mta.VerifyExact` | server/src/ot_protocol.cpp:120-136 | For all secrets and reduced shares: accepted if and only if right and both partial reductions end on the same side of the order. |
| `Mta.VerifyLargeResidue` | server/src/ot_protocol.cpp:120-136 | For a product whose residue is at least 2^161: accepted if and only if right and the sum is below the order or its sixteen top bits carry. |
| `Mta.VerifySmallProduct` | server/src/ot_protocol.cpp:120-136 | For a product below 2^256: accepted if and only if right and product and sum are unreduced together. |
| `Mta.VerifyRejectsRightShares` | server/src/ot_protocol.cpp:120-136 | Right shares that are rejected: 1 * 1 = 2 + (n - 1). |
| `Mta.VerifyRejectsLargeShares` | server/src/ot_protocol.cpp:120-136 | Right shares that are rejected although no number is small: a sum that carries out of 256 bits with sixteen top bits adding to ones. |
| `Transfer.GetBitIsDigit` | server/src/server.cpp:67-70 | The bit read is the binary digit of the number the bytes denote. |
| `Transfer.BitsRebuild` | server/src/server.cpp:67-70 | The bits, weighted by powers of two, rebuild the number. |
| `Transfer.MaskedTwice` | server/src/crypto_ops.cpp:209-213 | Masking twice with one key restores the message. |
| `Transfer.MaskedBits` | server/src/crypto_ops.cpp:209-213 | A bit of the masked message is the bit of the message exactly where the bit of the key is clear. |
| `Transfer.OneKeyOpens` | client/src/crypto_ops.ts:77-83 | A masked message is opened by the key it was masked with, and by no other key. |
| `Transfer.KeyIs` | server/src/ot_protocol.cpp:27-34 | The key is the hash of the 32 bytes that denote the abscissa of the shared point. |
| `Transfer.KeyDetermines` | server/src/ot_protocol.cpp:27-34 | Under an injective hash two points give the same key if and only if their abscissas are equal. |
| `Transfer.ReplyIs` | server/src/ot_protocol.cpp:27-44 | Bob fails exactly on a collision for choice 1; otherwise his point is (b + choice * a) * G. |
| `Transfer.TransferCorrect` | client/src/ot_protocol.ts:36-51 | Bob opens exactly the message he chose, and Alice fails exactly on a collision for choice 0. |
| `Transfer.OnlyChosenOpens` | client/src/ot_protocol.ts:36-51 | Under an injective hash Bob's key opens the message he did not choose if and only if 2b = a (choice 0) or 2b = -a (choice 1) modulo the order: no other pair makes the two keys coincide. |
| `Transfer.BothOpen` | client/src/ot_protocol.ts:36-51 | A pair of secrets for which Bob's key opens both messages: a = 2, b = 1, choice 0. |
| `Protocol.AliceAnswersKeeps` | client/src/client.ts:311-324 | Reading Bob's point keeps the invariant, and fails exactly on a collision. |
| `Protocol.BobAnswersKeeps` | server/src/server.cpp:151-168 | Reading Alice's point keeps the invariant, and fails exactly on a collision. |
| `Protocol.NextKeeps` | client/src/client.ts:296-330 | Every step of either party, over two first-in-first-out channels, keeps the invariant that ties settled rounds, objects in use and messages in flight. |
| `Protocol.RunKeeps` | server/src/server.cpp:149-178 | Every state of every run satisfies the invariant. |
| `Protocol.SharesAddUp` | server/src/ot_protocol.cpp:54-118 | The shares of correlated rounds add up to the product of the secrets, for any number of rounds that covers y. |
| `Protocol.CompletedRunCorrect` | server/src/server.cpp:147-179 | In every run that completes U + V = x * y modulo the order, with both shares reduced. |
| `Protocol.RunLength` | server/src/server.cpp:149-178 | The number of steps of a run is determined by its last state. |
| `Protocol.CanStep` | server/src/server.cpp:149-178 | A state that is neither complete nor failed has a next step: no deadlock. |
| `Protocol.FailedByCollision` | server/src/server.cpp:161-164 | A run has failed if and only if its last step read a colliding point. |
| `Protocol.MaximalRun` | server/src/server.cpp:149-178 | A run that cannot be extended has completed after exactly 4n + 2 steps, or its last step read a colliding point. |
| `Parties.Bob.ProcessInit` | server/src/ot_protocol.cpp:27-44 | The stored key, the answer, and exactly when there is none. |
| `Parties.Bob.DecryptMessage` | server/src/ot_protocol.cpp:46-52 | Fails before a key is stored, and otherwise opens the chosen message. |
| `Parties.RespondTo` | client/src/ot_protocol.ts:36-51 | The answer computed by the client's loops is the one the transfer theorem speaks of, none exactly if a point to be encoded is infinity. |
| `Parties.RunLocalDemo` | client/src/client.ts:232-268 | The local demo stops exactly at the first round whose two secrets collide; every other run completes all 256 rounds, with shares of the product, and reports success. |
| `Gf256.MulAssociates` | server/external/trezor-crypto/shamir.c:84-197 | Multiplication modulo x^8 + x^4 + x^3 + x + 1 is associative. |
| `BitSlice.TimesX` | server/external/trezor-crypto/shamir.c:84-197 | The field is the one named: multiplying a byte by x doubles it, and the bit shifted out comes back as 0x1B. |
| `Gf256.MulCommutes` | server/external/trezor-crypto/shamir.c:84-197 | It is commutative. |
| `Gf256.AddRight` | server/external/trezor-crypto/shamir.c:76-197 | It distributes over exclusive or. |
| `Gf256.SquareIs` | server/external/trezor-crypto/shamir.c:199-239 | The squaring formula is multiplication by itself. |
| `Gf256.InverseIs` | server/external/trezor-crypto/shamir.c:241-261 | The addition chain for the 254th power inverts every non-zero element. |
| `Gf256.ZeroProduct` | server/external/trezor-crypto/shamir.c:241-261 | There are no zero divisors. |
| `Lagrange.ManyRoots` | server/external/trezor-crypto/shamir.c:263-333 | A polynomial with as many distinct roots as coefficients vanishes everywhere. |
| `Lagrange.InterpolationExact` | server/external/trezor-crypto/shamir.c:263-333 | Interpolating values of a polynomial with no more coefficients than points gives the polynomial. |
| `Shamir.BitsliceBytes` | server/external/trezor-crypto/shamir.c:43-54 | Byte l becomes lane l of eight words, the other lanes are zero. |
| `Shamir.Unbitslice` | server/external/trezor-crypto/shamir.c:56-67 | Lane l becomes byte l, and the bytes beyond stay. |
| `Shamir.GfMul` | server/external/trezor-crypto/shamir.c:84-197 | Every one of the 32 lanes is multiplied in the field, also when the result overwrites the first factor. |
| `Shamir.GfSquare` | server/external/trezor-crypto/shamir.c:199-239 | The words of the square, also in place. |
| `Shamir.GfInv` | server/external/trezor-crypto/shamir.c:241-261 | Every lane is inverted. |
| `Recombine.TermIs` | server/external/trezor-crypto/shamir.c:288-318 | A share's contribution is its basis polynomial times its value, the special case of a share at the result index included. |
| `Recombine.ShamirInterpolate` | server/external/trezor-crypto/shamir.c:263-333 | Succeeds exactly for at most 32 bytes and distinct indices; then every byte is the interpolant at the result index; otherwise the result is unchanged. |
| `Recombine.SharesOfPolynomial` | server/external/trezor-crypto/shamir.c:263-333 | Shares of any polynomial with no more coefficients than shares recombine to its value at the result index. |
| `Bech32.StepLinear` | server/external/trezor-crypto/segwit_addr.c:27-35 | The checksum step is linear over exclusive or. |
| `Bech32.PolymodLinear` | server/external/trezor-crypto/segwit_addr.c:27-35 | The checksum of whole strings is linear. |
| `Bech32.ChecksumExact` | server/external/trezor-crypto/segwit_addr.c:70-83 | Six symbols drive the state to 1 if and only if they are the computed ones. |
| `BechField.StepIsProduct` | server/external/trezor-crypto/segwit_addr.c:27-35 | A step multiplies a polynomial over the field of 32 elements by x and adds the symbol, modulo the published generator x^6 + 29x^5 + 22x^4 + 20x^3 + 21x^2 + 29x + 18. |
| `BechField.AlphabetIs` | server/external/trezor-crypto/segwit_addr.c:37-47 | The character of a symbol is the one at its place in the alphabet string. |
| `BechField.PublishedString` | server/external/trezor-crypto/segwit_addr.c:50-84 | The encoder writes a12uel5l, the shortest valid string that BIP 173 lists. |
| `BechText.EncodeDecode` | server/external/trezor-crypto/segwit_addr.c:50-141 | What was encoded decodes to itself if and only if the human-readable part is not empty. |
| `BechText.DecodeEncode` | server/external/trezor-crypto/segwit_addr.c:86-141 | What is accepted is the encoding of the result, up to the case of its letters. |
| `BechText.SingleErrorDetected` | server/external/trezor-crypto/segwit_addr.c:27-35 | One changed symbol always changes the final state. |
| `BechCode.EncodeString` | server/external/trezor-crypto/segwit_addr.c:50-84 | Computes the text whose decoding is proved to give the arguments back; fails exactly for an unprintable or upper-case prefix, a symbol above 31, or more than 90 characters. |
| `BechCode.DecodeString` | server/external/trezor-crypto/segwit_addr.c:86-141 | Computes the only pair whose encoding is the lower-cased input; fails exactly for mixed case, a missing separator, a short tail, a foreign character or a wrong checksum. |
| `Segwit.ConvertBits` | server/external/trezor-crypto/segwit_addr.c:143-163 | The 32-bit accumulator that drops its high bits still regroups the digits of the whole number, and fails exactly on non-zero or overlong padding. |
| `Segwit.RegroupBack` | server/external/trezor-crypto/segwit_addr.c:143-163 | Eight to five and back is the identity, for byte strings of any length. |
| `Segwit.GroupsDenote` | server/external/trezor-crypto/segwit_addr.c:143-163 | The five-bit groups denote the number of the bytes, shifted up by the bits of padding. |
| `Segwit.SegwitEncode` | server/external/trezor-crypto/segwit_addr.c:165-175 | Computes the address whose decoding is proved to give version and program back, and fails exactly for a forbidden version or program length or where the text encoding fails. |
| `Segwit.SegwitDecode` | server/external/trezor-crypto/segwit_addr.c:177-191 | Computes version and program of an address, and fails exactly for a wrong prefix, a version above 16, bad padding or a forbidden length. |
| `Segwit.AddressDenotes` | server/external/trezor-crypto/segwit_addr.c:165-175 | An address consists of the prefix, a 1, the character of the version, characters whose values denote the padded program, and six more. |
| `Segwit.AddressRoundTrip` | server/external/trezor-crypto/segwit_addr.c:165-191 | Decoding an encoded address returns version and program if and only if the prefix is not empty and the version is not negative. |
| `Segwit.NegativeVersion` | server/external/trezor-crypto/segwit_addr.c:165-175 | A negative version that is encoded, and read back as another. |
| `Base58.EncodeDecode58` | server/external/trezor-crypto/base58.c:44-184 | Decoding undoes encoding for every non-empty byte string, leading zeros included. |
| `Base58.AlphabetExact` | server/external/trezor-crypto/base58.c:32-42 | The 58 characters are, in ascending order, all letters and digits but 0, I, O and l. |
| `Base58.EncodedDigits` | server/external/trezor-crypto/base58.c:133-184 | The characters denote the number of the bytes, with as many leading ones as there are leading zero bytes. |
| `Base58.DecodeEncode58` | server/external/trezor-crypto/base58.c:44-184 | Every text accepted within the buffer is the encoding of the bytes it stands for. |
| `Base58.BufferSuffices` | server/external/trezor-crypto/base58.c:158-162 | 256^m <= 58^(138m/100 + 1): the work buffer always suffices. |
| `Base58.DecodedLength` | server/external/trezor-crypto/base58.c:110-128 | The returned length exceeds the buffer if and only if the text consists of more ones than the buffer has bytes. |
| `Base58.LengthPastBuffer` | server/external/trezor-crypto/base58.c:110-128 | A concrete length beyond the buffer: two ones into one byte. |
| `Base58Code.MultiplyAdd` | server/external/trezor-crypto/base58.c:164-171 | The carry loop multiplies in place by 256, adds a byte, and never passes the front of the buffer. |
| `Base58Code.B58Enc` | server/external/trezor-crypto/base58.c:149-184 | Computes the text whose decoding is proved to give the bytes back, and the size it needs; fails exactly if the buffer is smaller. |
| `Base58Code.B58ToBin` | server/external/trezor-crypto/base58.c:44-129 | Computes, by 32-bit words with a masked top word, the bytes whose encoding is proved to be the text; fails exactly for a foreign character, an overflow, an empty buffer or too many ones. |
| `Bip32.Cache.PrivateCkdCached` | server/external/trezor-crypto/bip32.c:521-585 | Whatever valid cache it meets, the outcome is that of the plain derivation, and the cache stays valid. |
| `Bip32.Serve` | server/external/trezor-crypto/bip32.c:509-585 | Any sequence of requests, over changing roots and past eviction, is answered as without a cache. |
| `Bip32.ChildDataExact` | server/external/trezor-crypto/bip32.c:206-235 | Below 2^31 what is hashed is determined by the public key alone, from 2^31 on by the private key alone, and the two kinds never coincide. |
| `Bip32.DeriveShape` | server/external/trezor-crypto/bip32.c:206-270 | A derived node counts the steps, remembers the last index and starts without a public key. |
| `Varint.VarintRoundTrip` | server/external/nanopb/pb_encode.c:573-623 | The 64-bit reader undoes the writer on every 64-bit value and consumes exactly what was written. |
| `Varint.VarintDigits` | server/external/nanopb/pb_encode.c:573-623 | The low seven bits are the base-128 digits, the least significant first and no more than needed; the high bit marks all bytes but the last. |
| `Varint.Varint32RoundTrip` | server/external/nanopb/pb_decode.c:171-227 | The 32-bit reader undoes the writer below 2^32. |
| `Varint.VarintReadersAgree` | server/external/nanopb/pb_decode.c:142-251 | On any bytes: what the 32-bit reader accepts the 64-bit reader accepts, consuming the same bytes, congruent modulo 2^32; and they agree below 2^32. |
| `Streams.InputStream.ReadVarint` | server/external/nanopb/pb_decode.c:230-250 | The stream loop computes the 64-bit reader. |
| `Streams.InputStream.ReadVarint32` | server/external/nanopb/pb_decode.c:142-227 | The stream loop computes the 32-bit reader, sign extensions included. |
| `Streams.VarintBytes` | server/external/nanopb/pb_encode.c:573-605 | The writer without 64-bit shifts produces the base-128 digits of the whole value. |
| `Streams.OutputStream.WriteVarint` | server/external/nanopb/pb_encode.c:607-623 | Writes all of the varint, or nothing exactly when it does not fit. |
| `Streams.InputStream.SkipVarint` | server/external/nanopb/pb_decode.c:253-262 | Any number of continuation bytes is skipped; fails exactly if the stream ends first. |
| `Fields.FieldIter.Load` | server/external/nanopb/pb_common.c:8-120 | Unpacking the words of an entry gives back its tag, type, places and sizes, in each of the four widths. |
| `Fields.FieldIter.Next` | server/external/nanopb/pb_common.c:188-193 | The next field of the descriptor with its word index, or the first again. |
| `Fields.FieldIter.Find` | server/external/nanopb/pb_common.c:195-244 | From wherever it stands the circular search ends on the field with the tag, if there is one, and otherwise where it stood. |
| `Messages.DecodeChunks` | server/external/nanopb/pb_decode.c:1027-1196 | Decoding any sequence of complete fields, known or unknown, applies them in order. |
| `Messages.DecodeSplits` | server/external/nanopb/pb_decode.c:1027-1196 | Conversely, whatever bytes are accepted are such a sequence. |
| `Messages.AnyArrangement` | server/external/nanopb/pb_decode.c:1027-1196 | Fields in any order, repeated, defaults written or left out, unknown fields in between: decoding returns the message. |
| `Messages.SkipsWritten` | server/external/nanopb/pb_decode.c:318-333 | Values of unknown fields are skipped whole: a varint, eight or four bytes, or a length and so many bytes. |
| `Messages.MessageRoundTrip` | server/src/proto_codec.cpp:9-137 | Decoding an encoded message of any description returns it, elided defaults included. |
| `Messages.BufferHoldsAll` | server/external/nanopb/pb_encode.c:84-105 | A buffer holds every encoding if and only if it is as long as the longest one. |
| `MessageCode.FieldStored` | server/external/nanopb/pb_common.c:86-117 | Overwriting the bytes of one field changes that value and no other. |
| `MessageCode.IsDefaultValue` | server/external/nanopb/pb_encode.c:242-358 | The comparison of the bytes in memory with zero recognizes exactly the elided values. |
| `MessageCode.PbEncode` | server/external/nanopb/pb_encode.c:512-534 | Succeeds exactly if the message fits the stream, and then has written exactly its encoding. |
| `MessageCode.SetToDefaults` | server/external/nanopb/pb_decode.c:905-1021 | Every field holds its default, whatever the memory held. |
| `MessageCode.SkipField` | server/external/nanopb/pb_decode.c:318-333 | An unknown field of each wire type is skipped, and the others are refused. |
| `MessageCode.DecodeUInt32` | server/external/nanopb/pb_decode.c:1460-1491 | A 32-bit field takes a 64-bit varint and refuses values that do not fit. |
| `MessageCode.DecodeFixedBytes` | server/external/nanopb/pb_decode.c:1674-1695 | Empty stands for zeros, any other length must match, and other memory stays as it was. |
| `MessageCode.PbDecode` | server/external/nanopb/pb_decode.c:1027-1229 | The loop over stream, iterator and structure computes the specified decoding, failures included. |
| `ProtoCodec.LongestOf` | server/src/cot.pb.h:139-146 | Six of the seven declared sizes are the exact maxima; that of OTEncrypted is two bytes short. |
| `ProtoCodec.WireBytes` | proto/cot.proto:3-34 | The encoding of each of the seven messages byte by byte: keys by field number, lengths, and what is left out. |
| `ProtoCodec.DeclaredSizeSuffices` | server/src/cot.pb.h:139-146 | The declared size holds every message of a type if and only if the type is not OTEncrypted. |
| `ProtoCodec.EncryptedNeverFits` | server/src/proto_codec.cpp:46-58 | Every OTEncrypted message takes 82 bytes. |
| `ProtoCodec.CodecRoundTrip` | server/src/proto_codec.cpp:9-137 | What was encoded decodes to itself for all messages of six types, and for OTEncrypted if and only if the message is all zeros. |
| `ProtoCodec.EncodeSessionConfig` | server/src/proto_codec.cpp:9-19 | Builds the structure in memory; returns 08 01, or nothing at all for false, which decodes to the same flag. |
| `ProtoCodec.EncodeOTInit` | server/src/proto_codec.cpp:21-32 | Builds a structure with a gap between its fields; returns 0A 21, the point, and 10 with the index as a varint unless it is zero. |
| `ProtoCodec.EncodeOTResponse` | server/src/proto_codec.cpp:34-44 | Builds the structure; returns 0A 21 and the point. |
| `ProtoCodec.EncodeOTEncrypted` | server/src/proto_codec.cpp:46-58 | Returns the empty sequence for every message. |
| `ProtoCodec.EncodeScalar` | server/src/proto_codec.cpp:60-70 | Builds the structure; returns 0A 20 and the scalar. |
| `ProtoCodec.EncodeDebugRevealResponse` | server/src/proto_codec.cpp:72-83 | Builds the structure; returns 0A 20, the scalar, and 10 01 if the flag is set. |
| `ProtoCodec.DecodeSessionConfig` | server/src/proto_codec.cpp:85-93 | Returns the flag of the decoded message for every accepted arrangement of its fields, and fails on exactly the byte strings that are no sequence of complete fields. |
| `ProtoCodec.DecodeOTInit` | server/src/proto_codec.cpp:95-104 | Returns point and index of the decoded message, and fails on exactly the byte strings that are no sequence of complete fields. |
| `ProtoCodec.DecodeOTEncrypted` | server/src/proto_codec.cpp:106-116 | Returns the three byte strings of the decoded message, zeros for those left out, and fails on exactly the byte strings that are no sequence of complete fields. |
| `ProtoCodec.DecodeScalar` | server/src/proto_codec.cpp:118-126 | Returns the scalar of the decoded message, and fails on exactly the byte strings that are no sequence of complete fields. |
| `ProtoCodec.DecodeDebugRevealRequest` | server/src/proto_codec.cpp:128-137 | Returns both shares of the decoded message, and fails on exactly the byte strings that are no sequence of complete fields. |
| `Frames.FramesDetermined` | client/src/client.ts:49-71 | A byte stream that starts like certain frames consists of frames that start with them. |
| `Frames.FrameBytes` | client/src/client.ts:49-52 | A frame starts with four bytes of length, the most significant first. |
| `Frames.FramedSocket.OnData` | client/src/client.ts:39-47 | A chunk is buffered, the length counts it, and a read that waited for no more is released. |
| `Frames.FramedSocket.Consume` | client/src/client.ts:116-138 | The prefix is returned and the rest kept, whatever the chunks. |
| `Frames.FramedSocket.Read` | client/src/client.ts:65-71 | A read hangs if and only if the peer has closed and fewer than four bytes are buffered. |
| `Frames.FramedSocket.Resume` | client/src/client.ts:65-114 | The header is taken, then the body is delivered as the first frame of what was read; hangs if and only if the peer has closed before as many bytes as the header says are buffered behind it. |
| `Frames.FramedSocket.InOrder` | client/src/client.ts:34-138 | However the stream is cut into chunks, the bodies are delivered in order and nothing is lost. |
| `Frames.HangingRead` | client/src/client.ts:77-114 | A read begun after the peer closed: it neither returns nor fails. |
| `Frames.ClientWrite` | client/src/client.ts:49-63 | The frame, or failure exactly for a body of 2^32 bytes or more. |
| `Frames.Connection.ReadFramed` | server/src/server.cpp:72-86 | The first frame of what arrives, if all of it arrives, whatever the system call delivers at a time. |
| `Frames.Connection.WriteFramed` | server/src/server.cpp:88-100 | The frame of the body cut to its length modulo 2^32. |
| `Frames.FramedReadBack` | server/src/server.cpp:72-100 | What was written is read back, whatever follows, if and only if it is shorter than 2^32 bytes. |
| `Frames.TakesInOrder` | server/src/server.cpp:72-86 | Frames are taken off a stream in order. |
| `Wire.Arrives` | server/src/server.cpp:149-179 | Every message of a session, with its fields in any arrangement and its point compressed, is decoded as it was sent. |
| `Wire.OwnBody` | server/src/proto_codec.cpp:34-71 | The server's own encoding is one of these arrangements. |
| `Wire.BodyBytes` | proto/cot.proto:7-24 | The bodies of the session byte by byte: which point or string stands where, and in which order the two masked messages. |
| `Wire.SessionArrives` | client/src/client.ts:296-335 | However the bytes are cut, what the client's socket delivers are the server's messages in order. |
| `Wire.ServerArrives` | server/src/server.cpp:149-171 | The server takes the client's messages off the stream one by one. |
| `Session.NextMatched` | server/src/server.cpp:139-179 | Every step over bytes (bytes arriving, a frame taken off and decoded, a message encoded, framed and written) is one step of the protocol or none, keeps bytes and channels tied, and brings the end nearer. |
| `Session.Refines` | server/src/server.cpp:139-179 | Every run over bytes, however they are cut and delayed, is a run of the protocol. |
| `Session.SessionCorrect` | client/src/client.ts:284-332 | A session over bytes that completes leaves U + V = x * y with the two parties, and the server has read the client's settings. |
| `Session.SessionFails` | server/src/server.cpp:149-179 | A session over bytes fails if and only if the last step of the protocol in it read a colliding point: no frame is ever misread. |
| `Session.SessionLength` | server/src/server.cpp:149-179 | Whatever the schedule, a session is over after a bounded number of steps. |
| `Session.CanStep` | server/src/server.cpp:139-179 | A session that is neither complete nor failed goes on: every message that is due can be encoded, and once arrived it can be taken off. |
| `Session.MaximalSession` | server/src/server.cpp:139-179 | A session that cannot go on has failed by a collision, or both parties have their shares after 4n + 2 steps of the protocol and nothing is left in either direction. |
| `Fermat.Binomial` | client/src/crypto_ops.ts:243-264 | The expansion by Pascal's rule is the power of the sum. |
| `Fermat.Fermat` | client/src/crypto_ops.ts:243-264 | a^(p-1) = 1 modulo p unless p divides a. |
| `Fermat.RootExact` | client/src/crypto_ops.ts:250-255 | For p = 3 modulo 4 the power r^((p+1)/4) is a root if and only if r has one. |
| `Sqrt.BnRshift` | server/external/trezor-crypto/bignum.c:292-300 | The number is halved, rounding down. |
| `Sqrt.BnSqrt` | server/external/trezor-crypto/bignum.c:490-527 | The square-and-multiply loop over the limbs of (p+1)/4 leaves the fully reduced power. |
| `Sqrt.ModPow` | client/src/crypto_ops.ts:143-157 | The reduced power, and 1 for exponents that are not positive. |
| `PointCodec.DecodeExact` | client/src/crypto_ops.ts:243-264 | Decoding succeeds if and only if the prefix is right and the abscissa has a point; the ordinate solves the equation and has the parity asked for; it reaches p exactly if the cubic vanishes and the prefix is 3. |
| `PointCodec.DecodeEncoded` | client/src/crypto_ops.ts:243-275 | Decoding an encoded point of the curve returns it. |
| `PointCodec.EncodeDecoded` | client/src/crypto_ops.ts:243-275 | Encoding what was decoded returns the bytes, for every accepted key. |
| `PointCodec.UnreducedAccepted` | client/src/crypto_ops.ts:253-263 | A key the client decodes although its abscissa is p + 1. |
| `PointCodec.ClientEncode` | client/src/crypto_ops.ts:266-275 | Returns 33 bytes that decode to the same point of the curve; fails exactly for infinity. |
| `PointCodec.ClientDecode` | client/src/crypto_ops.ts:243-264 | The big-integer loops compute the decoding that DecodeExact characterizes, failures included. |
| `PointCodec.UncompressCoords` | server/external/trezor-crypto/ecdsa.c:895-907 | The root of the parity asked for, through five routines within their bounds. |
| `PointCodec.ValidatePubkey` | server/external/trezor-crypto/ecdsa.c:928-964 | True exactly for reduced points of the curve. |
| `PointCodec.ReadPubkey` | server/external/trezor-crypto/ecdsa.c:909-926 | Accepts exactly the compressed keys that the client decodes to reduced coordinates, with the same point, and exactly the uncompressed keys whose coordinates are those of a reduced point. |
| `PointCodec.CompressCoords` | server/external/trezor-crypto/ecdsa.c:890-893 | The limb code writes the same 33 bytes as the client. |
| `PointSubtract.AddUnreduced` | server/external/trezor-crypto/ecdsa.c:43-87 | What the addition computes for an ordinate of 3p - y, as a function of the two points: infinity for equal abscissas, else a chord with the two borrows of 2^270 made explicit. |
| `PointSubtract.AbscissaExact` | server/src/crypto_ops.cpp:174-191 | The abscissa is right if and only if the ordinates add up to at least p, or twice their sum plus 2^270 vanishes modulo p; the last product is then the difference of the ordinates up to sign. |
| `PointSubtract.PointSubtract` | server/src/crypto_ops.cpp:174-191 | The returned bytes are the encoded difference exactly under a condition on the two points: the first subtraction does not spoil the abscissa, and neither the reflected ordinate nor a second borrow changes the parity; equal abscissas always return nothing. |
| `PointSubtract.RightWithoutBorrow` | server/src/crypto_ops.cpp:174-191 | Without the first borrow, for any supported prime: right if and only if the last product is not fully reduced, the ordinate of the difference is below that of the subtrahend, or the borrowed 2^270 keeps its parity. |
| `PointSubtract.FieldExact` | server/src/crypto_ops.cpp:174-191 | On the field of secp256k1: without the first borrow right if and only if r.y < q.y, or r.y + 16384 * 0x1000003D1 < p, or the last product is not fully reduced; with it only for one sum of the ordinates, l.y + q.y = p - 8192 * 0x1000003D1, and then exactly if the parity of the reflected ordinate 2 q.y - r.y survives. |
| `PointSubtract.UnreducedTiny` | server/external/trezor-crypto/bignum.c:366-466 | A last product that is not fully reduced exceeds p by less than 2^64. |
| `PointSubtract.FieldLargeResidue` | server/src/crypto_ops.cpp:174-191 | Unless r.y - q.y is below 2^64 modulo p, and without the first borrow: right if and only if r.y < q.y or r.y + 16384 * 0x1000003D1 < p. |
| `PointSubtract.OppositeNeverRight` | server/src/crypto_ops.cpp:174-191 | P - (-P) is never right, for any point with y != 0: nothing is returned instead of 2P. |
| `TableMultiply.LowerUpper` | server/external/trezor-crypto/ecdsa.c:540-626 | Upper and lower digit sums make up the whole at every window. |
| `TableMultiply.LowerNotMultiple` | server/external/trezor-crypto/ecdsa.c:540-626 | No partial sum from below is a multiple of the order, so no addition meets infinity. |
| `TableMultiply.SameSigns` | server/external/trezor-crypto/ecdsa.c:612-620 | The masked window is odd exactly if this digit and the last have the same sign. |
| `TableMultiply.ShiftFour` | server/external/trezor-crypto/ecdsa.c:604-608 | The scalar is divided by sixteen, limb by limb. |
| `TableMultiply.AddDigit` | server/external/trezor-crypto/ecdsa.c:600-621 | One round keeps the accumulator at the lower digit sum up to the tracked sign. |
| `TableMultiply.ScalarMultiply` | server/external/trezor-crypto/ecdsa.c:540-626 | Given the table of odd multiples of the powers of sixteen: k times the generator for every k below the order. |
| `Sha256.Context.Update` | server/external/trezor-crypto/sha2.c:829-885 | The context keeps its invariant and its message grows by the data, however it is cut. |
| `Sha256.Context.Final` | server/external/trezor-crypto/sha2.c:887-939 | The digest of the once-padded message, in one block or two, with the bit count modulo 2^64. |
| `Sha256.Context.ToHostOrder` | server/external/trezor-crypto/sha2.c:846-852 | The bytes of each word are reversed in place. |
| `Sha256.PaddingExact` | server/external/trezor-crypto/sha2.c:887-925 | The padding is a one bit, as few zeros as complete a block, and 64 bits that denote the length in bits modulo 2^64. |
| `Sha256.PaddingInjective` | server/external/trezor-crypto/sha2.c:887-925 | Different messages stay different when they are padded. |
| `Sha256.WordsOfBytes` | server/external/trezor-crypto/sha2.c:927-933 | The bytes of the digest hold the state words in order, each with its most significant byte first. |
| `Sha256.HashPieces` | server/external/trezor-crypto/sha2.c:829-939 | The digest does not depend on how the message was cut into updates. |
| `Sha256.HashRaw` | server/external/trezor-crypto/sha2.c:961-966 | Equals the fold of the compression function over the once-padded message. |
| `Sha256Rounds.Transform` | server/external/trezor-crypto/sha2.c:758-825 | Two loops over a circular schedule of sixteen words compute the 64 rounds of the standard. |
| `Sha256Rounds.TwoStreams` | server/external/trezor-crypto/sha2.c:758-825 | The rounds are two intertwined recurrences, of which the other six registers hold earlier values. |
| `Bignum.BnLshift` | server/external/trezor-crypto/bignum.c:281-290 | A number below 2^269 is doubled, limb by limb from the top. |

## Left out

- Sockets, argument parsing, console output, promise wiring and process exit.
- Random sources: drawn scalars are arbitrary values in range; the rejection loop that draws them is not modelled.
- Associativity of the group law and primality of the constants are assumptions, not results.
- The logical functions and constants of SHA-256 are parameters; HMAC-SHA-512 and the other hash functions are uninterpreted.
- The unrolled variant of the SHA-256 rounds (sha2.c:679-754) differs from the modelled one in the naming of the working variables only.
- Sha256.Context.Final: the erasing of the context afterwards is not stated; the host is little-endian.
- The retry loop inside hdnode_private_ckd (a derived key of zero or beyond the order) is part of the abstract child step.
- Shamir.GfMul: the repository unrolls the eight rounds with renamed words; the model runs them as a loop over a rotating index.
- Inverse.DivideByPower: the repository has one copy of the division loop for whole words and one for the remaining bits; the model has one method for both, called with 32 and with the remaining bits.
- CurvePoints.PointAdd: coordinates are numbers, not limbs; aliasing of the two arguments is excluded (the callers never alias them).
- PointMultiply.PointMultiply: the random blinding of the first denominator is an arbitrary non-zero number below the prime; erasing of intermediate values is not modelled.
- TableMultiply.ScalarMultiply: the entries of the precomputed table are assumed to be the multiples they are documented to be; the table file is not part of this model. `Parties` takes multiples of the generator by point_multiply, as the build without the table does (ecdsa.c:628-633).
- bn_format, bn_print, bn_divmod1000, ECDSA signing and verification are not modelled.
- Base58Code.B58Enc, Base58Code.B58ToBin: C strings are byte sequences without a zero byte; what a failing call leaves in the output buffer is not stated.
- BechCode.EncodeString, BechCode.DecodeString: output strings are results; what a failing call leaves in the output buffer is not stated.
- Segwit.ConvertBits: the output buffer is a result that is always long enough.
- Constant-time behaviour and the erasing of secrets are not functional properties.
- PointCodec.ReadPubkey: asks for 65 bytes behind the prefix 4, which are what the function reads; `decode_point` (crypto_ops.cpp:44-50) hands over its 33 bytes whatever the prefix, and that combination is not modelled.
- PointSubtract.PointSubtract: starts from decoded points; decoding is `PointCodec.ReadPubkey`.
- Fields.FieldIter.Load: the submessage and required-field counters of the iterator are left out, as the messages have neither.
- MessageCode.PbEncode, MessageCode.PbDecode: only booleans, 32-bit unsigned integers and bytes of fixed length; what a failing call leaves in the structure or the stream is not stated.
- Wire.Arrives: the message library of the client is not part of this model; what it writes is taken to be any arrangement of the fields (any order, repetition, defaults written out or left out, unknown fields in between), which includes what the server writes.
- Wire.SessionArrives: what the client's library reads is taken to be what the server's decoding function reads.
- Session.Refines: the exchange that reveals the secrets for debugging, after the shares, is not part of the session; a write is one step, and the two halves of a read are one step once its frame has arrived (`Frames` has the waiting in between). The peer does not close the connection early.
- Frames.Connection.WriteFramed: the 31-bit limit of a single system call is not modelled.
- Nanopb callbacks, extensions, one-of fields, pointers, submessages, floats and arrays: the messages of this protocol do not use them.
- The slip39, bip39, nem, script, address and cash_addr files are thin compositions or near-duplicates of what is modelled.
