/** SHA-256 over messages that arrive in pieces: the context, its update and its finish (FIPS 180-4, sections 5.1.1
    and 6.2). The compression function is a parameter. */
module Sha256 {
  import opened Arith
  import opened Octets
  import opened Residues
  import opened Scalars

  const TWO64: nat := 0x1_0000_0000_0000_0000

  /** Initial hash value and compression function: eight words of state, sixteen of data. */
  datatype Hash = Hash(initial: seq<uint32>, compress: (seq<uint32>, seq<uint32>) -> seq<uint32>)

  ghost predicate ValidHash(h: Hash) {
    |h.initial| == 8 && forall s, d :: |h.compress(s, d)| == 8
  }

  // ---- the standard --------------------------------------------------------------------------

  /** A big-endian word. */
  function BigWord(s: seq<uint8>): (w: uint32)
    requires |s| == 4
  {
    s[0] as int * 0x100_0000 + s[1] as int * 0x10000 + s[2] as int * 0x100 + s[3] as int
  }

  function WordsOf(s: seq<uint8>): (r: seq<uint32>)
    requires |s| % 4 == 0
    ensures |r| == |s| / 4 && forall i :: 0 <= i < |r| ==> r[i] == BigWord(s[4 * i..4 * i + 4])
  {
    seq(|s| / 4, i requires 0 <= i < |s| / 4 => BigWord(s[4 * i..4 * i + 4]))
  }

  /** The compression function folded over whole blocks. */
  ghost function HashBlocks(h: Hash, state: seq<uint32>, s: seq<uint8>): (r: seq<uint32>)
    requires ValidHash(h) && |s| % 64 == 0 && |state| == 8
    ensures |r| == 8
    decreases |s|
  {
    if |s| == 0 then state else HashBlocks(h, h.compress(state, WordsOf(s[..64])), s[64..])
  }

  /** The padding of a message of n bytes: a one bit, zeros, and the length in bits. */
  function Padding(n: nat): (s: seq<uint8>)
    ensures (n + |s|) % 64 == 0
  {
    ZerosComplete(n);
    [0x80] + seq(Zeros(n), _ => 0) + BytesOf(8 * n, 8)
  }

  /** The zeros that complete the last block. */
  function Zeros(n: nat): (z: nat)
    ensures z < 64
  {
    if n % 64 <= 55 then 55 - n % 64 else 119 - n % 64
  }

  lemma ZerosComplete(n: nat)
    ensures (n + (9 + Zeros(n))) % 64 == 0
  {
    DivMod(n, 64);
    DivModUnique(n + (9 + Zeros(n)), 64, n / 64 + (if n % 64 <= 55 then 1 else 2), 0);
  }

  /** The padding is a one bit, as few zeros as complete a block, and 64 bits that denote the length in bits. */
  lemma PaddingExact(n: nat)
    ensures var s := Padding(n);
      && 9 <= |s| <= 72 && (n + |s|) % 64 == 0 && s[0] == 0x80
      && (forall i :: 1 <= i < |s| - 8 ==> s[i] == 0) && IntOf(s[|s| - 8..]) == (8 * n) % TWO64
  {
    hide Zeros, BytesOf;
    ZerosComplete(n);
    assert Pow(256, 1) == 256;
    PowAdd(256, 1, 1);
    PowAdd(256, 2, 2);
    PowAdd(256, 4, 4);
    BytesOfLow(8 * n, 8);
    DivMod(8 * n, TWO64);
    IntOfBytesOf((8 * n) % TWO64, 8);
    var s := Padding(n);
    assert s[|s| - 8..] == BytesOf(8 * n, 8);
  }

  /** Messages that can be hashed stay different when they are padded. */
  lemma PaddingInjective(m: seq<uint8>, m': seq<uint8>)
    requires 8 * |m| < TWO64 && 8 * |m'| < TWO64 && m + Padding(|m|) == m' + Padding(|m'|)
    ensures m == m'
  {
    hide Padding, IntOf;
    PaddingExact(|m|);
    PaddingExact(|m'|);
    ModOnce(8 * |m|, TWO64);
    ModOnce(8 * |m'|, TWO64);
    var s, t := m + Padding(|m|), m' + Padding(|m'|);
    assert s[|s| - 8..] == Padding(|m|)[|Padding(|m|)| - 8..];
    assert t[|t| - 8..] == Padding(|m'|)[|Padding(|m'|)| - 8..];
    assert m == s[..|m|] && m' == t[..|m'|];
  }

  /** A word is the number its four bytes denote. */
  lemma WordIsNumber(s: seq<uint8>)
    requires |s| == 4
    ensures BigWord(s) == IntOf(s)
  {
    FourBytes(s);
  }

  function BytesOfWords(s: seq<uint32>): (r: seq<uint8>)
    ensures |r| == 4 * |s|
  {
    if |s| == 0 then [] else BytesOfWords(s[..|s| - 1]) + BytesOf(s[|s| - 1], 4)
  }

  /** The bytes of the digest hold the words in order, each with its most significant byte first. */
  lemma {:induction false} WordsOfBytes(s: seq<uint32>)
    ensures WordsOf(BytesOfWords(s)) == s
  {
    hide BigWord, BytesOf;
    if |s| > 0 {
      var n := |s| - 1;
      WordsOfBytes(s[..n]);
      WordOfBytes(s[n]);
      var front, last := BytesOfWords(s[..n]), BytesOf(s[n], 4);
      var all := front + last;
      forall i | 0 <= i <= n ensures BigWord(all[4 * i..4 * i + 4]) == s[i] {
        if i < n {
          assert all[4 * i..4 * i + 4] == front[4 * i..4 * i + 4];
          assert WordsOf(front)[i] == s[..n][i];
        } else {
          assert all[4 * i..4 * i + 4] == last;
        }
      }
    }
  }

  lemma WordOfBytes(w: uint32)
    ensures BigWord(BytesOf(w, 4)) == w
  {
    hide BytesOf;
    assert Pow(256, 1) == 256;
    PowAdd(256, 1, 1);
    PowAdd(256, 2, 2);
    IntOfBytesOf(w, 4);
    WordIsNumber(BytesOf(w, 4));
  }

  ghost function Digest(h: Hash, message: seq<uint8>): (r: seq<uint8>)
    requires ValidHash(h)
    ensures |r| == 32
  {
    BytesOfWords(HashBlocks(h, h.initial, message + Padding(|message|)))
  }

  lemma {:induction false} HashConcat(h: Hash, state: seq<uint32>, s: seq<uint8>, t: seq<uint8>)
    requires ValidHash(h) && |s| % 64 == 0 && |t| % 64 == 0 && |state| == 8
    ensures HashBlocks(h, state, s + t) == HashBlocks(h, HashBlocks(h, state, s), t)
    decreases |s|
  {
    hide WordsOf;
    if |s| == 0 {
      assert s + t == t;
    } else {
      assert (s + t)[..64] == s[..64] && (s + t)[64..] == s[64..] + t;
      HashConcat(h, h.compress(state, WordsOf(s[..64])), s[64..], t);
    }
  }

  lemma HashOne(h: Hash, state: seq<uint32>, block: seq<uint8>)
    requires ValidHash(h) && |block| == 64 && |state| == 8
    ensures HashBlocks(h, state, block) == h.compress(state, WordsOf(block))
  {
    assert block[..64] == block && block[64..] == [];
  }

  // ---- the context -----------------------------------------------------------------------------

  /** The part of a message that fills whole blocks. */
  function Whole(s: seq<uint8>): (n: nat)
    ensures n <= |s| && n % 64 == 0 && |s| - n == |s| % 64
  {
    |s| - |s| % 64
  }

  class Context {
    var state: seq<uint32>
    var bitcount: nat
    const buffer: array<uint8>
    ghost var message: seq<uint8>

    /** The state has taken in the whole blocks, the buffer holds the rest, and the count is the length in bits,
        modulo 2^64. */
    ghost predicate Valid(h: Hash)
      reads this, buffer
    {
      && ValidHash(h) && buffer.Length == 64 && |state| == 8
      && bitcount == (8 * |message|) % TWO64
      && state == HashBlocks(h, h.initial, message[..Whole(message)])
      && buffer[..|message| % 64] == message[Whole(message)..]
    }

    /** sha256_Init */
    constructor (h: Hash)
      requires ValidHash(h)
      ensures Valid(h) && message == [] && fresh(buffer)
    {
      state, bitcount, message := h.initial, 0, [];
      buffer := new uint8[64](_ => 0);
    }

    /** Copies data into the buffer. */
    method Fill(offset: nat, data: seq<uint8>)
      requires offset + |data| <= buffer.Length
      modifies buffer
      ensures buffer[..] == old(buffer[..offset]) + data + old(buffer[offset + |data|..])
    {
      var i := 0;
      while i < |data|
        invariant 0 <= i <= |data|
        invariant forall k :: 0 <= k < buffer.Length ==>
          buffer[k] == if offset <= k < offset + i then data[k - offset] else old(buffer[k])
      {
        buffer[offset + i] := data[i];
        i := i + 1;
      }
    }

    /** REVERSE32 */
    method SwapWord(j: nat)
      requires 4 * j + 4 <= buffer.Length
      modifies buffer
      ensures buffer[4 * j..4 * j + 4] == Swapped(old(buffer[4 * j..4 * j + 4]))
      ensures buffer[4 * j + 4..] == old(buffer[4 * j + 4..])
      ensures forall k :: 0 <= k < j ==> buffer[4 * k..4 * k + 4] == old(buffer[4 * k..4 * k + 4])
    {
      var i := 4 * j;
      buffer[i], buffer[i + 1], buffer[i + 2], buffer[i + 3] := buffer[i + 3], buffer[i + 2], buffer[i + 1], buffer[i];
    }

    /** REVERSE32 on the first n words of the buffer, in place. */
    method ToHostOrder(n: nat)
      requires buffer.Length == 64 && n <= 16
      modifies buffer
      ensures forall k :: 0 <= k < n ==> buffer[4 * k..4 * k + 4] == Swapped(old(buffer[4 * k..4 * k + 4]))
      ensures buffer[4 * n..] == old(buffer[4 * n..])
    {
      var j := 0;
      while j < n
        invariant 0 <= j <= n
        invariant forall k :: 0 <= k < j ==> buffer[4 * k..4 * k + 4] == Swapped(old(buffer[4 * k..4 * k + 4]))
        invariant buffer[4 * j..] == old(buffer[4 * j..])
      {
        assert buffer[4 * j..][..4] == old(buffer[4 * j..])[..4] == old(buffer[4 * j..4 * j + 4]);
        assert buffer[4 * j..][4..] == old(buffer[4 * j..])[4..] == old(buffer[4 * (j + 1)..]);
        SwapWord(j);
        j := j + 1;
      }
    }

    /** sha256_Transform on the buffer. */
    method Transform(h: Hash)
      requires ValidHash(h) && buffer.Length == 64
      modifies this`state
      ensures state == h.compress(old(state), HostWords(buffer[..])) && |state| == 8
    {
      var words: seq<uint32> := [];
      while |words| < 16
        invariant |words| <= 16 && words == HostWords(buffer[..])[..|words|]
      {
        var i := 4 * |words|;
        var word: uint32 := buffer[i] as int + buffer[i + 1] as int * 0x100 + buffer[i + 2] as int * 0x10000
                            + buffer[i + 3] as int * 0x100_0000;
        assert word == HostWords(buffer[..])[|words|];
        words := words + [word];
      }
      assert words == HostWords(buffer[..]);
      state := h.compress(state, words);
    }

    /** A full buffer of message bytes is converted and taken in. */
    method TakeBlock(h: Hash)
      requires ValidHash(h) && buffer.Length == 64 && |state| == 8
      modifies this`state, buffer
      ensures state == HashBlocks(h, old(state), old(buffer[..])) && |state| == 8
    {
      ghost var block := buffer[..];
      assert forall k :: 0 <= k < 16 ==> block[4 * k..4 * k + 4] == buffer[4 * k..4 * k + 4];
      ToHostOrder(16);
      assert forall k :: 0 <= k < 16 ==> buffer[..][4 * k..4 * k + 4] == buffer[4 * k..4 * k + 4];
      Converted(block, buffer[..]);
      HashOne(h, state, block);
      Transform(h);
    }

    /** Saves bytes that do not fill the buffer. */
    method Absorb(h: Hash, usedSpace: nat, data: seq<uint8>)
      requires Valid(h) && usedSpace == |message| % 64 && usedSpace + |data| < 64
      modifies this`bitcount, this`message, buffer
      ensures Valid(h) && message == old(message) + data
    {
      hide HashBlocks;
      Partial(message, data);
      CountGrows(|message|, |data|);
      Fill(usedSpace, data);
      bitcount := (bitcount + 8 * |data|) % TWO64;
      message := message + data;
    }

    /** Completes the buffer and takes it in. */
    method Complete(h: Hash, usedSpace: nat, data: seq<uint8>)
      requires Valid(h) && usedSpace == |message| % 64 && usedSpace + |data| == 64
      modifies this`state, this`bitcount, this`message, buffer
      ensures Valid(h) && message == old(message) + data && |message| % 64 == 0
    {
      hide HashBlocks;
      ghost var whole, rest := message[..Whole(message)], message[Whole(message)..];
      CountGrows(|message|, |data|);
      BlockFilled(message, data);
      Fill(usedSpace, data);
      assert buffer[..] == rest + data;
      HashConcat(h, h.initial, whole, rest + data);
      TakeBlock(h);
      bitcount := (bitcount + 8 * |data|) % TWO64;
      message := message + data;
      assert message == whole + (rest + data) && message[..|message|] == message;
    }

    /** sha256_Update */
    method Update(h: Hash, data: seq<uint8>)
      requires Valid(h)
      modifies this`state, this`bitcount, this`message, buffer
      ensures Valid(h) && message == old(message) + data
    {
      hide HashBlocks, Valid;
      if |data| == 0 {
        assert message + data == message;
        return;
      }
      var usedSpace := Used(h);
      var rest := data;
      if usedSpace > 0 {
        var freeSpace := 64 - usedSpace;
        if |rest| < freeSpace {
          Absorb(h, usedSpace, rest);
          return;
        }
        Complete(h, usedSpace, rest[..freeSpace]);
        assert data == rest[..freeSpace] + rest[freeSpace..];
        rest := rest[freeSpace..];
      }
      while |rest| >= 64
        invariant Valid(h) && message + rest == old(message) + data && |message| % 64 == 0
      {
        assert rest == rest[..64] + rest[64..];
        ghost var before := message;
        Complete(h, 0, rest[..64]);
        assert (before + rest[..64]) + rest[64..] == before + rest;
        rest := rest[64..];
      }
      if |rest| > 0 {
        Absorb(h, 0, rest);
      }
    }

    /** (bitcount >> 3) % SHA256_BLOCK_LENGTH */
    method Used(h: Hash) returns (usedSpace: nat)
      requires Valid(h)
      ensures usedSpace == |message| % 64
    {
      UsedSpace(|message|);
      usedSpace := bitcount / 8 % 64;
    }

    /** The last transform: fourteen words of the buffer, and the bit count in two words of the machine. */
    method TakeLast(h: Hash, ghost last: seq<uint8>)
      requires ValidHash(h) && buffer.Length == 64 && |state| == 8 && bitcount == (8 * |message|) % TWO64
      requires |last| == 64 && buffer[..56] == last[..56] && last[56..] == BytesOf(8 * |message|, 8)
      modifies this`state, buffer
      ensures state == HashBlocks(h, old(state), last) && |state| == 8
    {
      hide HashBlocks, BytesOf, BigWord;
      forall k | 0 <= k < 14 ensures buffer[4 * k..4 * k + 4] == last[4 * k..4 * k + 4] {
        SamePiece(buffer[..], last, k);
      }
      ToHostOrder(14);
      ghost var swapped := buffer[..56];
      forall k | 0 <= k < 14 ensures swapped[4 * k..4 * k + 4] == buffer[4 * k..4 * k + 4] {
        PieceOfPrefix(buffer[..], k);
      }
      LengthWords(8 * |message|);
      var high := HostBytes(bitcount / 0x1_0000_0000);
      var low := HostBytes(bitcount % 0x1_0000_0000);
      Fill(56, high + low);
      assert buffer[..] == swapped + (high + low);
      LastConverted(swapped, high, low, last, buffer[..]);
      Converted(last, buffer[..]);
      HashOne(h, state, last);
      Transform(h);
    }

    /** The end of a message whose bit count does not fit behind it: zeros fill the block, and another one follows. */
    method FinishTwo(h: Hash, usedSpace: nat)
      requires Finishing(h, usedSpace) && usedSpace > 56
      modifies this`state, buffer
      ensures state == HashBlocks(h, h.initial, message + Padding(|message|))
    {
      hide HashBlocks, BytesOf, WordsOf;
      ghost var whole, rest := message[..Whole(message)], message[Whole(message)..];
      ghost var first := rest + [0x80] + seq(64 - usedSpace, _ => 0);
      ghost var last := seq(56, _ => 0) + BytesOf(8 * |message|, 8);
      TwoBlocks(message, first, last);
      HashConcat(h, h.initial, whole, first);
      HashConcat(h, h.initial, whole + first, last);
      Fill(usedSpace, seq(64 - usedSpace, _ => 0));
      assert buffer[..] == first;
      TakeBlock(h);
      Fill(0, seq(56, _ => 0));
      TakeLast(h, last);
    }

    /** The end of a message behind which the bit count fits. */
    method FinishOne(h: Hash, usedSpace: nat)
      requires Finishing(h, usedSpace) && usedSpace <= 56
      modifies this`state, buffer
      ensures state == HashBlocks(h, h.initial, message + Padding(|message|))
    {
      hide HashBlocks, BytesOf, WordsOf;
      ghost var whole, rest := message[..Whole(message)], message[Whole(message)..];
      ghost var last := rest + [0x80] + seq(56 - usedSpace, _ => 0) + BytesOf(8 * |message|, 8);
      OneBlock(message, last);
      HashConcat(h, h.initial, whole, last);
      Fill(usedSpace, seq(56 - usedSpace, _ => 0));
      assert buffer[..56] == last[..56];
      TakeLast(h, last);
    }

    /** The buffer holds the rest of the message and the one bit. */
    ghost predicate Finishing(h: Hash, usedSpace: nat)
      reads this, buffer
    {
      && ValidHash(h) && buffer.Length == 64 && |state| == 8 && bitcount == (8 * |message|) % TWO64
      && usedSpace == |message| % 64 + 1 && buffer[..usedSpace] == message[Whole(message)..] + [0x80]
      && state == HashBlocks(h, h.initial, message[..Whole(message)])
    }

    /** sha256_Final: the digest of the message. */
    method Final(h: Hash) returns (digest: seq<uint8>)
      requires Valid(h)
      modifies this`state, buffer
      ensures digest == Digest(h, message)
    {
      hide HashBlocks, BytesOf, WordsOf, BytesOfWords, Padding;
      var usedSpace := Used(h);
      Fill(usedSpace, [0x80]);
      usedSpace := usedSpace + 1;
      assert buffer[..usedSpace] == message[Whole(message)..] + [0x80];
      if usedSpace > 56 {
        FinishTwo(h, usedSpace);
      } else {
        FinishOne(h, usedSpace);
      }
      digest := StateBytes();
    }

    /** The state words, most significant byte first. */
    method StateBytes() returns (digest: seq<uint8>)
      ensures digest == BytesOfWords(state)
    {
      digest := [];
      var i := 0;
      assert state[..0] == [];
      while i < |state|
        invariant 0 <= i <= |state| && digest == BytesOfWords(state[..i])
      {
        var bytes := HostBytes(state[i]);
        assert state[..i + 1][..i] == state[..i];
        SwappedTwice(BytesOf(state[i], 4));
        digest := digest + [bytes[3], bytes[2], bytes[1], bytes[0]];
        i := i + 1;
      }
      assert state[..i] == state;
    }
  }

  lemma PieceOfPrefix(s: seq<uint8>, k: nat)
    requires |s| == 64 && k < 14
    ensures s[..56][4 * k..4 * k + 4] == s[4 * k..4 * k + 4]
  {}

  lemma SamePiece(s: seq<uint8>, t: seq<uint8>, k: nat)
    requires |s| == |t| == 64 && s[..56] == t[..56] && k < 14
    ensures s[4 * k..4 * k + 4] == t[4 * k..4 * k + 4]
  {
    PieceOfPrefix(s, k);
    PieceOfPrefix(t, k);
  }

  lemma Converted(before: seq<uint8>, after: seq<uint8>)
    requires |before| == |after| == 64
    requires forall k :: 0 <= k < 16 ==> after[4 * k..4 * k + 4] == Swapped(before[4 * k..4 * k + 4])
    ensures HostWords(after) == WordsOf(before)
  {
    hide BigWord;
    forall k | 0 <= k < 16 ensures HostWords(after)[k] == WordsOf(before)[k] {
      SwappedTwice(before[4 * k..4 * k + 4]);
    }
  }

  /** Words as a little-endian machine reads them. */
  function HostWords(s: seq<uint8>): (r: seq<uint32>)
    requires |s| == 64
    ensures |r| == 16 && forall i :: 0 <= i < 16 ==> r[i] == BigWord(Swapped(s[4 * i..4 * i + 4]))
  {
    seq(16, i requires 0 <= i < 16 => BigWord(Swapped(s[4 * i..4 * i + 4])))
  }

  function Swapped(s: seq<uint8>): (r: seq<uint8>)
    requires |s| == 4
    ensures |r| == 4
  {
    [s[3], s[2], s[1], s[0]]
  }

  lemma SwappedTwice(s: seq<uint8>)
    requires |s| == 4
    ensures Swapped(Swapped(s)) == s
  {}

  // ---- lengths ---------------------------------------------------------------------------------

  /** The count modulo 2^64 still gives the place in the block. */
  lemma UsedSpace(n: nat)
    ensures (8 * n) % TWO64 / 8 % 64 == n % 64
  {
    var q := 8 * n / TWO64;
    DivMod(8 * n, TWO64);
    var b := (8 * n) % TWO64;
    var c := n - q * 0x2000_0000_0000_0000;
    assert b == 8 * c;
    DivMod(c, 64);
    DivModUnique(n, 64, c / 64 + q * 0x80_0000_0000_0000, c % 64);
  }

  lemma CountGrows(n: nat, k: nat)
    ensures ((8 * n) % TWO64 + 8 * k) % TWO64 == (8 * (n + k)) % TWO64
  {
    CongMod(8 * n, TWO64);
    CongIntro(8 * k, 8 * k, 0, TWO64);
    CongAdd((8 * n) % TWO64, 8 * n, 8 * k, 8 * k, TWO64);
    CongIsMod((8 * n) % TWO64 + 8 * k, 8 * n + 8 * k, TWO64);
  }

  lemma Partial(m: seq<uint8>, data: seq<uint8>)
    requires |m| % 64 + |data| < 64
    ensures Whole(m + data) == Whole(m) && |m + data| % 64 == |m| % 64 + |data|
    ensures (m + data)[..Whole(m)] == m[..Whole(m)] && (m + data)[Whole(m)..] == m[Whole(m)..] + data
  {
    DivMod(|m|, 64);
    DivModUnique(|m| + |data|, 64, |m| / 64, |m| % 64 + |data|);
  }

  lemma BlockFilled(m: seq<uint8>, data: seq<uint8>)
    requires |m| % 64 + |data| == 64
    ensures |m + data| % 64 == 0 && Whole(m + data) == |m + data| && m + data == m[..Whole(m)] + (m[Whole(m)..] + data)
    ensures |m[Whole(m)..] + data| == 64
  {
    DivMod(|m|, 64);
    DivModUnique(|m| + |data|, 64, |m| / 64 + 1, 0);
  }

  // ---- the last blocks ---------------------------------------------------------------------------

  lemma PaddingShape(n: nat)
    ensures n % 64 <= 55 ==> Padding(n) == [0x80] + seq(55 - n % 64, _ => 0) + BytesOf(8 * n, 8)
    ensures n % 64 > 55 ==> Padding(n) == [0x80] + seq(119 - n % 64, _ => 0) + BytesOf(8 * n, 8)
  {
    hide BytesOf;
  }

  lemma Regrouped(front: seq<uint8>, rest: seq<uint8>, one: seq<uint8>, zeros: seq<uint8>, length: seq<uint8>)
    ensures (front + rest) + (one + zeros + length) == front + (rest + one + zeros + length)
  {}

  lemma RegroupedTwice(front: seq<uint8>, rest: seq<uint8>, one: seq<uint8>, a: seq<uint8>, b: seq<uint8>,
                       length: seq<uint8>)
    ensures (front + rest) + (one + (a + b) + length) == (front + (rest + one + a)) + (b + length)
  {
    assert one + (a + b) + length == (one + a) + (b + length);
    assert (front + rest) + ((one + a) + (b + length)) == ((front + rest) + (one + a)) + (b + length);
  }

  lemma SplitMessage(m: seq<uint8>)
    ensures m == m[..Whole(m)] + m[Whole(m)..] && |m[Whole(m)..]| == |m| % 64
  {}

  lemma OneBlock(m: seq<uint8>, last: seq<uint8>)
    requires |m| % 64 <= 55
    requires last == m[Whole(m)..] + [0x80] + seq(55 - |m| % 64, _ => 0) + BytesOf(8 * |m|, 8)
    ensures |last| == 64 && m + Padding(|m|) == m[..Whole(m)] + last
  {
    hide BytesOf, Padding, Whole;
    PaddingShape(|m|);
    SplitMessage(m);
    Regrouped(m[..Whole(m)], m[Whole(m)..], [0x80], seq(55 - |m| % 64, _ => 0), BytesOf(8 * |m|, 8));
  }

  lemma TwoBlocks(m: seq<uint8>, first: seq<uint8>, last: seq<uint8>)
    requires |m| % 64 > 55
    requires first == m[Whole(m)..] + [0x80] + seq(63 - |m| % 64, _ => 0)
    requires last == seq(56, _ => 0) + BytesOf(8 * |m|, 8)
    ensures |first| == |last| == 64 && m + Padding(|m|) == (m[..Whole(m)] + first) + last
  {
    hide BytesOf, Padding, Whole;
    var front, rest, length := m[..Whole(m)], m[Whole(m)..], BytesOf(8 * |m|, 8);
    var a, b: seq<uint8> := seq(63 - |m| % 64, _ => 0), seq(56, _ => 0);
    PaddingShape(|m|);
    SplitMessage(m);
    ZerosJoined(63 - |m| % 64, 56);
    RegroupedTwice(front, rest, [0x80], a, b, length);
  }

  lemma ZerosJoined(a: nat, b: nat)
    ensures seq<uint8>(a + b, _ => 0) == seq<uint8>(a, _ => 0) + seq<uint8>(b, _ => 0)
  {}

  lemma {:induction false} BytesOfSplit(v: nat, a: nat, b: nat)
    ensures Pow(256, b) > 0 && BytesOf(v, a + b) == BytesOf(v / Pow(256, b), a) + BytesOf(v, b)
    decreases b
  {
    PowPos(256, b);
    if b > 0 {
      BytesOfSplit(v / 256, a, b - 1);
      DivDiv(v, 256, Pow(256, b - 1));
    }
  }

  /** Multiples of 256^n do not reach the n low bytes. */
  lemma {:induction false} BytesOfWrap(v: nat, q: nat, n: nat)
    ensures q * Pow(256, n) >= 0 && BytesOf(v + q * Pow(256, n), n) == BytesOf(v, n)
    decreases n
  {
    PowPos(256, n);
    MulMono(0, q, Pow(256, n));
    if n > 0 {
      var x := q * Pow(256, n - 1);
      PowPos(256, n - 1);
      MulMono(0, q, Pow(256, n - 1));
      BytesOfWrap(v / 256, q, n - 1);
      assert q * Pow(256, n) == 256 * x by { MulAssoc(256, q, Pow(256, n - 1)); MulAssoc(q, 256, Pow(256, n - 1)); }
      Shifted(v, x);
    }
  }

  lemma Shifted(v: nat, x: nat)
    ensures (v + 256 * x) / 256 == v / 256 + x && (v + 256 * x) % 256 == v % 256
  {
    DivMod(v, 256);
    DivModUnique(v + 256 * x, 256, v / 256 + x, v % 256);
  }

  lemma BytesOfLow(v: nat, n: nat)
    ensures Pow(256, n) > 0 && BytesOf(v, n) == BytesOf(v % Pow(256, n), n)
  {
    PowPos(256, n);
    DivMod(v, Pow(256, n));
    BytesOfWrap(v % Pow(256, n), v / Pow(256, n), n);
  }

  /** The length in bits as two words. */
  lemma LengthWords(v: nat)
    ensures BytesOf(v, 8) == BytesOf(v % TWO64 / 0x1_0000_0000, 4) + BytesOf(v % TWO64 % 0x1_0000_0000, 4)
  {
    assert Pow(256, 1) == 256 && Pow(256, 2) == 65536;
    PowAdd(256, 2, 2);
    PowAdd(256, 4, 4);
    BytesOfLow(v, 8);
    BytesOfSplit(v % TWO64, 4, 4);
    BytesOfLow(v % TWO64, 4);
  }

  /** The bytes of a word in the order of a little-endian machine. */
  method HostBytes(w: uint32) returns (s: seq<uint8>)
    ensures |s| == 4 && s == Swapped(BytesOf(w, 4))
  {
    s := [w % 0x100, w / 0x100 % 0x100, w / 0x10000 % 0x100, w / 0x100_0000 % 0x100];
    FourBytesOf(w);
  }

  lemma LastConverted(swapped: seq<uint8>, high: seq<uint8>, low: seq<uint8>, last: seq<uint8>, after: seq<uint8>)
    requires |swapped| == 56 && |high| == |low| == 4 && |last| == 64 && after == swapped + (high + low)
    requires forall k :: 0 <= k < 14 ==> swapped[4 * k..4 * k + 4] == Swapped(last[4 * k..4 * k + 4])
    requires last[56..] == Swapped(high) + Swapped(low)
    ensures forall k :: 0 <= k < 16 ==> after[4 * k..4 * k + 4] == Swapped(last[4 * k..4 * k + 4])
  {
    forall k | 0 <= k < 16 ensures after[4 * k..4 * k + 4] == Swapped(last[4 * k..4 * k + 4]) {
      if k < 14 {
        assert after[4 * k..4 * k + 4] == swapped[4 * k..4 * k + 4];
      } else if k == 14 {
        assert after[56..60] == high && last[56..60] == last[56..][..4] == Swapped(high);
      } else {
        assert after[60..64] == low && last[60..64] == last[56..][4..] == Swapped(low);
      }
    }
  }

  // ---- messages in pieces --------------------------------------------------------------------------

  function Joined(pieces: seq<seq<uint8>>): seq<uint8> {
    if |pieces| == 0 then [] else Joined(pieces[..|pieces| - 1]) + pieces[|pieces| - 1]
  }

  /** Init, any number of updates, Final: the digest does not depend on how the message was cut. */
  method HashPieces(h: Hash, pieces: seq<seq<uint8>>) returns (digest: seq<uint8>)
    requires ValidHash(h)
    ensures digest == Digest(h, Joined(pieces))
  {
    var context := new Context(h);
    var i := 0;
    while i < |pieces|
      invariant 0 <= i <= |pieces| && context.Valid(h) && context.message == Joined(pieces[..i])
      invariant fresh(context) && fresh(context.buffer)
    {
      context.Update(h, pieces[i]);
      assert pieces[..i + 1][..i] == pieces[..i];
      i := i + 1;
    }
    assert pieces[..i] == pieces;
    digest := context.Final(h);
  }

  /** sha256_Raw */
  method HashRaw(h: Hash, data: seq<uint8>) returns (digest: seq<uint8>)
    requires ValidHash(h)
    ensures digest == Digest(h, data)
  {
    hide HashBlocks, Digest;
    var context := new Context(h);
    context.Update(h, data);
    assert [] + data == data;
    digest := context.Final(h);
  }
}
