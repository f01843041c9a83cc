/** SHA-1: the byte-at-a-time code against FIPS 180-4. */
module Sha1 {
  import opened Bytes

  type Word = bv32

  // --- the standard ---

  /** Addition modulo 2^32 */
  function Plus(x: Word, y: Word): Word {
    x + y
  }

  function RotL(x: Word, n: nat): Word
    requires n < 32
  {
    x.RotateLeft(n)
  }

  function Xor4(a: Word, b: Word, c: Word, d: Word): Word {
    a ^ b ^ c ^ d
  }

  /** Section 4.1.1: the functions of the four groups of twenty rounds. */
  function F(t: nat, x: Word, y: Word, z: Word): Word {
    if t < 20 then Ch(x, y, z)
    else if t < 40 then Parity(x, y, z)
    else if t < 60 then Maj(x, y, z)
    else Parity(x, y, z)
  }

  function Ch(x: Word, y: Word, z: Word): Word {
    (x & y) ^ (!x & z)
  }

  function Parity(x: Word, y: Word, z: Word): Word {
    x ^ y ^ z
  }

  function Maj(x: Word, y: Word, z: Word): Word {
    (x & y) ^ (x & z) ^ (y & z)
  }

  /** Section 4.2.1 */
  function K(t: nat): Word {
    if t < 20 then 0x5A827999 else if t < 40 then 0x6ED9EBA1 else if t < 60 then 0x8F1BBCDC else 0xCA62C1D6
  }

  /** Word `t` of a block, most significant byte first. */
  function WordAt(block: seq<byte>, t: nat): Word
    requires |block| == 64 && t < 16
  {
    (block[4 * t] as Word << 24) | (block[4 * t + 1] as Word << 16) | (block[4 * t + 2] as Word << 8)
      | block[4 * t + 3] as Word
  }

  /** Section 6.1.2, step 1: the message schedule. */
  function W(block: seq<byte>, t: nat): Word
    requires |block| == 64
  {
    if t < 16 then WordAt(block, t)
    else RotL(Xor4(W(block, t - 3), W(block, t - 8), W(block, t - 14), W(block, t - 16)), 1)
  }

  datatype State = State(a: Word, b: Word, c: Word, d: Word, e: Word)

  function Round(s: State, t: nat, w: Word): State {
    var temp := Plus(Plus(Plus(Plus(RotL(s.a, 5), F(t, s.b, s.c, s.d)), s.e), K(t)), w);
    State(temp, s.a, RotL(s.b, 30), s.c, s.d)
  }

  /** Steps 2 and 3: the working variables after `t` rounds. */
  function Rounds(s: State, block: seq<byte>, t: nat): State
    requires |block| == 64
  {
    if t == 0 then s else Round(Rounds(s, block, t - 1), t - 1, W(block, t - 1))
  }

  /** Step 4 */
  function Compress(h: State, block: seq<byte>): State
    requires |block| == 64
  {
    var s := Rounds(h, block, 80);
    State(Plus(h.a, s.a), Plus(h.b, s.b), Plus(h.c, s.c), Plus(h.d, s.d), Plus(h.e, s.e))
  }

  /** Section 5.3.1 */
  const H0 := State(0x67452301, 0xEFCDAB89, 0x98BADCFE, 0x10325476, 0xC3D2E1F0)

  /** Compression folded over the 64-byte blocks of `data`. */
  function HashBlocks(data: seq<byte>): State
    requires |data| % 64 == 0
  {
    if data == [] then H0 else Compress(HashBlocks(data[..|data| - 64]), data[|data| - 64..])
  }

  function Zeros(n: nat): (z: seq<byte>)
    ensures |z| == n
  {
    seq(n, i => 0)
  }

  /** Section 5.1.1: the least number of zero bytes after the 0x80. */
  function ZeroCount(n: nat): nat {
    if n % 64 <= 55 then 55 - n % 64 else 119 - n % 64
  }

  /** Section 5.1.1: 0x80, zeros up to 8 bytes short of a block, the length in bits. */
  function Pad(msg: seq<byte>): (p: seq<byte>)
    ensures |p| % 64 == 0
  {
    PaddedLength(|msg|);
    msg + [0x80] + Zeros(ZeroCount(|msg|)) + ToBE(8 * |msg|, 8)
  }

  lemma PaddedLength(n: nat)
    ensures (n + 1 + ZeroCount(n) + 8) % 64 == 0
  {
  }

  function Digest(h: State): seq<byte> {
    WordBytes(h.a) + WordBytes(h.b) + WordBytes(h.c) + WordBytes(h.d) + WordBytes(h.e)
  }

  function WordBytes(w: Word): (s: seq<byte>)
    ensures |s| == 4
  {
    [Low(w >> 24), Low(w >> 16), Low(w >> 8), Low(w)]
  }

  function Low(w: Word): byte {
    (w & 0xFF) as int
  }

  function Hash(msg: seq<byte>): seq<byte> {
    Digest(HashBlocks(Pad(msg)))
  }

  /** The four bytes of a word, read as part of a block, are the word again. */
  lemma WordBytesBack(w: Word, rest: seq<byte>)
    requires |rest| == 60
    ensures WordAt(WordBytes(w) + rest, 0) == w
  {
    hide Low;
    var b := WordBytes(w) + rest;
    assert b[0] == Low(w >> 24) && b[1] == Low(w >> 16) && b[2] == Low(w >> 8) && b[3] == Low(w);
    LowBack(w);
    LowBack(w >> 8);
    LowBack(w >> 16);
    LowBack(w >> 24);
    Joined(w);
  }

  lemma Back(w: Word)
    ensures (w as int) as Word == w
  {
  }

  lemma LowBack(w: Word)
    ensures Low(w) as Word == w & 0xFF
  {
    Back(w & 0xFF);
  }

  lemma Joined(w: Word)
    ensures (((w >> 24) & 0xFF) << 24) | (((w >> 16) & 0xFF) << 16) | (((w >> 8) & 0xFF) << 8) | (w & 0xFF) == w
  {
  }

  /** The initial state, each word from its low byte on, counts the sixteen digits up and down, and then on in
      pairs. */
  lemma InitialDigits()
    ensures Backwards(H0.a) == [0x01, 0x23, 0x45, 0x67] && Backwards(H0.b) == [0x89, 0xAB, 0xCD, 0xEF]
    ensures Backwards(H0.c) == [0xFE, 0xDC, 0xBA, 0x98] && Backwards(H0.d) == [0x76, 0x54, 0x32, 0x10]
    ensures Backwards(H0.e) == [0xF0, 0xE1, 0xD2, 0xC3]
  {
  }

  function Backwards(w: Word): seq<byte> {
    [WordBytes(w)[3], WordBytes(w)[2], WordBytes(w)[1], WordBytes(w)[0]]
  }

  /** The constants of the four groups of rounds are the integer parts of 2^30 times the square roots of 2, 3, 5
      and 10. */
  lemma RoundConstants(t: nat)
    requires t < 80
    ensures var n := if t < 20 then 2 else if t < 40 then 3 else if t < 60 then 5 else 10;
      var k := K(t) as int; k * k <= n * 0x1000_0000_0000_0000 < (k + 1) * (k + 1)
  {
  }

  // --- the code's forms of the round functions ---

  function LeftRotate(v: Word, bits: nat): Word
    requires bits <= 32
  {
    (v << bits) | (v >> (32 - bits))
  }

  lemma RotateIs(v: Word)
    ensures LeftRotate(v, 1) == RotL(v, 1)
    ensures LeftRotate(v, 5) == RotL(v, 5)
    ensures LeftRotate(v, 30) == RotL(v, 30)
  {
  }

  function Choose(x: Word, y: Word, z: Word): (f: Word)
    ensures f == (x & y) ^ (!x & z)
  {
    (x & y) | (!x & z)
  }

  function Majority(x: Word, y: Word, z: Word): (f: Word)
    ensures f == (x & y) ^ (x & z) ^ (y & z)
  {
    (x & y) | (x & z) | (y & z)
  }

  lemma ChooseIs(x: Word, y: Word, z: Word)
    ensures Choose(x, y, z) == Ch(x, y, z)
  {
  }

  lemma MajorityIs(x: Word, y: Word, z: Word)
    ensures Majority(x, y, z) == Maj(x, y, z)
  {
  }

  /** The zeros are the fewest that leave eight bytes of the last block for the length. */
  lemma ZeroCountIsLeast(n: nat, k: nat)
    requires (n + 1 + k) % 64 == 56
    ensures (n + 1 + ZeroCount(n)) % 64 == 56 && ZeroCount(n) <= k
  {
  }

  // --- the context ---

  class Sha1Ctx {
    var state: State
    var bitlen: uint64
    const data: array<byte>
    var datalen: nat
    /** The bytes hashed so far. */
    ghost var message: seq<byte>

    ghost predicate Valid()
      reads this, data
    {
      data.Length == 64 && datalen < 64 && Hashed(message, data[..datalen], state, bitlen)
    }

    /** sha1_init */
    constructor ()
      ensures Valid() && fresh(data) && message == []
    {
      hide Hashed;
      HashedNothing();
      state, bitlen, datalen, message := H0, 0, 0, [];
      data := new byte[64];
      new;
      assert data[..0] == [];
    }

    /** The first loops of sha1_transform: the message schedule. */
    method Schedule() returns (w: array<Word>)
      requires data.Length == 64
      ensures fresh(w) && w.Length == 80 && forall t | 0 <= t < 80 :: w[t] == W(data[..], t)
    {
      hide WordAt, RotL, LeftRotate, Xor4;
      w := new Word[80];
      var i := 0;
      while i < 16
        invariant i <= 16 && forall t | 0 <= t < i :: w[t] == W(data[..], t)
        invariant data[..] == old(data[..])
      {
        w[i] := Load(i);
        i := i + 1;
      }
      while i < 80
        invariant 16 <= i <= 80 && forall t | 0 <= t < i :: w[t] == W(data[..], t)
        invariant data[..] == old(data[..])
      {
        var x := Xor4(w[i - 3], w[i - 8], w[i - 14], w[i - 16]);
        RotateIs(x);
        w[i] := LeftRotate(x, 1);
        i := i + 1;
      }
    }

    method Load(i: nat) returns (w: Word)
      requires data.Length == 64 && i < 16
      ensures w == WordAt(data[..], i)
    {
      w := (data[i * 4] as Word << 24) | (data[i * 4 + 1] as Word << 16) | (data[i * 4 + 2] as Word << 8)
           | data[i * 4 + 3] as Word;
    }

    /** sha1_transform on the context's own buffer */
    method Transform()
      requires data.Length == 64
      modifies `state
      ensures state == Compress(old(state), data[..])
    {
      hide Rounds, Round, W, Plus;
      var w := Schedule();
      var s := state;
      var i := 0;
      RoundsStart(state, data[..]);
      while i < 80
        invariant i <= 80 && s == Rounds(state, data[..], i)
        invariant state == old(state)
        invariant forall t | 0 <= t < 80 :: w[t] == W(data[..], t)
      {
        RoundsNext(state, data[..], i);
        s := OneRound(s, i, w[i]);
        i := i + 1;
      }
      state := State(Plus(state.a, s.a), Plus(state.b, s.b), Plus(state.c, s.c), Plus(state.d, s.d),
                     Plus(state.e, s.e));
    }

    /** The byte-at-a-time step that sha1_update and sha1_final share. */
    method Absorb(b: byte)
      requires data.Length == 64 && datalen < 64
      modifies data, `datalen
      ensures datalen == old(datalen) + 1
      ensures data[..datalen] == old(data[..datalen]) + [b]
    {
      data[datalen] := b;
      datalen := datalen + 1;
    }

    /** sha1_update; updates compose: the message is what all of them were given. */
    method Update(bytes: seq<byte>)
      requires Valid()
      modifies this, data
      ensures Valid() && message == old(message) + bytes
    {
      hide Valid;
      var i := 0;
      while i < |bytes|
        invariant i <= |bytes|
        invariant Valid() && message == old(message) + bytes[..i]
      {
        UpdateOne(bytes[i]);
        assert bytes[..i] + [bytes[i]] == bytes[..i + 1];
        i := i + 1;
      }
      assert bytes[..i] == bytes;
    }

    method UpdateOne(b: byte)
      requires Valid()
      modifies this, data
      ensures Valid() && message == old(message) + [b]
    {
      hide Compress, Hashed;
      ghost var tail := data[..datalen];
      Absorb(b);
      if datalen == 64 {
        assert data[..] == tail + [b];
        HashedBlock(message, tail, state, bitlen, b);
        Transform();
        bitlen := (bitlen + 512) % TWO64;
        datalen := 0;
        assert data[..0] == [];
      } else {
        HashedByte(message, tail, state, bitlen, b);
      }
      message := message + [b];
    }

    /** Zero bytes up to position `n` of the buffer. */
    method PadZeros(n: nat)
      requires data.Length == 64 && datalen <= n <= 64
      modifies data, `datalen
      ensures datalen == n && data[..n] == old(data[..datalen]) + Zeros(n - old(datalen))
    {
      while datalen < n
        invariant old(datalen) <= datalen <= n
        invariant data[..datalen] == old(data[..datalen]) + Zeros(datalen - old(datalen))
      {
        Absorb(0x00);
      }
    }

    /** The bit length as eight bytes, most significant first. */
    method PutLength()
      requires data.Length == 64 && datalen == 56
      modifies data, `datalen
      ensures data[..] == old(data[..56]) + ToBE(bitlen, 8)
    {
      var i := 8;
      while i > 0
        invariant 0 <= i <= 8 && datalen == 64 - i
        invariant data[..datalen] == old(data[..56]) + ToBE(bitlen, 8)[..8 - i]
      {
        i := i - 1;
        ToBEAt(bitlen, 8, 7 - i);
        Absorb(ByteOf(bitlen, i));
      }
      assert data[..datalen] == data[..] && ToBE(bitlen, 8)[..8] == ToBE(bitlen, 8);
    }

    /** The part of sha1_final that leaves the buffer filled up to the place of the length; a tail without that
        place takes a block of its own. */
    method PadTail()
      requires data.Length == 64 && datalen < 64
      modifies `state, data, `datalen
      ensures datalen == 56
      ensures var tail := old(data[..datalen]);
        if |tail| < 56 then state == old(state) && data[..56] == tail + [0x80] + Zeros(56 - (|tail| + 1))
        else state == Compress(old(state), tail + [0x80] + Zeros(64 - (|tail| + 1))) && data[..56] == [] + Zeros(56)
    {
      hide Compress, Zeros;
      Absorb(0x80);
      if datalen > 56 {
        PadZeros(64);
        assert data[..64] == data[..];
        Transform();
        datalen := 0;
        assert data[..0] == [];
      }
      PadZeros(56);
    }

    /** sha1_final: the digest of the padded message. */
    method Final() returns (hash: seq<byte>)
      requires Valid() && |message| < 0x2000_0000_0000_0000
      modifies this, data
      ensures hash == Hash(old(message))
    {
      hide Compress, HashBlocks, Pad, Zeros, WordBytes, Hashed, ToBE;
      ghost var tail := data[..datalen];
      BitLength(message, tail, state, bitlen);
      bitlen := (bitlen + datalen * 8) % TWO64;
      PadTail();
      ghost var head := data[..56];
      PutLength();
      PaddedTail(message, tail, old(state), old(bitlen), state, head, data[..]);
      Transform();
      hash := Digest(state);
    }
  }

  /** sha1_compute */
  method Sha1Compute(bytes: seq<byte>) returns (hash: seq<byte>)
    requires |bytes| < 0x2000_0000_0000_0000
    ensures hash == Hash(bytes)
  {
    var ctx := new Sha1Ctx();
    ctx.Update(bytes);
    assert [] + bytes == bytes;
    hash := ctx.Final();
  }

  lemma BitLength(message: seq<byte>, tail: seq<byte>, state: State, bitlen: uint64)
    requires Hashed(message, tail, state, bitlen) && |message| < 0x2000_0000_0000_0000
    ensures (bitlen + |tail| * 8) % TWO64 == 8 * |message|
  {
    hide HashBlocks;
    SmallBits(|message| - |tail|, |tail|);
  }

  lemma SmallBits(m: nat, n: nat)
    requires m + n < 0x2000_0000_0000_0000
    ensures (8 * m % TWO64 + n * 8) % TWO64 == 8 * (m + n)
  {
    assert 8 * m % TWO64 == 8 * m;
  }

  lemma Regroup(a: seq<byte>, t: seq<byte>, x: seq<byte>, y: seq<byte>, z: seq<byte>)
    ensures a + t + x + y + z == a + (t + x + y + z)
  {
  }

  lemma ZeroCountOf(message: seq<byte>, tail: seq<byte>, state: State, bitlen: uint64)
    requires Hashed(message, tail, state, bitlen) && |tail| < 64
    ensures ZeroCount(|message|) == if |tail| <= 55 then 55 - |tail| else 119 - |tail|
    ensures var full := message[..|message| - |tail|];
      |full| % 64 == 0 && message == full + tail && state == HashBlocks(full)
  {
    hide HashBlocks;
    WholeBlocks(|message| - |tail|, |tail|);
  }

  lemma WholeBlocks(m: nat, n: nat)
    requires m % 64 == 0 && n < 64
    ensures (m + n) % 64 == n
  {
  }

  /** A tail with room for the length in its block: one more block. */
  lemma ShortTail(message: seq<byte>, tail: seq<byte>, state: State, bitlen: uint64, block: seq<byte>)
    requires Hashed(message, tail, state, bitlen) && |tail| + 1 <= 56
    requires block == tail + [0x80] + Zeros(56 - (|tail| + 1)) + ToBE(8 * |message|, 8)
    ensures HashBlocks(Pad(message)) == Compress(state, block)
  {
    hide HashBlocks, Compress, Hashed, Zeros, ToBE, ZeroCount;
    ZeroCountOf(message, tail, state, bitlen);
    var full := message[..|message| - |tail|];
    Regroup(full, tail, [0x80], Zeros(55 - |tail|), ToBE(8 * |message|, 8));
    BlockAdded(full, block);
  }

  /** The last block, behind the tail with its padding. */
  lemma PaddedTail(message: seq<byte>, tail: seq<byte>, state: State, bitlen: uint64, after: State, head: seq<byte>,
                   block: seq<byte>)
    requires Hashed(message, tail, state, bitlen) && |tail| < 64
    requires if |tail| < 56 then after == state && head == tail + [0x80] + Zeros(56 - (|tail| + 1))
             else after == Compress(state, tail + [0x80] + Zeros(64 - (|tail| + 1))) && head == [] + Zeros(56)
    requires |block| == 64 && block == head + ToBE(8 * |message|, 8)
    ensures HashBlocks(Pad(message)) == Compress(after, block)
  {
    hide HashBlocks, Compress, Hashed, Zeros, ToBE, Pad;
    if |tail| < 56 {
      ShortTail(message, tail, state, bitlen, block);
    } else {
      LongTail(message, tail, state, bitlen, tail + [0x80] + Zeros(64 - (|tail| + 1)), block);
    }
  }

  lemma ZerosSplit(m: nat, n: nat)
    ensures Zeros(m + n) == Zeros(m) + Zeros(n)
  {
  }

  /** A longer tail: two more blocks, the length in the second. */
  lemma LongTail(message: seq<byte>, tail: seq<byte>, state: State, bitlen: uint64, first: seq<byte>, second: seq<byte>)
    requires Hashed(message, tail, state, bitlen) && 56 < |tail| + 1 <= 64
    requires first == tail + [0x80] + Zeros(64 - (|tail| + 1)) && second == [] + Zeros(56) + ToBE(8 * |message|, 8)
    ensures HashBlocks(Pad(message)) == Compress(Compress(state, first), second)
  {
    hide HashBlocks, Compress, Hashed, Zeros, ToBE, Pad;
    ZeroCountOf(message, tail, state, bitlen);
    var full := message[..|message| - |tail|];
    PadLong(message, full, tail, first, second);
    BlockAdded(full, first);
    BlockAdded(full + first, second);
  }

  lemma PadLong(message: seq<byte>, full: seq<byte>, tail: seq<byte>, first: seq<byte>, second: seq<byte>)
    requires message == full + tail && 56 <= |tail| < 64 && ZeroCount(|message|) == 119 - |tail|
    requires first == tail + [0x80] + Zeros(64 - (|tail| + 1)) && second == [] + Zeros(56) + ToBE(8 * |message|, 8)
    ensures Pad(message) == full + first + second
  {
    hide Zeros, ToBE, ZeroCount;
    ZerosSplit(63 - |tail|, 56);
    TwoBlocks(full, tail, [0x80], Zeros(63 - |tail|), Zeros(56), ToBE(8 * |message|, 8));
  }

  lemma TwoBlocks(a: seq<byte>, t: seq<byte>, x: seq<byte>, y: seq<byte>, z: seq<byte>, l: seq<byte>)
    ensures a + t + x + (y + z) + l == a + (t + x + y) + ([] + z + l)
  {
  }

  /** The state and bit length stand for all of the message but its `tail`, which fills no block. */
  ghost predicate Hashed(message: seq<byte>, tail: seq<byte>, state: State, bitlen: uint64) {
    && |tail| <= |message| && (|message| - |tail|) % 64 == 0
    && message == message[..|message| - |tail|] + tail
    && state == HashBlocks(message[..|message| - |tail|])
    && bitlen == 8 * (|message| - |tail|) % TWO64
  }

  lemma HashedNothing()
    ensures Hashed([], [], H0, 0)
  {
  }

  lemma HashedByte(message: seq<byte>, tail: seq<byte>, state: State, bitlen: uint64, b: byte)
    requires Hashed(message, tail, state, bitlen)
    ensures Hashed(message + [b], tail + [b], state, bitlen)
  {
    var full := |message| - |tail|;
    assert (message + [b])[..full] == message[..full];
    assert message + [b] == message[..full] + (tail + [b]);
  }

  lemma HashedBlock(message: seq<byte>, tail: seq<byte>, state: State, bitlen: uint64, b: byte)
    requires Hashed(message, tail, state, bitlen) && |tail| == 63
    ensures Hashed(message + [b], [], Compress(state, tail + [b]), (bitlen + 512) % TWO64)
  {
    hide HashBlocks, Compress, Hashed;
    HashedParts(message, tail, state, bitlen);
    var full := |message| - |tail|;
    var first := message[..full];
    BlockFills(message, first, tail, b);
    BlockAdded(first, tail + [b]);
    BitlenNext(full);
    HashedWhole(message + [b], Compress(state, tail + [b]), (bitlen + 512) % TWO64);
  }

  lemma BlockFills(message: seq<byte>, first: seq<byte>, tail: seq<byte>, b: byte)
    requires message == first + tail && |first| % 64 == 0 && |tail| == 63
    ensures message + [b] == first + (tail + [b]) && |message + [b]| % 64 == 0
    ensures |message + [b]| == |first| + 64
  {
  }

  lemma HashedParts(message: seq<byte>, tail: seq<byte>, state: State, bitlen: uint64)
    requires Hashed(message, tail, state, bitlen)
    ensures var n := |message| - |tail|;
      n >= 0 && n % 64 == 0 && message == message[..n] + tail && state == HashBlocks(message[..n])
      && bitlen == 8 * n % TWO64
  {
    hide HashBlocks;
  }

  lemma HashedWhole(message: seq<byte>, state: State, bitlen: uint64)
    requires |message| % 64 == 0 && state == HashBlocks(message) && bitlen == 8 * |message| % TWO64
    ensures Hashed(message, [], state, bitlen)
  {
    hide HashBlocks;
    assert message[..|message|] == message;
  }

  lemma BitlenNext(n: nat)
    ensures (8 * n % TWO64 + 512) % TWO64 == 8 * (n + 64) % TWO64
  {
  }

  // --- lemmas about the rounds ---

  lemma RoundsStart(s: State, block: seq<byte>)
    requires |block| == 64
    ensures Rounds(s, block, 0) == s
  {
  }

  lemma RoundsNext(s: State, block: seq<byte>, t: nat)
    requires |block| == 64
    ensures Rounds(s, block, t + 1) == Round(Rounds(s, block, t), t, W(block, t))
  {
  }

  /** f and k of one turn of the round loop. */
  method RoundTerms(i: nat, b: Word, c: Word, d: Word) returns (f: Word, k: Word)
    requires i < 80
    ensures f == F(i, b, c, d) && k == K(i)
  {
    hide Choose, Majority, Ch, Maj, Parity;
    if i < 20 {
      f := Choose(b, c, d);
      k := 0x5A827999;
      ChooseIs(b, c, d);
    } else if i < 40 {
      f := Parity(b, c, d);
      k := 0x6ED9EBA1;
    } else if i < 60 {
      f := Majority(b, c, d);
      k := 0x8F1BBCDC;
      MajorityIs(b, c, d);
    } else {
      f := Parity(b, c, d);
      k := 0xCA62C1D6;
    }
  }

  /** One turn of the round loop. */
  method OneRound(s: State, i: nat, w: Word) returns (r: State)
    requires i < 80
    ensures r == Round(s, i, w)
  {
    hide LeftRotate, RotL, Plus, F, K;
    var f, k := RoundTerms(i, s.b, s.c, s.d);
    RotateIs(s.a);
    RotateIs(s.b);
    var temp := Plus(Plus(Plus(Plus(LeftRotate(s.a, 5), f), s.e), k), w);
    r := State(temp, s.a, LeftRotate(s.b, 30), s.c, s.d);
  }

  lemma BlockAdded(data: seq<byte>, block: seq<byte>)
    requires |data| % 64 == 0 && |block| == 64
    ensures HashBlocks(data + block) == Compress(HashBlocks(data), block)
  {
  }
}
