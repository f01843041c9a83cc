/** BF_set_key: the expansion of a password into 18 words, with the sign extension
    bug of older revisions and the safety measure against it. */
module KeySchedule {
  type Word = bv32

  /** A C string without its terminator. */
  type Password = s: seq<bv8> | forall i :: 0 <= i < |s| ==> s[i] != 0

  const WORDS := 18  // BF_N + 2

  // --- what the words are ---

  /** Byte `n` of the endless repetition of the password and its NUL. */
  function Cyclic(key: Password, n: nat): bv8 {
    var k := n % (|key| + 1);
    if k < |key| then key[k] else 0
  }

  function Wide(b: bv8): Word {
    b as Word
  }

  predicate High(b: bv8) {
    b & 0x80 != 0
  }

  /** A `signed char` widened to 32 bits. */
  function Signed(b: bv8): Word {
    if High(b) then Wide(b) | 0xFFFF_FF00 else Wide(b)
  }

  /** `tmp <<= 8; tmp |= w` */
  function Append(tmp: Word, w: Word): Word {
    (tmp << 8) | w
  }

  function Join(a: Word, b: Word, c: Word, d: Word): Word {
    (a << 24) | (b << 16) | (c << 8) | d
  }

  /** Four shifted words ORed together are what four appends build up. */
  lemma JoinAppends(a: Word, b: Word, c: Word, d: Word)
    ensures Join(a, b, c, d) == Append(Append(Append(Append(0, a), b), c), d)
  {
  }

  /** The big-endian word of four bytes. */
  function BigEndian(a: bv8, b: bv8, c: bv8, d: bv8): Word {
    Join(Wide(a), Wide(b), Wide(c), Wide(d))
  }

  /** The same with each byte sign-extended before it is ORed in. */
  function SignExtended(a: bv8, b: bv8, c: bv8, d: bv8): Word {
    Join(Signed(a), Signed(b), Signed(c), Signed(d))
  }

  function Correct(key: Password, i: nat): Word {
    BigEndian(Cyclic(key, 4 * i), Cyclic(key, 4 * i + 1), Cyclic(key, 4 * i + 2), Cyclic(key, 4 * i + 3))
  }

  function Buggy(key: Password, i: nat): Word {
    SignExtended(Cyclic(key, 4 * i), Cyclic(key, 4 * i + 1), Cyclic(key, 4 * i + 2), Cyclic(key, 4 * i + 3))
  }

  /** A byte with its high bit set that is not the first of its block of four. */
  predicate HighAt(key: Password, n: nat) {
    n % 4 != 0 && High(Cyclic(key, n))
  }

  ghost predicate SignSeen(key: Password, n: nat) {
    exists k :: 0 <= k < n && HighAt(key, k)
  }

  ghost predicate Agree(key: Password, blocks: nat) {
    forall i :: 0 <= i < blocks ==> Correct(key, i) == Buggy(key, i)
  }

  predicate BugFlag(flags: Word) {
    flags & 1 != 0
  }

  predicate SafetyFlag(flags: Word) {
    flags & 2 != 0
  }

  /** When the safety measure departs from the correct algorithm. */
  ghost predicate Deviates(key: Password, flags: Word) {
    SafetyFlag(flags) && Agree(key, WORDS) && SignSeen(key, 4 * WORDS)
  }

  function Xor(a: Word, b: Word): Word {
    a ^ b
  }

  ghost function Expanded(key: Password, flags: Word, i: nat): Word {
    if BugFlag(flags) then Buggy(key, i) else Correct(key, i)
  }

  ghost function Initial(key: Password, flags: Word, p: seq<Word>, i: nat): Word
    requires i < |p|
  {
    var w := Xor(p[i], Expanded(key, flags, i));
    if i == 0 && Deviates(key, flags) then Xor(w, 0x1_0000) else w
  }

  // --- the code ---

  /** `tmp` after `j` bytes from position `from` on. */
  function Packed(key: Password, from: nat, j: nat): Word {
    if j == 0 then 0 else Append(Packed(key, from, j - 1), Wide(Cyclic(key, from + j - 1)))
  }

  function PackedSigned(key: Password, from: nat, j: nat): Word {
    if j == 0 then 0 else Append(PackedSigned(key, from, j - 1), Signed(Cyclic(key, from + j - 1)))
  }

  lemma PackedFour(key: Password, i: nat)
    ensures Packed(key, 4 * i, 4) == Correct(key, i)
    ensures PackedSigned(key, 4 * i, 4) == Buggy(key, i)
  {
    hide Cyclic, Append, Wide, Signed, Join;
    var n := 4 * i;
    var b0, b1, b2, b3 := Cyclic(key, n), Cyclic(key, n + 1), Cyclic(key, n + 2), Cyclic(key, n + 3);
    JoinAppends(Wide(b0), Wide(b1), Wide(b2), Wide(b3));
    JoinAppends(Signed(b0), Signed(b1), Signed(b2), Signed(b3));
    assert Packed(key, n, 1) == Append(0, Wide(Cyclic(key, n)));
    assert Packed(key, n, 2) == Append(Packed(key, n, 1), Wide(Cyclic(key, n + 1)));
    assert PackedSigned(key, n, 1) == Append(0, Signed(Cyclic(key, n)));
    assert PackedSigned(key, n, 2) == Append(PackedSigned(key, n, 1), Signed(Cyclic(key, n + 1)));
  }

  function SignWord(seen: bool): Word {
    if seen then 0x80 else 0
  }

  /** `sign |= tmp[1] & 0x80` */
  function SignOf(sign: Word, tmp: Word): Word {
    sign | (tmp & 0x80)
  }

  lemma LowByteSign(seen: bool, tmp: Word, b: bv8)
    ensures SignOf(SignWord(seen), Append(tmp, Signed(b))) == SignWord(seen || High(b))
  {
  }

  lemma SignNext(key: Password, n: nat)
    ensures SignSeen(key, n + 1) <==> SignSeen(key, n) || HighAt(key, n)
  {
  }

  /** The end of the string sends the pointer back to its start. */
  lemma PointerNext(n: nat, m: nat)
    requires m > 0
    ensures (n + 1) % m == if n % m == m - 1 then 0 else n % m + 1
  {
    var d := if n % m == m - 1 then 0 else n % m + 1;
    var q := n / m + if n % m == m - 1 then 1 else 0;
    assert q * m + d == n + 1 by {
      assert n == n / m * m + n % m;
      assert (n / m + 1) * m == n / m * m + m;
    }
    Remainder(n + 1, q, d, m);
  }

  lemma Remainder(n: nat, q: nat, r: nat, m: nat)
    requires r < m && n == q * m + r
    ensures n % m == r
  {
    var d := q - n / m;
    assert d * m == n % m - r;
    MultipleBound(d, m);
  }

  lemma MultipleBound(d: int, m: int)
    requires m > 0
    ensures d > 0 ==> d * m >= m
    ensures d < 0 ==> d * m <= -m
  {
  }

  /** The inner loop: four bytes into `tmp[0]` and `tmp[1]`, from position `p` of the password on. */
  method ReadBlock(key: Password, p: nat, sign: Word, ghost i: nat)
    returns (tmp0: Word, tmp1: Word, ptr: nat, seen: Word)
    requires p == 4 * i % (|key| + 1)
    requires sign == SignWord(SignSeen(key, 4 * i))
    ensures tmp0 == Correct(key, i) && tmp1 == Buggy(key, i)
    ensures ptr == 4 * (i + 1) % (|key| + 1)
    ensures seen == SignWord(SignSeen(key, 4 * (i + 1)))
  {
    hide Correct, Buggy, High, Append, Wide, Signed, SignWord, SignOf, SignSeen;
    tmp0, tmp1, ptr, seen := 0, 0, p, sign;
    for j := 0 to 4
      invariant tmp0 == Packed(key, 4 * i, j) && tmp1 == PackedSigned(key, 4 * i, j)
      invariant ptr == (4 * i + j) % (|key| + 1)
      invariant seen == SignWord(SignSeen(key, 4 * i + j))
    {
      ghost var n := 4 * i + j;
      var c := if ptr < |key| then key[ptr] else 0;
      assert c == Cyclic(key, n);
      PointerNext(n, |key| + 1);
      LowByteSign(SignSeen(key, n), tmp1, c);
      SignNext(key, n);
      assert n % 4 == j;
      tmp0 := Append(tmp0, Wide(c));
      tmp1 := Append(tmp1, Signed(c));
      if j != 0 {
        seen := SignOf(seen, tmp1);
      }
      ptr := if c == 0 then 0 else ptr + 1;
    }
    PackedFour(key, i);
  }

  /** `diff |= tmp[0] ^ tmp[1]` */
  function DiffOf(diff: Word, a: Word, b: Word): Word {
    diff | Xor(a, b)
  }

  lemma XorUndone(a: Word, b: Word)
    ensures Xor(Xor(a, b), b) == a
  {
  }

  lemma XorNothing(w: Word)
    ensures Xor(w, 0) == w == Xor(0, w)
  {
  }

  lemma XorZero(a: Word, b: Word)
    ensures Xor(a, b) == 0 <==> a == b
  {
    hide Xor;
    XorUndone(a, b);
    XorNothing(b);
    XorSelf(b);
  }

  lemma XorSelf(a: Word)
    ensures Xor(a, a) == 0
  {
  }

  lemma DiffZero(diff: Word, a: Word, b: Word)
    ensures DiffOf(diff, a, b) == 0 <==> diff == 0 && a == b
  {
    hide Xor;
    XorZero(a, b);
  }

  /** The bit arithmetic after the loop: bit 16 of the result iff sign seen, no difference, safety asked for. */
  function SafetyBit(diff: Word, sign: Word, flags: Word): Word {
    var safety := (flags & 2) << 15;
    var d := (((diff | (diff >> 16)) & 0xFFFF) + 0xFFFF);
    (sign << 9) & (!d & safety)
  }

  lemma SafetyBitIs(diff: Word, seen: bool, flags: Word)
    ensures SafetyBit(diff, SignWord(seen), flags) == if diff == 0 && seen && SafetyFlag(flags) then 0x1_0000 else 0
  {
  }

  method SetKey(key: Password, p: seq<Word>, flags: Word, expanded: array<Word>, initial: array<Word>)
    requires |p| == WORDS == expanded.Length == initial.Length && expanded != initial
    modifies expanded, initial
    ensures forall i :: 0 <= i < WORDS ==> expanded[i] == Expanded(key, flags, i)
    ensures forall i :: 0 <= i < WORDS ==> initial[i] == Initial(key, flags, p, i)
  {
    hide Correct, Buggy, Xor, SignSeen, SignWord, SafetyBit, SafetyFlag, BugFlag, DiffOf;
    var ptr, sign, diff := 0, SignWord(false), 0;
    assert !SignSeen(key, 0) by { NothingSeen(key); }
    for i := 0 to WORDS
      invariant ptr == 4 * i % (|key| + 1)
      invariant sign == SignWord(SignSeen(key, 4 * i))
      invariant diff == 0 <==> Agree(key, i)
      invariant forall k :: 0 <= k < i ==> expanded[k] == Expanded(key, flags, k)
      invariant forall k :: 0 <= k < i ==> initial[k] == Xor(p[k], Expanded(key, flags, k))
    {
      var tmp0, tmp1;
      tmp0, tmp1, ptr, sign := ReadBlock(key, ptr, sign, i);
      DiffZero(diff, tmp0, tmp1);
      diff := DiffOf(diff, tmp0, tmp1);
      expanded[i] := if BugFlag(flags) then tmp1 else tmp0;
      initial[i] := Xor(p[i], expanded[i]);
    }
    SafetyBitIs(diff, SignSeen(key, 4 * WORDS), flags);
    XorNothing(initial[0]);
    initial[0] := Xor(initial[0], SafetyBit(diff, sign, flags));
  }

  lemma NothingSeen(key: Password)
    ensures !SignSeen(key, 0)
  {
  }

  // --- when the two algorithms agree ---

  /** Sign extension changes nothing iff it only overwrites bytes that are all ones already. */
  predicate Harmless(a: bv8, b: bv8, c: bv8, d: bv8) {
    && (High(b) ==> a == 0xFF)
    && (High(c) ==> a == 0xFF && b == 0xFF)
    && (High(d) ==> a == 0xFF && b == 0xFF && c == 0xFF)
  }

  lemma AgreeIffHarmless(a: bv8, b: bv8, c: bv8, d: bv8)
    ensures BigEndian(a, b, c, d) == SignExtended(a, b, c, d) <==> Harmless(a, b, c, d)
  {
    hide BigEndian, SignExtended, High;
    if High(d) {
      HighFourth(a, b, c, d);
      BytesOfWord(a, b, c, d, 0xFF, 0xFF, 0xFF, d);
      AllOnes();
    } else if High(c) {
      HighThird(a, b, c, d);
      BytesOfWord(a, b, c, d, 0xFF, 0xFF, c, d);
      AllOnes();
    } else if High(b) {
      HighSecond(a, b, c, d);
      BytesOfWord(a, b, c, d, 0xFF, b, c, d);
    } else {
      HighFirst(a, b, c, d);
    }
  }

  lemma AllOnes()
    ensures High(0xFF)
  {
  }

  lemma HighFourth(a: bv8, b: bv8, c: bv8, d: bv8)
    requires High(d)
    ensures SignExtended(a, b, c, d) == BigEndian(0xFF, 0xFF, 0xFF, d)
  {
  }

  lemma HighThird(a: bv8, b: bv8, c: bv8, d: bv8)
    requires High(c) && !High(d)
    ensures SignExtended(a, b, c, d) == BigEndian(0xFF, 0xFF, c, d)
  {
  }

  lemma HighSecond(a: bv8, b: bv8, c: bv8, d: bv8)
    requires High(b) && !High(c) && !High(d)
    ensures SignExtended(a, b, c, d) == BigEndian(0xFF, b, c, d)
  {
  }

  lemma HighFirst(a: bv8, b: bv8, c: bv8, d: bv8)
    requires !High(b) && !High(c) && !High(d)
    ensures SignExtended(a, b, c, d) == BigEndian(a, b, c, d)
  {
  }

  lemma BytesOfWord(a: bv8, b: bv8, c: bv8, d: bv8, a': bv8, b': bv8, c': bv8, d': bv8)
    ensures BigEndian(a, b, c, d) == BigEndian(a', b', c', d') <==> a == a' && b == b' && c == c' && d == d'
  {
  }

  predicate HarmlessAt(key: Password, i: nat) {
    Harmless(Cyclic(key, 4 * i), Cyclic(key, 4 * i + 1), Cyclic(key, 4 * i + 2), Cyclic(key, 4 * i + 3))
  }

  /** The safety measure acts iff it is asked for, some byte that is not the first of its block has its
      high bit set, and every such byte has only 0xFF before it in its block. */
  lemma DeviatesIff(key: Password, flags: Word)
    ensures Deviates(key, flags)
       <==> SafetyFlag(flags) && SignSeen(key, 4 * WORDS) && forall i :: 0 <= i < WORDS ==> HarmlessAt(key, i)
  {
    hide SignSeen, Cyclic, Harmless, BigEndian, SignExtended;
    forall i | 0 <= i < WORDS
      ensures Correct(key, i) == Buggy(key, i) <==> HarmlessAt(key, i)
    {
      AgreeIffHarmless(Cyclic(key, 4 * i), Cyclic(key, 4 * i + 1), Cyclic(key, 4 * i + 2), Cyclic(key, 4 * i + 3));
    }
  }

  /** Only passwords with a 0xFF byte are affected. */
  lemma DeviationNeedsFF(key: Password, flags: Word)
    requires Deviates(key, flags)
    ensures exists k :: 0 <= k < |key| && key[k] == 0xFF
  {
    DeviatesIff(key, flags);
    var n :| 0 <= n < 4 * WORDS && HighAt(key, n);
    FirstIsFF(key, n);
    assert Cyclic(key, n / 4 * 4) == 0xFF;
  }

  lemma FirstIsFF(key: Password, n: nat)
    requires HighAt(key, n) && HarmlessAt(key, n / 4)
    ensures Cyclic(key, n / 4 * 4) == 0xFF
  {
    hide Cyclic, High;
    var i := n / 4;
    assert n == 4 * i + 1 || n == 4 * i + 2 || n == 4 * i + 3;
  }

  // --- what the schedules tell apart ---

  /** Do two passwords, each with its flags, start the cipher from the same state? */
  ghost predicate SameSchedule(key: Password, flags: Word, key': Password, flags': Word, p: seq<Word>)
    requires |p| == WORDS
  {
    && (forall i :: 0 <= i < WORDS ==> Expanded(key, flags, i) == Expanded(key', flags', i))
    && (forall i :: 0 <= i < WORDS ==> Initial(key, flags, p, i) == Initial(key', flags', p, i))
  }

  /** No password that the measure leaves alone, under any flags, shares the state of one it acts on. */
  lemma DeviationIsUnique(key: Password, flags: Word, key': Password, flags': Word, p: seq<Word>)
    requires |p| == WORDS
    requires Deviates(key, flags) && !Deviates(key', flags')
    ensures !SameSchedule(key, flags, key', flags', p)
  {
    hide Expanded, Deviates, Xor;
    if SameSchedule(key, flags, key', flags', p) {
      var w := Xor(p[0], Expanded(key, flags, 0));
      assert Initial(key, flags, p, 0) == Xor(w, 0x1_0000) && Initial(key', flags', p, 0) == w;
      BitSixteen(w);
    }
  }

  lemma BitSixteen(w: Word)
    ensures Xor(w, 0x1_0000) != w
  {
  }

  /** Passwords of 7-bit characters get one state under all flags. */
  lemma SevenBitSchedule(key: Password, flags: Word, flags': Word, p: seq<Word>)
    requires |p| == WORDS
    requires forall k :: 0 <= k < |key| ==> !High(key[k])
    ensures SameSchedule(key, flags, key, flags', p)
  {
    hide Xor, SafetyFlag, BugFlag, Correct, Buggy;
    forall i | 0 <= i < WORDS
      ensures Correct(key, i) == Buggy(key, i)
    {
      SevenBitWord(key, i);
    }
    assert !SignSeen(key, 4 * WORDS) by {
      hide *;
      forall n | 0 <= n < 4 * WORDS
        ensures !HighAt(key, n)
      {
        SevenBitAt(key, n);
      }
      NoneSeen(key, 4 * WORDS);
    }
  }

  lemma NoneSeen(key: Password, m: nat)
    requires forall n :: 0 <= n < m ==> !HighAt(key, n)
    ensures !SignSeen(key, m)
  {
  }

  lemma SevenBitAt(key: Password, n: nat)
    requires forall k :: 0 <= k < |key| ==> !High(key[k])
    ensures !High(Cyclic(key, n))
    ensures !HighAt(key, n)
  {
  }

  lemma SevenBitWord(key: Password, i: nat)
    requires forall k :: 0 <= k < |key| ==> !High(key[k])
    ensures Correct(key, i) == Buggy(key, i)
  {
  }

  /** The bytes of a password that the expansion can hold. */
  function Head(key: Password): seq<bv8> {
    if |key| <= 4 * WORDS then key else key[..4 * WORDS]
  }

  /** The correct expansion tells two passwords apart iff they differ in their first 72 bytes. */
  lemma ExpansionDeterminesHead(key: Password, key': Password)
    ensures (forall i :: 0 <= i < WORDS ==> Correct(key, i) == Correct(key', i)) <==> Head(key) == Head(key')
  {
    hide Correct, Cyclic;
    if Head(key) == Head(key') {
      forall i | 0 <= i < WORDS
        ensures Correct(key, i) == Correct(key', i)
      {
        SameHeadSameWord(key, key', i);
      }
    }
    if forall i :: 0 <= i < WORDS ==> Correct(key, i) == Correct(key', i) {
      forall n | 0 <= n < 4 * WORDS
        ensures Cyclic(key, n) == Cyclic(key', n)
      {
        SameWordSameBytes(key, key', n);
      }
      SameCyclicSameHead(key, key');
    }
  }

  lemma SameHeadSameWord(key: Password, key': Password, i: nat)
    requires Head(key) == Head(key') && i < WORDS
    ensures Correct(key, i) == Correct(key', i)
  {
    hide BigEndian;
    if |key| < 4 * WORDS || |key'| < 4 * WORDS {
      assert key == key';
    } else {
      InHead(key, key', 4 * i);
      InHead(key, key', 4 * i + 1);
      InHead(key, key', 4 * i + 2);
      InHead(key, key', 4 * i + 3);
    }
  }

  lemma InHead(key: Password, key': Password, n: nat)
    requires Head(key) == Head(key') && |key| >= 4 * WORDS && |key'| >= 4 * WORDS && n < 4 * WORDS
    ensures Cyclic(key, n) == Cyclic(key', n)
  {
    assert Head(key)[n] == key[n] && Head(key')[n] == key'[n];
    Remainder(n, 0, n, |key| + 1);
    Remainder(n, 0, n, |key'| + 1);
  }

  lemma SameWordSameBytes(key: Password, key': Password, n: nat)
    requires Correct(key, n / 4) == Correct(key', n / 4)
    ensures Cyclic(key, n) == Cyclic(key', n)
  {
    hide Cyclic, BigEndian;
    var m := 4 * (n / 4);
    BytesOfWord(Cyclic(key, m), Cyclic(key, m + 1), Cyclic(key, m + 2), Cyclic(key, m + 3),
      Cyclic(key', m), Cyclic(key', m + 1), Cyclic(key', m + 2), Cyclic(key', m + 3));
    assert n == m || n == m + 1 || n == m + 2 || n == m + 3;
  }

  lemma SameCyclicSameHead(key: Password, key': Password)
    requires forall n :: 0 <= n < 4 * WORDS ==> Cyclic(key, n) == Cyclic(key', n)
    ensures Head(key) == Head(key')
  {
    hide Cyclic;
    forall n | 0 <= n < 4 * WORDS
      ensures n < |key| <==> n < |key'|
      ensures n < |key| ==> key[n] == key'[n]
    {
      EndOf(key, key', n);
    }
    assert |Head(key)| == |Head(key')| by {
      if |key| < 4 * WORDS {
        EndOf(key, key', |key|);
      }
      if |key'| < 4 * WORDS {
        EndOf(key, key', |key'|);
      }
    }
  }

  lemma {:induction false} EndOf(key: Password, key': Password, n: nat)
    requires forall k :: 0 <= k <= n ==> Cyclic(key, k) == Cyclic(key', k)
    ensures n < |key| <==> n < |key'|
    ensures n < |key| ==> key[n] == key'[n]
  {
    if n > 0 {
      EndOf(key, key', n - 1);
    }
    if n <= |key| {
      Remainder(n, 0, n, |key| + 1);
    }
    if n <= |key'| {
      Remainder(n, 0, n, |key'| + 1);
    }
    assert Cyclic(key, n) == Cyclic(key', n);
  }

  lemma SameHeadSameByte(key: Password, key': Password, n: nat)
    requires Head(key) == Head(key') && n < 4 * WORDS
    ensures Cyclic(key, n) == Cyclic(key', n)
  {
    hide Cyclic;
    if |key| < 4 * WORDS || |key'| < 4 * WORDS {
      assert key == key';
    } else {
      InHead(key, key', n);
    }
  }

  /** Passwords with the same first 72 bytes start the cipher from the same state. */
  lemma SameHeadSameSchedule(key: Password, key': Password, flags: Word, p: seq<Word>)
    requires |p| == WORDS && Head(key) == Head(key')
    ensures SameSchedule(key, flags, key', flags, p)
  {
    hide Cyclic, BigEndian, SignExtended, Xor, BugFlag, SafetyFlag, Head;
    forall n | 0 <= n < 4 * WORDS
      ensures Cyclic(key, n) == Cyclic(key', n)
    {
      SameHeadSameByte(key, key', n);
    }
    forall i | 0 <= i < WORDS
      ensures Correct(key, i) == Correct(key', i) && Buggy(key, i) == Buggy(key', i)
    {
      assert 4 * i + 3 < 4 * WORDS;
    }
    assert SignSeen(key, 4 * WORDS) <==> SignSeen(key', 4 * WORDS) by {
      SameSigns(key, key');
    }
    assert Agree(key, WORDS) <==> Agree(key', WORDS);
  }

  lemma SameSigns(key: Password, key': Password)
    requires forall n :: 0 <= n < 4 * WORDS ==> Cyclic(key, n) == Cyclic(key', n)
    ensures SignSeen(key, 4 * WORDS) <==> SignSeen(key', 4 * WORDS)
  {
    hide Cyclic, High;
    forall n | 0 <= n < 4 * WORDS
      ensures HighAt(key, n) <==> HighAt(key', n)
    {
    }
  }
}
