/** What BF_crypt hands to its cipher: the words byte by byte, the salt and the number of rounds. */
module BlowfishInputs {
  import opened Bytes
  import opened BlowfishCrypt
  import Text = BlowfishText
  import Keys = KeySchedule

  // --- the words ---

  /** The four bytes of a word, most significant first. */
  function Four(w: Keys.Word): (b: seq<bv8>)
    ensures |b| == 4
  {
    [((w >> 24) & 0xFF) as bv8, ((w >> 16) & 0xFF) as bv8, ((w >> 8) & 0xFF) as bv8, (w & 0xFF) as bv8]
  }

  lemma FourJoined(a: bv8, b: bv8, c: bv8, d: bv8)
    ensures Four(Keys.BigEndian(a, b, c, d)) == [a, b, c, d]
  {
  }

  lemma FourDetermine(v: Keys.Word, w: Keys.Word)
    requires Four(v) == Four(w)
    ensures v == w
  {
    assert Four(v)[0] == Four(w)[0] && Four(v)[1] == Four(w)[1] && Four(v)[2] == Four(w)[2] && Four(v)[3] == Four(w)[3];
    FourParts(v);
    FourParts(w);
  }

  lemma FourParts(w: Keys.Word)
    ensures w == Keys.BigEndian(Four(w)[0], Four(w)[1], Four(w)[2], Four(w)[3])
  {
  }

  /** Byte `n` of the password and its NUL, over and over. */
  lemma CyclicRepeats(key: Keys.Password, n: nat)
    ensures n <= |key| ==> Keys.Cyclic(key, n) == (key + [0])[n]
    ensures Keys.Cyclic(key, n + |key| + 1) == Keys.Cyclic(key, n)
  {
    var m := |key| + 1;
    Keys.Remainder(n + m, n / m + 1, n % m, m) by { assert n == n / m * m + n % m; Next(n / m, m); }
    if n <= |key| {
      Keys.Remainder(n, 0, n, m);
    }
  }

  lemma Next(q: nat, m: nat)
    ensures (q + 1) * m == q * m + m
  {
  }

  /** Bytes `4 * i` to `4 * i + 3` of that. */
  function KeyBytes(key: Keys.Password, i: nat): (b: seq<bv8>)
    ensures |b| == 4
  {
    [Keys.Cyclic(key, 4 * i), Keys.Cyclic(key, 4 * i + 1), Keys.Cyclic(key, 4 * i + 2), Keys.Cyclic(key, 4 * i + 3)]
  }

  /** What the sign extension makes of four bytes: all that come before one above 127 are lost. */
  function Smeared(b: seq<bv8>): (r: seq<bv8>)
    requires |b| == 4
    ensures |r| == 4
  {
    [if b[1] >= 128 || b[2] >= 128 || b[3] >= 128 then 0xFF else b[0],
     if b[2] >= 128 || b[3] >= 128 then 0xFF else b[1],
     if b[3] >= 128 then 0xFF else b[2],
     b[3]]
  }

  lemma HighIs(b: bv8)
    ensures Keys.High(b) <==> b >= 128
  {
  }

  lemma CorrectBytes(key: Keys.Password, i: nat)
    ensures Four(Keys.Correct(key, i)) == KeyBytes(key, i)
  {
    hide Keys.Cyclic, Keys.BigEndian, Four;
    var b := KeyBytes(key, i);
    FourJoined(b[0], b[1], b[2], b[3]);
  }

  lemma BuggyBytes(key: Keys.Password, i: nat)
    ensures Four(Keys.Buggy(key, i)) == Smeared(KeyBytes(key, i))
  {
    hide Keys.Cyclic, Keys.SignExtended, Four;
    var b := KeyBytes(key, i);
    SmearedWord(b[0], b[1], b[2], b[3]);
  }

  lemma SmearedWord(a: bv8, b: bv8, c: bv8, d: bv8)
    ensures Four(Keys.SignExtended(a, b, c, d)) == Smeared([a, b, c, d])
  {
    hide Keys.BigEndian, Keys.SignExtended, Keys.High, Four;
    HighIs(b);
    HighIs(c);
    HighIs(d);
    if Keys.High(d) {
      Keys.HighFourth(a, b, c, d);
      FourJoined(0xFF, 0xFF, 0xFF, d);
    } else if Keys.High(c) {
      Keys.HighThird(a, b, c, d);
      FourJoined(0xFF, 0xFF, c, d);
    } else if Keys.High(b) {
      Keys.HighSecond(a, b, c, d);
      FourJoined(0xFF, b, c, d);
    } else {
      Keys.HighFirst(a, b, c, d);
      FourJoined(a, b, c, d);
    }
  }

  /** The passwords that the safety measure is for: some byte that is not the first of its four is above 127,
      and the sign extension changes no byte. */
  ghost predicate Suspicious(key: Keys.Password) {
    && (exists i, j :: 0 <= i < 18 && 0 < j < 4 && KeyBytes(key, i)[j] >= 128)
    && forall i :: 0 <= i < 18 ==> Smeared(KeyBytes(key, i)) == KeyBytes(key, i)
  }

  lemma SuspiciousIff(key: Keys.Password)
    ensures Suspicious(key) <==> Keys.Agree(key, Keys.WORDS) && Keys.SignSeen(key, 4 * Keys.WORDS)
  {
    hide Keys.Cyclic, Keys.Correct, Keys.Buggy, Smeared, Four, Keys.HighAt;
    forall i | 0 <= i < 18
      ensures Keys.Correct(key, i) == Keys.Buggy(key, i) <==> Smeared(KeyBytes(key, i)) == KeyBytes(key, i)
    {
      SameWordIff(key, i);
    }
    SeenIff(key);
  }

  lemma SameWordIff(key: Keys.Password, i: nat)
    ensures Keys.Correct(key, i) == Keys.Buggy(key, i) <==> Smeared(KeyBytes(key, i)) == KeyBytes(key, i)
  {
    hide Keys.Correct, Keys.Buggy, Smeared, Four, KeyBytes;
    CorrectBytes(key, i);
    BuggyBytes(key, i);
    if Smeared(KeyBytes(key, i)) == KeyBytes(key, i) {
      FourDetermine(Keys.Correct(key, i), Keys.Buggy(key, i));
    }
  }

  lemma SeenIff(key: Keys.Password)
    ensures Keys.SignSeen(key, 72) <==> exists i, j :: 0 <= i < 18 && 0 < j < 4 && KeyBytes(key, i)[j] >= 128
  {
    hide Keys.HighAt, Keys.SignSeen;
    if Keys.SignSeen(key, 72) {
      var n := Seen(key);
      HighAtIs(key, n / 4, n % 4);
    }
    if i, j :| 0 <= i < 18 && 0 < j < 4 && KeyBytes(key, i)[j] >= 128 {
      HighAtIs(key, i, j);
      SeenAt(key, 4 * i + j);
    }
  }

  lemma Seen(key: Keys.Password) returns (n: nat)
    requires Keys.SignSeen(key, 72)
    ensures n < 72 && n % 4 != 0 && Keys.HighAt(key, n)
  {
    n :| 0 <= n < 72 && Keys.HighAt(key, n);
  }

  lemma SeenAt(key: Keys.Password, n: nat)
    requires n < 72 && Keys.HighAt(key, n)
    ensures Keys.SignSeen(key, 72)
  {
  }

  lemma HighAtIs(key: Keys.Password, i: nat, j: nat)
    requires j < 4
    ensures Keys.HighAt(key, 4 * i + j) <==> j != 0 && KeyBytes(key, i)[j] >= 128
  {
    hide Keys.Cyclic, Keys.High;
    HighIs(Keys.Cyclic(key, 4 * i + j));
    assert (4 * i + j) % 4 == j;
  }

  // --- which prefix gives which words ---

  /** Word `i` of the expanded key: with the bug under "$2x$", without it under the other prefixes. */
  ghost predicate IsExpanded(key: Keys.Password, subtype: byte, i: nat, w: Keys.Word) {
    Four(w) == if subtype == 120 then Smeared(KeyBytes(key, i)) else KeyBytes(key, i)
  }

  /** Word `i` that the cipher starts from: the expanded one exclusive-or P, and under "$2a$", for a suspicious
      password, the first one with bit 16 inverted. */
  ghost predicate IsInitial(key: Keys.Password, subtype: byte, i: nat, x: Keys.Word, w: Keys.Word)
    requires i < 18
  {
    var y := Keys.Xor(InitP()[i], x);
    w == if i == 0 && subtype == 97 && Suspicious(key) then Keys.Xor(y, 0x1_0000) else y
  }

  lemma FlagBits(c: byte)
    ensures Keys.BugFlag(FlagsOf(c)) <==> c == 120
    ensures Keys.SafetyFlag(FlagsOf(c)) <==> c == 97
  {
  }

  lemma DeviatesIs(key: Keys.Password, subtype: byte)
    ensures Keys.Deviates(key, FlagsOf(subtype)) <==> subtype == 97 && Suspicious(key)
  {
    hide FlagsOf, Suspicious, Keys.Agree, Keys.SignSeen, Keys.SafetyFlag;
    FlagBits(subtype);
    SuspiciousIff(key);
  }

  lemma ExpansionIs(key: Keys.Password, subtype: byte, i: nat)
    requires i < 18
    ensures Expansion(key, FlagsOf(subtype))[i] == if subtype == 120 then Keys.Buggy(key, i) else Keys.Correct(key, i)
  {
    hide FlagsOf, Keys.Correct, Keys.Buggy, Keys.BugFlag;
    FlagBits(subtype);
  }

  lemma StartIs(key: Keys.Password, subtype: byte, i: nat)
    requires i < 18
    ensures IsInitial(key, subtype, i, Expansion(key, FlagsOf(subtype))[i], Start(key, FlagsOf(subtype))[i])
  {
    hide FlagsOf, Keys.Expanded, Keys.Deviates, Suspicious, InitP, Keys.Xor;
    DeviatesIs(key, subtype);
    assert Expansion(key, FlagsOf(subtype))[i] == Keys.Expanded(key, FlagsOf(subtype), i);
  }

  /** The words of a prefix are these and no others. */
  lemma WordsAre(key: Keys.Password, subtype: byte, i: nat, x: Keys.Word, w: Keys.Word)
    requires i < 18
    ensures IsExpanded(key, subtype, i, x) <==> x == Expansion(key, FlagsOf(subtype))[i]
    ensures IsInitial(key, subtype, i, Expansion(key, FlagsOf(subtype))[i], w) <==> w == Start(key, FlagsOf(subtype))[i]
  {
    hide Keys.Correct, Keys.Buggy, Smeared, Four, KeyBytes, FlagsOf, Suspicious, InitP, Expansion, Start;
    ExpansionIs(key, subtype, i);
    StartIs(key, subtype, i);
    CorrectBytes(key, i);
    BuggyBytes(key, i);
    if IsExpanded(key, subtype, i, x) {
      FourDetermine(x, Expansion(key, FlagsOf(subtype))[i]);
    }
  }

  // --- the hash ---

  ghost predicate Expands(key: Keys.Password, subtype: byte, x: seq<Keys.Word>) {
    |x| == 18 && forall i :: 0 <= i < 18 ==> IsExpanded(key, subtype, i, x[i])
  }

  ghost predicate Starts(key: Keys.Password, subtype: byte, x: seq<Keys.Word>, p: seq<Keys.Word>) {
    |x| == |p| == 18 && forall i :: 0 <= i < 18 ==> IsInitial(key, subtype, i, x[i], p[i])
  }

  /** For every cipher: the last 31 characters of a hash are the first 23 bytes that it makes of the expanded
      key, the initial words, the 16 bytes of the setting's salt, and two to the number in the setting's two
      digits; and the rest is the setting. */
  lemma CipherIsGiven(core: Core, key: Keys.Password, s: seq<byte>, size: int, min: nat,
                      x: seq<Keys.Word>, p: seq<Keys.Word>, salt: seq<byte>)
    requires Crypt(core, key, s, size, min).Some?
    requires Expands(key, s[2], x) && Starts(key, s[2], x, p) && Text.Decode(s[7..29], 16) == Some(salt)
    ensures var h := Crypt(core, key, s, size, min).value;
      && |h| == 60 && h[..28] == s[..28]
      && Text.Decode(h[29..], 23) == Some(core(x, p, salt, Pow2(10 * (s[4] - 48) + (s[5] - 48)))[..23])
  {
    hide Parses, Text.Encode, Text.Decode, Salt, Expansion, Start, InitP, FlagsOf, IsExpanded, IsInitial, Pow2,
      Text.Symbol, Text.ValueOf, Text.Used, SaltWellFormed;
    SaltIff(s);
    GivenWords(key, s[2], x, p);
    GivenSalt(s, salt);
    var digest := Hash(core, key, s[2], salt, Cost(s));
    OutputIs(s, digest);
    OutputParses(s, digest);
    var h := Output(s, salt, digest);
    Text.DecodeUndoesEncode(digest[..23], []);
    assert h[29..] == Text.Encode(digest[..23]);
    assert Text.Encode(digest[..23]) + [] == Text.Encode(digest[..23]);
  }

  lemma GivenWords(key: Keys.Password, subtype: byte, x: seq<Keys.Word>, p: seq<Keys.Word>)
    requires Expands(key, subtype, x) && Starts(key, subtype, x, p)
    ensures x == Expansion(key, FlagsOf(subtype)) && p == Start(key, FlagsOf(subtype))
  {
    hide IsExpanded, IsInitial, FlagsOf, Expansion, Start, InitP;
    forall i | 0 <= i < 18
      ensures x[i] == Expansion(key, FlagsOf(subtype))[i] && p[i] == Start(key, FlagsOf(subtype))[i]
    {
      assert IsExpanded(key, subtype, i, x[i]) && IsInitial(key, subtype, i, x[i], p[i]);
      WordsAre(key, subtype, i, x[i], p[i]);
    }
  }

  lemma GivenSalt(s: seq<byte>, salt: seq<byte>)
    requires Parses(s) && |s| >= 29 && Text.Decode(s[7..29], 16) == Some(salt)
    ensures Salt(s) == Some(salt)
  {
    hide Text.Decode, Parses;
    Text.DecodesIff(s[7..29], 16);
    Text.DecodeIgnoresRest(s[7..29], s[29..], 16);
    assert s[7..29] + s[29..] == s[7..];
  }

  // --- ciphers that give back what they are given ---

  /** As much of `s` as fits into a digest. */
  function Fit(s: seq<byte>): (d: Digest)
    ensures forall i :: 0 <= i < 24 && i < |s| ==> d[i] == s[i]
  {
    if |s| >= 24 then s[..24] else s + seq(24 - |s|, i => 0)
  }

  function EchoSalt(): Core {
    (x, p, b, n) => Fit(b + ToBE(n, 8))
  }

  /** Words `k` of the expanded key and of the words to start from. */
  function EchoWords(k: nat): Core {
    (x, p, b, n) => Fit(if k < |x| && k < |p| then Numbers(Four(x[k]) + Four(p[k])) else [])
  }

  function Numbers(s: seq<bv8>): (r: seq<byte>)
    ensures |r| == |s|
  {
    seq(|s|, i requires 0 <= i < |s| => s[i] as int)
  }

  /** The setting's own salt reaches the cipher, with two to the power of the setting's two digits. */
  lemma SaltReachesCipher(key: Keys.Password, s: seq<byte>, size: int, min: nat)
    requires Crypt(EchoSalt(), key, s, size, min).Some?
    ensures |s| >= 29 && Text.Decode(s[7..29], 16).Some?
    ensures var h := Crypt(EchoSalt(), key, s, size, min).value;
      && |h| == 60
      && Text.Decode(h[29..], 23)
         == Some((Text.Decode(s[7..29], 16).value + ToBE(Pow2(10 * (s[4] - 48) + (s[5] - 48)), 8))[..23])
  {
    hide Crypt, Text.Decode, Expansion, Start, FlagsOf, Pow2, ToBE, Parses, SaltWellFormed, InitP,
      IsExpanded, IsInitial;
    SucceedsIff(EchoSalt(), key, s, size, min);
    ParsedHead(s);
    var x, p, salt := OwnInputs(key, s);
    CipherIsGiven(EchoSalt(), key, s, size, min, x, p, salt);
    var cost: nat := 10 * (s[4] as int - 48) + (s[5] as int - 48);
    FitWhole(salt + ToBE(Pow2(cost), 8));
  }

  lemma FitWhole(s: seq<byte>)
    requires |s| == 24
    ensures Fit(s) == s
  {
  }

  /** Every good setting has such words and a salt. */
  lemma OwnInputs(key: Keys.Password, s: seq<byte>) returns (x: seq<Keys.Word>, p: seq<Keys.Word>, salt: seq<byte>)
    requires Parses(s) && SaltWellFormed(s)
    ensures Expands(key, s[2], x) && Starts(key, s[2], x, p)
    ensures |s| >= 29 && Text.Decode(s[7..29], 16) == Some(salt)
  {
    hide Text.Decode, Text.ValueOf, IsExpanded, IsInitial, FlagsOf, InitP, Expansion, Start;
    x, p := Expansion(key, FlagsOf(s[2])), Start(key, FlagsOf(s[2]));
    forall i | 0 <= i < 18
      ensures IsExpanded(key, s[2], i, x[i]) && IsInitial(key, s[2], i, x[i], p[i])
    {
      WordsAre(key, s[2], i, x[i], p[i]);
    }
    Text.DecodesIff(s[7..29], 16);
    assert Text.Length(16) == 22;
    forall i | 0 <= i < 22
      ensures Text.At(s[7..29], i).Some?
    {
      assert s[7..29][i] == s[i + 7];
    }
    salt := Text.Decode(s[7..29], 16).value;
  }

  /** And so do all eighteen expanded words of the password and the words to start from. */
  lemma WordsReachCipher(key: Keys.Password, s: seq<byte>, size: int, min: nat, k: nat)
    requires k < 18 && Crypt(EchoWords(k), key, s, size, min).Some?
    ensures |s| >= 7
    ensures var h := Crypt(EchoWords(k), key, s, size, min).value;
      |h| == 60 && Text.Decode(h[29..], 23).Some? &&
      exists x, p :: IsExpanded(key, s[2], k, x) && IsInitial(key, s[2], k, x, p)
        && Text.Decode(h[29..], 23).value[..8] == Numbers(Four(x) + Four(p))
  {
    hide Crypt, Text.Decode, Expansion, Start, FlagsOf, Pow2, ToBE, Parses, SaltWellFormed, InitP,
      IsExpanded, IsInitial, Four;
    SucceedsIff(EchoWords(k), key, s, size, min);
    ParsedHead(s);
    var x, p, salt := OwnInputs(key, s);
    CipherIsGiven(EchoWords(k), key, s, size, min, x, p, salt);
    var cost: nat := 10 * (s[4] as int - 48) + (s[5] as int - 48);
    Echoed(k, x, p, salt, Pow2(cost));
    assert IsExpanded(key, s[2], k, x[k]) && IsInitial(key, s[2], k, x[k], p[k]);
  }

  lemma Echoed(k: nat, x: seq<Keys.Word>, p: seq<Keys.Word>, salt: seq<byte>, n: nat)
    requires k < |x| == |p|
    ensures EchoWords(k)(x, p, salt, n)[..23][..8] == Numbers(Four(x[k]) + Four(p[k]))
  {
    hide Four;
  }

  lemma ParsedHead(s: seq<byte>)
    requires Parses(s)
    ensures |s| >= 7 && 48 <= s[4] <= 51 && 48 <= s[5] <= 57
  {
  }
}
