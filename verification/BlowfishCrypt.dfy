/** The setting strings of bcrypt: BF_crypt around its cipher, and _crypt_gensalt_blowfish_rn. A C string is
    the sequence of its bytes before the terminator. */
module BlowfishCrypt {
  import opened Bytes
  import Text = BlowfishText
  import Keys = KeySchedule

  const DOLLAR: byte := 36
  const HASH_SIZE: int := 60  // 7 + 22 + 31

  /** The six output words of the cipher, most significant byte first. */
  type Digest = s: seq<byte> | |s| == 24
    witness [0, 0, 0, 0, 0, 0, 0, 0, 0, 0, 0, 0, 0, 0, 0, 0, 0, 0, 0, 0, 0, 0, 0, 0]

  /** Eksblowfish: from the expanded key, the initial P words, the 16 salt bytes and the number of rounds. */
  type Core = (seq<Keys.Word>, seq<Keys.Word>, seq<byte>, nat) -> Digest

  /** BF_init_state.P */
  function InitP(): (p: seq<Keys.Word>)
    ensures |p| == Keys.WORDS
  {
    [0x243f6a88, 0x85a308d3, 0x13198a2e, 0x03707344, 0xa4093822, 0x299f31d0, 0x082efa98, 0xec4e6c89, 0x452821e6,
     0x38d01377, 0xbe5466cf, 0x34e90c6c, 0xc0ac29b7, 0xc97c50dd, 0x3f84d5b5, 0xb5470917, 0x9216d5d9, 0x8979fb1b]
  }

  /** flags_by_subtype: 'a', 'b', 'x' and 'y' */
  function FlagsOf(c: byte): Keys.Word {
    if c == 97 then 2 else if c == 98 then 4 else if c == 120 then 1 else if c == 121 then 4 else 0
  }

  predicate Subtype(c: byte) {
    c == 97 || c == 98 || c == 120 || c == 121
  }

  /** "$2", a subtype, "$", two digits up to 31, "$" */
  predicate Parses(s: seq<byte>) {
    && |s| > 6
    && s[0] == DOLLAR && s[1] == 50
    && Subtype(s[2])
    && s[3] == DOLLAR
    && 48 <= s[4] <= 51 && 48 <= s[5] <= 57 && (s[4] == 51 ==> s[5] <= 49)
    && s[6] == DOLLAR
  }

  function Cost(s: seq<byte>): (n: nat)
    requires Parses(s)
    ensures n <= 31
  {
    (s[4] - 48) * 10 + (s[5] - 48)
  }

  /** It begins with "$2", the letter, "$", the number in two digits, "$". */
  predicate Heads(s: seq<byte>, c: byte, n: nat) {
    n <= 31 && [DOLLAR, 50, c, DOLLAR, 48 + n / 10, 48 + n % 10, DOLLAR] <= s
  }

  /** The settings that are read, and their cost. */
  lemma ParsesIff(s: seq<byte>)
    ensures Parses(s) <==> exists c: byte, n: nat :: Subtype(c) && Heads(s, c, n)
    ensures forall c: byte, n: nat | Subtype(c) && Heads(s, c, n) :: Cost(s) == n && s[2] == c
  {
    if Parses(s) {
      var n := Cost(s);
      assert n / 10 == s[4] - 48 && n % 10 == s[5] - 48;
      assert Heads(s, s[2], n);
    }
  }

  lemma SubtypeIff(c: byte)
    ensures Subtype(c) <==> c as char in "abxy"
  {
  }

  /** The 22 characters of the salt are there and in the alphabet. */
  predicate SaltWellFormed(s: seq<byte>) {
    |s| >= 29 && forall i :: 7 <= i < 29 ==> Text.ValueOf(s[i]).Some?
  }

  function Salt(s: seq<byte>): (r: Option<seq<byte>>)
    requires Parses(s)
    ensures r.Some? ==> |r.value| == 16 && |s| >= 29
  {
    var r := Text.Decode(s[7..], 16);
    assert r.Some? ==> |s[7..]| >= 22 by {
      if r.Some? {
        Text.DecodesIff(s[7..], 16);
        assert Text.At(s[7..], 21).Some?;
      }
    }
    r
  }

  // --- BF_crypt ---

  ghost function Expansion(key: Keys.Password, flags: Keys.Word): (w: seq<Keys.Word>)
    ensures |w| == Keys.WORDS
  {
    seq(Keys.WORDS, i requires 0 <= i < Keys.WORDS => Keys.Expanded(key, flags, i))
  }

  ghost function Start(key: Keys.Password, flags: Keys.Word): (w: seq<Keys.Word>)
    ensures |w| == Keys.WORDS
  {
    seq(Keys.WORDS, i requires 0 <= i < Keys.WORDS => Keys.Initial(key, flags, InitP(), i))
  }

  ghost function Hash(core: Core, key: Keys.Password, subtype: byte, salt: seq<byte>, cost: nat): Digest {
    var flags := FlagsOf(subtype);
    core(Expansion(key, flags), Start(key, flags), salt, Pow2(cost))
  }

  /** The 60 characters of a hash: the setting with its salt in canonical form, then 23 of the 24 bytes. */
  ghost function Output(setting: seq<byte>, salt: seq<byte>, digest: Digest): seq<byte>
    requires |setting| >= 7 && salt != []
  {
    setting[..7] + Text.Encode(salt) + Text.Encode(digest[..23])
  }

  ghost function Crypt(core: Core, key: Keys.Password, s: seq<byte>, size: int, min: nat): Option<seq<byte>> {
    if size <= HASH_SIZE || !Parses(s) || Pow2(Cost(s)) < min || Salt(s).None? then None
    else
      var salt := Salt(s).value;
      Some(Output(s, salt, Hash(core, key, s[2], salt, Cost(s))))
  }

  /** What the code writes: 28 characters of the setting, the 29th with four bits cleared, the digest. */
  lemma OutputIs(s: seq<byte>, digest: Digest)
    requires Parses(s) && SaltWellFormed(s)
    ensures Salt(s).Some? && Text.ValueOf(s[28]).Some?
    ensures Output(s, Salt(s).value, digest)
         == s[..28] + [Text.Symbol(Text.Used(Text.ValueOf(s[28]).value, 16))] + Text.Encode(digest[..23])
  {
    hide Text.Encode, Text.Symbol, Text.ValueOf, Text.Used, Text.Decode;
    var src := s[7..];
    Text.EncodeUndoesDecode(src, 16);
    assert Text.Length(16) == 22;
    assert src[21] == s[28];
    assert s[..7] + src[..21] == s[..28];
  }

  /** A hash is a setting: it parses as the setting it came from, with the same cost and the same salt. */
  lemma OutputParses(s: seq<byte>, digest: Digest)
    requires Parses(s) && SaltWellFormed(s)
    ensures Salt(s).Some?
    ensures var h := Output(s, Salt(s).value, digest);
            Parses(h) && h[2] == s[2] && Cost(h) == Cost(s) && Salt(h) == Salt(s) && |h| == HASH_SIZE
  {
    hide Text.Encode, Text.Decode, Subtype;
    SaltIff(s);
    var salt := Salt(s).value;
    var h := Output(s, salt, digest);
    Text.EncodedLength(salt);
    Text.EncodedLength(digest[..23]);
    assert Text.Length(16) == 22 && Text.Length(23) == 31;
    assert h[..7] == s[..7];
    assert forall i :: 0 <= i < 7 ==> h[i] == h[..7][i];
    Text.DecodeUndoesEncode(salt, Text.Encode(digest[..23]));
    assert h[7..] == Text.Encode(salt) + Text.Encode(digest[..23]);
  }

  /** Hashing with the resulting hash as the setting gives that hash again. */
  lemma FixedPoint(core: Core, key: Keys.Password, s: seq<byte>, size: int, min: nat)
    requires Crypt(core, key, s, size, min).Some?
    ensures var h := Crypt(core, key, s, size, min).value; Crypt(core, key, h, size, min) == Some(h)
  {
    hide Text.Encode, Salt, SaltWellFormed, Parses, Cost, Hash, Pow2;
    SaltIff(s);
    var salt := Salt(s).value;
    var digest := Hash(core, key, s[2], salt, Cost(s));
    OutputParses(s, digest);
    var h := Output(s, salt, digest);
    assert h[..7] == s[..7];
  }

  /** BF_crypt succeeds iff there is room, the head is well formed, the cost is not below the minimum and
      the 22 characters after it are in the alphabet. */
  lemma SucceedsIff(core: Core, key: Keys.Password, s: seq<byte>, size: int, min: nat)
    ensures Crypt(core, key, s, size, min).Some?
       <==> (size >= 61 && Parses(s) && Pow2(Cost(s)) >= min && SaltWellFormed(s))
  {
    hide Parses, Cost, Pow2, Output, SaltWellFormed, Hash;
    if Parses(s) {
      SaltIff(s);
    }
  }

  lemma SaltIff(s: seq<byte>)
    requires Parses(s)
    ensures Salt(s).Some? <==> SaltWellFormed(s)
  {
    hide Text.Decode, Text.ValueOf;
    var src := s[7..];
    Text.DecodesIff(src, 16);
    assert Text.Length(16) == 22;
    if |s| >= 29 && forall i :: 7 <= i < 29 ==> Text.ValueOf(s[i]).Some? {
      forall i | 0 <= i < 22
        ensures Text.At(src, i).Some?
      {
        assert src[i] == s[i + 7];
      }
    }
    if Salt(s).Some? {
      forall i | 7 <= i < 29
        ensures Text.ValueOf(s[i]).Some?
      {
        assert Text.At(src, i - 7).Some?;
      }
    }
  }

  /** Only the first 72 bytes of a password matter, under every prefix. */
  lemma PasswordsTruncate(core: Core, key: Keys.Password, key': Keys.Password, s: seq<byte>, size: int, min: nat)
    requires Keys.Head(key) == Keys.Head(key')
    ensures Crypt(core, key, s, size, min) == Crypt(core, key', s, size, min)
  {
    hide Subtype, Cost, Pow2, Salt, Output, Keys.Expanded, Keys.Initial, Keys.Head;
    if Parses(s) {
      Keys.SameHeadSameSchedule(key, key', FlagsOf(s[2]), InitP());
      SameStates(key, FlagsOf(s[2]), key', FlagsOf(s[2]));
    }
  }

  lemma SameStates(key: Keys.Password, flags: Keys.Word, key': Keys.Password, flags': Keys.Word)
    requires Keys.SameSchedule(key, flags, key', flags', InitP())
    ensures Expansion(key, flags) == Expansion(key', flags') && Start(key, flags) == Start(key', flags')
  {
  }

  /** A password of 7-bit characters gets the same digest under all four prefixes. */
  lemma PrefixesAgree(core: Core, key: Keys.Password, subtype: byte, subtype': byte, salt: seq<byte>, cost: nat)
    requires forall k :: 0 <= k < |key| ==> !Keys.High(key[k])
    ensures Hash(core, key, subtype, salt, cost) == Hash(core, key, subtype', salt, cost)
  {
    hide Keys.Expanded, Keys.Initial, FlagsOf, Pow2;
    Keys.SevenBitSchedule(key, FlagsOf(subtype), FlagsOf(subtype'), InitP());
    SameStates(key, FlagsOf(subtype), key, FlagsOf(subtype'));
  }

  /** BF_crypt */
  method BFCrypt(core: Core, key: Keys.Password, setting: seq<byte>, output: array<byte>, size: int, min: nat)
    returns (ok: bool)
    requires size <= output.Length
    modifies output
    ensures ok <==> Crypt(core, key, setting, size, min).Some?
    ensures ok ==> output[..61] == Crypt(core, key, setting, size, min).value + [0]
    ensures ok ==> output[61..] == old(output[61..])
    ensures !ok ==> output[..] == old(output[..])
  {
    hide Keys.Expanded, Keys.Initial, Text.Decode, Text.Encode, Pow2, Text.Symbol, Text.Used, Text.ValueOf;
    if size <= HASH_SIZE || !Parses(setting) {
      return false;
    }
    var count := Pow2(Cost(setting));
    if count < min {
      return false;
    }
    var salt := new byte[16];
    var rc := Text.BFDecode(salt, setting[7..], 16);
    if rc != 0 {
      return false;
    }
    assert salt[..] == salt[..16];
    var expanded, initial := new Keys.Word[Keys.WORDS], new Keys.Word[Keys.WORDS];
    Keys.SetKey(key, InitP(), FlagsOf(setting[2]), expanded, initial);
    assert expanded[..] == Expansion(key, FlagsOf(setting[2]));
    assert initial[..] == Start(key, FlagsOf(setting[2]));
    var digest := core(expanded[..], initial[..], salt[..], count);
    assert digest == Hash(core, key, setting[2], Salt(setting).value, Cost(setting));
    SaltIff(setting);
    WriteHash(setting, digest, output);
    ok := true;
  }

  /** The last lines of BF_crypt */
  method WriteHash(setting: seq<byte>, digest: Digest, output: array<byte>)
    requires output.Length > HASH_SIZE && Parses(setting) && SaltWellFormed(setting)
    modifies output
    ensures Salt(setting).Some?
    ensures output[..61] == Output(setting, Salt(setting).value, digest) + [0]
    ensures output[61..] == old(output[61..])
  {
    hide Parses, Salt, Text.Decode, Text.Encode, Text.Symbol, Text.Used, Text.ValueOf;
    OutputIs(setting, digest);
    Text.EncodedLength(digest[..23]);
    assert Text.Length(23) == 31;
    forall i | 0 <= i < 28 {
      output[i] := setting[i];
    }
    output[28] := Text.Symbol(Text.Used(Text.ValueOf(setting[28]).value, 16));
    assert output[..29] == setting[..28] + [output[28]];
    assert output[61..] == old(output[61..]);
    ghost var head, tail := output[..29], output[61..];
    assert output[60..][1..] == tail;
    Text.BFEncode(output, 29, digest[..23]);
    assert output[..60] == head + Text.Encode(digest[..23]);
    assert output[60..][1..] == tail;
    output[60] := 0;
    assert output[..61] == output[..60] + [0];
    assert output[61..] == tail;
  }

  // --- settings with a fresh salt ---

  /** The three subtypes that settings are made for. */
  predicate SaltPrefix(prefix: seq<byte>) {
    |prefix| > 2 && prefix[0] == DOLLAR && prefix[1] == 50 && (prefix[2] == 97 || prefix[2] == 98 || prefix[2] == 121)
  }

  /** A count of zero stands for 5. */
  function CostOf(count: nat): nat {
    if count == 0 then 5 else count
  }

  function Setting(subtype: byte, cost: nat, salt: seq<byte>): seq<byte>
    requires cost <= 31 && salt != []
  {
    [DOLLAR, 50, subtype, DOLLAR, 48 + cost / 10, 48 + cost % 10, DOLLAR] + Text.Encode(salt)
  }

  /** Every setting made from 16 bytes parses back to its subtype, cost and salt. */
  lemma SettingParses(subtype: byte, cost: nat, salt: seq<byte>)
    requires Subtype(subtype) && cost <= 31 && |salt| == 16
    ensures var s := Setting(subtype, cost, salt);
            Parses(s) && s[2] == subtype && Cost(s) == cost && Salt(s) == Some(salt) && |s| == 29
  {
    hide Text.Encode, Text.Decode;
    var s := Setting(subtype, cost, salt);
    Text.EncodedLength(salt);
    assert Text.Length(16) == 22;
    Text.DecodeUndoesEncode(salt, []);
    assert Text.Encode(salt) + [] == Text.Encode(salt);
    assert s[7..] == Text.Encode(salt);
  }

  /** _crypt_gensalt_blowfish_rn */
  method GenSaltRn(prefix: seq<byte>, count: nat, input: seq<byte>, output: array<byte>, outputSize: nat)
    returns (ok: bool)
    requires outputSize <= output.Length
    modifies output
    ensures ok <==>
      && |input| >= 16 && outputSize >= 30 && (count == 0 || 4 <= count <= 31)
      && |prefix| >= 3 && Spells(prefix[..2], "$2") && prefix[2] as char in "aby"
    ensures ok ==> output[..30] == Setting(prefix[2], if count == 0 then 5 else count, input[..16]) + [0]
    ensures !ok && outputSize > 0 ==> output[0] == 0
  {
    hide Text.Encode, SaltPrefix, Spells;
    PrefixIff(prefix);
    if |input| < 16 || outputSize < 30 || (count != 0 && (count < 4 || count > 31)) || !SaltPrefix(prefix) {
      if outputSize > 0 {
        output[0] := 0;
      }
      return false;
    }
    PutHead(output, prefix[2], CostOf(count));
    ghost var head := output[..7];
    Text.EncodedLength(input[..16]);
    assert Text.Length(16) == 22;
    Text.BFEncode(output, 7, input[..16]);
    assert output[..29] == head + Text.Encode(input[..16]);
    output[29] := 0;
    assert output[..30] == output[..29] + [0];
    ok := true;
  }

  /** The seven characters before the salt. */
  method PutHead(output: array<byte>, subtype: byte, cost: nat)
    requires output.Length >= 7 && cost <= 31
    modifies output
    ensures output[..7] == [DOLLAR, 50, subtype, DOLLAR, 48 + cost / 10, 48 + cost % 10, DOLLAR]
  {
    output[0] := DOLLAR;
    output[1] := 50;
    output[2] := subtype;
    output[3] := DOLLAR;
    output[4] := 48 + cost / 10;
    output[5] := 48 + cost % 10;
    output[6] := DOLLAR;
  }

  lemma PrefixIff(prefix: seq<byte>)
    ensures SaltPrefix(prefix) <==> |prefix| >= 3 && Spells(prefix[..2], "$2") && prefix[2] as char in "aby"
  {
    if |prefix| >= 2 {
      assert prefix[..2][0] == prefix[0] && prefix[..2][1] == prefix[1];
    }
  }
}
