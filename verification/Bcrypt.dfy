/** The wrapper around bcrypt: salts, hashes and checks of passwords. */
module Bcrypt {
  import opened Bytes
  import C = BlowfishCrypt
  import Keys = KeySchedule
  import Text = BlowfishText

  const BUFFER := 64  // BCRYPT_HASHSIZE

  // --- C strings in buffers ---

  /** The bytes before the first NUL. */
  function Str(mem: seq<byte>): (s: seq<byte>)
    requires 0 in mem
  {
    if mem[0] == 0 then [] else [mem[0]] + Str(mem[1..])
  }

  predicate NoNul(s: seq<byte>) {
    forall i :: 0 <= i < |s| ==> s[i] != 0
  }

  lemma {:induction false} StrIs(s: seq<byte>, rest: seq<byte>)
    requires NoNul(s)
    ensures 0 in s + [0] + rest && Str(s + [0] + rest) == s
  {
    var mem := s + [0] + rest;
    assert mem[|s|] == 0;
    if s != [] {
      assert mem[0] == s[0] && mem[1..] == s[1..] + [0] + rest;
      StrIs(s[1..], rest);
    }
  }

  method StrLen(mem: array<byte>) returns (n: nat)
    requires 0 in mem[..]
    ensures n < mem.Length && mem[n] == 0 && mem[..n] == Str(mem[..])
  {
    n := 0;
    ghost var k :| 0 <= k < mem.Length && mem[k] == 0;
    while mem[n] != 0
      invariant n <= k && forall i :: 0 <= i < n ==> mem[i] != 0
      decreases k - n
    {
      n := n + 1;
    }
    StrIs(mem[..n], mem[n + 1..]);
    assert mem[..] == mem[..n] + [0] + mem[n + 1..];
  }

  // --- comparison ---

  /** `ret |= u1 ^ u2` */
  function Mix(ret: byte, u1: byte, u2: byte): byte {
    assert Pow2(8) == 256 by { assert Pow2(4) == 16; assert Pow2(6) == 64; }
    OrBits(ret, Xor(u1, u2), 8)
  }

  lemma MixZero(ret: byte, u1: byte, u2: byte)
    ensures Mix(ret, u1, u2) == 0 <==> ret == 0 && u1 == u2
  {
    assert Pow2(8) == 256 by { assert Pow2(4) == 16; assert Pow2(6) == 64; }
    OrBitsZero(ret, Xor(u1, u2), 8);
    XorBitsZero(u1, u2, 8);
  }

  /** timing_safe_strcmp: every character is looked at, and the result is zero iff the strings are equal. */
  method TimingSafeStrcmp(str1: array<byte>, str2: array<byte>) returns (ret: int)
    requires 0 in str1[..] && 0 in str2[..]
    ensures ret == 0 <==> Str(str1[..]) == Str(str2[..])
    ensures ret >= 0
  {
    hide Mix, Str;
    var len1 := StrLen(str1);
    var len2 := StrLen(str2);
    if len1 != len2 {
      assert |str1[..len1]| != |str2[..len2]|;
      return 1;
    }
    var acc: byte := 0;
    for i := 0 to len1
      invariant acc == 0 <==> str1[..i] == str2[..i]
    {
      MixZero(acc, str1[i], str2[i]);
      acc := Mix(acc, str1[i], str2[i]);
      assert str1[..i + 1] == str1[..i] + [str1[i]] && str2[..i + 1] == str2[..i] + [str2[i]];
    }
    ret := acc;
  }

  // --- hashing ---

  /** The token that stands for a failed hash, chosen to differ from the setting. */
  function Magic(setting: seq<byte>): seq<byte> {
    if |setting| >= 2 && setting[0] == 42 && setting[1] == 48 then [42, 49] else [42, 48]
  }

  /** "*0", or "*1" when the setting begins with "*0". */
  lemma MagicIs(setting: seq<byte>)
    ensures Spells(Magic(setting), if |setting| >= 2 && Spells(setting[..2], "*0") then "*1" else "*0")
  {
    if |setting| >= 2 {
      assert setting[..2][0] == setting[0] && setting[..2][1] == setting[1];
    }
  }

  lemma MagicDiffers(core: C.Core, passwd: Keys.Password, setting: seq<byte>, size: int, min: nat)
    ensures Magic(setting) != setting
    ensures C.Crypt(core, passwd, Magic(setting), size, min).None?
  {
  }

  /** _crypt_output_magic */
  method OutputMagic(setting: seq<byte>, output: array<byte>, size: int) returns (rc: int)
    requires size <= output.Length
    modifies output
    ensures rc == if size < 3 then -1 else 0
    ensures rc == 0 ==> output[..] == Magic(setting) + [0] + old(output[3..])
    ensures rc != 0 ==> output[..] == old(output[..])
  {
    if size < 3 {
      return -1;
    }
    output[0] := 42;
    output[1] := 48;
    output[2] := 0;
    if |setting| >= 2 && setting[0] == 42 && setting[1] == 48 {
      output[1] := 49;
    }
    rc := 0;
  }

  /** _crypt_blowfish_rn: the hash, or the failure token; also when the self-test after the hash fails. */
  method CryptRn(core: C.Core, passwd: Keys.Password, setting: seq<byte>, output: array<byte>, size: int,
                 selfTest: bool)
    returns (ok: bool)
    requires size <= output.Length
    modifies output
    ensures ok <==> selfTest && C.Crypt(core, passwd, setting, size, 16).Some?
    ensures ok ==> output[..61] == C.Crypt(core, passwd, setting, size, 16).value + [0]
    ensures !ok && size >= 3 ==> output[..3] == Magic(setting) + [0]
  {
    hide C.Crypt, Magic;
    MagicLength(setting);
    var _ := OutputMagic(setting, output, size);
    ok := C.BFCrypt(core, passwd, setting, output, size, 16);
    if !selfTest {
      var _ := OutputMagic(setting, output, size);
      ok := false;
    }
  }

  lemma MagicLength(setting: seq<byte>)
    ensures |Magic(setting)| == 2
  {
  }

  /** bcrypt_hashpw */
  method HashPw(core: C.Core, passwd: Keys.Password, salt: seq<byte>, hash: array<byte>, selfTest: bool)
    returns (rc: int)
    requires hash.Length >= BUFFER
    modifies hash
    ensures rc == if selfTest && C.Crypt(core, passwd, salt, BUFFER, 16).Some? then 0 else 1
    ensures rc == 0 ==> 0 in hash[..] && Some(Str(hash[..])) == C.Crypt(core, passwd, salt, BUFFER, 16)
    ensures rc != 0 ==> hash[..3] == Magic(salt) + [0]
  {
    hide C.Crypt, Magic, Str;
    var ok := CryptRn(core, passwd, salt, hash, BUFFER, selfTest);
    if ok {
      ghost var h := C.Crypt(core, passwd, salt, BUFFER, 16).value;
      HashHasNoNul(core, passwd, salt, BUFFER, 16);
      StrIs(h, hash[61..]);
      assert hash[..] == hash[..61] + hash[61..];
    }
    rc := if ok then 0 else 1;
  }

  lemma HashHasNoNul(core: C.Core, passwd: Keys.Password, s: seq<byte>, size: int, min: nat)
    requires C.Crypt(core, passwd, s, size, min).Some?
    ensures NoNul(C.Crypt(core, passwd, s, size, min).value)
  {
    hide Text.Encode, C.Hash, C.Salt, C.Cost, Pow2;
    var salt := C.Salt(s).value;
    EncodedHasNoNul(salt);
    EncodedHasNoNul(C.Hash(core, passwd, s[2], salt, C.Cost(s))[..23]);
    assert forall i :: 0 <= i < 7 ==> s[..7][i] == s[i] != 0;
  }

  lemma EncodedHasNoNul(s: seq<byte>)
    requires s != []
    ensures NoNul(Text.Encode(s))
  {
    hide Text.Encode, Text.Decode;
    var e := Text.Encode(s);
    Text.DecodeUndoesEncode(s, []);
    assert e + [] == e;
    Text.DecodesIff(e, |s|);
    Text.EncodedLength(s);
    forall i | 0 <= i < |e|
      ensures e[i] != 0
    {
      assert Text.At(e, i).Some?;
    }
  }

  /** bcrypt_checkpw: zero iff hashing with the stored hash as setting gives the stored hash. */
  method CheckPw(core: C.Core, passwd: Keys.Password, hash: array<byte>, selfTest: bool) returns (ret: int)
    requires 0 in hash[..]
    ensures ret == -1 <==> !selfTest || C.Crypt(core, passwd, Str(hash[..]), BUFFER, 16).None?
    ensures ret == 0 <==> selfTest && C.Crypt(core, passwd, Str(hash[..]), BUFFER, 16) == Some(Str(hash[..]))
  {
    hide C.Crypt, Magic, Str;
    var n := StrLen(hash);
    var outhash := new byte[BUFFER];
    ret := HashPw(core, passwd, hash[..n], outhash, selfTest);
    if ret != 0 {
      return -1;
    }
    ret := TimingSafeStrcmp(hash, outhash);
  }

  /** How reading 16 bytes from /dev/urandom goes. */
  datatype Random = NotOpened | NotRead(closed: bool) | NotClosed | Read(bytes: seq<byte>)

  /** bcrypt_gensalt: 0 and a setting whose cost is the factor, or 12 for one outside 4..31; else what failed. */
  method GenSalt(factor: int, random: Random, salt: array<byte>) returns (rc: int)
    requires (random.Read? ==> |random.bytes| == 16) && salt.Length >= BUFFER
    modifies salt
    ensures rc == match random
                  case NotOpened => 1
                  case NotRead(closed) => if closed then 2 else 4
                  case NotClosed => 3
                  case Read(_) => 0
    ensures rc != 0 ==> salt[..] == old(salt[..])
    ensures rc == 0 ==>
      0 in salt[..] && Str(salt[..]) == C.Setting(97, if 4 <= factor <= 31 then factor else 12, random.bytes)
  {
    hide C.Setting, Str;
    match random
    case NotOpened => return 1;
    case NotRead(closed) => return if closed then 2 else 4;
    case NotClosed => return 3;
    case Read(input) =>
      var workf := if factor < 4 || factor > 31 then 12 else factor;
      var ok := C.GenSaltRn([36, 50, 97, 36], workf, input, salt, BUFFER);
      assert input[..16] == input;
      ghost var s := C.Setting(97, workf, input);
      SettingHasNoNul(workf, input);
      StrIs(s, salt[30..]);
      assert salt[..] == salt[..30] + salt[30..];
      rc := if ok then 0 else 5;
  }

  lemma SettingHasNoNul(cost: nat, input: seq<byte>)
    requires cost <= 31 && |input| == 16
    ensures NoNul(C.Setting(97, cost, input))
  {
    hide Text.Encode;
    EncodedHasNoNul(input);
  }

  // --- what the wrapper promises ---

  /** Every generated salt is accepted, and the hash it gives accepts the password it was made from. */
  lemma HashThenCheck(core: C.Core, passwd: Keys.Password, factor: int, input: seq<byte>)
    requires |input| == 16
    ensures var r := C.Crypt(core, passwd, C.Setting(97, if 4 <= factor <= 31 then factor else 12, input), BUFFER, 16);
            r.Some? && C.Crypt(core, passwd, r.value, BUFFER, 16) == r
  {
    hide C.Setting, C.Hash, C.Output, Pow2, C.Parses, C.Salt, C.Cost;
    var cost := if 4 <= factor <= 31 then factor else 12;
    var s := C.Setting(97, cost, input);
    C.SettingParses(97, cost, input);
    CostIsEnough(cost);
    C.FixedPoint(core, passwd, s, BUFFER, 16);
  }

  lemma CostIsEnough(cost: nat)
    requires cost >= 4
    ensures Pow2(cost) >= 16
  {
    assert Pow2(4) == 16;
    Pow2Grows(4, cost);
  }

  /** Against a stored hash, a password passes iff its first 23 digest bytes are those of the right one. */
  lemma AcceptedIff(core: C.Core, right: Keys.Password, tried: Keys.Password, s: seq<byte>)
    requires C.Crypt(core, right, s, BUFFER, 16).Some?
    ensures var h := C.Crypt(core, right, s, BUFFER, 16).value;
            var salt := C.Salt(s).value;
            C.Crypt(core, tried, h, BUFFER, 16) == Some(h)
            <==> C.Hash(core, tried, s[2], salt, C.Cost(s))[..23] == C.Hash(core, right, s[2], salt, C.Cost(s))[..23]
  {
    hide C.Hash, C.Parses, C.Salt, C.SaltWellFormed, C.Cost, Pow2, Text.Encode;
    var salt := C.Salt(s).value;
    var digest, digest' := C.Hash(core, right, s[2], salt, C.Cost(s)), C.Hash(core, tried, s[2], salt, C.Cost(s));
    C.SaltIff(s);
    C.OutputParses(s, digest);
    SameDigestIff(digest[..23], digest'[..23]);
    var h := C.Output(s, salt, digest);
    var front := s[..7] + Text.Encode(salt);
    assert h[..7] == s[..7];
    assert h == front + Text.Encode(digest[..23]);
    assert C.Output(h, salt, digest') == front + Text.Encode(digest'[..23]);
    assert h[|front|..] == Text.Encode(digest[..23]);
    assert C.Output(h, salt, digest')[|front|..] == Text.Encode(digest'[..23]);
  }

  lemma SameDigestIff(a: seq<byte>, b: seq<byte>)
    requires |a| == |b| > 0
    ensures Text.Encode(a) == Text.Encode(b) <==> a == b
  {
    hide Text.Encode, Text.Decode;
    Text.DecodeUndoesEncode(a, []);
    Text.DecodeUndoesEncode(b, []);
  }

  /** Two passwords that differ only in their 73rd byte: one hash, under every setting and every cipher. */
  lemma LongPasswordsCollide(core: C.Core, s: seq<byte>, size: int, min: nat)
    ensures var key, key' := LongPassword(98), LongPassword(99);
      key != key' && C.Crypt(core, key, s, size, min) == C.Crypt(core, key', s, size, min)
  {
    hide C.Crypt;
    var key, key' := LongPassword(98), LongPassword(99);
    assert key[72] != key'[72];
    assert Keys.Head(key) == Keys.Head(key');
    C.PasswordsTruncate(core, key, key', s, size, min);
  }

  /** 72 times 'a', and one more byte. */
  function LongPassword(last: bv8): (key: Keys.Password)
    requires last != 0
    ensures |key| == 73 && key[72] == last
  {
    seq(72, i => 97) + [last]
  }
}
