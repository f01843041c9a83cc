/** Base64 (section 4 of RFC 4648), and the accept key of the WebSocket handshake
    (section 4.2.2 of RFC 6455). */
module Base64 {
  import opened Bytes
  import Sha1

  const PAD: byte := 61  // '='

  // --- the alphabet ---

  /** Table 1 of the RFC: A-Z, a-z, 0-9, + and /. */
  function Symbol(v: nat): byte
    requires v < 64
  {
    if v < 26 then 65 + v else if v < 52 then 71 + v else if v < 62 then v - 4 else if v == 62 then 43 else 47
  }

  function ValueOf(c: byte): Option<nat> {
    if 65 <= c <= 90 then Some(c - 65)
    else if 97 <= c <= 122 then Some(c - 71)
    else if 48 <= c <= 57 then Some(c + 4)
    else if c == 43 then Some(62)
    else if c == 47 then Some(63)
    else None
  }

  lemma SymbolValue(v: nat)
    requires v < 64
    ensures ValueOf(Symbol(v)) == Some(v) && Symbol(v) != PAD
  {
  }

  /** The alphabet as the RFC lists it. */
  lemma SymbolIs(v: nat)
    requires v < 64
    ensures Symbol(v) as char
         == if v < 26 then "ABCDEFGHIJKLMNOPQRSTUVWXYZ"[v] else if v < 52 then "abcdefghijklmnopqrstuvwxyz"[v - 26]
            else "0123456789+/"[v - 52]
  {
  }

  // --- the code's groups ---

  function Triple(a: byte, b: byte, c: byte): nat {
    a * 0x1_0000 + b * 0x100 + c
  }

  /** `(n >> 6 * k) & 0x3F` */
  function Sextet(n: nat, k: nat): (v: nat)
    ensures v < 64
  {
    if k == 0 then n % 64 else Sextet(n / 64, k - 1)
  }

  /** The four characters for the up to three bytes from the front of `s`. */
  function Group(s: seq<byte>): (g: seq<byte>)
    requires s != []
    ensures |g| == 4
  {
    var n := Triple(s[0], if |s| > 1 then s[1] else 0, if |s| > 2 then s[2] else 0);
    [Symbol(Sextet(n, 3)), Symbol(Sextet(n, 2)),
     if |s| > 1 then Symbol(Sextet(n, 1)) else PAD,
     if |s| > 2 then Symbol(Sextet(n, 0)) else PAD]
  }

  function Encode(s: seq<byte>): seq<byte> {
    if |s| <= 3 then if s == [] then [] else Group(s)
    else Group(s[..3]) + Encode(s[3..])
  }

  lemma {:induction false} EncodedLength(s: seq<byte>)
    ensures |Encode(s)| == (|s| + 2) / 3 * 4
  {
    hide Group;
    if |s| > 3 {
      EncodedLength(s[3..]);
      assert (|s| + 2) / 3 == 1 + (|s| - 1) / 3;
    }
  }

  // --- decoding, from the RFC ---

  function Number(v0: nat, v1: nat, v2: nat, v3: nat): nat {
    v3 + 64 * (v2 + 64 * (v1 + 64 * v0))
  }

  /** The bytes of one group of four characters: one or two `=` at the end leave two or one. */
  function DecodeGroup(g: seq<byte>): Option<seq<byte>>
    requires |g| == 4
  {
    var v0, v1 := ValueOf(g[0]), ValueOf(g[1]);
    var v2 := if g[2] == PAD && g[3] == PAD then Some(0) else ValueOf(g[2]);
    var v3 := if g[3] == PAD then Some(0) else ValueOf(g[3]);
    if v0.None? || v1.None? || v2.None? || v3.None? then None
    else
      var n := Number(v0.value, v1.value, v2.value, v3.value);
      var bytes := [ByteOf(n, 2), ByteOf(n, 1), ByteOf(n, 0)];
      Some(if g[2] == PAD then bytes[..1] else if g[3] == PAD then bytes[..2] else bytes)
  }

  /** Padding may only stand in the last group. */
  function Decode(e: seq<byte>): Option<seq<byte>> {
    if e == [] then Some([])
    else if |e| < 4 then None
    else
      var head := DecodeGroup(e[..4]);
      if |e| == 4 then head
      else if e[3] == PAD then None
      else
        var tail := Decode(e[4..]);
        if head.None? || tail.None? then None else Some(head.value + tail.value)
  }

  lemma SextetNext(n: nat, k: nat)
    ensures Sextet(n, k + 1) == Sextet(n / 64, k) && Sextet(n, 0) == n % 64
  {
  }

  lemma SextetsAre(n: nat)
    ensures Sextet(n, 0) == n % 64 && Sextet(n, 1) == n / 64 % 64
    ensures Sextet(n, 2) == n / 64 / 64 % 64 && Sextet(n, 3) == n / 64 / 64 / 64 % 64
  {
    hide Sextet;
    SextetNext(n, 0);
    SextetNext(n, 1);
    SextetNext(n, 2);
    SextetNext(n / 64, 0);
    SextetNext(n / 64, 1);
    SextetNext(n / 64 / 64, 0);
    SextetNext(n / 64 / 64 / 64, 0);
  }

  lemma Digits(n: nat)
    requires n < 0x100_0000
    ensures n == Number(n / 64 / 64 / 64 % 64, n / 64 / 64 % 64, n / 64 % 64, n % 64)
  {
    var a := n / 64;
    var b := a / 64;
    var c := b / 64;
    assert c < 64;
    assert n == n % 64 + 64 * a && a == a % 64 + 64 * b && b == b % 64 + 64 * c;
  }

  lemma Sextets(n: nat)
    requires n < 0x100_0000
    ensures n == Number(Sextet(n, 3), Sextet(n, 2), Sextet(n, 1), Sextet(n, 0))
  {
    hide Sextet, Number;
    SextetsAre(n);
    Digits(n);
  }

  lemma TripleBytes(a: byte, b: byte, c: byte)
    ensures var n := Triple(a, b, c); n < 0x100_0000 && ByteOf(n, 2) == a && ByteOf(n, 1) == b && ByteOf(n, 0) == c
  {
    var n := Triple(a, b, c);
    assert n / 256 == a * 256 + b && n / 256 / 256 == a;
    assert ByteOf(n, 1) == ByteOf(n / 256, 0);
    assert ByteOf(n, 2) == ByteOf(n / 256, 1) == ByteOf(n / 256 / 256, 0);
  }

  lemma Times64(k: nat)
    ensures 64 * k % 64 == 0 && 64 * k / 64 == k
  {
  }

  /** The low bits that a short group pads with zeros come back as zeros. */
  lemma PaddedSextets(a: byte, b: byte)
    ensures Sextet(Triple(a, b, 0), 0) == 0
    ensures Sextet(Triple(a, 0, 0), 1) == 0
  {
    Times64(1024 * a + 4 * b);
    Times64(1024 * a);
    Times64(16 * a);
    assert Triple(a, b, 0) == 64 * (1024 * a + 4 * b);
    var n := Triple(a, 0, 0);
    assert n == 64 * (1024 * a) && n / 64 == 64 * (16 * a);
    assert Sextet(n, 1) == Sextet(n / 64, 0);
  }

  lemma GroupRoundTrip(s: seq<byte>)
    requires 1 <= |s| <= 3
    ensures DecodeGroup(Group(s)) == Some(s)
    ensures Group(s)[3] == PAD <==> |s| < 3
  {
    hide Symbol, ValueOf, Sextet, Triple, Number, ByteOf;
    var b, c := if |s| > 1 then s[1] else 0, if |s| > 2 then s[2] else 0;
    var n := Triple(s[0], b, c);
    TripleBytes(s[0], b, c);
    Sextets(n);
    PaddedSextets(s[0], b);
    SymbolValue(Sextet(n, 3));
    SymbolValue(Sextet(n, 2));
    SymbolValue(Sextet(n, 1));
    SymbolValue(Sextet(n, 0));
    var bytes := [ByteOf(n, 2), ByteOf(n, 1), ByteOf(n, 0)];
    assert bytes == [s[0], b, c];
    var g := Group(s);
    assert g[0] == Symbol(Sextet(n, 3)) && g[1] == Symbol(Sextet(n, 2));
    if |s| == 1 {
      assert s == bytes[..1];
      assert DecodeGroup(g) == Some(bytes[..1]);
    } else if |s| == 2 {
      assert s == bytes[..2];
      assert DecodeGroup(g) == Some(bytes[..2]);
    } else {
      assert s == bytes;
      assert DecodeGroup(g) == Some(bytes);
    }
  }

  /** Decoding gives back every input. */
  lemma {:induction false} EncodeRoundTrip(s: seq<byte>)
    ensures Decode(Encode(s)) == Some(s)
  {
    hide Group, DecodeGroup;
    if |s| > 3 {
      GroupRoundTrip(s[..3]);
      EncodeRoundTrip(s[3..]);
      var e := Encode(s);
      assert e[..4] == Group(s[..3]) && e[4..] == Encode(s[3..]);
      assert s == s[..3] + s[3..];
    } else if s != [] {
      GroupRoundTrip(s);
      assert Encode(s)[..4] == Group(s);
    }
  }

  // --- the code ---

  /** base64_encode; the encoding ends with a NUL. */
  method Base64Encode(data: seq<byte>, out: array<byte>) returns (rc: int)
    modifies out
    ensures rc == if out.Length < (|data| + 2) / 3 * 4 + 1 then -1 else 0
    ensures rc == 0 ==> out[..(|data| + 2) / 3 * 4 + 1] == Encode(data) + [0]
    ensures rc != 0 ==> out[..] == old(out[..])
  {
    var encodedLen := (|data| + 2) / 3 * 4;
    if out.Length < encodedLen + 1 {
      return -1;
    }
    hide Group, Encode, Encoded;
    var j, i := 0, 0;
    EncodedLength(data);
    NothingEncoded(data, out[..0]);
    while i < |data|
      invariant 0 <= i && 0 <= j <= encodedLen && Encoded(out[..j], data, i)
      decreases |data| - i
    {
      MoreEncoded(out[..j], data, i);
      PutGroup(out, j, data, i);
      j := j + 4;
      i := i + 3;
    }
    AllEncoded(out[..j], data, i);
    out[j] := 0;
    assert out[..j + 1] == out[..j] + [0];
    rc := 0;
  }

  /** The characters so far are the encoding up to position `i`. */
  ghost predicate Encoded(chars: seq<byte>, data: seq<byte>, i: nat) {
    chars + Rest(data, i) == Encode(data)
  }

  lemma NothingEncoded(data: seq<byte>, chars: seq<byte>)
    requires chars == []
    ensures Encoded(chars, data, 0)
  {
    hide Encode;
    assert data[0..] == data && chars + Encode(data) == Encode(data);
    NothingToEncode();
  }

  lemma NothingToEncode()
    ensures Encode([]) == []
  {
  }

  lemma MoreEncoded(chars: seq<byte>, data: seq<byte>, i: nat)
    requires i < |data| && Encoded(chars, data, i)
    ensures Encoded(chars + Group(data[i..]), data, i + 3)
    ensures |chars| + 4 <= |Encode(data)|
  {
    hide Group, Encode, Rest;
    EncodeNext(data, i);
    assert chars + (Group(data[i..]) + Rest(data, i + 3)) == chars + Group(data[i..]) + Rest(data, i + 3);
  }

  lemma AllEncoded(chars: seq<byte>, data: seq<byte>, i: nat)
    requires i >= |data| && Encoded(chars, data, i)
    ensures chars == Encode(data)
  {
    hide Encode;
    assert chars + [] == chars;
  }

  /** The encoding of what is left from position `i` on. */
  ghost function Rest(data: seq<byte>, i: nat): seq<byte> {
    if i < |data| then Encode(data[i..]) else []
  }

  lemma EncodeNext(data: seq<byte>, i: nat)
    requires i < |data|
    ensures Rest(data, i) == Group(data[i..]) + Rest(data, i + 3)
  {
  }

  /** The body of the loop: four characters from position `j` on. */
  method PutGroup(out: array<byte>, j: nat, data: seq<byte>, i: nat)
    requires j + 4 <= out.Length && i < |data|
    modifies out
    ensures out[..j + 4] == old(out[..j]) + Group(data[i..])
  {
    hide Symbol, Sextet, Triple;
    var a := data[i];
    var b := if i + 1 < |data| then data[i + 1] else 0;
    var c := if i + 2 < |data| then data[i + 2] else 0;
    var triple := Triple(a, b, c);
    out[j] := Symbol(Sextet(triple, 3));
    out[j + 1] := Symbol(Sextet(triple, 2));
    out[j + 2] := if i + 1 < |data| then Symbol(Sextet(triple, 1)) else PAD;
    out[j + 3] := if i + 2 < |data| then Symbol(Sextet(triple, 0)) else PAD;
  }

  // --- the accept key ---

  /** "258EAFA5-E914-47DA-95CA-C5AB0DC85B11" */
  function Guid(): (g: seq<byte>)
    ensures |g| == 36
  {
    [50, 53, 56, 69, 65, 70, 65, 53, 45, 69, 57, 49, 52, 45, 52, 55, 68, 65,
     45, 57, 53, 67, 65, 45, 67, 53, 65, 66, 48, 68, 67, 56, 53, 66, 49, 49]
  }

  lemma GuidIs()
    ensures Spells(Guid(), "258EAFA5-E914-47DA-95CA-C5AB0DC85B11")
  {
  }

  /** websocket_calculate_accept_key on a key without NUL: the Base64 of the SHA-1 of key and GUID. */
  method AcceptKey(clientKey: seq<byte>, out: array<byte>) returns (rc: int)
    modifies out
    ensures rc == 0 <==> |clientKey| + 36 < 128 && out.Length >= 29
    ensures rc == 0 ==> out[..29] == Encode(Sha1.Hash(clientKey + Guid())) + [0]
  {
    hide Encode, Sha1.Hash, Guid;
    if |clientKey| + 36 >= 128 {
      return -1;
    }
    var combined := clientKey + Guid();
    HashSize(combined);
    var hash := Sha1.Sha1Compute(combined);
    rc := Base64Encode(hash, out);
  }

  lemma HashSize(msg: seq<byte>)
    ensures |Sha1.Hash(msg)| == 20
  {
  }
}
