/** The 25-byte packet header and its payload on the wire. */
module PacketCodec {
  import opened Bytes

  const MAX_PAYLOAD: nat := 16 * 1024
  const HEADER_SIZE: nat := 25

  const INITIAL: nat := 0x01
  const HANDSHAKE: nat := 0x02
  const DATA: nat := 0x04
  const ACK: nat := 0x08
  const CLOSE: nat := 0x10

  /** `payload` is what the payload pointer reaches: `length` bytes, or nothing when it is NULL. */
  datatype Packet = Packet(flags: byte, connectionId: uint64, packetNumber: uint32, streamId: uint32,
                           offset: uint32, length: uint32, payload: seq<byte>)
  {
    predicate Present() {
      |payload| == length
    }

    predicate Has(flag: nat)
      requires flag > 0
    {
      HasFlag(flags, flag)
    }
  }

  // --- words in the memory of a little-endian host ---

  function Reverse(s: seq<byte>): (r: seq<byte>)
    ensures |r| == |s|
  {
    if s == [] then [] else Reverse(s[1..]) + [s[0]]
  }

  /** The big-endian number of four bytes. */
  function Number32(s: seq<byte>): uint32
    requires |s| == 4
  {
    Bound32(s);
    FromBE(s)
  }

  lemma Bound32(s: seq<byte>)
    requires |s| == 4
    ensures FromBE(s) < TWO32
  {
    BEBytesRoundTrip(s);
    Pow256Of4();
  }

  lemma Pow256Of4()
    ensures Pow256(4) == TWO32
  {
    assert Pow256(2) == 0x1_0000;
  }

  /** htonl and ntohl on such a host: the bytes change places. */
  function Swap32(v: uint32): uint32 {
    Number32(Reverse(ToBE(v, 4)))
  }

  /** host_to_be64 and be64_to_host: the two halves are swapped byte by byte and change places. */
  function Swap64(v: uint64): uint64 {
    Swap32(v / TWO32) + Swap32(v % TWO32) * TWO32
  }

  /** The lowest byte comes first in memory. */
  function Memory32(v: uint32): (m: seq<byte>)
    ensures |m| == 4
  {
    Reverse(ToBE(v, 4))
  }

  function Memory64(v: uint64): (m: seq<byte>)
    ensures |m| == 8
  {
    Memory32(v % TWO32) + Memory32(v / TWO32)
  }

  function Load32(m: seq<byte>): uint32
    requires |m| == 4
  {
    Number32(Reverse(m))
  }

  function Load64(m: seq<byte>): uint64
    requires |m| == 8
  {
    Load32(m[..4]) + Load32(m[4..]) * TWO32
  }

  lemma {:induction false} ReverseSnoc(s: seq<byte>, b: byte)
    ensures Reverse(s + [b]) == [b] + Reverse(s)
  {
    if s != [] {
      ReverseSnoc(s[1..], b);
      assert (s + [b])[1..] == s[1..] + [b];
    }
  }

  lemma {:induction false} ReverseTwice(s: seq<byte>)
    ensures Reverse(Reverse(s)) == s
  {
    if s != [] {
      ReverseTwice(s[1..]);
      ReverseSnoc(Reverse(s[1..]), s[0]);
    }
  }

  lemma NumberBytes(s: seq<byte>)
    requires |s| == 4
    ensures ToBE(Number32(s), 4) == s
  {
    BEBytesRoundTrip(s);
  }

  lemma BytesNumber(v: uint32)
    ensures Number32(ToBE(v, 4)) == v
  {
    Pow256Of4();
    BERoundTrip(v, 4);
  }

  /** What htonl leaves in memory is most significant byte first, and ntohl gets the number back. */
  lemma Swap32Memory(v: uint32)
    ensures Memory32(Swap32(v)) == ToBE(v, 4)
    ensures Swap32(Load32(ToBE(v, 4))) == v
  {
    hide ToBE, Reverse, Number32;
    var s := ToBE(v, 4);
    NumberBytes(Reverse(s));
    ReverseTwice(s);
    BytesNumber(v);
  }

  lemma Swap32Load(m: seq<byte>)
    requires |m| == 4
    ensures ToBE(Swap32(Load32(m)), 4) == m
  {
    hide ToBE, Reverse, Number32;
    NumberBytes(Reverse(m));
    ReverseTwice(m);
    NumberBytes(m);
  }

  /** Two halves of a 64-bit number. */
  lemma Halves(lo: uint32, hi: uint32)
    ensures (lo + hi * TWO32) % TWO32 == lo && (lo + hi * TWO32) / TWO32 == hi
  {
  }

  lemma {:induction false} SplitBytes(hi: nat, lo: nat, n: nat, k: nat)
    requires lo < Pow256(k)
    ensures ToBE(hi * Pow256(k) + lo, n + k) == ToBE(hi, n) + ToBE(lo, k)
    decreases k
  {
    if k > 0 {
      NextByte(hi, lo, k);
      SplitBytes(hi, lo / 256, n, k - 1);
    } else {
      assert Pow256(0) == 1;
    }
  }

  lemma NextByte(hi: nat, lo: nat, k: nat)
    requires k > 0 && lo < Pow256(k)
    ensures var v := hi * Pow256(k) + lo;
      v / 256 == hi * Pow256(k - 1) + lo / 256 && v % 256 == lo % 256 && lo / 256 < Pow256(k - 1)
  {
    var v, h := hi * Pow256(k) + lo, hi * Pow256(k - 1);
    assert hi * Pow256(k) == 256 * h;
    assert v == 256 * (h + lo / 256) + lo % 256;
  }

  /** Eight bytes, most significant first, are those of the high half and then those of the low one. */
  lemma BytesOfHalves(v: uint64)
    ensures ToBE(v, 8) == ToBE(v / TWO32, 4) + ToBE(v % TWO32, 4)
  {
    hide ToBE;
    Pow256Of4();
    SplitBytes(v / TWO32, v % TWO32, 4, 4);
  }

  lemma Swap64Memory(v: uint64)
    ensures Memory64(Swap64(v)) == ToBE(v, 8)
    ensures Swap64(Load64(ToBE(v, 8))) == v
  {
    hide Swap32, Memory32, Load32, ToBE;
    BytesOfHalves(v);
    Swap32Memory(v / TWO32);
    Swap32Memory(v % TWO32);
    Halves(Swap32(v / TWO32), Swap32(v % TWO32));
    var m := ToBE(v, 8);
    assert m[..4] == ToBE(v / TWO32, 4) && m[4..] == ToBE(v % TWO32, 4);
    Halves(Load32(m[..4]), Load32(m[4..]));
  }

  lemma Swap64Load(m: seq<byte>)
    requires |m| == 8
    ensures ToBE(Swap64(Load64(m)), 8) == m
  {
    hide Swap32, Memory32, Load32, ToBE;
    Halves(Load32(m[..4]), Load32(m[4..]));
    Halves(Swap32(Load32(m[4..])), Swap32(Load32(m[..4])));
    Swap32Load(m[..4]);
    Swap32Load(m[4..]);
    BytesOfHalves(Swap64(Load64(m)));
    assert m == m[..4] + m[4..];
  }

  // --- the format ---

  function Header(p: Packet): (h: seq<byte>)
    ensures |h| == HEADER_SIZE
  {
    [p.flags] + Memory64(Swap64(p.connectionId)) + Memory32(Swap32(p.packetNumber))
      + Memory32(Swap32(p.streamId)) + Memory32(Swap32(p.offset)) + Memory32(Swap32(p.length))
  }

  /** The buffer after serializing: a NULL payload leaves its bytes as they were. */
  function SerializeInto(p: Packet, buffer: seq<byte>): seq<byte>
    requires p.Present() || p.payload == []
    requires HEADER_SIZE + p.length <= |buffer|
  {
    Header(p)
      + (if p.Present() then p.payload else buffer[HEADER_SIZE..HEADER_SIZE + p.length])
      + buffer[HEADER_SIZE + p.length..]
  }

  function Encode(p: Packet): seq<byte> {
    Header(p) + p.payload
  }

  function Word32(b: seq<byte>, at: nat): uint32
    requires at + 4 <= |b|
  {
    Swap32(Load32(b[at..at + 4]))
  }

  function Decode(b: seq<byte>): Option<Packet> {
    if |b| < HEADER_SIZE then None
    else
      var length := Word32(b, 21);
      if length > MAX_PAYLOAD || |b| < HEADER_SIZE + length then None
      else Some(Packet(b[0], Swap64(Load64(b[1..9])), Word32(b, 9), Word32(b, 13), Word32(b, 17), length,
                       b[HEADER_SIZE..HEADER_SIZE + length]))
  }

  /** The header is the flags byte and then every field most significant byte first. */
  lemma HeaderIsBigEndian(p: Packet)
    ensures Header(p) == [p.flags] + ToBE(p.connectionId, 8) + ToBE(p.packetNumber, 4) + ToBE(p.streamId, 4)
                         + ToBE(p.offset, 4) + ToBE(p.length, 4)
  {
    Swap64Memory(p.connectionId);
    Swap32Memory(p.packetNumber);
    Swap32Memory(p.streamId);
    Swap32Memory(p.offset);
    Swap32Memory(p.length);
  }

  lemma HeaderFields(p: Packet, b: seq<byte>)
    requires Header(p) <= b
    ensures b[0] == p.flags && b[1..9] == ToBE(p.connectionId, 8) && b[9..13] == ToBE(p.packetNumber, 4)
    ensures b[13..17] == ToBE(p.streamId, 4) && b[17..21] == ToBE(p.offset, 4) && b[21..25] == ToBE(p.length, 4)
  {
    HeaderIsBigEndian(p);
    var h := Header(p);
    assert forall i, j | 0 <= i <= j <= |h| :: b[i..j] == h[i..j];
  }

  /** Deserialize undoes serialize, whatever follows the packet in the buffer. */
  lemma DecodeUndoesEncode(p: Packet, junk: seq<byte>)
    requires p.Present() && p.length <= MAX_PAYLOAD
    ensures Decode(Encode(p) + junk) == Some(p)
  {
    hide Header, Load32, Load64, Swap32, Swap64, ToBE;
    var b := Encode(p) + junk;
    HeaderFields(p, b);
    Swap64Memory(p.connectionId);
    Swap32Memory(p.packetNumber);
    Swap32Memory(p.streamId);
    Swap32Memory(p.offset);
    Swap32Memory(p.length);
    assert b[HEADER_SIZE..HEADER_SIZE + p.length] == p.payload;
  }

  /** Whatever deserializes is the serialization of the packet it gives. */
  lemma EncodeUndoesDecode(b: seq<byte>)
    requires Decode(b).Some?
    ensures var p := Decode(b).value;
      && p.Present() && p.length <= MAX_PAYLOAD
      && Encode(p) == b[..HEADER_SIZE + p.length]
  {
    hide Header, Load32, Load64, Swap32, Swap64, ToBE;
    var p := Decode(b).value;
    HeaderIsBigEndian(p);
    Swap64Load(b[1..9]);
    Swap32Load(b[9..13]);
    Swap32Load(b[13..17]);
    Swap32Load(b[17..21]);
    Swap32Load(b[21..25]);
    HeaderPieces(b);
    assert b[..HEADER_SIZE + p.length] == b[..HEADER_SIZE] + p.payload;
  }

  lemma HeaderPieces(b: seq<byte>)
    requires |b| >= HEADER_SIZE
    ensures b[..HEADER_SIZE] == [b[0]] + b[1..9] + b[9..13] + b[13..17] + b[17..21] + b[21..25]
  {
  }

  /** Only the first 25 + 16384 bytes matter, so a receive buffer of that size loses nothing. */
  lemma DecodeIgnoresTail(b: seq<byte>)
    requires |b| >= HEADER_SIZE + MAX_PAYLOAD
    ensures Decode(b) == Decode(b[..HEADER_SIZE + MAX_PAYLOAD])
  {
    var c := b[..HEADER_SIZE + MAX_PAYLOAD];
    assert forall i, j | 0 <= i <= j <= |c| :: c[i..j] == b[i..j];
  }

  // --- the buffer code ---

  /** memcpy(buffer + at, bytes, |bytes|) */
  method Put(buffer: array<byte>, at: nat, bytes: seq<byte>)
    requires at + |bytes| <= buffer.Length
    modifies buffer
    ensures buffer[..at + |bytes|] == old(buffer[..at]) + bytes
    ensures forall k | at + |bytes| <= k < buffer.Length :: buffer[k] == old(buffer[k])
  {
    forall i | 0 <= i < |bytes| {
      buffer[at + i] := bytes[i];
    }
  }

  method PutPayload(p: Packet, buffer: array<byte>)
    requires p.Present() || p.payload == []
    requires HEADER_SIZE + p.length <= buffer.Length
    modifies buffer
    ensures buffer[..HEADER_SIZE] == old(buffer[..HEADER_SIZE])
    ensures buffer[HEADER_SIZE..HEADER_SIZE + p.length] ==
      if p.Present() then p.payload else old(buffer[HEADER_SIZE..HEADER_SIZE + p.length])
    ensures buffer[HEADER_SIZE + p.length..] == old(buffer[HEADER_SIZE + p.length..])
  {
    if p.length > 0 && p.payload != [] {
      Put(buffer, HEADER_SIZE, p.payload);
    }
  }

  lemma ThreeParts(s: seq<byte>, i: nat, j: nat)
    requires i <= j <= |s|
    ensures s == s[..i] + s[i..j] + s[j..]
  {
  }

  method PutHeader(p: Packet, buffer: array<byte>)
    requires HEADER_SIZE <= buffer.Length
    modifies buffer
    ensures buffer[..HEADER_SIZE] == Header(p)
    ensures buffer[HEADER_SIZE..] == old(buffer[HEADER_SIZE..])
  {
    hide Swap32, Swap64, Memory32, Memory64;
    buffer[0] := p.flags;
    assert buffer[..1] == [p.flags];
    Put(buffer, 1, Memory64(Swap64(p.connectionId)));
    Put(buffer, 9, Memory32(Swap32(p.packetNumber)));
    Put(buffer, 13, Memory32(Swap32(p.streamId)));
    Put(buffer, 17, Memory32(Swap32(p.offset)));
    Put(buffer, 21, Memory32(Swap32(p.length)));
  }

  method Serialize(p: Packet, buffer: array<byte>) returns (rc: int, outLen: nat)
    requires p.Present() || p.payload == []
    modifies buffer
    ensures rc == 0 <==> p.length <= MAX_PAYLOAD && HEADER_SIZE + p.length <= buffer.Length
    ensures rc == 0 ==> outLen == HEADER_SIZE + p.length && buffer[..] == SerializeInto(p, old(buffer[..]))
    ensures rc != 0 ==> rc == -1 && outLen == 0 && buffer[..] == old(buffer[..])
  {
    rc, outLen := -1, 0;
    if p.length > MAX_PAYLOAD {
      return;
    }
    var required := HEADER_SIZE + p.length;
    if buffer.Length < required {
      return;
    }
    hide Header, SerializeInto;
    ghost var was := buffer[..];
    PutHeader(p, buffer);
    assert buffer[HEADER_SIZE..required] == was[HEADER_SIZE..required] by {
      Within(buffer[..], was, HEADER_SIZE, required);
    }
    assert buffer[required..] == was[required..] by {
      Within(buffer[..], was, required, buffer.Length);
    }
    PutPayload(p, buffer);
    rc, outLen := 0, required;
    IsSerialized(p, was, buffer[..]);
  }

  /** Sequences with the same end agree within it. */
  lemma Within(a: seq<byte>, b: seq<byte>, i: nat, j: nat)
    requires HEADER_SIZE <= i <= j <= |a| == |b| && a[HEADER_SIZE..] == b[HEADER_SIZE..]
    ensures a[i..j] == b[i..j] && (j == |a| ==> a[i..] == b[i..])
  {
    assert a[i..j] == a[HEADER_SIZE..][i - HEADER_SIZE..j - HEADER_SIZE];
    assert b[i..j] == b[HEADER_SIZE..][i - HEADER_SIZE..j - HEADER_SIZE];
  }

  lemma IsSerialized(p: Packet, was: seq<byte>, now: seq<byte>)
    requires (p.Present() || p.payload == []) && HEADER_SIZE + p.length <= |was| == |now|
    requires var required := HEADER_SIZE + p.length;
      && now[..HEADER_SIZE] == Header(p) && now[required..] == was[required..]
      && now[HEADER_SIZE..required] == if p.Present() then p.payload else was[HEADER_SIZE..required]
    ensures now == SerializeInto(p, was)
  {
    hide Header;
    ThreeParts(now, HEADER_SIZE, HEADER_SIZE + p.length);
  }

  method Deserialize(buffer: array<byte>, bufferLen: nat) returns (rc: int, p: Option<Packet>)
    requires bufferLen <= buffer.Length
    ensures p == Decode(buffer[..bufferLen])
    ensures rc == if p.Some? then 0 else -1
  {
    if bufferLen < HEADER_SIZE {
      return -1, None;
    }
    hide Load32, Load64, Swap32, Swap64;
    ghost var b := buffer[..bufferLen];
    var flags := buffer[0];
    var connectionId := Swap64(Load64(buffer[1..9]));
    var packetNumber := Swap32(Load32(buffer[9..13]));
    var streamId := Swap32(Load32(buffer[13..17]));
    var offset := Swap32(Load32(buffer[17..21]));
    var length := Swap32(Load32(buffer[21..25]));
    assert forall i, j | 0 <= i <= j <= bufferLen :: buffer[i..j] == b[i..j];
    var required := HEADER_SIZE + length;
    if length > MAX_PAYLOAD || bufferLen < required {
      return -1, None;
    }
    p := Some(Packet(flags, connectionId, packetNumber, streamId, offset, length, buffer[HEADER_SIZE..required]));
    rc := 0;
  }
}
