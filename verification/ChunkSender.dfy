/** send_video_chunk: a range of a file cut into DATA packets and sent to a connection. */
module ChunkSender {
  import opened Bytes
  import opened PacketCodec
  import opened EngineSpec
  import opened EngineCode

  /** The packets for up to `remaining` bytes from position `pos` on, numbered from
      `number`; positions and the file size are compared as 32-bit numbers. */
  function Chunks(file: seq<byte>, id: uint64, sid: uint32, pos: nat, remaining: nat, number: uint32): seq<Outgoing>
    decreases remaining
  {
    var size := |file| % TWO32;
    var n := ReadCount(file, pos, remaining);
    if remaining == 0 || pos % TWO32 >= size || n == 0 then []
    else
      [ChunkPacket(file, id, sid, pos, n, number)]
      + if (pos + n) % TWO32 >= size then []
        else Chunks(file, id, sid, pos + n, remaining - n, Add32(number, 1))
  }

  /** What fread returns for a full buffer, or the rest wanted, at `pos`. */
  function ReadCount(file: seq<byte>, pos: nat, remaining: nat): (n: nat)
    ensures n <= remaining && n <= MAX_PAYLOAD && (n > 0 ==> pos + n <= |file|)
  {
    if pos >= |file| then 0 else Min(Min(remaining, MAX_PAYLOAD), |file| - pos)
  }

  function ChunkPacket(file: seq<byte>, id: uint64, sid: uint32, pos: nat, n: nat, number: uint32): (p: Outgoing)
    requires pos + n <= |file| && n <= MAX_PAYLOAD
  {
    Packet(DATA, id, number, sid, pos % TWO32, n, file[pos..pos + n])
  }

  /** The outcome of several sends: how many calls were made, and whether the last one worked. */
  datatype AllSent = AllSent(engine: Engine, ok: bool, wire: seq<Datagram>, calls: nat)

  /** Sending packets one by one until one fails; the k-th call happens at `clock(k)`
      and its sendto succeeds if `ok(k)`. */
  function SendAll(e: Engine, packets: seq<Outgoing>, clock: nat -> int, ok: nat -> bool): AllSent {
    if packets == [] then AllSent(e, true, [], 0)
    else
      var n := |packets| - 1;
      var before := SendAll(e, packets[..n], clock, ok);
      if !before.ok then before
      else
        var last := SendToConnection(before.engine, packets[n], clock(n), ok(n));
        AllSent(last.engine, last.ok, before.wire + last.wire, before.calls + 1)
  }

  /** Nothing is sent after a failure. */
  lemma {:induction false} SendAllStops(e: Engine, packets: seq<Outgoing>, clock: nat -> int, ok: nat -> bool, k: nat)
    requires k <= |packets| && !SendAll(e, packets[..k], clock, ok).ok
    ensures SendAll(e, packets, clock, ok) == SendAll(e, packets[..k], clock, ok)
  {
    hide SendToConnection;
    if k == |packets| {
      assert packets[..k] == packets;
    } else {
      var n := |packets| - 1;
      assert packets[..n][..k] == packets[..k];
      SendAllStops(e, packets[..n], clock, ok, k);
    }
  }

  lemma SendAllNext(e: Engine, packets: seq<Outgoing>, clock: nat -> int, ok: nat -> bool, k: nat)
    requires k < |packets|
    ensures SendAll(e, packets[..k + 1], clock, ok) ==
      var before := SendAll(e, packets[..k], clock, ok);
      if !before.ok then before
      else
        var last := SendToConnection(before.engine, packets[k], clock(k), ok(k));
        AllSent(last.engine, last.ok, before.wire + last.wire, before.calls + 1)
  {
    hide SendToConnection;
    assert packets[..k + 1][..k] == packets[..k];
  }

  /** When all sends work, the wire carries the serialized packets in order. */
  lemma {:induction false} WireIsPackets(e: Engine, packets: seq<Outgoing>, clock: nat -> int, ok: nat -> bool)
    requires SendAll(e, packets, clock, ok).ok
    ensures var r := SendAll(e, packets, clock, ok);
      |r.wire| == |packets| && forall i | 0 <= i < |packets| :: r.wire[i].bytes == Encode(packets[i])
  {
    hide SendToConnection, Encode;
    if packets != [] {
      var n := |packets| - 1;
      WireIsPackets(e, packets[..n], clock, ok);
      OneDatagram(SendAll(e, packets[..n], clock, ok).engine, packets[n], clock(n), ok(n));
    }
  }

  lemma OneDatagram(e: Engine, p: Outgoing, now: int, sendOk: bool)
    ensures var r := SendToConnection(e, p, now, sendOk); r.ok ==> |r.wire| == 1 && r.wire[0].bytes == Encode(p)
  {
  }

  lemma {:induction false} ChunksPresent(file: seq<byte>, id: uint64, sid: uint32, pos: nat, remaining: nat, number: uint32)
    ensures forall p | p in Chunks(file, id, sid, pos, remaining, number) ::
      p.Present() && 0 < p.length <= MAX_PAYLOAD && p.flags == DATA && p.connectionId == id && p.streamId == sid
    decreases remaining
  {
    var n := ReadCount(file, pos, remaining);
    if 0 < n {
      ChunksPresent(file, id, sid, pos + n, remaining - n, Add32(number, 1));
    }
  }

  /** The file bytes between two offsets. */
  ghost predicate IsPiece(file: seq<byte>, p: Packet) {
    p.offset + |p.payload| <= |file| && p.payload == file[p.offset..p.offset + |p.payload|]
  }

  /** For a file of 32-bit size the loop's tests come to: not past the end, not past the range. */
  lemma ChunksShape(file: seq<byte>, id: uint64, sid: uint32, pos: nat, remaining: nat, number: uint32)
    requires |file| < TWO32 && pos <= |file|
    ensures var n := ReadCount(file, pos, remaining);
      && n == Min(Min(remaining, MAX_PAYLOAD), |file| - pos)
      && Chunks(file, id, sid, pos, remaining, number) ==
         if n == 0 then []
         else [ChunkPacket(file, id, sid, pos, n, number)]
              + Chunks(file, id, sid, pos + n, remaining - n, Add32(number, 1))
  {
    var n := ReadCount(file, pos, remaining);
    if 0 < n && pos + n == |file| {
      assert Chunks(file, id, sid, pos + n, remaining - n, Add32(number, 1)) == [];
    }
  }

  /** Every packet of the range, by its place: full 16 KiB pieces one after the other and then what is left,
      numbered one by one modulo 2^32. */
  lemma {:induction false} ChunkAt(file: seq<byte>, id: uint64, sid: uint32, pos: nat, remaining: nat,
                                   number: uint32, k: nat)
    requires |file| < TWO32 && pos <= |file|
    requires k < |Chunks(file, id, sid, pos, remaining, number)|
    ensures pos + 16384 * k < Min(pos + remaining, |file|)
    ensures var at := pos + 16384 * k; var n := Min(16384, Min(pos + remaining, |file|) - at);
      Chunks(file, id, sid, pos, remaining, number)[k]
      == Packet(4, id, (number + k) % TWO32, sid, at, n, file[at..at + n])
    decreases k
  {
    hide Chunks, ReadCount, ChunkPacket, Add32;
    ChunksShape(file, id, sid, pos, remaining, number);
    var n := ReadCount(file, pos, remaining);
    FirstChunk(file, id, sid, pos, n, number);
    if k > 0 {
      ChunksShape(file, id, sid, pos + n, remaining - n, Add32(number, 1));
      ChunkAt(file, id, sid, pos + n, remaining - n, Add32(number, 1), k - 1);
      NumberAgain(number, k);
      assert n == 16384 && pos + n + 16384 * (k - 1) == pos + 16384 * k;
    }
  }

  lemma FirstChunk(file: seq<byte>, id: uint64, sid: uint32, pos: nat, n: nat, number: uint32)
    requires |file| < TWO32 && pos + n <= |file| && n <= MAX_PAYLOAD
    ensures ChunkPacket(file, id, sid, pos, n, number) == Packet(4, id, number, sid, pos, n, file[pos..pos + n])
  {
  }

  lemma NumberAgain(number: uint32, k: nat)
    requires k > 0
    ensures (Add32(number, 1) + (k - 1)) % TWO32 == (number + k) % TWO32
  {
  }

  /** And there are as many as the range needs. */
  lemma {:induction false} ChunkCount(file: seq<byte>, id: uint64, sid: uint32, pos: nat, remaining: nat,
                                      number: uint32)
    requires |file| < TWO32 && pos <= |file|
    ensures var size := Min(remaining, |file| - pos); var count := |Chunks(file, id, sid, pos, remaining, number)|;
      16384 * (count - 1) < size <= 16384 * count || size == count == 0
    decreases remaining
  {
    hide Chunks, ReadCount;
    ChunksShape(file, id, sid, pos, remaining, number);
    var n := ReadCount(file, pos, remaining);
    if n > 0 {
      ChunkCount(file, id, sid, pos + n, remaining - n, Add32(number, 1));
    }
  }

  /** The packets are pieces of the file within the range. */
  lemma {:induction false} ChunksArePieces(file: seq<byte>, id: uint64, sid: uint32, pos: nat, remaining: nat, number: uint32)
    requires |file| < TWO32 && pos <= |file|
    ensures forall p | p in Chunks(file, id, sid, pos, remaining, number) ::
      IsPiece(file, p) && pos <= p.offset && p.offset + |p.payload| <= pos + remaining
    decreases remaining
  {
    hide Chunks, ReadCount, ChunkPacket, IsPiece;
    ChunksShape(file, id, sid, pos, remaining, number);
    var n := ReadCount(file, pos, remaining);
    if 0 < n {
      PacketIsPiece(file, id, sid, pos, n, number);
      ChunksArePieces(file, id, sid, pos + n, remaining - n, Add32(number, 1));
    }
  }

  lemma PacketIsPiece(file: seq<byte>, id: uint64, sid: uint32, pos: nat, n: nat, number: uint32)
    requires |file| < TWO32 && pos + n <= |file| && n <= MAX_PAYLOAD
    ensures var p := ChunkPacket(file, id, sid, pos, n, number);
      IsPiece(file, p) && p.offset == pos && |p.payload| == n
  {
  }

  /** And they leave out no byte of the range that the file has. */
  lemma {:induction false} ChunksCoverRange(file: seq<byte>, id: uint64, sid: uint32, pos: nat, remaining: nat,
                                            number: uint32, x: nat)
    requires |file| < TWO32 && pos <= x < Min(pos + remaining, |file|)
    ensures InSome(Chunks(file, id, sid, pos, remaining, number), x)
    decreases remaining
  {
    hide Chunks;
    ChunksShape(file, id, sid, pos, remaining, number);
    var n := ReadCount(file, pos, remaining);
    var rest := Chunks(file, id, sid, pos + n, remaining - n, Add32(number, 1));
    var head := ChunkPacket(file, id, sid, pos, n, number);
    if x < pos + n {
      assert head in [head] + rest && Holds(head, x);
    } else {
      ChunksCoverRange(file, id, sid, pos + n, remaining - n, Add32(number, 1), x);
      var p :| p in rest && Holds(p, x);
      assert p in [head] + rest;
    }
  }

  predicate Holds(p: Packet, x: nat) {
    p.offset <= x < p.offset + |p.payload|
  }

  ghost predicate InSome(packets: seq<Packet>, x: nat) {
    exists p :: p in packets && Holds(p, x)
  }

  // --- the code ---

  /** send_video_chunk; `found` says whether stat, fopen and fseek succeed, `next` is the next packet number. */
  method SendVideoChunk(engine: QuicEngine, id: uint64, sid: uint32, file: seq<byte>, found: bool, offset: uint32,
                        length: uint32, number: uint32, clock: nat -> int, ok: nat -> bool)
    returns (rc: int, next: uint32)
    modifies engine.connections, engine.pending, engine`metrics, engine`wire
    ensures !found || offset >= |file| % TWO32 ==>
      rc == -1 && next == number && engine.Abs() == old(engine.Abs()) && engine.wire == old(engine.wire)
    ensures found && offset < |file| % TWO32 ==>
      var r := SendAll(old(engine.Abs()), Chunks(file, id, sid, offset, length, number), clock, ok);
      && engine.Abs() == r.engine && engine.wire == old(engine.wire) + r.wire
      && rc == (if r.ok then 0 else -1) && next == Add32(number, r.calls)
  {
    hide SendToConnection, Chunks, ReadCount, SentSoFar, SentAs, Add32, SendAll;
    next := number;
    NumberFirst(number);
    var size := |file| % TWO32;
    if !found || offset >= size {
      return -1, next;
    }
    ghost var was, wire0 := engine.Abs(), engine.wire;
    ghost var packets := Chunks(file, id, sid, offset, length, number);
    var remaining, sentBytes: nat, k: nat := length, 0, 0;
    NoneSent(was, packets, clock, ok, wire0);
    while remaining > 0 && (offset + sentBytes) % TWO32 < size
      invariant 0 <= remaining <= length
      invariant k <= |packets| && next == Add32(number, k)
      invariant packets[k..] == Chunks(file, id, sid, offset + sentBytes, remaining, next)
      invariant SentSoFar(was, packets[..k], clock, ok, k, true, engine.Abs(), wire0, engine.wire)
      decreases remaining
    {
      var n := ReadCount(file, offset + sentBytes, remaining);
      if n == 0 {
        break;
      }
      var p := ChunkPacket(file, id, sid, offset + sentBytes, n, next);
      ChunksNext(file, id, sid, offset + sentBytes, remaining, next, packets, k);
      NumberNext(number, k);
      next := Add32(next, 1);
      ghost var before, wire := engine.Abs(), engine.wire;
      var status := SendChunk(engine, p, clock(k), ok(k));
      OneMoreSent(was, packets, clock, ok, k, before, wire0, wire);
      k := k + 1;
      if status != 0 {
        StoppedThere(was, packets, clock, ok, k, engine.Abs(), wire0, engine.wire);
        return -1, next;
      }
      sentBytes := sentBytes + n;
      if (offset + sentBytes) % TWO32 >= size {
        AllAreSent(was, packets, clock, ok, k, engine.Abs(), wire0, engine.wire);
        return 0, next;
      }
      remaining := remaining - n;
    }
    ChunksEnd(file, id, sid, offset + sentBytes, remaining, next);
    AllAreSent(was, packets, clock, ok, k, engine.Abs(), wire0, engine.wire);
    rc := 0;
  }

  lemma NumberFirst(number: uint32)
    ensures Add32(number, 0) == number
  {
  }

  lemma NumberNext(number: uint32, k: nat)
    ensures Add32(Add32(number, k), 1) == Add32(number, k + 1)
  {
  }

  /** The packet is as it was built, so it goes out as it is. */
  method SendChunk(engine: QuicEngine, p: Outgoing, now: int, sendOk: bool) returns (status: int)
    modifies engine.connections, engine.pending, engine`metrics, engine`wire
    ensures var r := SendToConnection(old(engine.Abs()), p, now, sendOk);
      engine.Abs() == r.engine && status == (if r.ok then 0 else -1) && engine.wire == old(engine.wire) + r.wire
  {
    hide SendToConnection;
    ghost var sent;
    status, sent := engine.SendToId(p, now, sendOk);
  }

  /** Sending `packets` takes `calls` calls, succeeds or not, and leads to `now` and `wire`. */
  ghost predicate SentSoFar(was: Engine, packets: seq<Outgoing>, clock: nat -> int, ok: nat -> bool, calls: nat,
                       all: bool, now: Engine, wire0: seq<Datagram>, wire: seq<Datagram>) {
    var r := SendAll(was, packets, clock, ok);
    r.ok == all && r.calls == calls && now == r.engine && wire == wire0 + r.wire
  }

  lemma NoneSent(was: Engine, packets: seq<Outgoing>, clock: nat -> int, ok: nat -> bool, wire: seq<Datagram>)
    ensures SentSoFar(was, packets[..0], clock, ok, 0, true, was, wire, wire) && packets[0..] == packets
  {
    hide SendAll;
    SendNothing(was, packets, clock, ok);
    assert wire + [] == wire;
  }

  lemma OneMoreSent(was: Engine, packets: seq<Outgoing>, clock: nat -> int, ok: nat -> bool, k: nat, before: Engine,
                    wire0: seq<Datagram>, wire: seq<Datagram>)
    requires k < |packets| && SentSoFar(was, packets[..k], clock, ok, k, true, before, wire0, wire)
    ensures var r := SendToConnection(before, packets[k], clock(k), ok(k));
      SentSoFar(was, packets[..k + 1], clock, ok, k + 1, r.ok, r.engine, wire0, wire + r.wire)
  {
    hide SendAll, SendToConnection;
    SendAllNext(was, packets, clock, ok, k);
    var r, s := SendToConnection(before, packets[k], clock(k), ok(k)), SendAll(was, packets[..k], clock, ok);
    assert wire0 + s.wire + r.wire == wire0 + (s.wire + r.wire);
  }

  lemma StoppedThere(was: Engine, packets: seq<Outgoing>, clock: nat -> int, ok: nat -> bool, k: nat, now: Engine,
                     wire0: seq<Datagram>, wire: seq<Datagram>)
    requires k <= |packets| && SentSoFar(was, packets[..k], clock, ok, k, false, now, wire0, wire)
    ensures var r := SendAll(was, packets, clock, ok);
      !r.ok && r.calls == k && now == r.engine && wire == wire0 + r.wire
  {
    hide SendAll;
    SendAllStops(was, packets, clock, ok, k);
  }

  lemma AllAreSent(was: Engine, packets: seq<Outgoing>, clock: nat -> int, ok: nat -> bool, k: nat, now: Engine,
                   wire0: seq<Datagram>, wire: seq<Datagram>)
    requires k <= |packets| && packets[k..] == []
    requires SentSoFar(was, packets[..k], clock, ok, k, true, now, wire0, wire)
    ensures var r := SendAll(was, packets, clock, ok);
      r.ok && r.calls == k && now == r.engine && wire == wire0 + r.wire
  {
    hide SendAll;
    SendAllOf(packets, k);
  }

  lemma SendNothing(e: Engine, packets: seq<Outgoing>, clock: nat -> int, ok: nat -> bool)
    ensures SendAll(e, packets[..0], clock, ok) == AllSent(e, true, [], 0) && packets[0..] == packets
  {
  }

  lemma SendAllOf(packets: seq<Outgoing>, k: nat)
    requires k <= |packets| && packets[k..] == []
    ensures k == |packets| && packets[..k] == packets
  {
  }

  /** One turn of the loop takes the next packet. */
  lemma ChunksNext(file: seq<byte>, id: uint64, sid: uint32, pos: nat, remaining: nat, number: uint32,
                   packets: seq<Outgoing>, k: nat)
    requires remaining > 0 && pos % TWO32 < |file| % TWO32 && ReadCount(file, pos, remaining) > 0
    requires k <= |packets| && packets[k..] == Chunks(file, id, sid, pos, remaining, number)
    ensures k < |packets|
    ensures var n := ReadCount(file, pos, remaining);
      && packets[k] == ChunkPacket(file, id, sid, pos, n, number)
      && packets[k + 1..] == if (pos + n) % TWO32 >= |file| % TWO32 then []
                             else Chunks(file, id, sid, pos + n, remaining - n, Add32(number, 1))
  {
    assert packets[k] == packets[k..][0] && packets[k + 1..] == packets[k..][1..];
  }

  lemma ChunksEnd(file: seq<byte>, id: uint64, sid: uint32, pos: nat, remaining: nat, number: uint32)
    requires remaining == 0 || pos % TWO32 >= |file| % TWO32 || ReadCount(file, pos, remaining) == 0
    ensures Chunks(file, id, sid, pos, remaining, number) == []
  {
  }
}
