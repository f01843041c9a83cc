/** The engine's code over its slot arrays, proved against module EngineSpec. */
module EngineCode {
  import opened Bytes
  import opened PacketCodec
  import opened Reassembly
  import opened EngineSpec
  import Streams = StreamTable

  class QuicEngine {
    const connections: array<Conn>
    const pending: array<Pending>
    var metrics: Metrics
    /** What went on the wire, and what the stream handler was given. */
    ghost var wire: seq<Datagram>
    ghost var delivered: seq<Delivery>

    ghost predicate Valid() {
      connections.Length == MAX_CONNECTIONS && pending.Length == MAX_PENDING
    }

    ghost function Abs(): Engine
      reads this, connections, pending
    {
      Engine(connections[..], pending[..], metrics)
    }

    /** quic_engine_init's memset */
    constructor ()
      ensures Valid() && fresh(connections) && fresh(pending) && Abs() == Init() && wire == [] && delivered == []
    {
      connections := new Conn[MAX_CONNECTIONS](i => EmptyConn);
      pending := new Pending[MAX_PENDING](i => EmptyPending);
      metrics := Metrics(0, 0, 0, 0, 0);
      wire, delivered := [], [];
      new;
      assert connections[..] == Init().conns;
      assert pending[..] == Init().pending;
    }

    /** quic_engine_find_entry_locked: the index of the entry, or the table size for NULL. */
    method FindEntry(id: uint64) returns (i: nat)
      ensures i == Find(connections[..], id)
    {
      i := 0;
      while i < connections.Length
        invariant i <= connections.Length
        invariant FindFrom(connections[..], id, i) == Find(connections[..], id)
      {
        if connections[i].inUse && connections[i].id == id {
          return;
        }
        i := i + 1;
      }
    }

    /** quic_engine_add_connection_locked */
    method AddConnection(id: uint64, addr: Address, now: int) returns (rc: int)
      modifies connections
      ensures var k := Free(old(connections[..]));
        if k == connections.Length then rc == -1 && connections[..] == old(connections[..])
        else rc == 0 && connections[..] ==
               old(connections[..])[k := Conn(true, id, addr, now, Connecting, Streams.EmptyTable())]
    {
      var i := 0;
      while i < connections.Length
        invariant i <= connections.Length
        invariant connections[..] == old(connections[..])
        invariant FreeFrom(connections[..], i) == Free(connections[..])
      {
        if !connections[i].inUse {
          connections[i] := Conn(true, id, addr, now, Connecting, Streams.EmptyTable());
          return 0;
        }
        i := i + 1;
      }
      rc := -1;
    }

    /** quic_engine_clear_pending_for_connection */
    method ClearPendingFor(id: uint64)
      modifies pending
      ensures pending[..] == ClearPending(old(pending[..]), {id})
    {
      var i := 0;
      while i < pending.Length
        invariant i <= pending.Length
        invariant forall j | 0 <= j < pending.Length ::
          pending[j] == if j < i then ClearPending(old(pending[..]), {id})[j] else old(pending[j])
      {
        if pending[i].inUse && pending[i].id == id {
          pending[i] := pending[i].(inUse := false);
        }
        i := i + 1;
      }
    }

    /** Closes entry `i`: the entry, its streams, its pending packets, the count. */
    method CloseEntry(i: nat)
      requires i < connections.Length
      modifies connections, pending, `metrics
      ensures Abs() == CloseConn(old(Abs()), i)
    {
      connections[i] := ClosedConn(connections[i]);
      ClearPendingFor(connections[i].id);
      metrics := metrics.(closes := metrics.closes + 1);
    }

    /** quic_engine_cleanup_connections_locked */
    method CleanupConnections(now: int)
      modifies connections, pending, `metrics
      ensures Abs() == Cleanup(old(Abs()), now)
    {
      ghost var was := Abs();
      CleanupStarts(was, now);
      var i := 0;
      while i < connections.Length
        invariant i <= connections.Length
        invariant Abs() == CleanupUpTo(was, i, now)
      {
        hide CleanupUpTo, CloseConn;
        CleanupNext(was, i, now);
        if connections[i].inUse && now - connections[i].lastSeen > CONNECTION_TIMEOUT {
          CloseEntry(i);
        }
        i := i + 1;
      }
      CleanupEnds(was, now);
    }

    /** quic_engine_track_pending */
    method TrackPacket(p: Packet, bytes: seq<byte>, now: int)
      modifies pending
      ensures pending[..] == Track(old(pending[..]), p, bytes, now)
    {
      if !p.Has(DATA) {
        return;
      }
      var i := 0;
      while i < pending.Length
        invariant i <= pending.Length
        invariant pending[..] == old(pending[..])
        invariant FreePendingFrom(pending[..], i) == FreePendingFrom(pending[..], 0)
      {
        if !pending[i].inUse {
          pending[i] := Pending(true, p.connectionId, p.packetNumber, bytes, now, 0);
          return;
        }
        i := i + 1;
      }
    }

    /** quic_engine_ack_pending */
    method AckPacket(id: uint64, number: uint32)
      modifies pending
      ensures pending[..] == AckPending(old(pending[..]), id, number)
    {
      var i := 0;
      while i < pending.Length
        invariant i <= pending.Length
        invariant pending[..] == old(pending[..])
        invariant FindPendingFrom(pending[..], id, number, i) == FindPendingFrom(pending[..], id, number, 0)
      {
        if pending[i].inUse && pending[i].id == id && pending[i].number == number {
          pending[i] := pending[i].(inUse := false);
          return;
        }
        i := i + 1;
      }
    }

    /** quic_engine_retransmit_pending; sendto fails for the slots in `failed`. */
    method RetransmitPending(now: int, failed: set<nat>)
      modifies pending, `metrics, `wire
      ensures var r := Retransmit(old(Abs()), now, failed);
        Abs() == r.engine && wire == old(wire) + r.wire
    {
      hide RetransmitUpTo, RetransmitTable, RetransmitWire, SlotSent, Retransmit;
      ghost var was := Abs();
      RetransmitStarts(was, now, failed);
      var i := 0;
      while i < pending.Length
        invariant i <= pending.Length
        invariant Abs() == RetransmitUpTo(was, i, now, failed)
        invariant wire == old(wire) + RetransmitWire(was.conns, was.pending, now, failed, i)
      {
        ghost var sent := RetransmitWire(was.conns, was.pending, now, failed, i);
        ghost var slot := SlotSent(Abs(), i, now, i !in failed);
        RetransmitNext(was, i, now, failed);
        RetransmitSlot(i, now, i !in failed);
        assert old(wire) + sent + slot.wire == old(wire) + (sent + slot.wire);
        i := i + 1;
      }
      RetransmitEnds(was, now, failed);
    }

    /** The body of that loop. */
    method RetransmitSlot(i: nat, now: int, sendOk: bool)
      requires i < pending.Length
      modifies pending, `metrics, `wire
      ensures var r := SlotSent(old(Abs()), i, now, sendOk);
        Abs() == r.engine && wire == old(wire) + r.wire
    {
      if !pending[i].inUse {
        return;
      }
      if now - pending[i].lastSent < RETRANS_TIMEOUT {
        return;
      }
      var j := FindEntry(pending[i].id);
      if j == connections.Length {
        pending[i] := pending[i].(inUse := false);
        return;
      }
      var addr := connections[j].addr;
      if sendOk {
        wire := wire + [Datagram(pending[i].bytes, addr)];
        pending[i] := pending[i].(lastSent := now, retries := pending[i].retries + 1);
        metrics := metrics.(sent := metrics.sent + 1);
        if pending[i].retries >= MAX_RETRIES {
          pending[i] := pending[i].(inUse := false);
        }
      } else {
        pending[i] := pending[i].(inUse := false);
      }
    }

    /** quic_engine_send; a NULL payload of positive length goes out as whatever is in the local buffer, so the
        packet that is sent and tracked is `sent`. */
    method SendPacket(p: Packet, addr: Address, now: int, sendOk: bool) returns (rc: int, ghost sent: Outgoing)
      requires p.Present() || p.payload == []
      modifies pending, `metrics, `wire
      ensures SentAs(p, sent)
      ensures var r := Send(old(Abs()), sent, addr, now, sendOk);
        Abs() == r.engine && rc == (if r.ok then 0 else -1) && wire == old(wire) + r.wire
    {
      hide Track, SerializeInto, Header, Filled;
      var buffer := new byte[HEADER_SIZE + MAX_PAYLOAD];
      ghost var junk := buffer[..];
      sent := Filled(p, junk[HEADER_SIZE..]);
      FilledIsSent(p, junk[HEADER_SIZE..]);
      var status, len := Serialize(p, buffer);
      if status != 0 {
        return -1, sent;
      }
      SerializedBytes(p, junk);
      assert buffer[..len] == Encode(sent);
      if !sendOk {
        return -1, sent;
      }
      wire := wire + [Datagram(buffer[..len], addr)];
      metrics := metrics.(sent := metrics.sent + 1);
      TrackPacket(p, buffer[..len], now);
      TrackedAs(old(pending[..]), p, sent, now);
      rc := 0;
    }

    /** quic_engine_get_connection */
    method GetAddress(id: uint64, now: int) returns (addr: Option<Address>)
      modifies connections, pending, `metrics
      ensures (Abs(), addr) == GetConnection(old(Abs()), id, now)
    {
      hide Cleanup;
      CleanupConnections(now);
      var i := FindEntry(id);
      addr := None;
      if i < connections.Length && connections[i].state == Connected {
        addr := Some(connections[i].addr);
        connections[i] := connections[i].(lastSeen := now);
      }
    }

    /** quic_engine_send_to_connection */
    method SendToId(p: Packet, now: int, sendOk: bool) returns (rc: int, ghost sent: Outgoing)
      requires p.Present() || p.payload == []
      modifies connections, pending, `metrics, `wire
      ensures SentAs(p, sent)
      ensures var r := SendToConnection(old(Abs()), sent, now, sendOk);
        Abs() == r.engine && rc == (if r.ok then 0 else -1) && wire == old(wire) + r.wire
    {
      hide Send, GetConnection, Filled;
      var addr := GetAddress(p.connectionId, now);
      if addr.None? {
        FilledIsSent(p, []);
        return -1, Filled(p, []);
      }
      rc, sent := SendPacket(p, addr.value, now, sendOk);
    }

    /** quic_engine_close_connection */
    method CloseConnection(id: uint64, now: int, sendOk: bool) returns (rc: int)
      modifies connections, pending, `metrics, `wire
      ensures var r := CloseLocally(old(Abs()), id, now, sendOk);
        Abs() == r.engine && rc == (if r.ok then 0 else -1) && wire == old(wire) + r.wire
    {
      hide Send, CloseConn;
      rc := -1;
      var i := FindEntry(id);
      if i < connections.Length && connections[i].state != Closed {
        var addr := connections[i].addr;
        CloseEntry(i);
        var _, _ := SendPacket(CloseNotice(id), addr, now, sendOk);
        rc := 0;
      }
    }

    /** The part of quic_engine_process_packet that finds or creates the entry:
        its index and whether it is new, or the table size when the packet is refused. */
    method AdmitPacket(p: Packet, addr: Address, now: int) returns (i: nat, created: bool)
      modifies connections, `metrics
      ensures match Admit(old(Abs()), p, addr, now)
        case Refused => Abs() == old(Abs()) && i == connections.Length
        case Admitted(e, index, c) => Abs() == e && i == index < connections.Length && created == c
    {
      created := false;
      i := FindEntry(p.connectionId);
      if i == connections.Length {
        if !p.Has(INITIAL) {
          return;
        }
        ghost var was := connections[..];
        var rc := AddConnection(p.connectionId, addr, now);
        if rc != 0 {
          return;
        }
        i := FindEntry(p.connectionId);
        AddedIsFound(was, p.connectionId, connections[..]);
        created := true;
      } else {
        if connections[i].addr != addr {
          connections[i] := connections[i].(addr := addr);
          metrics := metrics.(migrations := metrics.migrations + 1);
        }
        connections[i] := connections[i].(lastSeen := now);
      }
    }

    /** quic_engine_process_packet */
    method ProcessPacket(p: Packet, addr: Address, now: int) returns (rc: int, handshakeNeeded: bool)
      modifies connections, pending, `metrics
      ensures var r := Process(old(Abs()), p, addr, now);
        Abs() == r.engine && rc == (if r.ok then 0 else -1) && handshakeNeeded == r.handshakeNeeded
    {
      hide Cleanup, Admit, CloseConn, HasFlag;
      CleanupConnections(now);
      var i, created := AdmitPacket(p, addr, now);
      if i == connections.Length {
        return -1, false;
      }
      handshakeNeeded := created;
      if p.Has(CLOSE) {
        CloseEntry(i);
        return 0, handshakeNeeded;
      }
      if connections[i].state == Connecting && p.Has(HANDSHAKE) {
        connections[i] := connections[i].(state := Connected);
      }
      var deliver := connections[i].state == Connected || p.Has(INITIAL) || p.Has(HANDSHAKE);
      if created {
        metrics := metrics.(opens := metrics.opens + 1);
      }
      rc := if deliver then 0 else -1;
    }

    /** The stream part of the receive loop. */
    method DeliverPayload(p: Packet, allocOk: bool)
      modifies connections, `delivered
      ensures var r := Deliver(old(Abs()), p, allocOk);
        Abs() == r.engine && delivered == old(delivered) + r.delivered
    {
      var i := FindEntry(p.connectionId);
      if i < connections.Length {
        var r := Streams.OnData(connections[i].streams, p.streamId, Segment(p.offset, p.payload), MAX_PAYLOAD, allocOk);
        connections[i] := connections[i].(streams := r.table);
        if r.Accepted? && |r.bytes| > 0 {
          delivered := delivered + [Delivery(p.connectionId, p.streamId, r.outOffset, r.bytes)];
        }
      }
    }

    /** One iteration of quic_engine_loop that received `received` bytes into `buffer` from `addr`. */
    method ReceiveOne(buffer: array<byte>, received: nat, addr: Address, now: int, env: Env)
      requires received <= buffer.Length
      modifies connections, pending, `metrics, `wire, `delivered
      ensures var r := Receive(old(Abs()), old(buffer[..received]), addr, now, env);
        Abs() == r.engine && wire == old(wire) + r.wire && delivered == old(delivered) + r.delivered
    {
      hide Process, Respond, AckPending, HasFlag, Decode;
      metrics := metrics.(received := metrics.received + 1);
      var status, packet := Deserialize(buffer, received);
      if status != 0 {
        return;
      }
      var p := packet.value;
      if p.Has(ACK) {
        AckPacket(p.connectionId, p.packetNumber);
      }
      var rc, handshakeNeeded := ProcessPacket(p, addr, now);
      if rc != 0 {
        return;
      }
      RespondTo(p, addr, now, handshakeNeeded, env);
    }

    /** What follows once process_packet has accepted the packet. */
    method RespondTo(p: Packet, addr: Address, now: int, handshakeNeeded: bool, env: Env)
      modifies connections, pending, `metrics, `wire, `delivered
      ensures var r := Respond(old(Abs()), p, addr, now, handshakeNeeded, env);
        Abs() == r.engine && wire == old(wire) + r.wire && delivered == old(delivered) + r.delivered
    {
      hide Send, Deliver, HasFlag;
      if handshakeNeeded {
        var _, _ := SendPacket(HandshakeReply(p.connectionId), addr, now, env.handshakeOk);
      }
      if p.Has(DATA) && env.streamHandler {
        DeliverPayload(p, env.allocOk);
        var _, _ := SendPacket(AckFor(p), addr, now, env.ackOk);
      }
    }

    /** One iteration whose receive timed out. */
    method IdleOne(now: int, failed: set<nat>)
      modifies connections, pending, `metrics, `wire
      ensures var r := Step(old(Abs()), Tick(now, failed));
        Abs() == r.engine && wire == old(wire) + r.wire
    {
      hide Cleanup, Retransmit;
      CleanupConnections(now);
      RetransmitPending(now, failed);
    }
  }

  /** The same packet, with its payload present. */
  ghost predicate SentAs(p: Packet, sent: Outgoing) {
    sent.(payload := p.payload) == p && (p.Present() ==> sent == p)
  }

  /** A missing payload is what `stale` holds. */
  function Filled(p: Packet, stale: seq<byte>): Outgoing {
    if p.Present() then p
    else p.(payload := if p.length <= |stale| then stale[..p.length] else seq(p.length, i => 0))
  }

  lemma FilledIsSent(p: Packet, stale: seq<byte>)
    ensures SentAs(p, Filled(p, stale))
  {
  }

  /** Serializing leaves in the packet's bytes what the buffer had only for a missing payload. */
  lemma SerializedBytes(p: Packet, junk: seq<byte>)
    requires (p.Present() || p.payload == []) && HEADER_SIZE + p.length <= |junk|
    ensures SerializeInto(p, junk)[..HEADER_SIZE + p.length] == Encode(Filled(p, junk[HEADER_SIZE..]))
  {
    hide Memory32, Memory64, Swap32, Swap64;
    assert junk[HEADER_SIZE..HEADER_SIZE + p.length] == junk[HEADER_SIZE..][..p.length];
  }

  lemma TrackedAs(pending: seq<Pending>, p: Packet, sent: Outgoing, now: int)
    requires SentAs(p, sent)
    ensures Track(pending, p, Encode(sent), now) == Track(pending, sent, Encode(sent), now)
  {
    hide Encode;
  }

  /** The entry just added is the one that its id finds. */
  lemma AddedIsFound(was: seq<Conn>, id: uint64, now: seq<Conn>)
    requires Find(was, id) == |was| && Free(was) < |was| == |now|
    requires now == was[Free(was) := now[Free(was)]] && now[Free(was)].inUse && now[Free(was)].id == id
    ensures Find(now, id) == Free(was)
  {
  }

  /** The engine when the retransmit loop reaches slot `i`. */
  ghost function RetransmitUpTo(e: Engine, i: nat, now: int, failed: set<nat>): Engine
    requires i <= |e.pending|
  {
    e.(pending := RetransmitTable(e.conns, e.pending[..i], now, failed) + e.pending[i..],
       metrics := e.metrics.(sent := e.metrics.sent + |RetransmitWire(e.conns, e.pending, now, failed, i)|))
  }

  /** One slot of the loop. */
  ghost function SlotSent(e: Engine, i: nat, now: int, sendOk: bool): Outcome
    requires i < |e.pending|
  {
    var pd := e.pending[i];
    var wire := if Attempted(e.conns, pd, now) && sendOk
                then [Datagram(pd.bytes, e.conns[Find(e.conns, pd.id)].addr)] else [];
    Outcome(e.(pending := e.pending[i := RetransmitOne(e.conns, pd, now, sendOk)],
               metrics := e.metrics.(sent := e.metrics.sent + |wire|)), wire, [])
  }

  lemma RetransmitStarts(e: Engine, now: int, failed: set<nat>)
    ensures RetransmitUpTo(e, 0, now, failed) == e && RetransmitWire(e.conns, e.pending, now, failed, 0) == []
  {
  }

  lemma RetransmitEnds(e: Engine, now: int, failed: set<nat>)
    ensures Retransmit(e, now, failed) == Outcome(RetransmitUpTo(e, |e.pending|, now, failed),
                                                  RetransmitWire(e.conns, e.pending, now, failed, |e.pending|), [])
  {
  }

  lemma RetransmitNext(e: Engine, i: nat, now: int, failed: set<nat>)
    requires i < |e.pending|
    ensures var done := RetransmitUpTo(e, i, now, failed);
      && |done.pending| == |e.pending|
      && RetransmitUpTo(e, i + 1, now, failed) == SlotSent(done, i, now, i !in failed).engine
      && RetransmitWire(e.conns, e.pending, now, failed, i + 1)
         == RetransmitWire(e.conns, e.pending, now, failed, i) + SlotSent(done, i, now, i !in failed).wire
  {
    hide RetransmitOne, Attempted;
    var done := RetransmitTable(e.conns, e.pending[..i], now, failed) + e.pending[i..];
    assert done[i] == e.pending[i];
    assert RetransmitTable(e.conns, e.pending[..i + 1], now, failed) + e.pending[i + 1..]
      == done[i := RetransmitOne(e.conns, e.pending[i], now, i !in failed)];
  }

  /** The engine when the cleanup loop reaches entry `i`. */
  ghost function CleanupUpTo(e: Engine, i: nat, now: int): Engine
    requires i <= |e.conns|
  {
    Engine(CleanConns(e.conns[..i], now) + e.conns[i..],
           ClearPending(e.pending, ExpiredIds(e.conns[..i], now)),
           e.metrics.(closes := e.metrics.closes + ExpiredCount(e.conns[..i], now)))
  }

  lemma CleanupStarts(e: Engine, now: int)
    ensures CleanupUpTo(e, 0, now) == e
  {
  }

  lemma CleanupEnds(e: Engine, now: int)
    ensures CleanupUpTo(e, |e.conns|, now) == Cleanup(e, now)
  {
    assert e.conns[..|e.conns|] == e.conns;
    assert CleanConns(e.conns, now) + [] == CleanConns(e.conns, now);
  }

  lemma ExpiredIdsNext(conns: seq<Conn>, i: nat, now: int)
    requires i < |conns|
    ensures ExpiredIds(conns[..i + 1], now)
      == ExpiredIds(conns[..i], now) + if Expired(conns[i], now) then {conns[i].id} else {}
    ensures ExpiredCount(conns[..i + 1], now)
      == ExpiredCount(conns[..i], now) + if Expired(conns[i], now) then 1 else 0
  {
    assert conns[..i + 1][..i] == conns[..i];
    var a, b := ExpiredIds(conns[..i + 1], now), ExpiredIds(conns[..i], now);
    forall id | id in b
      ensures id in a
    {
      var k :| 0 <= k < i && Expired(conns[..i][k], now) && conns[..i][k].id == id;
      assert Expired(conns[..i + 1][k], now) && conns[..i + 1][k].id == id;
    }
    if Expired(conns[i], now) {
      assert Expired(conns[..i + 1][i], now);
    }
  }

  lemma CleanConnsNext(conns: seq<Conn>, i: nat, now: int)
    requires i < |conns|
    ensures var done := CleanConns(conns[..i], now) + conns[i..];
      && done[i] == conns[i]
      && CleanConns(conns[..i + 1], now) + conns[i + 1..]
         == if Expired(conns[i], now) then done[i := ClosedConn(conns[i])] else done
  {
  }

  lemma ClearTwice(pending: seq<Pending>, a: set<uint64>, b: set<uint64>)
    ensures ClearPending(ClearPending(pending, a), b) == ClearPending(pending, a + b)
  {
  }

  /** One more entry: it is closed exactly if it has expired. */
  lemma CleanupNext(e: Engine, i: nat, now: int)
    requires i < |e.conns|
    ensures var done := CleanupUpTo(e, i, now);
      && |done.conns| == |e.conns| && done.conns[i] == e.conns[i]
      && CleanupUpTo(e, i + 1, now) == if Expired(e.conns[i], now) then CloseConn(done, i) else done
  {
    hide CleanConns, ExpiredIds, ClearPending, ExpiredCount;
    ExpiredIdsNext(e.conns, i, now);
    CleanConnsNext(e.conns, i, now);
    ClearTwice(e.pending, ExpiredIds(e.conns[..i], now), {e.conns[i].id});
    ClearNone(e.pending, ExpiredIds(e.conns[..i], now));
  }

  lemma ClearNone(pending: seq<Pending>, a: set<uint64>)
    ensures a + {} == a
  {
  }
}
