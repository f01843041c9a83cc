/** What the engine sends at its own and at its callers' bidding, and where to; when connections time out; and
    what the counters count. */
module EngineReplies {
  import opened Bytes
  import opened PacketCodec
  import opened EngineSpec
  import opened EngineTables
  import opened EngineLifecycle
  import opened EnginePending
  import opened EngineSlots

  // --- sending to a connection ---

  /** Entry `i` is live, CONNECTED, and was seen in the last 30 seconds. */
  predicate Usable(conns: seq<Conn>, i: nat, id: uint64, now: int) {
    Reached(conns, i, id, now) && conns[i].state == Connected
  }

  ghost predicate SomeUsable(conns: seq<Conn>, id: uint64, now: int) {
    exists i: nat :: Usable(conns, i, id, now)
  }

  /** A lookup yields the address of the usable entry, and nothing when there is none. */
  lemma LookupYields(e: Engine, id: uint64, now: int)
    requires TableOk(e.conns)
    ensures var addr := GetConnection(e, id, now).1;
      && (addr.Some? <==> SomeUsable(e.conns, id, now))
      && forall i: nat | Usable(e.conns, i, id, now) :: addr == Some(e.conns[i].addr)
  {
    hide TableOk, CleanConns, ClearPending, ExpiredIds, ExpiredCount, Find;
    forall i: nat | Usable(e.conns, i, id, now)
      ensures GetConnection(e, id, now).1 == Some(e.conns[i].addr)
    {
      ReachedAfterCleanup(e.conns, i, id, now);
    }
    if GetConnection(e, id, now).1.Some? {
      FoundIsReached(e.conns, id, now);
    }
  }

  lemma FoundIsReached(conns: seq<Conn>, id: uint64, now: int)
    ensures var after := CleanConns(conns, now); var i := Find(after, id);
      i < |conns| ==> Reached(conns, i, id, now) && after[i] == conns[i]
  {
  }

  /** send_to_connection: succeeds iff the connection is usable, the payload fits and sendto works, and then
      sends the packet, once, to that entry's address. */
  lemma SendGoesTo(e: Engine, p: Outgoing, now: int, sendOk: bool)
    requires TableOk(e.conns)
    ensures var r := SendToConnection(e, p, now, sendOk);
      && (r.ok <==> SomeUsable(e.conns, p.connectionId, now) && p.length <= 16384 && sendOk)
      && (!r.ok ==> r.wire == [])
      && forall i: nat | r.ok && Usable(e.conns, i, p.connectionId, now) ::
           r.wire == [Datagram(Encode(p), e.conns[i].addr)]
  {
    hide GetConnection, TableOk, Track, Encode, SomeUsable, Usable;
    LookupYields(e, p.connectionId, now);
  }

  /** A packet sent to a connection takes the first slot that is free once timed-out connections have lost
      theirs; everything else stays. */
  lemma SendDataSlotIs(e: Engine, p: Outgoing, now: int, sendOk: bool, j: nat)
    requires TableOk(e.conns) && j < |e.pending|
    ensures var after := Step(e, SendData(p, now, sendOk)).engine.pending;
      var cleaned := Cleanup(e, now).pending;
      && |after| == |cleaned| == |e.pending|
      && cleaned[j] == (if e.pending[j].inUse && SomeTimedOut(e.conns, e.pending[j].id, now)
                        then e.pending[j].(inUse := false) else e.pending[j])
      && after[j] == if p.flags / 4 % 2 == 1 && p.length <= 16384 && sendOk && SomeUsable(e.conns, p.connectionId, now)
                        && FirstFree(cleaned, j)
                     then Pending(true, p.connectionId, p.packetNumber, Encode(p), now, 0) else cleaned[j]
  {
    hide GetConnection, TableOk, Track, Encode, SomeUsable, Cleanup, SomeTimedOut, FirstFree;
    CleanupSlot(e, now, j);
    LookupYields(e, p.connectionId, now);
    GetConnectionPending(e, p.connectionId, now);
    var g := GetConnection(e, p.connectionId, now);
    if g.1.Some? {
      SentSlot(g.0, p, g.1.value, now, sendOk, j);
    }
  }

  /** A direct send puts the packet on the wire, to the address given, iff the payload fits and sendto works. */
  lemma RawSends(e: Engine, p: Outgoing, to: Address, now: int, sendOk: bool)
    ensures Step(e, SendRaw(p, to, now, sendOk)).wire
         == if p.length <= 16384 && sendOk then [Datagram(Encode(p), to)] else []
    ensures Step(e, SendRaw(p, to, now, sendOk)).engine.conns == e.conns
  {
    hide Encode, Track;
  }

  // --- over runs: where to ---

  /** What send_to_connection sends goes where the latest packet of the connection came from. */
  lemma SendAddress(trace: Trace, p: Outgoing, now: int, sendOk: bool, d: Datagram)
    requires d in Step(After(trace), SendData(p, now, sendOk)).wire
    ensures d.bytes == Encode(p) && LatestSource(trace, p.connectionId) == Some(d.addr)
  {
    hide After, Encode, LatestSource, TableOk, SendToConnection, Find;
    var e := After(trace);
    ReachableTable(trace);
    SendGoesTo(e, p, now, sendOk);
    var i: nat :| Usable(e.conns, i, p.connectionId, now);
    ReachedEntry(trace, i, p.connectionId);
  }

  lemma ReachedEntry(trace: Trace, i: nat, id: uint64)
    requires var conns := After(trace).conns; i < |conns| && conns[i].inUse && conns[i].id == id
    ensures LatestSource(trace, id) == Some(After(trace).conns[i].addr)
    ensures LatestTime(trace, id) == After(trace).conns[i].lastSeen
    ensures EntryAfter(trace, id) == Some(After(trace).conns[i])
  {
    hide After, LatestSource, LatestTime;
    ReachableTable(trace);
    LookupAt(After(trace).conns, i);
    AddressIsLatest(trace, id);
    LastSeenIsLatest(trace, id);
  }

  /** And a lookup yields that address. */
  lemma LookupAddress(trace: Trace, id: uint64, now: int)
    ensures var addr := GetConnection(After(trace), id, now).1; addr.Some? ==> LatestSource(trace, id) == addr
  {
    hide After, LatestSource, TableOk, GetConnection, Find;
    var e := After(trace);
    ReachableTable(trace);
    LookupYields(e, id, now);
    if GetConnection(e, id, now).1.Some? {
      var i: nat :| Usable(e.conns, i, id, now);
      ReachedEntry(trace, i, id);
    }
  }

  /** A local close of a live connection sends one CLOSE packet to that address, when sendto works; a close of
      any other id sends nothing and fails. */
  lemma CloseSends(trace: Trace, id: uint64, now: int, sendOk: bool)
    ensures var r := CloseLocally(After(trace), id, now, sendOk);
      && (r.ok <==> EntryAfter(trace, id).Some?)
      && r.wire == if r.ok && sendOk && LatestSource(trace, id).Some?
                   then [Datagram(Encode(Packet(16, id, 0, 0, 0, 0, [])), LatestSource(trace, id).value)] else []
  {
    hide After, LatestSource, Encode, Track, CloseConn;
    var e := After(trace);
    ReachableTable(trace);
    AddressIsLatest(trace, id);
    EntryState(e.conns, id);
  }

  // --- over runs: timeouts ---

  /** A step that cleans up, and brings no packet for `id`, ends its connection iff it was not seen for more
      than 30 seconds. */
  lemma TimesOutIff(trace: Trace, ev: Event, id: uint64)
    requires EntryAfter(trace, id).Some? && PacketFor(ev, id).None?
    requires ev.Tick? || ev.LookUp? || ev.SendData? || (ev.Arrive? && Decode(ev.bytes).Some?)
    ensures EntryAfter(trace + [ev], id).None? <==> ev.now - LatestTime(trace, id) > 30
  {
    hide After, LatestTime, Decode, Room, NextConn;
    var all := trace + [ev];
    assert all[..|all| - 1] == trace;
    LastStep(all, id);
    LastSeenIsLatest(trace, id);
    EntryLive(trace, id);
    NextWithoutPacket(EntryAfter(trace, id), ev, id, Room(After(trace), ev.now));
  }

  lemma EntryLive(trace: Trace, id: uint64)
    ensures EntryAfter(trace, id).Some? ==> EntryAfter(trace, id).value.inUse
  {
    hide After;
    ReachableTable(trace);
    EntryState(After(trace).conns, id);
  }

  lemma NextWithoutPacket(c: Option<Conn>, ev: Event, id: uint64, room: bool)
    requires c.Some? && c.value.inUse && PacketFor(ev, id).None?
    requires ev.Tick? || ev.LookUp? || ev.SendData? || (ev.Arrive? && Decode(ev.bytes).Some?)
    ensures NextConn(c, ev, id, room).None? <==> ev.now - c.value.lastSeen > 30
  {
    hide Decode, PacketConn;
  }

  /** Direct sends end no connection, however long ago it was seen, and neither does what does not deserialize. */
  lemma StaysIdle(trace: Trace, ev: Event, id: uint64)
    requires ev.SendRaw? || (ev.Arrive? && Decode(ev.bytes).None?)
    ensures EntryAfter(trace + [ev], id) == EntryAfter(trace, id)
  {
    hide After, Decode, Room, EntryAfter;
    var all := trace + [ev];
    assert all[..|all| - 1] == trace;
    LastStep(all, id);
  }

  // --- answers to packets ---

  /** Acknowledgements, handshake replies and close notices, field by field as they are read from the wire. */
  lemma ReplyFields(id: uint64, p: Packet)
    ensures Decode(Encode(HandshakeReply(id))) == Some(Packet(10, id, 1, 0, 0, 0, []))
    ensures Decode(Encode(CloseNotice(id))) == Some(Packet(16, id, 0, 0, 0, 0, []))
    ensures Decode(Encode(AckFor(p))) == Some(Packet(8, p.connectionId, p.packetNumber, p.streamId, p.offset, 0, []))
  {
    hide Decode, Encode;
    DecodesBack(HandshakeReply(id));
    DecodesBack(CloseNotice(id));
    DecodesBack(AckFor(p));
  }

  lemma DecodesBack(q: Outgoing)
    requires q.length <= MAX_PAYLOAD
    ensures Decode(Encode(q)) == Some(q)
  {
    hide Decode, Encode;
    DecodeUndoesEncode(q, []);
    assert Encode(q) + [] == Encode(q);
  }

  /** The engine takes the packet: it opens a connection; or its connection is known, and CONNECTED, or the
      packet carries INITIAL, HANDSHAKE or CLOSE. */
  ghost predicate Taken(conns: seq<Conn>, p: Packet, now: int) {
    || Opens(conns, p, now)
    || (Known(conns, p.connectionId, now)
        && (|| SomeUsable(conns, p.connectionId, now)
            || p.flags % 2 == 1 || p.flags / 2 % 2 == 1 || p.flags / 16 % 2 == 1))
  }

  lemma TakenIff(e: Engine, p: Packet, from: Address, now: int)
    requires TableOk(e.conns)
    ensures var r := Process(e, p, from, now);
      (r.ok <==> Taken(e.conns, p, now)) && (r.handshakeNeeded <==> Opens(e.conns, p, now))
  {
    hide TableOk, Cleanup, Known, Vacant, SomeUsable;
    AdmittedIff(e, p, from, now);
    AdmittedState(e, p, from, now);
  }

  /** An entry that is there already is CONNECTED after admission iff it was usable before. */
  lemma AdmittedState(e: Engine, p: Packet, from: Address, now: int)
    requires TableOk(e.conns)
    ensures match Admit(Cleanup(e, now), p, from, now)
      case Refused => true
      case Admitted(e2, i, created) =>
        if created then e2.conns[i].state == Connecting
        else (e2.conns[i].state == Connected <==> SomeUsable(e.conns, p.connectionId, now))
             && (e2.conns[i].state == Connected || e2.conns[i].state == Connecting)
  {
    hide TableOk, CleanConns, ClearPending, ExpiredIds, ExpiredCount, Find, Reached;
    var id := p.connectionId;
    var after := CleanConns(e.conns, now);
    FoundIsReached(e.conns, id, now);
    CleanLookup(e.conns, now, id);
    EntryState(after, id);
    var k := Find(after, id);
    if k < |after| {
      forall i: nat | Usable(e.conns, i, id, now)
        ensures i == k
      {
        ReachedAfterCleanup(e.conns, i, id, now);
      }
      assert Usable(e.conns, k, id, now) <==> after[k].state == Connected;
    }
  }

  /** The whole wire of a step that receives a packet: a handshake reply iff the packet opens a connection, an
      ACK iff it carries DATA, is taken and somebody listens; both to where it came from, each if its sendto
      works. */
  lemma ReceiveAnswers(e: Engine, ev: Event, p: Packet)
    requires TableOk(e.conns) && ev.Arrive? && Decode(ev.bytes) == Some(p)
    ensures Step(e, ev).wire
         == (if Opens(e.conns, p, ev.now) && ev.env.handshakeOk
             then [Datagram(Encode(Packet(10, p.connectionId, 1, 0, 0, 0, [])), ev.from)] else [])
            + (if Taken(e.conns, p, ev.now) && p.flags / 4 % 2 == 1 && ev.env.streamHandler && ev.env.ackOk
               then [Datagram(Encode(Packet(8, p.connectionId, p.packetNumber, p.streamId, p.offset, 0, [])), ev.from)]
               else [])
  {
    hide Process, Respond, Heard, Step, TableOk, Decode, Encode, Opens, Taken, HasFlag;
    ReceiveShape(e, ev, p);
    var e1 := Heard(e, p);
    TakenIff(e1, p, ev.from, ev.now);
    var r := Process(e1, p, ev.from, ev.now);
    RespondAnswers(r.engine, p, ev.from, ev.now, r.handshakeNeeded, ev.env);
    OpensIsTaken(e.conns, p, ev.now);
    DataFlag(p);
  }

  lemma DataFlag(p: Packet)
    ensures p.Has(DATA) <==> p.flags / 4 % 2 == 1
  {
  }

  lemma OpensIsTaken(conns: seq<Conn>, p: Packet, now: int)
    ensures Opens(conns, p, now) ==> Taken(conns, p, now)
  {
  }

  lemma RespondAnswers(e: Engine, p: Packet, from: Address, now: int, handshakeNeeded: bool, env: Env)
    ensures Respond(e, p, from, now, handshakeNeeded, env).wire
         == (if handshakeNeeded && env.handshakeOk
             then [Datagram(Encode(Packet(10, p.connectionId, 1, 0, 0, 0, [])), from)] else [])
            + (if p.Has(DATA) && env.streamHandler && env.ackOk
               then [Datagram(Encode(Packet(8, p.connectionId, p.packetNumber, p.streamId, p.offset, 0, [])), from)]
               else [])
  {
    hide Encode, Deliver, Track, HasFlag;
  }

  /** Receiving what does not deserialize, and looking up, send nothing. */
  lemma SilentSteps(e: Engine, ev: Event)
    requires ev.LookUp? || (ev.Arrive? && Decode(ev.bytes).None?)
    ensures Step(e, ev).wire == []
  {
    hide Decode, GetConnection;
    if ev.Arrive? {
      ReceiveJunk(e, ev.bytes, ev.from, ev.now, ev.env);
    }
  }
}
