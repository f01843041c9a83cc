/** What an ACK for a DATA packet promises: exactly when the packet's bytes are
    delivered or held, and for how long. */
module EngineAcks {
  import opened Bytes
  import opened PacketCodec
  import opened Reassembly
  import opened EngineSpec
  import opened EngineTables
  import opened EngineLifecycle
  import opened EngineIsolation
  import Streams = StreamTable

  /** Byte `x` of the pair's stream has been delivered, or is held, by a live connection. */
  ghost predicate HasByte(trace: Trace, id: uint64, sid: uint32, x: nat) {
    EntryAfter(trace, id).Some? && Covers(StreamOf(EntryAfter(trace, id), sid), x)
  }

  /** Delivered or held is what the pair's history carried, no more and no less. */
  lemma HasByteIff(trace: Trace, id: uint64, sid: uint32)
    requires ArrivalsBounded(History(trace, id, sid))
    ensures Inv(StreamOf(EntryAfter(trace, id), sid))
    ensures forall x: nat :: HasByte(trace, id, sid, x) <==> Sent(History(trace, id, sid), x)
  {
    hide EntryAfter, History, DeliveredBytes, Run;
    Isolation(trace, id, sid);
    RunCovers(Fresh, History(trace, id, sid));
    assert forall x: nat :: !Covers(Fresh, x);
    if EntryAfter(trace, id).None? {
      assert forall x: nat :: !Covers(StreamOf(EntryAfter(trace, id), sid), x);
    }
  }

  /** Each byte delivered for a pair stands at its offset in a payload of the pair's own history. */
  lemma DeliveredComeFromHistory(trace: Trace, id: uint64, sid: uint32)
    requires ArrivalsBounded(History(trace, id, sid))
    ensures var bytes := DeliveredBytes(trace, id, sid);
      forall x | 0 <= x < |bytes| :: Carried(History(trace, id, sid), x, bytes[x])
  {
    Isolation(trace, id, sid);
    RunDeliversArrivals(History(trace, id, sid));
  }

  /** Event `k` brought `s` for stream `sid` of `id`. */
  ghost predicate Brought(trace: Trace, k: nat, id: uint64, sid: uint32, s: Segment)
    requires k < |trace|
  {
    var p := PacketFor(trace[k], id);
    p.Some? && p.value.streamId == sid && p.value.Has(DATA) && PayloadOf(p.value) == s
  }

  ghost predicate NotEndedAfter(trace: Trace, k: nat, id: uint64) {
    forall j | k < j < |trace| :: !EndedAt(trace, j, id)
  }

  /** And every payload in the history was brought by a DATA packet that names the
      pair, after which nothing has ended the connection. */
  lemma {:induction false} HistoryWasBrought(trace: Trace, id: uint64, sid: uint32, a: Arrival)
    requires a in History(trace, id, sid)
    ensures exists k :: 0 <= k < |trace| && Brought(trace, k, id, sid, a.segment) && NotEndedAfter(trace, k, id)
  {
    hide EntryAfter, After, Ends, Room, PacketFor, ProcessedConn, Unexpired, Delivers, HasFlag, Streams.OnData;
    var n := |trace| - 1;
    var init, ev := trace[..n], trace[n];
    var s := AcceptedPayload(EntryAfter(init, id), ev, id, sid, Room(After(init), ev.now));
    if s.Some? && a.segment == s.value {
      assert Brought(trace, n, id, sid, a.segment);
    } else {
      HistoryWasBrought(init, id, sid, a);
      var k :| 0 <= k < n && Brought(init, k, id, sid, a.segment) && NotEndedAfter(init, k, id);
      PrefixEvents(trace, n, id);
      assert Brought(trace, k, id, sid, a.segment) && NotEndedAfter(trace, k, id);
    }
  }

  // --- ACK safety ---

  /** The step answers packet `p` with its ACK. */
  ghost predicate Answered(e: Engine, ev: Event, p: Packet) {
    ev.Arrive? && Datagram(Encode(AckFor(p)), ev.from) in Step(e, ev).wire
  }

  /** The entry that the answer is about. */
  ghost function AnsweredEntry(e: Engine, ev: Event, p: Packet): Option<Conn>
    requires ev.Arrive?
  {
    ProcessedConn(Unexpired(Lookup(e.conns, p.connectionId), ev.now), p, ev.from, ev.now, Room(e, ev.now))
  }

  /** What the answer needs to be true: the packet did not carry CLOSE, its stream is
      open or a slot is free, and the node was allocated (or nothing new was in it). */
  ghost predicate Storable(c: Option<Conn>, p: Packet, env: Env) {
    && c.Some?
    && (Streams.Open(c.value.streams, p.streamId) || Streams.HasRoom(c.value.streams))
    && (env.allocOk || forall x: nat | PayloadOf(p).Has(x) :: Covers(StreamOf(c, p.streamId), x))
  }

  lemma FlagsFirst(p: Packet)
    ensures |Encode(p)| > 0 && Encode(p)[0] == p.flags
  {
    hide Memory32, Memory64, Swap32, Swap64;
  }

  lemma AckDiffers(id: uint64, p: Packet)
    ensures Encode(HandshakeReply(id)) != Encode(AckFor(p))
  {
    FlagsFirst(HandshakeReply(id));
    FlagsFirst(AckFor(p));
  }

  lemma SendWire(e: Engine, p: Outgoing, addr: Address, now: int, sendOk: bool)
    ensures var w := Send(e, p, addr, now, sendOk).wire; w == [] || w == [Datagram(Encode(p), addr)]
  {
  }

  lemma RespondWire(e: Engine, p: Packet, from: Address, now: int, handshakeNeeded: bool, env: Env)
    ensures Datagram(Encode(AckFor(p)), from) in Respond(e, p, from, now, handshakeNeeded, env).wire ==>
      p.Has(DATA) && env.streamHandler
  {
    hide Encode, Send, HasFlag, Deliver;
    AckDiffers(p.connectionId, p);
    SendWire(e, HandshakeReply(p.connectionId), from, now, env.handshakeOk);
  }

  /** Only a DATA packet that the engine accepted is answered. */
  lemma AnsweredMeansAccepted(e: Engine, ev: Event, p: Packet)
    requires TableOk(e.conns) && ev.Arrive? && Decode(ev.bytes) == Some(p) && Answered(e, ev, p)
    ensures p.Has(DATA) && ev.env.streamHandler
    ensures var c := AnsweredEntry(e, ev, p);
      (c.Some? ==> Delivers(c.value, p)) && (c.None? ==> p.Has(CLOSE))
  {
    hide Process, Respond, Step, HasFlag, Encode, AckFor, Heard, Room, TableOk, ProcessedConn, Unexpired, Delivers, Lookup;
    var e1 := Heard(e, p);
    var r := Process(e1, p, ev.from, ev.now);
    ReceiveShape(e, ev, p);
    ProcessEntry(e1, p, ev.from, ev.now, p.connectionId);
    RespondWire(r.engine, p, ev.from, ev.now, r.handshakeNeeded, ev.env);
    SameRoom(e1, e, ev.now);
  }

  lemma SameRoom(a: Engine, b: Engine, now: int)
    requires a.conns == b.conns
    ensures Room(a, now) == Room(b, now)
  {
  }

  ghost predicate CoversPayload(c: Option<Conn>, p: Packet) {
    c.Some? && forall x: nat | PayloadOf(p).Has(x) :: Covers(StreamOf(c, p.streamId), x)
  }

  /** Without a slot, a stream has nothing. */
  lemma ClosedStreamHasNothing(c: Conn, p: Packet)
    requires p.payload != [] && !Streams.Open(c.streams, p.streamId)
    ensures !CoversPayload(Some(c), p)
  {
    assert PayloadOf(p).Has(p.offset) && !Covers(Fresh, p.offset);
  }

  lemma FedCovers(c: Conn, p: Packet, env: Env)
    requires Streams.DistinctIds(c.streams) && Delivers(c, p) && p.Has(DATA) && env.streamHandler
    requires p.payload != [] && PayloadOf(p).Bounded() && Inv(StreamOf(Some(c), p.streamId))
    ensures CoversPayload(RespondedConn(Some(c), p, env), p) <==> Storable(Some(c), p, env)
  {
    hide HasFlag, Delivers, Feed, Streams.OnData, Streams.View, Streams.Open, Streams.HasRoom, FedConn, Inv;
    FedStream(c, p, env, p.streamId);
    Streams.OnDataViews(c.streams, p.streamId, PayloadOf(p), MAX_PAYLOAD, env.allocOk);
    if Accepts(Some(c), p, env) {
      FeedKeepsInv(StreamOf(Some(c), p.streamId), PayloadOf(p), MAX_PAYLOAD);
    } else if !Streams.Open(c.streams, p.streamId) {
      ClosedStreamHasNothing(c, p);
    }
  }

  /** The entry of an answered packet after the step. */
  lemma AnsweredNext(c: Option<Conn>, ev: Event, p: Packet, room: bool)
    requires ev.Arrive? && Decode(ev.bytes) == Some(p)
    requires var c1 := ProcessedConn(Unexpired(c, ev.now), p, ev.from, ev.now, room); c1.Some? ==> Delivers(c1.value, p)
    ensures NextConn(c, ev, p.connectionId, room)
      == RespondedConn(ProcessedConn(Unexpired(c, ev.now), p, ev.from, ev.now, room), p, ev.env)
  {
    hide HasFlag, ProcessedConn, Delivers, FedConn;
  }

  /** ACK safety: when the receive step answers a DATA packet, every byte of the
      packet is delivered or held afterwards exactly if it was storable: no CLOSE,
      the stream open or a slot free, and the allocation done or not needed. */
  lemma AckSafety(trace: Trace, p: Packet)
    requires trace != [] && trace[|trace| - 1].Arrive? && Decode(trace[|trace| - 1].bytes) == Some(p)
    requires Answered(After(trace[..|trace| - 1]), trace[|trace| - 1], p)
    requires p.payload != [] && PayloadOf(p).Bounded()
    requires ArrivalsBounded(History(trace[..|trace| - 1], p.connectionId, p.streamId))
    ensures var e, ev := After(trace[..|trace| - 1]), trace[|trace| - 1];
      (forall x: nat | PayloadOf(p).Has(x) :: HasByte(trace, p.connectionId, p.streamId, x))
      <==> Storable(AnsweredEntry(e, ev, p), p, ev.env)
  {
    hide After, Covers, Storable, AnsweredEntry, Lookup, TableOk, Inv, Answered, StreamOf, ArrivalsBounded, Decode, History, Delivers;
    var init, ev := trace[..|trace| - 1], trace[|trace| - 1];
    var id := p.connectionId;
    ReachableTable(init);
    AnsweredMeansAccepted(After(init), ev, p);
    HasByteIff(init, id, p.streamId);
    LookupOk(After(init).conns, id);
    AckSafetyStep(trace, p, After(init), ev);
    assert PayloadOf(p).Has(p.offset);
  }

  lemma AckSafetyStep(trace: Trace, p: Packet, e: Engine, ev: Event)
    requires trace != [] && e == After(trace[..|trace| - 1]) && ev == trace[|trace| - 1]
    requires ev.Arrive? && Decode(ev.bytes) == Some(p)
    requires p.payload != [] && PayloadOf(p).Bounded() && p.Has(DATA) && ev.env.streamHandler
    requires var c := AnsweredEntry(e, ev, p); (c.Some? ==> Delivers(c.value, p)) && (c.None? ==> p.Has(CLOSE))
    requires Inv(StreamOf(Lookup(e.conns, p.connectionId), p.streamId))
    requires var c := Lookup(e.conns, p.connectionId); c.Some? ==> Streams.DistinctIds(c.value.streams)
    ensures CoversPayload(EntryAfter(trace, p.connectionId), p) <==> Storable(AnsweredEntry(e, ev, p), p, ev.env)
  {
    hide HasFlag, Delivers, TableOk, Inv, ProcessedConn, Unexpired, Room, After, NextConn, RespondedConn, StreamOf, CoversPayload;
    var c := Lookup(e.conns, p.connectionId);
    LastStep(trace, p.connectionId);
    AnsweredNext(c, ev, p, Room(e, ev.now));
    ProcessedOk(c, p, ev.from, ev.now, Room(e, ev.now));
    var c1 := AnsweredEntry(e, ev, p);
    if c1.Some? {
      FedCovers(c1.value, p, ev.env);
    } else {
      NothingWithoutEntry(p, ev.env);
    }
  }

  lemma NothingWithoutEntry(p: Packet, env: Env)
    ensures RespondedConn(None, p, env).None? && !CoversPayload(None, p)
  {
  }

  lemma ProcessedOk(c: Option<Conn>, p: Packet, from: Address, now: int, room: bool)
    requires c.Some? ==> Streams.DistinctIds(c.value.streams)
    requires Inv(StreamOf(c, p.streamId))
    ensures var c1 := ProcessedConn(Unexpired(c, now), p, from, now, room);
      c1.Some? ==> Streams.DistinctIds(c1.value.streams) && Inv(StreamOf(c1, p.streamId))
  {
    hide HasFlag, StreamOf;
    ProcessedStream(Unexpired(c, now), p, from, now, room, p.streamId);
    assert Inv(Fresh);
  }

  lemma HistoryGrows(trace: Trace, id: uint64, sid: uint32)
    requires trace != [] && EntryAfter(trace[..|trace| - 1], id).Some? && !EndedAt(trace, |trace| - 1, id)
    ensures EntryAfter(trace, id).Some?
    ensures History(trace[..|trace| - 1], id, sid) <= History(trace, id, sid)
    ensures DeliveredBytes(trace[..|trace| - 1], id, sid) <= DeliveredBytes(trace, id, sid)
  {
    hide EntryAfter, Step, After, AcceptedPayload, Ends, Room, BytesFor, CreatedAt;
    StepState(trace, id);
  }

  /** What an ACK promised stays true: until something ends the connection, the
      history only grows, so no byte it covers is ever lost. */
  lemma {:induction false} AckedStays(trace: Trace, more: Trace, id: uint64, sid: uint32)
    requires EntryAfter(trace, id).Some?
    requires forall j | |trace| <= j < |trace| + |more| :: !EndedAt(trace + more, j, id)
    ensures EntryAfter(trace + more, id).Some?
    ensures History(trace, id, sid) <= History(trace + more, id, sid)
    ensures DeliveredBytes(trace, id, sid) <= DeliveredBytes(trace + more, id, sid)
    decreases |more|
  {
    hide EntryAfter, History, DeliveredBytes, EndedAt, CreatedAt;
    if more == [] {
      assert trace + more == trace;
    } else {
      var full := trace + more;
      assert full[..|full| - 1] == trace + more[..|more| - 1];
      PrefixEvents(full, |full| - 1, id);
      AckedStays(trace, more[..|more| - 1], id, sid);
      HistoryGrows(full, id, sid);
    }
  }

  /** So every byte that is delivered or held stays so. */
  lemma AckedByteStays(trace: Trace, more: Trace, id: uint64, sid: uint32, x: nat)
    requires EntryAfter(trace, id).Some? && HasByte(trace, id, sid, x)
    requires forall j | |trace| <= j < |trace| + |more| :: !EndedAt(trace + more, j, id)
    requires ArrivalsBounded(History(trace + more, id, sid))
    ensures HasByte(trace + more, id, sid, x)
  {
    hide EntryAfter, History, DeliveredBytes, EndedAt, HasByte, Inv, ArrivalsBounded, Sent;
    AckedStays(trace, more, id, sid);
    PrefixBounded(History(trace, id, sid), History(trace + more, id, sid));
    HasByteIff(trace, id, sid);
    PrefixSent(History(trace, id, sid), History(trace + more, id, sid), x);
    HasByteIff(trace + more, id, sid);
  }

  lemma PrefixBounded(before: seq<Arrival>, after: seq<Arrival>)
    requires before <= after && ArrivalsBounded(after)
    ensures ArrivalsBounded(before)
  {
  }

  lemma PrefixSent(before: seq<Arrival>, after: seq<Arrival>, x: nat)
    requires before <= after && Sent(before, x)
    ensures Sent(after, x)
  {
  }

  /** An ACK can promise too much: a packet with INITIAL, DATA and CLOSE is answered
      although its connection is gone when its payload would be stored. */
  lemma AckWithoutBytes()
    ensures exists ev: Event, p: Packet ::
      && ev.Arrive? && Decode(ev.bytes) == Some(p) && p.payload != []
      && Answered(After([]), ev, p)
      && EntryAfter([ev], p.connectionId).None?
  {
    hide Decode, Encode, Answered, EntryAfter;
    var p := Packet(INITIAL + DATA + CLOSE, 7, 1, 1, 0, 1, [42]);
    var ev := Arrive(Encode(p), Address(0, 1), 0, Env(true, true, true, true));
    assert Decode(ev.bytes) == Some(p) by {
      DecodeUndoesEncode(p, []);
      assert ev.bytes + [] == ev.bytes;
    }
    ClosedAtOnce(ev, p);
  }

  lemma ClosedAtOnce(ev: Event, p: Packet)
    requires ev.Arrive? && Decode(ev.bytes) == Some(p)
    requires p.Has(INITIAL) && p.Has(DATA) && p.Has(CLOSE)
    requires ev.env.streamHandler && ev.env.ackOk
    ensures Answered(After([]), ev, p)
    ensures EntryAfter([ev], p.connectionId).None?
  {
    hide HasFlag, Process, Respond, Step, ProcessedConn, Encode, Heard;
    var e := After([]);
    var e1 := Heard(e, p);
    ReceiveShape(e, ev, p);
    AcceptedAtFirst(e1, p, ev.from, ev.now);
    var r := Process(e1, p, ev.from, ev.now);
    AnswersData(r.engine, p, ev.from, ev.now, r.handshakeNeeded, ev.env);
    assert [ev][..0] == [];
    LastStep([ev], p.connectionId);
    NothingLiveAtFirst(p.connectionId);
    CloseLeavesNothing(ev, p, Room(e, ev.now));
  }

  lemma CloseLeavesNothing(ev: Event, p: Packet, room: bool)
    requires ev.Arrive? && Decode(ev.bytes) == Some(p) && p.Has(CLOSE)
    ensures NextConn(None, ev, p.connectionId, room).None?
  {
  }

  lemma AcceptedAtFirst(e: Engine, p: Packet, from: Address, now: int)
    requires e.conns == Init().conns && p.Has(INITIAL) && p.Has(CLOSE)
    ensures Process(e, p, from, now).ok
  {
  }

  lemma AnswersData(e: Engine, p: Packet, from: Address, now: int, handshakeNeeded: bool, env: Env)
    requires p.Has(DATA) && env.streamHandler && env.ackOk
    ensures Datagram(Encode(AckFor(p)), from) in Respond(e, p, from, now, handshakeNeeded, env).wire
  {
  }
}
