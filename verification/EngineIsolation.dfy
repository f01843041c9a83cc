/** Streams over runs of the engine: the bytes delivered for one connection and
    stream come from the payloads accepted for just that pair since the
    connection was last created. */
module EngineIsolation {
  import opened Bytes
  import opened PacketCodec
  import opened Reassembly
  import opened EngineSpec
  import opened EngineTables
  import opened EngineLifecycle
  import Streams = StreamTable

  /** What stream `sid` of a connection has come to. */
  function StreamOf(c: Option<Conn>, sid: uint32): Stream {
    if c.Some? then Streams.View(c.value.streams, sid) else Fresh
  }

  /** The entry was live before the event and the event does not end it. */
  predicate Survives(c: Option<Conn>, ev: Event, id: uint64) {
    c.Some? && !Ends(c, ev, id)
  }

  function PayloadOf(p: Packet): Segment {
    Segment(p.offset, p.payload)
  }

  predicate Accepts(c: Option<Conn>, p: Packet, env: Env) {
    && c.Some? && Delivers(c.value, p) && p.Has(DATA) && env.streamHandler
    && Streams.OnData(c.value.streams, p.streamId, PayloadOf(p), MAX_PAYLOAD, env.allocOk).Accepted?
  }

  /** The payload that the event adds to stream `sid` of `id`, if it adds one. */
  function AcceptedPayload(c: Option<Conn>, ev: Event, id: uint64, sid: uint32, room: bool): Option<Segment> {
    var p := PacketFor(ev, id);
    if p.None? then None
    else
      var c1 := ProcessedConn(Unexpired(c, ev.now), p.value, ev.from, ev.now, room);
      if p.value.streamId == sid && Accepts(c1, p.value, ev.env) then Some(PayloadOf(p.value)) else None
  }

  /** The stream a step starts from: a new connection starts with fresh streams. */
  function BaseStream(c: Option<Conn>, ev: Event, id: uint64, sid: uint32): Stream {
    if Survives(c, ev, id) then StreamOf(c, sid) else Fresh
  }

  lemma FedStream(c: Conn, p: Packet, env: Env, sid: uint32)
    requires Streams.DistinctIds(c.streams) && Delivers(c, p)
    ensures var fed := RespondedConn(Some(c), p, env);
      StreamOf(fed, sid) ==
        if p.streamId == sid && Accepts(Some(c), p, env)
        then Feed(StreamOf(Some(c), sid), PayloadOf(p), MAX_PAYLOAD).stream else StreamOf(Some(c), sid)
  {
    Streams.OnDataViews(c.streams, p.streamId, PayloadOf(p), MAX_PAYLOAD, env.allocOk);
    hide Streams.OnData, Streams.View, Feed, HasFlag, Delivers;
  }

  lemma ProcessedStream(c: Option<Conn>, p: Packet, addr: Address, now: int, room: bool, sid: uint32)
    requires c.Some? ==> Streams.DistinctIds(c.value.streams)
    ensures var c1 := ProcessedConn(c, p, addr, now, room);
      && (c1.Some? ==> Streams.DistinctIds(c1.value.streams))
      && StreamOf(c1, sid) == if c1.Some? && c.Some? then StreamOf(c, sid) else Fresh
  {
    hide HasFlag;
    assert Streams.Find(Streams.EmptyTable(), sid) == |Streams.EmptyTable()|;
  }

  /** One step and one stream: it is fed the accepted payload, or it is left alone. */
  lemma NextStream(c: Option<Conn>, ev: Event, id: uint64, sid: uint32, room: bool)
    requires c.Some? ==> Streams.DistinctIds(c.value.streams)
    ensures StreamOf(NextConn(c, ev, id, room), sid) ==
      var base := BaseStream(c, ev, id, sid);
      var s := AcceptedPayload(c, ev, id, sid, room);
      if s.Some? then Feed(base, s.value, MAX_PAYLOAD).stream else base
  {
    hide Decode, HasFlag, Streams.View, Feed, Streams.OnData;
    var p := PacketFor(ev, id);
    if p.Some? {
      NextStreamPacket(c, ev, p.value, id, sid, room);
    }
  }

  lemma NextStreamPacket(c: Option<Conn>, ev: Event, p: Packet, id: uint64, sid: uint32, room: bool)
    requires c.Some? ==> Streams.DistinctIds(c.value.streams)
    requires PacketFor(ev, id) == Some(p)
    ensures StreamOf(NextConn(c, ev, id, room), sid) ==
      var base := BaseStream(c, ev, id, sid);
      var s := AcceptedPayload(c, ev, id, sid, room);
      if s.Some? then Feed(base, s.value, MAX_PAYLOAD).stream else base
  {
    hide Decode, HasFlag, Streams.View, Feed, Streams.OnData, RespondedConn, ShakenConn;
    var c0 := Unexpired(c, ev.now);
    var c1 := ProcessedConn(c0, p, ev.from, ev.now, room);
    ProcessedStream(c0, p, ev.from, ev.now, room, sid);
    if c1.Some? && Delivers(c1.value, p) {
      FedStream(c1.value, p, ev.env, sid);
    }
  }

  // --- deliveries ---

  function BytesFor(ds: seq<Delivery>, id: uint64, sid: uint32): seq<byte> {
    if ds == [] then []
    else
      var d := ds[|ds| - 1];
      BytesFor(ds[..|ds| - 1], id, sid) + if d.id == id && d.streamId == sid then d.bytes else []
  }

  /** What the stream handler is given: the bytes the stream yields, at the offset it had reached. */
  ghost predicate DeliversFrom(ds: seq<Delivery>, id: uint64, sid: uint32, base: Stream, s: Option<Segment>) {
    && BytesFor(ds, id, sid) == (if s.Some? then Feed(base, s.value, MAX_PAYLOAD).bytes else [])
    && forall d | d in ds && d.id == id && d.streamId == sid :: d.offset == base.next
  }

  /** The deliveries of an accepted packet, by stream table alone. */
  lemma TableDelivers(t: Streams.Table, p: Packet, env: Env, id: uint64, sid: uint32)
    requires Streams.DistinctIds(t)
    ensures var r := Streams.OnData(t, p.streamId, PayloadOf(p), MAX_PAYLOAD, env.allocOk);
      var ds := if r.Accepted? && r.bytes != []
                then [Delivery(p.connectionId, p.streamId, r.outOffset, r.bytes)] else [];
      DeliversFrom(ds, id, sid, Streams.View(t, sid),
                   if p.connectionId == id && p.streamId == sid && r.Accepted? then Some(PayloadOf(p)) else None)
  {
  }

  /** Deliveries of one connection are none of another's. */
  lemma NoBytesForOthers(ds: seq<Delivery>, owner: uint64, id: uint64, sid: uint32)
    requires owner != id && forall d | d in ds :: d.id == owner
    ensures BytesFor(ds, id, sid) == []
  {
  }

  lemma RespondDelivers(e: Engine, p: Packet, from: Address, now: int, handshakeNeeded: bool, env: Env, sid: uint32)
    requires TableOk(e.conns)
    ensures var c := Lookup(e.conns, p.connectionId);
      var ds := Respond(e, p, from, now, handshakeNeeded, env).delivered;
      && (c.Some? && Delivers(c.value, p) ==>
            DeliversFrom(ds, p.connectionId, sid, StreamOf(c, sid),
                         if p.streamId == sid && Accepts(c, p, env) then Some(PayloadOf(p)) else None))
      && (c.None? ==> ds == [])
      && forall d | d in ds :: d.id == p.connectionId
  {
    var hs := if handshakeNeeded then Send(e, HandshakeReply(p.connectionId), from, now, env.handshakeOk)
              else SendResult(e, true, []);
    SendConns(e, HandshakeReply(p.connectionId), from, now, env.handshakeOk);
    hide Send, HasFlag, Delivers, Streams.OnData, Streams.View, Feed;
    var c := Lookup(e.conns, p.connectionId);
    if c.Some? {
      EntryState(e.conns, p.connectionId);
      TableDelivers(c.value.streams, p, env, p.connectionId, sid);
    }
  }

  /** What one step delivers on one stream. */
  lemma StepDelivers(e: Engine, ev: Event, id: uint64, sid: uint32)
    requires TableOk(e.conns)
    ensures var c := Lookup(e.conns, id);
      DeliversFrom(Step(e, ev).delivered, id, sid, BaseStream(c, ev, id, sid),
                   AcceptedPayload(c, ev, id, sid, Room(e, ev.now)))
  {
    if ev.Arrive? && Decode(ev.bytes).Some? {
      ReceiveDelivers(e, ev, Decode(ev.bytes).value, id, sid);
    }
  }

  /** What the packet's own connection has on the stream when the payload comes to it. */
  lemma PayloadBase(c: Option<Conn>, ev: Event, p: Packet, id: uint64, sid: uint32, room: bool)
    requires PacketFor(ev, id) == Some(p) && (c.Some? ==> Streams.DistinctIds(c.value.streams))
    ensures var c1 := ProcessedConn(Unexpired(c, ev.now), p, ev.from, ev.now, room);
      && (c1.Some? ==> StreamOf(c1, sid) == BaseStream(c, ev, id, sid))
      && AcceptedPayload(c, ev, id, sid, room)
         == if p.streamId == sid && Accepts(c1, p, ev.env) then Some(PayloadOf(p)) else None
  {
    BaseAfterProcess(c, ev, p, id, sid, room);
  }

  lemma ReceiveDelivers(e: Engine, ev: Event, p: Packet, id: uint64, sid: uint32)
    requires TableOk(e.conns) && ev.Arrive? && Decode(ev.bytes) == Some(p)
    ensures var c := Lookup(e.conns, id);
      DeliversFrom(Step(e, ev).delivered, id, sid, BaseStream(c, ev, id, sid),
                   AcceptedPayload(c, ev, id, sid, Room(e, ev.now)))
  {
    hide Process, Respond, Heard, Step, ProcessedConn, Decode, HasFlag, Delivers, TableOk, Lookup, BaseStream, Feed,
      StreamOf, AcceptedPayload, Unexpired, CleanConns;
    var e1 := Heard(e, p);
    var r := Process(e1, p, ev.from, ev.now);
    ReceiveShape(e, ev, p);
    ProcessEntry(e1, p, ev.from, ev.now, p.connectionId);
    RespondDelivers(r.engine, p, ev.from, ev.now, r.handshakeNeeded, ev.env, sid);
    if id == p.connectionId {
      LookupOk(e.conns, id);
      PayloadBase(Lookup(e.conns, id), ev, p, id, sid, Room(e, ev.now));
    } else {
      NoBytesForOthers(Step(e, ev).delivered, p.connectionId, id, sid);
      NotForOthers(Lookup(e.conns, id), ev, p, id, sid, Room(e, ev.now));
    }
  }

  lemma LookupOk(conns: seq<Conn>, id: uint64)
    requires TableOk(conns)
    ensures Lookup(conns, id).Some? ==> Streams.DistinctIds(Lookup(conns, id).value.streams)
  {
  }

  lemma NotForOthers(c: Option<Conn>, ev: Event, p: Packet, id: uint64, sid: uint32, room: bool)
    requires ev.Arrive? && Decode(ev.bytes) == Some(p) && p.connectionId != id
    ensures AcceptedPayload(c, ev, id, sid, room).None?
  {
  }

  /** A connection that is live after process_packet has the stream the step starts from. */
  lemma BaseAfterProcess(c: Option<Conn>, ev: Event, p: Packet, id: uint64, sid: uint32, room: bool)
    requires PacketFor(ev, id) == Some(p) && (c.Some? ==> Streams.DistinctIds(c.value.streams))
    ensures var c1 := ProcessedConn(Unexpired(c, ev.now), p, ev.from, ev.now, room);
      c1.Some? ==> StreamOf(c1, sid) == BaseStream(c, ev, id, sid)
  {
    ProcessedStream(Unexpired(c, ev.now), p, ev.from, ev.now, room, sid);
    hide HasFlag, Decode, StreamOf;
  }

  // --- runs ---

  /** The payloads accepted for the pair since the connection was last created, as arrivals at its stream. */
  ghost function History(trace: Trace, id: uint64, sid: uint32): seq<Arrival> {
    if trace == [] then []
    else
      var init, ev := trace[..|trace| - 1], trace[|trace| - 1];
      var c := EntryAfter(init, id);
      var s := AcceptedPayload(c, ev, id, sid, Room(After(init), ev.now));
      (if Survives(c, ev, id) then History(init, id, sid) else [])
      + if s.Some? then [Arrival(s.value, MAX_PAYLOAD)] else []
  }

  /** The bytes handed to the stream handler for the pair since then. */
  ghost function DeliveredBytes(trace: Trace, id: uint64, sid: uint32): seq<byte> {
    if trace == [] then []
    else
      var init, ev := trace[..|trace| - 1], trace[|trace| - 1];
      (if Survives(EntryAfter(init, id), ev, id) then DeliveredBytes(init, id, sid) else [])
      + BytesFor(Step(After(init), ev).delivered, id, sid)
  }

  lemma RunSnoc(arrivals: seq<Arrival>, a: Arrival)
    ensures var before := Run(Fresh, arrivals);
      var d := Feed(before.stream, a.segment, a.room);
      Run(Fresh, arrivals + [a]) == Drained(d.stream, before.bytes + d.bytes)
  {
  }

  lemma StepStream(trace: Trace, id: uint64, sid: uint32)
    requires trace != []
    ensures var init, ev := trace[..|trace| - 1], trace[|trace| - 1];
      var c := EntryAfter(init, id);
      var base, s := BaseStream(c, ev, id, sid), AcceptedPayload(c, ev, id, sid, Room(After(init), ev.now));
      && StreamOf(EntryAfter(trace, id), sid) == (if s.Some? then Feed(base, s.value, MAX_PAYLOAD).stream else base)
      && DeliversFrom(Step(After(init), ev).delivered, id, sid, base, s)
  {
    hide NextConn, Step, StreamOf, AcceptedPayload, BaseStream, Feed, Room, DeliversFrom, TableOk, Lookup;
    var init, ev := trace[..|trace| - 1], trace[|trace| - 1];
    ReachableTable(init);
    LookupOk(After(init).conns, id);
    LastStep(trace, id);
    NextStream(EntryAfter(init, id), ev, id, sid, Room(After(init), ev.now));
    StepDelivers(After(init), ev, id, sid);
  }

  /** Isolation: over every run, the stream of a pair and all that was delivered for
      it are those of a fresh stream fed with the pair's own history and nothing else. */
  lemma {:induction false} Isolation(trace: Trace, id: uint64, sid: uint32)
    ensures Drained(StreamOf(EntryAfter(trace, id), sid), DeliveredBytes(trace, id, sid))
      == Run(Fresh, History(trace, id, sid))
  {
    hide EntryAfter, Step, After, AcceptedPayload, Survives, Feed, Room, BytesFor;
    if trace == [] {
      NothingLiveAtFirst(id);
    } else {
      var init, ev := trace[..|trace| - 1], trace[|trace| - 1];
      var c := EntryAfter(init, id);
      Isolation(init, id, sid);
      StepStream(trace, id, sid);
      var kept := if Survives(c, ev, id) then History(init, id, sid) else [];
      var s := AcceptedPayload(c, ev, id, sid, Room(After(init), ev.now));
      var bytes := if Survives(c, ev, id) then DeliveredBytes(init, id, sid) else [];
      assert Drained(BaseStream(c, ev, id, sid), bytes) == Run(Fresh, kept);
      if s.Some? {
        RunSnoc(kept, Arrival(s.value, MAX_PAYLOAD));
      } else {
        assert kept + [] == kept && bytes + [] == bytes;
      }
    }
  }
}
