/** From the run of a sending engine to the run of a receiving one. */
module EndToEndRuns {
  import opened Bytes
  import opened PacketCodec
  import opened Reassembly
  import opened EngineSpec
  import opened EngineTables
  import opened EngineLifecycle
  import opened EngineIsolation
  import opened EngineAcks
  import opened EnginePending
  import opened EngineReplies
  import opened EngineCounters
  import opened ChunkSender
  import opened EndToEnd

  // --- what the sender's run puts on the wire ---

  /** The datagram is a DATA packet that an event of the run gave to the engine, serialized. */
  ghost predicate SentData(trace: Trace, d: Datagram) {
    exists ev :: ev in trace && IsDataSend(ev) && d.bytes == Encode(ev.packet)
  }

  predicate IsDataSend(ev: Event) {
    (ev.SendData? || ev.SendRaw?) && ev.packet.Has(DATA) && ev.packet.length <= MAX_PAYLOAD
  }

  /** The datagram is a packet without DATA, serialized. */
  ghost predicate IsControl(d: Datagram) {
    exists p: Outgoing :: !p.Has(DATA) && p.length <= MAX_PAYLOAD && d.bytes == Encode(p)
  }

  lemma SendCarries(e: Engine, p: Outgoing, addr: Address, now: int, sendOk: bool, d: Datagram)
    requires d in Send(e, p, addr, now, sendOk).wire
    ensures p.length <= MAX_PAYLOAD && d.bytes == Encode(p)
  {
    hide Encode, Track;
  }

  lemma ControlSent(e: Engine, p: Outgoing, addr: Address, now: int, sendOk: bool, d: Datagram)
    requires !p.Has(DATA) && d in Send(e, p, addr, now, sendOk).wire
    ensures IsControl(d)
  {
    hide Encode, Send, HasFlag;
    SendCarries(e, p, addr, now, sendOk, d);
  }

  lemma RespondIsControl(e: Engine, p: Packet, from: Address, now: int, handshakeNeeded: bool, env: Env, d: Datagram)
    requires d in Respond(e, p, from, now, handshakeNeeded, env).wire
    ensures IsControl(d)
  {
    hide HasFlag, Send, Deliver, IsControl;
    RepliesCarryNoData(p.connectionId, p);
    var hs := Send(e, HandshakeReply(p.connectionId), from, now, env.handshakeOk);
    if handshakeNeeded && d in hs.wire {
      ControlSent(e, HandshakeReply(p.connectionId), from, now, env.handshakeOk, d);
    } else {
      var e1 := if handshakeNeeded then hs.engine else e;
      ControlSent(Deliver(e1, p, env.allocOk).engine, AckFor(p), from, now, env.ackOk, d);
    }
  }

  lemma ReceiveIsControl(e: Engine, ev: Event, d: Datagram)
    requires ev.Arrive? && d in Step(e, ev).wire
    ensures IsControl(d)
  {
    hide HasFlag, Process, Respond, Heard, Step, IsControl, Decode;
    if Decode(ev.bytes).Some? {
      var p := Decode(ev.bytes).value;
      ReceiveShape(e, ev, p);
      var r := Process(Heard(e, p), p, ev.from, ev.now);
      RespondIsControl(r.engine, p, ev.from, ev.now, r.handshakeNeeded, ev.env, d);
    } else {
      JunkIsSilent(e, ev);
    }
  }

  lemma JunkIsSilent(e: Engine, ev: Event)
    requires ev.Arrive? && Decode(ev.bytes).None?
    ensures Step(e, ev).wire == []
  {
    ReceiveJunk(e, ev.bytes, ev.from, ev.now, ev.env);
  }

  /** What a tick sends was sent before in the run. */
  lemma TickResends(trace: Trace, now: int, failed: set<nat>, d: Datagram)
    requires d in Step(After(trace), Tick(now, failed)).wire
    ensures SentData(trace, d)
  {
    hide After, Step, HasFlag, Encode;
    var j := RetransmissionAddress(trace, now, failed, d);
    PendingStored(trace, j);
    var pd := After(trace).pending[j];
    var ev :| ev in trace && IsSendOf(ev, pd);
    assert IsDataSend(ev);
  }

  lemma CloseIsControl(e: Engine, id: uint64, now: int, sendOk: bool, d: Datagram)
    requires d in CloseLocally(e, id, now, sendOk).wire
    ensures IsControl(d)
  {
    hide HasFlag, Send, CloseConn, IsControl;
    var i := Find(e.conns, id);
    RepliesCarryNoData(id, CloseNotice(id));
    ControlSent(CloseConn(e, i), CloseNotice(id), e.conns[i].addr, now, sendOk, d);
  }

  lemma SendEventCarries(e: Engine, ev: Event, d: Datagram)
    requires (ev.SendData? || ev.SendRaw?) && d in Step(e, ev).wire
    ensures ev.packet.length <= MAX_PAYLOAD && d.bytes == Encode(ev.packet)
  {
    hide Encode, Send, GetConnection;
    match ev
    case SendData(p, now, sendOk) =>
      var g := GetConnection(e, p.connectionId, now);
      SendCarries(g.0, p, g.1.value, now, sendOk, d);
    case SendRaw(p, to, now, sendOk) => SendCarries(e, p, to, now, sendOk, d);
  }

  /** Whatever one more event puts on the wire is a control packet or a DATA packet of the run. */
  lemma StepWire(trace: Trace, ev: Event, d: Datagram)
    requires d in Step(After(trace), ev).wire
    ensures IsControl(d) || SentData(trace + [ev], d)
  {
    hide After, HasFlag, Encode, Receive, Retransmit, Cleanup, CloseLocally, SendToConnection, Send, GetConnection;
    match ev
    case Arrive(_, _, _, _) => ReceiveIsControl(After(trace), ev, d);
    case Tick(now, failed) =>
      TickResends(trace, now, failed, d);
      SentDataMore(trace, [ev], d);
    case SendData(_, _, _) => SendWireStep(trace, ev, d);
    case SendRaw(_, _, _, _) => SendWireStep(trace, ev, d);
    case LookUp(_, _) =>
    case CloseCall(id, now, sendOk) => CloseIsControl(After(trace), id, now, sendOk, d);
  }

  lemma SendWireStep(trace: Trace, ev: Event, d: Datagram)
    requires (ev.SendData? || ev.SendRaw?) && d in Step(After(trace), ev).wire
    ensures IsControl(d) || SentData(trace + [ev], d)
  {
    hide After, HasFlag, Encode, Step;
    SendEventCarries(After(trace), ev, d);
    if ev.packet.Has(DATA) {
      assert ev in trace + [ev] && IsDataSend(ev);
    }
  }

  lemma SentDataMore(trace: Trace, more: Trace, d: Datagram)
    requires SentData(trace, d)
    ensures SentData(trace + more, d)
  {
    hide Encode, HasFlag;
    var ev :| ev in trace && IsDataSend(ev) && d.bytes == Encode(ev.packet);
    assert ev in trace + more;
  }

  /** Over every run, retransmissions and failed sends included, the wire carries only control packets and the
      DATA packets that the run was given. */
  lemma {:induction false} WireIsSent(trace: Trace, d: Datagram)
    requires d in WireOf(trace)
    ensures IsControl(d) || SentData(trace, d)
  {
    hide After, Step, IsControl, SentData;
    var init, ev := trace[..|trace| - 1], trace[|trace| - 1];
    assert trace == init + [ev];
    if d in WireOf(init) {
      WireIsSent(init, d);
      if SentData(init, d) {
        SentDataMore(init, [ev], d);
      }
    } else {
      StepWire(init, ev, d);
    }
  }

  // --- send_video_chunk on that wire ---

  /** Also when a send fails part-way, the wire carries the packets in order up to there. */
  lemma {:induction false} SendAllWire(e: Engine, packets: seq<Outgoing>, clock: nat -> int, ok: nat -> bool)
    ensures var r := SendAll(e, packets, clock, ok);
      && r.calls <= |packets| && (r.ok ==> |r.wire| == |packets|)
      && |r.wire| <= |packets| && forall i | 0 <= i < |r.wire| :: r.wire[i].bytes == Encode(packets[i])
  {
    hide SendToConnection, Encode;
    if packets != [] {
      var n := |packets| - 1;
      SendAllWire(e, packets[..n], clock, ok);
      var before := SendAll(e, packets[..n], clock, ok);
      if before.ok {
        OneOrNone(before.engine, packets[n], clock(n), ok(n));
      }
    }
  }

  /** It stops at the first call that fails, and every call before has sent its packet. */
  lemma {:induction false} SendAllStopsAt(e: Engine, packets: seq<Outgoing>, clock: nat -> int, ok: nat -> bool)
    ensures var r := SendAll(e, packets, clock, ok);
      if r.ok then r.calls == |r.wire| == |packets|
      else 0 < r.calls <= |packets| && |r.wire| == r.calls - 1
           && SendAll(e, packets[..r.calls - 1], clock, ok).ok && !SendAll(e, packets[..r.calls], clock, ok).ok
  {
    hide SendToConnection, SendAll;
    if packets == [] {
      SendNothing(e, packets, clock, ok);
      assert packets[..0] == packets;
    } else {
      var n := |packets| - 1;
      SendAllStopsAt(e, packets[..n], clock, ok);
      SendAllNext(e, packets, clock, ok, n);
      assert packets[..n + 1] == packets;
      var before := SendAll(e, packets[..n], clock, ok);
      if before.ok {
        OneOrNone(before.engine, packets[n], clock(n), ok(n));
      } else {
        TakeTake(packets, n, before.calls);
        TakeTake(packets, n, before.calls - 1);
      }
    }
  }

  lemma TakeTake(packets: seq<Outgoing>, n: nat, k: nat)
    requires k <= n <= |packets|
    ensures packets[..n][..k] == packets[..k]
  {
  }

  lemma OneOrNone(e: Engine, p: Outgoing, now: int, sendOk: bool)
    ensures var r := SendToConnection(e, p, now, sendOk);
      if r.ok then |r.wire| == 1 && r.wire[0].bytes == Encode(p) else r.wire == []
  {
    hide Encode, GetConnection, Track;
  }

  /** The calls of send_video_chunk as events of a run. */
  function SendEvents(packets: seq<Outgoing>, clock: nat -> int, ok: nat -> bool): (events: seq<Event>)
    ensures |events| == |packets|
  {
    seq(|packets|, i requires 0 <= i < |packets| => SendData(packets[i], clock(i), ok(i)))
  }

  /** The sends that send_video_chunk makes are a run of its engine: it stands where they lead, with their wire. */
  lemma {:induction false} SendAllIsRun(trace: Trace, packets: seq<Outgoing>, clock: nat -> int, ok: nat -> bool)
    ensures var r := SendAll(After(trace), packets, clock, ok);
      && r.calls <= |packets|
      && After(trace + SendEvents(packets[..r.calls], clock, ok)) == r.engine
      && WireOf(trace + SendEvents(packets[..r.calls], clock, ok)) == WireOf(trace) + r.wire
      && (r.ok ==> r.calls == |packets|)
  {
    hide SendToConnection, After, WireOf, Step, SendEvents;
    if packets == [] {
      NoEvents(trace, clock, ok);
      assert packets[..0] == [];
    } else {
      var n := |packets| - 1;
      SendAllIsRun(trace, packets[..n], clock, ok);
      var before := SendAll(After(trace), packets[..n], clock, ok);
      assert packets[..n][..before.calls] == packets[..before.calls];
      if before.ok {
        var init := trace + SendEvents(packets[..n], clock, ok);
        assert packets[..n][..n] == packets[..n] && packets[..n + 1] == packets;
        LastEvent(packets, clock, ok);
        var ev := SendData(packets[n], clock(n), ok(n));
        assert trace + SendEvents(packets, clock, ok) == init + [ev];
        RunExtends(init, ev);
        SendStep(before.engine, packets[n], clock(n), ok(n));
      }
    }
  }

  lemma NoEvents(trace: Trace, clock: nat -> int, ok: nat -> bool)
    ensures trace + SendEvents([], clock, ok) == trace
  {
  }

  lemma LastEvent(packets: seq<Outgoing>, clock: nat -> int, ok: nat -> bool)
    requires packets != []
    ensures var n := |packets| - 1;
      SendEvents(packets, clock, ok) == SendEvents(packets[..n], clock, ok) + [SendData(packets[n], clock(n), ok(n))]
  {
  }

  lemma SendStep(e: Engine, p: Outgoing, now: int, sendOk: bool)
    ensures var r := SendToConnection(e, p, now, sendOk);
      Step(e, SendData(p, now, sendOk)) == Outcome(r.engine, r.wire, [])
  {
    hide SendToConnection;
  }

  lemma RunExtends(init: Trace, ev: Event)
    ensures After(init + [ev]) == Step(After(init), ev).engine
    ensures WireOf(init + [ev]) == WireOf(init) + Step(After(init), ev).wire
  {
    hide Step;
    assert (init + [ev])[..|init|] == init;
  }

  /** And every datagram goes where the latest packet of its connection came from. */
  lemma {:induction false} SendAllAddresses(trace: Trace, packets: seq<Outgoing>, clock: nat -> int, ok: nat -> bool,
                                            i: nat)
    requires i < |SendAll(After(trace), packets, clock, ok).wire|
    ensures i < |packets|
    ensures var d := SendAll(After(trace), packets, clock, ok).wire[i];
      d.bytes == Encode(packets[i]) && LatestSource(trace, packets[i].connectionId) == Some(d.addr)
  {
    hide SendToConnection, After, Encode, LatestSource, SendEvents, WireOf;
    SendAllWire(After(trace), packets, clock, ok);
    if packets != [] {
      var n := |packets| - 1;
      var before := SendAll(After(trace), packets[..n], clock, ok);
      if i < |before.wire| {
        SendAllAddresses(trace, packets[..n], clock, ok, i);
      } else {
        SendAllWire(After(trace), packets[..n], clock, ok);
        SendAllIsRun(trace, packets[..n], clock, ok);
        assert packets[..n][..n] == packets[..n];
        LastAddress(trace, packets[..n], clock, ok, packets[n], SendAll(After(trace), packets, clock, ok).wire[i]);
      }
    }
  }

  lemma LastAddress(trace: Trace, packets: seq<Outgoing>, clock: nat -> int, ok: nat -> bool, p: Outgoing, d: Datagram)
    requires var n := |packets|;
      d in SendToConnection(After(trace + SendEvents(packets, clock, ok)), p, clock(n), ok(n)).wire
    ensures LatestSource(trace, p.connectionId) == Some(d.addr)
  {
    hide SendToConnection, After, Encode, LatestSource, SendEvents, Step;
    var n := |packets|;
    var run := trace + SendEvents(packets, clock, ok);
    SendStep(After(run), p, clock(n), ok(n));
    SendAddress(run, p, clock(n), ok(n), d);
    SourceUnmoved(trace, packets, clock, ok, p.connectionId);
  }

  /** Sending does not change where a connection is. */
  lemma {:induction false} SourceUnmoved(trace: Trace, packets: seq<Outgoing>, clock: nat -> int, ok: nat -> bool,
                                         id: uint64)
    ensures LatestSource(trace + SendEvents(packets, clock, ok), id) == LatestSource(trace, id)
  {
    hide SendEvents;
    if packets == [] {
      NoEvents(trace, clock, ok);
    } else {
      var n := |packets| - 1;
      SourceUnmoved(trace, packets[..n], clock, ok, id);
      LastEvent(packets, clock, ok);
      var run := trace + SendEvents(packets, clock, ok);
      assert run[..|run| - 1] == trace + SendEvents(packets[..n], clock, ok);
      assert run[|run| - 1] == SendData(packets[n], clock(n), ok(n));
    }
  }

  // --- when all of it goes out ---

  /** A send that goes out leaves its connection usable for another 30 seconds. */
  lemma UsableAfterSend(trace: Trace, p: Outgoing, now: int, sendOk: bool, later: int)
    requires SendToConnection(After(trace), p, now, sendOk).ok
    ensures SomeUsable(After(trace + [SendData(p, now, sendOk)]).conns, p.connectionId, later) <==> later - now <= 30
  {
    hide After, SendToConnection, Decode, Room, NextConn, Find, Encode, LatestTime, LatestSource;
    var id := p.connectionId;
    var all := trace + [SendData(p, now, sendOk)];
    assert all[..|all| - 1] == trace;
    ReachableTable(trace);
    SendGoesTo(After(trace), p, now, sendOk);
    var i: nat :| Usable(After(trace).conns, i, id, now);
    ReachedEntry(trace, i, id);
    LastStep(all, id);
    SeenAgain(After(trace).conns[i], p, now, sendOk, Room(After(trace), now));
    UsableIff(all, id, later);
  }

  lemma SeenAgain(c: Conn, p: Outgoing, now: int, sendOk: bool, room: bool)
    requires c.inUse && c.state == Connected && now - c.lastSeen <= 30
    ensures NextConn(Some(c), SendData(p, now, sendOk), p.connectionId, room) == Some(c.(lastSeen := now))
  {
  }

  lemma UsableIff(trace: Trace, id: uint64, now: int)
    ensures var c := EntryAfter(trace, id);
      SomeUsable(After(trace).conns, id, now) <==> c.Some? && c.value.state == Connected && now - c.value.lastSeen <= 30
  {
    hide After;
    ReachableTable(trace);
    var conns := After(trace).conns;
    EntryState(conns, id);
    if i: nat :| Usable(conns, i, id, now) {
      LookupAt(conns, i);
    }
    if EntryAfter(trace, id).Some? {
      var i := Find(conns, id);
      assert Usable(conns, i, id, now) <==> conns[i].state == Connected && now - conns[i].lastSeen <= 30;
    }
  }

  /** No more than 30 seconds lie between one call and the next. */
  ghost predicate Brisk(clock: nat -> int, n: nat) {
    forall k: nat | 0 < k < n :: clock(k) - clock(k - 1) <= 30
  }

  ghost predicate AllOk(ok: nat -> bool, n: nat) {
    forall k: nat | k < n :: ok(k)
  }

  /** Sending packets to one connection works to the end iff every sendto works, the connection is usable at the
      first call, and no more than 30 seconds pass between calls. */
  lemma {:induction false} SendAllOkIff(trace: Trace, packets: seq<Outgoing>, clock: nat -> int, ok: nat -> bool,
                                        id: uint64)
    requires packets != []
    requires forall p | p in packets :: p.connectionId == id && p.length <= 16384
    ensures SendAll(After(trace), packets, clock, ok).ok
       <==> AllOk(ok, |packets|) && Brisk(clock, |packets|) && SomeUsable(After(trace).conns, id, clock(0))
  {
    hide SendToConnection, After, SomeUsable, SendEvents, WireOf, Brisk, AllOk;
    var n := |packets| - 1;
    var init := packets[..n];
    assert packets[n] in packets;
    SendAllIsRun(trace, init, clock, ok);
    OneMore(clock, ok, n);
    var run := trace + SendEvents(init, clock, ok);
    if n == 0 {
      NoEvents(trace, clock, ok);
      LastOk(trace, packets[n], clock(0), ok(0));
    } else {
      SendAllOkIff(trace, init, clock, ok, id);
      if SendAll(After(trace), init, clock, ok).ok {
        assert init[..n] == init;
        LastOk(run, packets[n], clock(n), ok(n));
        SendAllIsRun(trace, init[..n - 1], clock, ok);
        assert init[..n - 1][..n - 1] == init[..n - 1];
        LastEvent(init, clock, ok);
        var before := trace + SendEvents(init[..n - 1], clock, ok);
        assert run == before + [SendData(init[n - 1], clock(n - 1), ok(n - 1))];
        assert init[n - 1] in packets;
        UsableAfterSend(before, init[n - 1], clock(n - 1), ok(n - 1), clock(n));
      }
    }
  }

  lemma LastOk(trace: Trace, p: Outgoing, now: int, sendOk: bool)
    requires p.length <= 16384
    ensures SendToConnection(After(trace), p, now, sendOk).ok
       <==> SomeUsable(After(trace).conns, p.connectionId, now) && sendOk
  {
    hide After, SendToConnection, SomeUsable, Encode;
    ReachableTable(trace);
    SendGoesTo(After(trace), p, now, sendOk);
  }

  lemma OneMore(clock: nat -> int, ok: nat -> bool, n: nat)
    ensures AllOk(ok, n + 1) <==> AllOk(ok, n) && ok(n)
    ensures Brisk(clock, n + 1) <==> Brisk(clock, n) && (n > 0 ==> clock(n) - clock(n - 1) <= 30)
    ensures AllOk(ok, 0) && Brisk(clock, 0)
  {
  }

  // --- one engine to the other ---

  /** The DATA packets that the run was given for the pair are chunks. */
  ghost predicate SendsOnly(trace: Trace, id: uint64, sid: uint32, packets: seq<Outgoing>) {
    forall ev | ev in trace && IsDataSend(ev) && ev.packet.connectionId == id && ev.packet.streamId == sid ::
      ev.packet in packets
  }

  /** What arrives with DATA for the pair is something from the wire, any number of times and in any order. */
  ghost predicate FromWire(trace: Trace, id: uint64, sid: uint32, wire: seq<Datagram>) {
    forall ev, p | ev in trace && PacketFor(ev, id) == Some(p) && p.streamId == sid && p.Has(DATA) ::
      OnWire(ev.bytes, wire)
  }

  ghost predicate OnWire(bytes: seq<byte>, wire: seq<Datagram>) {
    exists d :: d in wire && d.bytes == bytes
  }

  /** A datagram of the sender's run that is a DATA packet for the pair is one of the chunks. */
  lemma WireIsChunk(sender: Trace, id: uint64, sid: uint32, packets: seq<Outgoing>, d: Datagram, p: Packet)
    requires SendsOnly(sender, id, sid, packets) && d in WireOf(sender)
    requires Decode(d.bytes) == Some(p) && p.Has(DATA) && p.connectionId == id && p.streamId == sid
    ensures p in packets && d.bytes == Encode(p)
  {
    hide Encode, Decode, HasFlag, WireOf;
    WireIsSent(sender, d);
    if IsControl(d) {
      var q: Outgoing :| !q.Has(DATA) && q.length <= MAX_PAYLOAD && d.bytes == Encode(q);
      Decoded(q);
    } else {
      var ev :| ev in sender && IsDataSend(ev) && d.bytes == Encode(ev.packet);
      Decoded(ev.packet);
    }
  }

  lemma Decoded(q: Outgoing)
    requires q.length <= MAX_PAYLOAD
    ensures Decode(Encode(q)) == Some(q)
  {
    hide Encode, Decode;
    DecodeUndoesEncode(q, []);
    assert Encode(q) + [] == Encode(q);
  }

  /** Two engines: if a sender's run was given only chunks of a slice as DATA for the pair, and what arrives at the
      receiver with DATA for the pair comes from that run's wire, then over every run of the receiver its stream
      handler has been given a prefix of the slice. */
  lemma EnginesDeliverPrefix(sender: Trace, receiver: Trace, file: seq<byte>, id: uint64, sid: uint32,
                             length: uint32, number: uint32)
    requires |file| < TWO32 && SendsOnly(sender, id, sid, SliceChunks(file, id, sid, length, number))
    requires FromWire(receiver, id, sid, WireOf(sender))
    ensures DeliveredBytes(receiver, id, sid) <= Slice(file, length)
  {
    hide SliceChunks, Slice, DeliveredBytes, WireOf, HasFlag, SendsOnly, Decode;
    var packets := SliceChunks(file, id, sid, length, number);
    forall ev, p | ev in receiver && PacketFor(ev, id) == Some(p) && p.streamId == sid && p.Has(DATA)
      ensures p in packets
    {
      var d :| d in WireOf(sender) && d.bytes == ev.bytes;
      WireIsChunk(sender, id, sid, packets, d, p);
    }
    EngineDeliversPrefix(receiver, file, id, sid, length, number);
  }

  // --- completeness and draining at the receiver ---

  /** The DATA packets that arrive for the pair are chunks. */
  ghost predicate BringsOnly(trace: Trace, id: uint64, sid: uint32, packets: seq<Outgoing>) {
    forall ev, p | ev in trace && PacketFor(ev, id) == Some(p) && p.streamId == sid && p.Has(DATA) :: p in packets
  }

  lemma HistoryIsChunks(trace: Trace, id: uint64, sid: uint32, packets: seq<Outgoing>)
    requires BringsOnly(trace, id, sid, packets)
    ensures AllFrom(History(trace, id, sid), packets)
  {
    hide History, PacketFor, HasFlag, NotEndedAfter;
    forall a | a in History(trace, id, sid)
      ensures FromOne(a, packets)
    {
      HistoryWasBrought(trace, id, sid, a);
      HistoryRoom(trace, id, sid, a);
      var k :| 0 <= k < |trace| && Brought(trace, k, id, sid, a.segment) && NotEndedAfter(trace, k, id);
      assert trace[k] in trace;
    }
  }

  /** Once the history of the pair holds every chunk, exactly the slice is delivered or held. */
  lemma EngineCompletes(trace: Trace, file: seq<byte>, id: uint64, sid: uint32, length: uint32, number: uint32, x: nat)
    requires |file| < TWO32 && BringsOnly(trace, id, sid, SliceChunks(file, id, sid, length, number))
    requires Complete(History(trace, id, sid), SliceChunks(file, id, sid, length, number))
    ensures HasByte(trace, id, sid, x) <==> x < |Slice(file, length)|
  {
    hide SliceChunks, Slice, History, HasByte, BringsOnly, Complete, AllFrom, Sent, ArrivalsBounded, Inv;
    var packets := SliceChunks(file, id, sid, length, number);
    var history := History(trace, id, sid);
    HistoryIsChunks(trace, id, sid, packets);
    ArrivalsFromChunks(file, id, sid, length, number, history);
    HasByteIff(trace, id, sid);
    CoveredIff(file, id, sid, length, number, history, x);
  }

  /** And while the connection lives, every further payload accepted for the pair drains the next 16 KiB, or the
      rest: so the whole slice comes out. */
  lemma EngineDrains(trace: Trace, more: Trace, file: seq<byte>, id: uint64, sid: uint32, length: uint32, number: uint32)
    requires |file| < TWO32 && BringsOnly(trace + more, id, sid, SliceChunks(file, id, sid, length, number))
    requires Complete(History(trace, id, sid), SliceChunks(file, id, sid, length, number))
    requires EntryAfter(trace, id).Some?
    requires forall j | |trace| <= j < |trace| + |more| :: !EndedAt(trace + more, j, id)
    ensures History(trace, id, sid) <= History(trace + more, id, sid)
    ensures DeliveredBytes(trace + more, id, sid) <= Slice(file, length)
    ensures |DeliveredBytes(trace + more, id, sid)|
         == Min(|Slice(file, length)|,
                |DeliveredBytes(trace, id, sid)|
                + PiecesSize(|History(trace + more, id, sid)| - |History(trace, id, sid)|))
  {
    hide SliceChunks, Slice, History, BringsOnly, Complete, FromOne, Run, DeliveredBytes, EntryAfter, EndedAt,
      PiecesSize;
    var packets := SliceChunks(file, id, sid, length, number);
    var before, after := History(trace, id, sid), History(trace + more, id, sid);
    AckedStays(trace, more, id, sid);
    HistoryIsChunks(trace + more, id, sid, packets);
    var rest := after[|before|..];
    assert after == before + rest;
    Isolation(trace, id, sid);
    Isolation(trace + more, id, sid);
    DrainsOut(file, id, sid, length, number, before, rest);
  }
}
