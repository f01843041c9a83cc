/** What the packet counters count over every run. */
module EngineCounters {
  import opened Bytes
  import opened PacketCodec
  import opened EngineSpec
  import opened EngineTables
  import opened EngineLifecycle
  import opened EngineSlots
  import opened EngineReplies

  /** Everything the run has put on the wire. */
  function WireOf(trace: Trace): seq<Datagram> {
    if trace == [] then []
    else WireOf(trace[..|trace| - 1]) + Step(After(trace[..|trace| - 1]), trace[|trace| - 1]).wire
  }

  function Arrivals(trace: Trace): nat {
    if trace == [] then 0 else Arrivals(trace[..|trace| - 1]) + if trace[|trace| - 1].Arrive? then 1 else 0
  }

  /** The event brings a packet for a known connection from somewhere else than its packet before. */
  ghost predicate Moves(trace: Trace, ev: Event) {
    && ev.Arrive? && Decode(ev.bytes).Some?
    && var id := Decode(ev.bytes).value.connectionId;
       Known(After(trace).conns, id, ev.now) && LatestSource(trace, id) != Some(ev.from)
  }

  ghost function MoveCount(trace: Trace): nat {
    if trace == [] then 0
    else MoveCount(trace[..|trace| - 1]) + if Moves(trace[..|trace| - 1], trace[|trace| - 1]) then 1 else 0
  }

  // --- one step ---

  /** `b` has sent `n` more, and has received and moved what `a` has. */
  predicate SentMore(a: Engine, b: Engine, n: nat) {
    && b.metrics.sent == a.metrics.sent + n
    && b.metrics.received == a.metrics.received && b.metrics.migrations == a.metrics.migrations
  }

  lemma SendCounts(e: Engine, p: Outgoing, to: Address, now: int, sendOk: bool)
    ensures var r := Send(e, p, to, now, sendOk); SentMore(e, r.engine, |r.wire|)
  {
  }

  lemma LookupCounts(e: Engine, id: uint64, now: int)
    ensures SentMore(e, GetConnection(e, id, now).0, 0)
  {
  }

  lemma SendDataCounts(e: Engine, p: Outgoing, now: int, sendOk: bool)
    ensures var r := SendToConnection(e, p, now, sendOk); SentMore(e, r.engine, |r.wire|)
  {
    hide GetConnection, Send;
    var g := GetConnection(e, p.connectionId, now);
    LookupCounts(e, p.connectionId, now);
    if g.1.Some? {
      SendCounts(g.0, p, g.1.value, now, sendOk);
    }
  }

  lemma CloseCounts(e: Engine, id: uint64, now: int, sendOk: bool)
    ensures var r := CloseLocally(e, id, now, sendOk); SentMore(e, r.engine, |r.wire|)
  {
    hide Send;
    var i := Find(e.conns, id);
    if i < |e.conns| {
      SendCounts(CloseConn(e, i), CloseNotice(id), e.conns[i].addr, now, sendOk);
    }
  }

  lemma DeliverCounts(e: Engine, p: Packet, allocOk: bool)
    ensures SentMore(e, Deliver(e, p, allocOk).engine, 0)
  {
  }

  lemma RespondCounts(e: Engine, p: Packet, from: Address, now: int, handshakeNeeded: bool, env: Env)
    ensures var r := Respond(e, p, from, now, handshakeNeeded, env); SentMore(e, r.engine, |r.wire|)
  {
    hide Send, Deliver, HasFlag;
    SendCounts(e, HandshakeReply(p.connectionId), from, now, env.handshakeOk);
    var hs := if handshakeNeeded then Send(e, HandshakeReply(p.connectionId), from, now, env.handshakeOk)
              else SendResult(e, true, []);
    DeliverCounts(hs.engine, p, env.allocOk);
    SendCounts(Deliver(hs.engine, p, env.allocOk).engine, AckFor(p), from, now, env.ackOk);
  }

  lemma TickCountsSent(e: Engine, now: int, failed: set<nat>)
    ensures var r := Step(e, Tick(now, failed)); SentMore(e, r.engine, |r.wire|)
  {
    hide RetransmitWire, RetransmitTable;
  }

  /** Admitting a packet counts a move iff its entry is there with another address. */
  lemma ProcessCounts(e: Engine, p: Packet, from: Address, now: int)
    requires TableOk(e.conns)
    ensures var m := Process(e, p, from, now).engine.metrics;
      && m.sent == e.metrics.sent && m.received == e.metrics.received
      && m.migrations == e.metrics.migrations +
           if exists i: nat :: Reached(e.conns, i, p.connectionId, now) && e.conns[i].addr != from then 1 else 0
  {
    hide Cleanup, Admit, TableOk, Reached;
    AdmitCounts(e, p, from, now);
  }

  lemma AdmitCounts(e: Engine, p: Packet, from: Address, now: int)
    requires TableOk(e.conns)
    ensures match Admit(Cleanup(e, now), p, from, now)
      case Refused => !MovedEntry(e.conns, p.connectionId, from, now)
      case Admitted(e2, _, _) =>
        && e2.metrics.sent == e.metrics.sent && e2.metrics.received == e.metrics.received
        && e2.metrics.migrations == e.metrics.migrations +
             if MovedEntry(e.conns, p.connectionId, from, now) then 1 else 0
    ensures var m := Cleanup(e, now).metrics;
      m.sent == e.metrics.sent && m.received == e.metrics.received && m.migrations == e.metrics.migrations
  {
    hide CleanConns, ClearPending, ExpiredIds, ExpiredCount, TableOk, Find, Reached;
    var id := p.connectionId;
    var after := CleanConns(e.conns, now);
    FoundIsReached(e.conns, id, now);
    forall i: nat | Reached(e.conns, i, id, now)
      ensures i == Find(after, id) && i < |after| && after[i] == e.conns[i]
    {
      ReachedIsFound(e.conns, i, id, now);
    }
  }

  lemma ReachedIsFound(conns: seq<Conn>, i: nat, id: uint64, now: int)
    requires TableOk(conns) && Reached(conns, i, id, now)
    ensures var after := CleanConns(conns, now); i == Find(after, id) && i < |after| && after[i] == conns[i]
  {
    ReachedAfterCleanup(conns, i, id, now);
  }

  ghost predicate MovedEntry(conns: seq<Conn>, id: uint64, from: Address, now: int) {
    exists i: nat :: Reached(conns, i, id, now) && conns[i].addr != from
  }

  lemma ReceiveCounts(e: Engine, ev: Event, p: Packet)
    requires TableOk(e.conns) && ev.Arrive? && Decode(ev.bytes) == Some(p)
    ensures var r := Step(e, ev); var m := r.engine.metrics;
      && m.sent == e.metrics.sent + |r.wire| && m.received == e.metrics.received + 1
      && m.migrations == e.metrics.migrations +
           if MovedEntry(e.conns, p.connectionId, ev.from, ev.now) then 1 else 0
  {
    hide Process, Respond, Heard, Step, TableOk, Decode, Reached, HasFlag;
    ReceiveShape(e, ev, p);
    HeardCounts(e, p);
    ProcessCounts(Heard(e, p), p, ev.from, ev.now);
    var r := Process(Heard(e, p), p, ev.from, ev.now);
    RespondCounts(r.engine, p, ev.from, ev.now, r.handshakeNeeded, ev.env);
  }

  lemma HeardCounts(e: Engine, p: Packet)
    ensures Heard(e, p).metrics == e.metrics.(received := e.metrics.received + 1)
  {
  }

  lemma MovedIff(trace: Trace, ev: Event, p: Packet)
    requires ev.Arrive? && Decode(ev.bytes) == Some(p)
    ensures Moves(trace, ev) <==> MovedEntry(After(trace).conns, p.connectionId, ev.from, ev.now)
  {
    hide After, Decode, LatestSource;
    forall i: nat | Reached(After(trace).conns, i, p.connectionId, ev.now)
      ensures LatestSource(trace, p.connectionId) == Some(After(trace).conns[i].addr)
    {
      ReachedEntry(trace, i, p.connectionId);
    }
  }

  lemma StepCounts(trace: Trace, ev: Event)
    ensures var e := After(trace); var r := Step(e, ev); var m := r.engine.metrics;
      && m.sent == e.metrics.sent + |r.wire|
      && m.received == e.metrics.received + (if ev.Arrive? then 1 else 0)
      && m.migrations == e.metrics.migrations + if Moves(trace, ev) then 1 else 0
  {
    hide After, Receive, GetConnection, CloseLocally, Send, SendToConnection, Cleanup, Decode, Retransmit, Moves,
      MovedEntry;
    var e := After(trace);
    match ev
    case Arrive(bytes, from, now, env) =>
      if Decode(bytes).Some? {
        ReachableTable(trace);
        ReceiveCounts(e, ev, Decode(bytes).value);
        MovedIff(trace, ev, Decode(bytes).value);
      } else {
        ReceiveJunk(e, bytes, from, now, env);
        JunkMovesNothing(trace, ev);
      }
    case Tick(now, failed) => TickCountsSent(e, now, failed); OnlyPacketsMove(trace, ev);
    case SendData(p, now, sendOk) => SendDataCounts(e, p, now, sendOk); OnlyPacketsMove(trace, ev);
    case SendRaw(p, to, now, sendOk) => SendCounts(e, p, to, now, sendOk); OnlyPacketsMove(trace, ev);
    case LookUp(id, now) => LookupCounts(e, id, now); OnlyPacketsMove(trace, ev);
    case CloseCall(id, now, sendOk) => CloseCounts(e, id, now, sendOk); OnlyPacketsMove(trace, ev);
  }

  lemma JunkMovesNothing(trace: Trace, ev: Event)
    requires ev.Arrive? && Decode(ev.bytes).None?
    ensures !Moves(trace, ev)
  {
  }

  lemma OnlyPacketsMove(trace: Trace, ev: Event)
    requires !ev.Arrive?
    ensures !Moves(trace, ev)
  {
  }

  /** After every run: sent is the number of datagrams that went on the wire, received the number that came in,
      and migrated the number of packets that came for a known connection from a new address. */
  lemma {:induction false} CountersAre(trace: Trace)
    ensures var m := After(trace).metrics;
      m.sent == |WireOf(trace)| && m.received == Arrivals(trace) && m.migrations == MoveCount(trace)
  {
    hide Step, Moves;
    if trace != [] {
      CountersAre(trace[..|trace| - 1]);
      StepCounts(trace[..|trace| - 1], trace[|trace| - 1]);
    }
  }
}
