/** The pending table over runs: what its entries are, where they are sent again
    and how often. */
module EnginePending {
  import opened Bytes
  import opened PacketCodec
  import opened EngineSpec
  import opened EngineTables
  import opened EngineLifecycle

  // --- steps that only free entries ---

  /** Entry by entry, `b` is `a`, or freed. */
  ghost predicate Shrinks(a: seq<Pending>, b: seq<Pending>) {
    |a| == |b| && forall j | 0 <= j < |a| :: b[j] == a[j] || b[j] == a[j].(inUse := false)
  }

  ghost predicate Cleared(pending: seq<Pending>, id: uint64) {
    forall j | 0 <= j < |pending| :: !(pending[j].inUse && pending[j].id == id)
  }

  lemma ShrinksTrans(a: seq<Pending>, b: seq<Pending>, c: seq<Pending>, id: uint64)
    requires Shrinks(a, b) && Shrinks(b, c)
    ensures Shrinks(a, c)
    ensures Cleared(a, id) ==> Cleared(b, id)
    ensures Cleared(b, id) ==> Cleared(c, id)
  {
  }

  lemma ClearShrinks(pending: seq<Pending>, ids: set<uint64>, id: uint64)
    ensures Shrinks(pending, ClearPending(pending, ids))
    ensures id in ids ==> Cleared(ClearPending(pending, ids), id)
  {
  }

  /** Cleanup frees the entries of every connection that it ends. */
  lemma CleanupShrinks(e: Engine, now: int, id: uint64)
    requires TableOk(e.conns)
    ensures Shrinks(e.pending, Cleanup(e, now).pending)
    ensures var c := Lookup(e.conns, id); c.Some? && Expired(c.value, now) ==> Cleared(Cleanup(e, now).pending, id)
  {
  }

  lemma HeardShrinks(e: Engine, p: Packet)
    ensures Shrinks(e.pending, Heard(e, p).pending)
  {
  }

  /** Only DATA packets are tracked, so the engine's own replies leave the table alone. */
  lemma ReplyNotTracked(e: Engine, p: Outgoing, addr: Address, now: int, sendOk: bool)
    requires !p.Has(DATA)
    ensures Send(e, p, addr, now, sendOk).engine.pending == e.pending
  {
  }

  lemma RepliesCarryNoData(id: uint64, p: Packet)
    ensures !HandshakeReply(id).Has(DATA) && !CloseNotice(id).Has(DATA) && !AckFor(p).Has(DATA)
  {
  }

  lemma AdmitKeepsPending(e: Engine, p: Packet, addr: Address, now: int)
    ensures match Admit(e, p, addr, now)
      case Refused => true
      case Admitted(e1, i, _) => e1.pending == e.pending && e1.conns[i].id == p.connectionId
  {
  }

  lemma ProcessShrinks(e: Engine, p: Packet, addr: Address, now: int, id: uint64)
    requires TableOk(e.conns)
    ensures var after := Process(e, p, addr, now).engine.pending;
      var c := Lookup(e.conns, id);
      && Shrinks(e.pending, after)
      && (c.Some? && (Expired(c.value, now) || (p.connectionId == id && p.Has(CLOSE))) ==> Cleared(after, id))
  {
    hide HasFlag, Cleanup, Admit, Cleared, Shrinks, ClearPending, TableOk;
    var e1 := Cleanup(e, now);
    CleanupShrinks(e, now, id);
    AdmitKeepsPending(e1, p, addr, now);
    match Admit(e1, p, addr, now)
    case Refused => KnownIsAdmitted(e, p, addr, now);
    case Admitted(e2, i, _) =>
      ClearShrinks(e2.pending, {e2.conns[i].id}, id);
      var cleared := ClearPending(e2.pending, {e2.conns[i].id});
      ShrinksTrans(e.pending, e1.pending, cleared, id);
  }

  /** A known id that has not expired is never refused. */
  lemma KnownIsAdmitted(e: Engine, p: Packet, addr: Address, now: int)
    requires TableOk(e.conns) && Admit(Cleanup(e, now), p, addr, now).Refused?
    ensures var c := Lookup(e.conns, p.connectionId); c.Some? ==> Expired(c.value, now)
  {
    CleanLookup(e.conns, now, p.connectionId);
  }

  lemma RespondKeepsPending(e: Engine, p: Packet, from: Address, now: int, handshakeNeeded: bool, env: Env)
    ensures Respond(e, p, from, now, handshakeNeeded, env).engine.pending == e.pending
  {
    hide HasFlag, Send;
    RepliesCarryNoData(p.connectionId, p);
    ReplyNotTracked(e, HandshakeReply(p.connectionId), from, now, env.handshakeOk);
    var hs := if handshakeNeeded then Send(e, HandshakeReply(p.connectionId), from, now, env.handshakeOk)
              else SendResult(e, true, []);
    ReplyNotTracked(Deliver(hs.engine, p, env.allocOk).engine, AckFor(p), from, now, env.ackOk);
  }

  /** Receiving only frees entries, and frees those of a connection that the packet's arrival ends. */
  lemma ReceiveShrinks(e: Engine, ev: Event, p: Packet, id: uint64)
    requires TableOk(e.conns) && ev.Arrive? && Decode(ev.bytes) == Some(p)
    ensures var after := Step(e, ev).engine.pending;
      Shrinks(e.pending, after) && (Ends(Lookup(e.conns, id), ev, id) ==> Cleared(after, id))
  {
    hide HasFlag, Process, Respond, Heard, Step, Cleared, Shrinks, TableOk, Lookup;
    ReceiveShape(e, ev, p);
    HeardShrinks(e, p);
    ProcessShrinks(Heard(e, p), p, ev.from, ev.now, id);
    var r := Process(Heard(e, p), p, ev.from, ev.now);
    RespondKeepsPending(r.engine, p, ev.from, ev.now, r.handshakeNeeded, ev.env);
    ShrinksTrans(e.pending, Heard(e, p).pending, r.engine.pending, id);
  }

  lemma CloseCallShrinks(e: Engine, target: uint64, now: int, sendOk: bool, id: uint64)
    requires TableOk(e.conns)
    ensures var after := CloseLocally(e, target, now, sendOk).engine.pending;
      Shrinks(e.pending, after) && (Lookup(e.conns, id).Some? && id == target ==> Cleared(after, id))
  {
    hide HasFlag, Send, Cleared, Shrinks, ClearPending;
    var i := Find(e.conns, target);
    SelfShrinks(e.pending);
    if i < |e.conns| {
      assert EntryOk(e.conns[i]);
      ClearShrinks(e.pending, {target}, id);
      RepliesCarryNoData(target, CloseNotice(target));
      ReplyNotTracked(CloseConn(e, i), CloseNotice(target), e.conns[i].addr, now, sendOk);
    }
  }

  lemma SelfShrinks(pending: seq<Pending>)
    ensures Shrinks(pending, pending)
  {
  }

  // --- one slot through one step ---

  /** The same packet is still pending in the slot; a tick may have sent it once more. */
  ghost predicate Kept(before: Pending, after: Pending, ev: Event) {
    && before.inUse && after.id == before.id && after.number == before.number && after.bytes == before.bytes
    && (|| (after.retries == before.retries && after.lastSent == before.lastSent)
        || (ev.Tick? && after.retries == before.retries + 1 < MAX_RETRIES && after.lastSent == ev.now))
  }

  /** The slot now holds the packet that was just sent. */
  ghost predicate Placed(after: Pending, p: Packet, now: int) {
    after == Pending(true, p.connectionId, p.packetNumber, Encode(p), now, 0)
  }

  ghost predicate EndsFor(e: Engine, ev: Event, id: uint64) {
    Ends(Lookup(e.conns, id), ev, id)
  }

  lemma TickSlot(e: Engine, ev: Event, j: nat)
    requires TableOk(e.conns) && ev.Tick? && j < |e.pending|
    requires Step(e, ev).engine.pending[j].inUse
    ensures Kept(e.pending[j], Step(e, ev).engine.pending[j], ev) && !EndsFor(e, ev, e.pending[j].id)
  {
    hide Cleanup, HasFlag, Decode, TableOk, Retransmit, RetransmitOne, Lookup;
    CleanupShrinks(e, ev.now, e.pending[j].id);
    TickPending(e, ev, j);
    RetransmitOneKept(Cleanup(e, ev.now).conns, Cleanup(e, ev.now).pending[j], ev.now, j !in ev.failed);
  }

  lemma TickPending(e: Engine, ev: Event, j: nat)
    requires ev.Tick? && j < |e.pending|
    ensures var e1 := Cleanup(e, ev.now); var after := Step(e, ev).engine.pending;
      && |after| == |e1.pending| == |e.pending|
      && after[j] == RetransmitOne(e1.conns, e1.pending[j], ev.now, j !in ev.failed)
  {
    hide RetransmitOne, RetransmitWire, CleanConns;
  }

  /** What a tick leaves in use has been left alone or sent once more. */
  lemma RetransmitOneKept(conns: seq<Conn>, pd: Pending, now: int, sendOk: bool)
    ensures var after := RetransmitOne(conns, pd, now, sendOk);
      after.inUse ==>
        && pd.inUse && after.id == pd.id && after.number == pd.number && after.bytes == pd.bytes
        && (|| (after.retries == pd.retries && after.lastSent == pd.lastSent)
            || (after.retries == pd.retries + 1 < MAX_RETRIES && after.lastSent == now))
  {
    hide Find;
  }

  lemma SendSlot(e: Engine, p: Outgoing, addr: Address, now: int, sendOk: bool, j: nat)
    requires j < |e.pending|
    ensures var after := Send(e, p, addr, now, sendOk).engine.pending;
      && |after| == |e.pending|
      && (after[j] == e.pending[j]
          || (Placed(after[j], p, now) && !e.pending[j].inUse && p.Has(DATA) && p.length <= MAX_PAYLOAD))
  {
  }

  lemma GetConnectionPending(e: Engine, id: uint64, now: int)
    ensures GetConnection(e, id, now).0.pending == Cleanup(e, now).pending
  {
  }

  /** The slot's packet when the step comes to place a new one. */
  ghost predicate StillThere(e: Engine, ev: Event, j: nat)
    requires j < |e.pending|
  {
    e.pending[j].inUse && (ev.SendData? ==> Cleanup(e, ev.now).pending[j].inUse)
  }

  /** The slot holds the same packet before and after the step. */
  ghost predicate Stays(e: Engine, ev: Event, j: nat)
    requires j < |e.pending| == |Step(e, ev).engine.pending|
  {
    StillThere(e, ev, j) && Step(e, ev).engine.pending[j].inUse
  }

  lemma SendDataSlot(e: Engine, ev: Event, j: nat)
    requires TableOk(e.conns) && ev.SendData? && j < |e.pending|
    ensures var after := Step(e, ev).engine.pending;
      && |after| == |e.pending|
      && (after[j].inUse ==>
            || (Kept(e.pending[j], after[j], ev) && !EndsFor(e, ev, e.pending[j].id) && StillThere(e, ev, j))
            || (Placed(after[j], ev.packet, ev.now) && !StillThere(e, ev, j) && ev.packet.Has(DATA)
                && ev.packet.length <= MAX_PAYLOAD
                && IsConnected(Unexpired(Lookup(e.conns, ev.packet.connectionId), ev.now))))
  {
    hide HasFlag, Send, Encode, Cleanup, TableOk;
    var id := ev.packet.connectionId;
    CleanupShrinks(e, ev.now, e.pending[j].id);
    GetConnectionPending(e, id, ev.now);
    GetConnectionFound(e, id, ev.now);
    var g := GetConnection(e, id, ev.now);
    if g.1.Some? {
      SendSlot(g.0, ev.packet, g.1.value, ev.now, ev.sendOk, j);
    }
  }

  lemma GetConnectionFound(e: Engine, id: uint64, now: int)
    requires TableOk(e.conns)
    ensures GetConnection(e, id, now).1.Some? <==> IsConnected(Unexpired(Lookup(e.conns, id), now))
  {
    CleanLookup(e.conns, now, id);
  }

  /** Any slot through any step: kept, or freed, or taken for the DATA packet just
      sent, which quic_engine_send_to_connection only sends to a CONNECTED id. */
  lemma StepSlot(e: Engine, ev: Event, j: nat)
    requires TableOk(e.conns) && j < |e.pending|
    ensures var after := Step(e, ev).engine.pending;
      && |after| == |e.pending|
      && (after[j].inUse ==>
            || (Kept(e.pending[j], after[j], ev) && !EndsFor(e, ev, e.pending[j].id) && Stays(e, ev, j))
            || ((ev.SendData? || ev.SendRaw?) && Placed(after[j], ev.packet, ev.now) && ev.packet.Has(DATA)
                && ev.packet.length <= MAX_PAYLOAD && !StillThere(e, ev, j)
                && (ev.SendData? ==> IsConnected(Unexpired(Lookup(e.conns, ev.packet.connectionId), ev.now)))))
  {
    hide HasFlag, Receive, SendToConnection, CloseLocally, Send, GetConnection, Decode, TableOk, Shrinks, Cleared,
      Placed, Lookup, Cleanup, IsConnected;
    var id := e.pending[j].id;
    match ev
    case Arrive(bytes, from, now, env) => ArriveSlot(e, ev, j);
    case Tick(now, failed) => TickLength(e, ev); if Step(e, ev).engine.pending[j].inUse { TickSlot(e, ev, j); }
    case SendData(p, now, sendOk) => SendDataSlot(e, ev, j);
    case SendRaw(p, to, now, sendOk) =>
      SendSlot(e, p, to, now, sendOk, j);
      IdleSlot(e, ev, j);
    case LookUp(target, now) =>
      CleanupShrinks(e, now, id);
      GetConnectionPending(e, target, now);
      FreedSlot(e, ev, Cleanup(e, now).pending, j);
    case CloseCall(target, now, sendOk) =>
      CloseCallShrinks(e, target, now, sendOk, id);
      FreedSlot(e, ev, CloseLocally(e, target, now, sendOk).engine.pending, j);
  }

  lemma TickLength(e: Engine, ev: Event)
    requires ev.Tick?
    ensures |Step(e, ev).engine.pending| == |e.pending|
  {
  }

  /** A step that only frees keeps what it does not free, and frees what it ends. */
  lemma FreedSlot(e: Engine, ev: Event, after: seq<Pending>, j: nat)
    requires j < |e.pending| && Shrinks(e.pending, after)
    requires EndsFor(e, ev, e.pending[j].id) ==> Cleared(after, e.pending[j].id)
    ensures |after| == |e.pending|
    ensures after[j].inUse ==> Kept(e.pending[j], after[j], ev) && !EndsFor(e, ev, e.pending[j].id)
  {
  }

  lemma IdleSlot(e: Engine, ev: Event, j: nat)
    requires j < |e.pending| && ev.SendRaw?
    ensures e.pending[j].inUse ==> Kept(e.pending[j], e.pending[j], ev) && !EndsFor(e, ev, e.pending[j].id)
  {
  }

  lemma ArriveSlot(e: Engine, ev: Event, j: nat)
    requires TableOk(e.conns) && j < |e.pending| && ev.Arrive?
    ensures var after := Step(e, ev).engine.pending;
      && |after| == |e.pending|
      && (after[j].inUse ==> Kept(e.pending[j], after[j], ev) && !EndsFor(e, ev, e.pending[j].id))
  {
    hide HasFlag, Process, Respond, Heard, TableOk, Kept, Shrinks, Cleared;
    if Decode(ev.bytes).Some? {
      ReceiveShrinks(e, ev, Decode(ev.bytes).value, e.pending[j].id);
    } else {
      ReceiveJunk(e, ev.bytes, ev.from, ev.now, ev.env);
      SelfShrinks(e.pending);
      JunkEndsNothing(e, ev, e.pending[j].id);
    }
    FreedSlot(e, ev, Step(e, ev).engine.pending, j);
  }

  lemma JunkEndsNothing(e: Engine, ev: Event, id: uint64)
    requires ev.Arrive? && Decode(ev.bytes).None?
    ensures !EndsFor(e, ev, id)
  {
  }

  // --- runs ---

  lemma {:induction false} PendingSize(trace: Trace)
    ensures |After(trace).pending| == MAX_PENDING
  {
    if trace != [] {
      var init := trace[..|trace| - 1];
      PendingSize(init);
      ReachableTable(init);
      StepSlot(After(init), trace[|trace| - 1], 0);
    }
  }

  /** The event gives the engine the DATA packet that the entry stores. */
  ghost predicate IsSendOf(ev: Event, pd: Pending) {
    && (ev.SendData? || ev.SendRaw?) && ev.packet.Has(DATA) && ev.packet.length <= MAX_PAYLOAD
    && pd.bytes == Encode(ev.packet) && pd.id == ev.packet.connectionId && pd.number == ev.packet.packetNumber
  }

  /** A DATA packet sent in the run is what the entry stores. */
  ghost predicate SentIn(trace: Trace, pd: Pending) {
    exists ev :: ev in trace && IsSendOf(ev, pd)
  }

  /** After every run an in-use entry stores a DATA packet that the run sent, and has been sent again at
      most twice. */
  lemma {:induction false} PendingStored(trace: Trace, j: nat)
    requires j < |After(trace).pending|
    ensures var pd := After(trace).pending[j]; pd.inUse ==> pd.retries < MAX_RETRIES && SentIn(trace, pd)
  {
    hide Step, HasFlag, Encode, Unexpired, Stays, StillThere, TableOk, EndsFor, IsConnected, Lookup;
    if trace == [] {
      InitialPending(j);
    } else {
      var n := |trace| - 1;
      var init, ev := trace[..n], trace[n];
      PendingSize(init);
      PendingSize(trace);
      PendingStored(init, j);
      ReachableTable(init);
      StepSlot(After(init), ev, j);
      assert ev in trace;
      var pd := After(trace).pending[j];
      if pd.inUse {
        if Kept(After(init).pending[j], pd, ev) {
          KeptSent(trace, After(init).pending[j], pd, ev);
        } else {
          assert IsSendOf(ev, pd);
        }
      }
    }
  }

  lemma InitialPending(j: nat)
    requires j < |After([]).pending|
    ensures !After([]).pending[j].inUse
  {
  }

  lemma KeptSent(trace: Trace, before: Pending, after: Pending, ev: Event)
    requires trace != [] && Kept(before, after, ev)
    ensures SentIn(trace[..|trace| - 1], before) ==> SentIn(trace, after)
  {
    if SentIn(trace[..|trace| - 1], before) {
      var sent :| sent in trace[..|trace| - 1] && IsSendOf(sent, before);
      assert sent in trace && IsSendOf(sent, after);
    }
  }

  /** The stored bytes deserialize to that packet: the entry's own id and number. */
  lemma PendingDecodes(trace: Trace, pd: Pending)
    requires SentIn(trace, pd)
    ensures Decode(pd.bytes).Some?
    ensures var p := Decode(pd.bytes).value;
      p.Has(DATA) && p.connectionId == pd.id && p.packetNumber == pd.number && Encode(p) == pd.bytes
  {
    hide Decode, Encode, HasFlag;
    var ev :| ev in trace && IsSendOf(ev, pd);
    DecodeUndoesEncode(ev.packet, []);
    assert Encode(ev.packet) + [] == Encode(ev.packet);
  }

  // --- where retransmissions go ---

  lemma {:induction false} WireFromSlots(conns: seq<Conn>, pending: seq<Pending>, now: int, failed: set<nat>, k: nat, d: Datagram)
    returns (j: nat)
    requires k <= |pending| && d in RetransmitWire(conns, pending, now, failed, k)
    ensures j < k && Attempted(conns, pending[j], now)
    ensures d == Datagram(pending[j].bytes, conns[Find(conns, pending[j].id)].addr)
  {
    if Attempted(conns, pending[k - 1], now) && k - 1 !in failed
       && d == Datagram(pending[k - 1].bytes, conns[Find(conns, pending[k - 1].id)].addr) {
      j := k - 1;
    } else {
      j := WireFromSlots(conns, pending, now, failed, k - 1, d);
    }
  }

  /** Whatever a tick sends is a pending packet, and goes to the address that the
      connection's most recent packet came from. */
  lemma RetransmissionAddress(trace: Trace, now: int, failed: set<nat>, d: Datagram) returns (j: nat)
    requires d in Step(After(trace), Tick(now, failed)).wire
    ensures j < |After(trace).pending|
    ensures var pd := After(trace).pending[j];
      pd.inUse && d.bytes == pd.bytes && LatestSource(trace, pd.id) == Some(d.addr)
  {
    hide After, HasFlag, LatestSource, RetransmitTable, TableOk;
    var e := After(trace);
    var e1 := Cleanup(e, now);
    j := WireFromSlots(e1.conns, e1.pending, now, failed, |e1.pending|, d);
    var id := e.pending[j].id;
    ReachableTable(trace);
    CleanLookup(e.conns, now, id);
    AddressIsLatest(trace, id);
  }

  // --- how often ---

  /** How often ticks hand the packet now in slot `j` to sendto, until it leaves the slot. */
  ghost function Attempts(e: Engine, events: seq<Event>, j: nat): nat
    requires TableOk(e.conns) && j < |e.pending|
    decreases |events|
  {
    if events == [] || !e.pending[j].inUse then 0
    else
      var ev := events[0];
      StepSlot(e, ev, j);
      StepEntry(e, ev, 0);
      (if TickSends(e, ev, j) then 1 else 0)
      + if Stays(e, ev, j) then Attempts(Step(e, ev).engine, events[1..], j) else 0
  }

  ghost predicate TickSends(e: Engine, ev: Event, j: nat)
    requires j < |e.pending|
  {
    ev.Tick? && Attempted(CleanConns(e.conns, ev.now), Cleanup(e, ev.now).pending[j], ev.now)
  }

  lemma TickCounts(e: Engine, ev: Event, j: nat)
    requires j < |e.pending| && TickSends(e, ev, j)
    ensures var after := Step(e, ev).engine.pending;
      |after| == |e.pending| && (after[j].inUse ==> after[j].retries == e.pending[j].retries + 1 < MAX_RETRIES)
  {
    hide Find, RetransmitWire;
  }

  /** Retransmission bound: a pending packet is handed to sendto at most 3 - retries
      more times, so a packet goes on the wire at most 1 + 3 times in all. */
  lemma {:induction false} AttemptsBounded(e: Engine, events: seq<Event>, j: nat)
    requires TableOk(e.conns) && j < |e.pending|
    requires e.pending[j].inUse && e.pending[j].retries < MAX_RETRIES
    ensures Attempts(e, events, j) <= MAX_RETRIES - e.pending[j].retries
    decreases |events|
  {
    hide Step, TickSends, StillThere, TableOk;
    if events != [] {
      var ev := events[0];
      StepSlot(e, ev, j);
      StepEntry(e, ev, 0);
      if TickSends(e, ev, j) {
        TickCounts(e, ev, j);
      }
      if Stays(e, ev, j) {
        AttemptsBounded(Step(e, ev).engine, events[1..], j);
      }
    }
  }

  // --- the table empties ---

  /** Events that send no new DATA. */
  predicate Quiet(ev: Event) {
    (ev.SendData? || ev.SendRaw?) ==> !ev.packet.Has(DATA)
  }

  /** Every pending packet has been sent again at least `k` times, the last time by `last`. */
  ghost predicate Worn(e: Engine, k: nat, last: int) {
    forall j | 0 <= j < |e.pending| && e.pending[j].inUse ::
      k <= e.pending[j].retries < MAX_RETRIES && e.pending[j].lastSent <= last
  }

  /** How many ticks come at least a second after `last` and after one another. */
  function SpacedTicks(events: seq<Event>, last: int): nat {
    if events == [] then 0
    else if events[0].Tick? && events[0].now >= last + RETRANS_TIMEOUT
    then 1 + SpacedTicks(events[1..], events[0].now)
    else SpacedTicks(events[1..], last)
  }

  function RunFrom(e: Engine, events: seq<Event>): Engine
    decreases |events|
  {
    if events == [] then e else RunFrom(Step(e, events[0]).engine, events[1..])
  }

  lemma QuietWorn(e: Engine, ev: Event, k: nat, last: int)
    requires TableOk(e.conns) && |e.pending| == MAX_PENDING && Quiet(ev) && Worn(e, k, last)
    requires ev.Tick? ==> ev.now <= last
    ensures Worn(Step(e, ev).engine, k, last)
  {
    hide Step, HasFlag, EndsFor, Stays, StillThere, TableOk;
    var after := Step(e, ev).engine.pending;
    forall j | 0 <= j < |after| && after[j].inUse
      ensures k <= after[j].retries < MAX_RETRIES && after[j].lastSent <= last
    {
      StepSlotSize(e, ev);
      StepSlot(e, ev, j);
    }
  }

  lemma StepSlotSize(e: Engine, ev: Event)
    requires TableOk(e.conns) && |e.pending| == MAX_PENDING
    ensures |Step(e, ev).engine.pending| == MAX_PENDING
  {
    hide Step, HasFlag, Kept, Placed, EndsFor, Stays, StillThere, TableOk, Unexpired, Lookup;
    StepSlot(e, ev, 0);
  }

  /** A tick a second later sends every packet that is left once more. */
  lemma TickWorn(e: Engine, ev: Event, k: nat, last: int)
    requires TableOk(e.conns) && ev.Tick? && Worn(e, k, last) && ev.now >= last + RETRANS_TIMEOUT
    ensures Worn(Step(e, ev).engine, k + 1, ev.now)
  {
    hide Find, RetransmitWire, CleanConns, ExpiredIds, TableOk;
  }

  /** Termination: with no new DATA, three ticks that are a second apart empty the
      table, whatever else happens between them. */
  lemma {:induction false} TableEmpties(e: Engine, events: seq<Event>, k: nat, last: int)
    requires TableOk(e.conns) && |e.pending| == MAX_PENDING && Worn(e, k, last)
    requires forall ev | ev in events :: Quiet(ev)
    requires k + SpacedTicks(events, last) >= MAX_RETRIES
    ensures forall pd | pd in RunFrom(e, events).pending :: !pd.inUse
    decreases |events|
  {
    hide Step, Quiet, TableOk;
    if events != [] {
      var ev := events[0];
      StepEntry(e, ev, 0);
      StepSlotSize(e, ev);
      assert ev in events;
      if ev.Tick? && ev.now >= last + RETRANS_TIMEOUT {
        TickWorn(e, ev, k, last);
        TableEmpties(Step(e, ev).engine, events[1..], k + 1, ev.now);
      } else {
        QuietWorn(e, ev, k, last);
        TableEmpties(Step(e, ev).engine, events[1..], k, last);
      }
    }
  }

  /** No pending packet was last sent after the latest event, and none is used up. */
  lemma {:induction false} ReachableWorn(trace: Trace, last: int)
    requires forall ev | ev in trace :: ev.now <= last
    ensures Worn(After(trace), 0, last)
  {
    hide Step, HasFlag, EndsFor, Stays, StillThere, TableOk, Unexpired;
    if trace != [] {
      var init, ev := trace[..|trace| - 1], trace[|trace| - 1];
      assert ev in trace;
      ReachableWorn(init, last);
      ReachableTable(init);
      PendingSize(init);
      PendingSize(trace);
      var after := After(trace).pending;
      forall j | 0 <= j < |after| && after[j].inUse
        ensures 0 <= after[j].retries < MAX_RETRIES && after[j].lastSent <= last
      {
        StepSlot(After(init), ev, j);
      }
    }
  }

  /** From every reachable state, three such ticks leave nothing pending. */
  lemma PendingEmpties(trace: Trace, events: seq<Event>, last: int)
    requires forall ev | ev in trace :: ev.now <= last
    requires forall ev | ev in events :: Quiet(ev)
    requires SpacedTicks(events, last) >= MAX_RETRIES
    ensures forall pd | pd in RunFrom(After(trace), events).pending :: !pd.inUse
  {
    hide After, RunFrom, Quiet;
    ReachableTable(trace);
    PendingSize(trace);
    ReachableWorn(trace, last);
    TableEmpties(After(trace), events, 0, last);
  }
}
