/** Whom pending packets belong to: exactly which sends leave a packet pending for no connection. */
module EngineOwnership {
  import opened Bytes
  import opened PacketCodec
  import opened EngineSpec
  import opened EngineTables
  import opened EngineLifecycle
  import opened EnginePending

  /** Every in-use pending entry belongs to a live connection. */
  ghost predicate Owned(e: Engine) {
    forall j :: 0 <= j < |e.pending| && e.pending[j].inUse ==> Lookup(e.conns, e.pending[j].id).Some?
  }

  /** A direct send of DATA goes out and is tracked although its connection is not live. */
  predicate Strands(e: Engine, ev: Event) {
    && ev.SendRaw? && ev.packet.Has(DATA) && ev.packet.length <= MAX_PAYLOAD && ev.sendOk
    && FreePendingFrom(e.pending, 0) < |e.pending|
    && Lookup(e.conns, ev.packet.connectionId).None?
  }

  /** What a direct send does to the tables. */
  lemma RawSend(e: Engine, ev: Event)
    requires ev.SendRaw?
    ensures var after, p := Step(e, ev).engine, ev.packet;
      && after.conns == e.conns
      && after.pending == if p.length <= MAX_PAYLOAD && ev.sendOk then Track(e.pending, p, Encode(p), ev.now)
                          else e.pending
  {
    hide Track, Encode;
  }

  /** The entry of an id that the step does not end stays. */
  lemma NotEnded(e: Engine, ev: Event, id: uint64)
    requires TableOk(e.conns) && Lookup(e.conns, id).Some? && !EndsFor(e, ev, id)
    ensures Lookup(Step(e, ev).engine.conns, id).Some?
  {
    hide Step, TableOk, NextConn, Lookup, Ends, Creates, Room;
    EntryState(e.conns, id);
    StepEntry(e, ev, id);
    NextConnState(Lookup(e.conns, id), ev, id, Room(e, ev.now));
  }

  /** A send that found its connection CONNECTED does not end it. */
  lemma SendNotEnded(e: Engine, ev: Event)
    requires ev.SendData? && IsConnected(Unexpired(Lookup(e.conns, ev.packet.connectionId), ev.now))
    ensures var id := ev.packet.connectionId; Lookup(e.conns, id).Some? && !EndsFor(e, ev, id)
  {
    hide Lookup;
  }

  /** One slot after a step that strands nothing. */
  lemma SlotOwned(e: Engine, ev: Event, j: nat)
    requires TableOk(e.conns) && j < |e.pending| && Owned(e) && !Strands(e, ev)
    requires |Step(e, ev).engine.pending| == |e.pending| && Step(e, ev).engine.pending[j].inUse
    ensures Lookup(Step(e, ev).engine.conns, Step(e, ev).engine.pending[j].id).Some?
  {
    hide Step, TableOk, Lookup, HasFlag, EndsFor, Stays, Encode, Unexpired, IsConnected, Track;
    StepSlot(e, ev, j);
    var before, after := e.pending[j], Step(e, ev).engine.pending[j];
    if Kept(before, after, ev) && !EndsFor(e, ev, before.id) {
      NotEnded(e, ev, after.id);
    } else if ev.SendData? {
      SendNotEnded(e, ev);
      NotEnded(e, ev, after.id);
    } else {
      RawSend(e, ev);
      RawPlaced(e, ev, j);
    }
  }

  lemma RawPlaced(e: Engine, ev: Event, j: nat)
    requires ev.SendRaw? && j < |e.pending| && !Strands(e, ev)
    requires Placed(Step(e, ev).engine.pending[j], ev.packet, ev.now) && !e.pending[j].inUse
    requires ev.packet.Has(DATA) && ev.packet.length <= MAX_PAYLOAD
    ensures Lookup(Step(e, ev).engine.conns, ev.packet.connectionId).Some?
  {
    hide HasFlag, Encode, Lookup;
    RawSend(e, ev);
  }

  /** The packet of a stranding send sits in the slot that was free. */
  lemma StrandedSlot(e: Engine, ev: Event)
    requires Strands(e, ev)
    ensures !Owned(Step(e, ev).engine)
  {
    hide HasFlag, Encode, Lookup, Step;
    RawSend(e, ev);
    var k := FreePendingFrom(e.pending, 0);
    assert Step(e, ev).engine.pending[k].inUse;
  }

  /** One step: from a state whose pending packets all have their connection, they all still have it iff the
      step is not such a send. */
  lemma StepOwned(e: Engine, ev: Event)
    requires TableOk(e.conns) && |e.pending| == MAX_PENDING && Owned(e)
    ensures Owned(Step(e, ev).engine) <==> !Strands(e, ev)
  {
    hide Step, TableOk, Lookup, Strands;
    if Strands(e, ev) {
      StrandedSlot(e, ev);
    } else {
      StepSlotSize(e, ev);
      var after := Step(e, ev).engine;
      forall j | 0 <= j < |after.pending| && after.pending[j].inUse
        ensures Lookup(after.conns, after.pending[j].id).Some?
      {
        SlotOwned(e, ev, j);
      }
    }
  }

  /** Event `k` strands its packet. */
  ghost predicate StrandsAt(trace: Trace, k: nat)
    requires k < |trace|
  {
    Strands(After(trace[..k]), trace[k])
  }

  /** After `n` events all pending packets have their connection. */
  ghost predicate OwnedAt(trace: Trace, n: nat)
    requires n <= |trace|
  {
    Owned(After(trace[..n]))
  }

  ghost predicate NeverStrands(trace: Trace) {
    forall k :: 0 <= k < |trace| ==> !StrandsAt(trace, k)
  }

  ghost predicate AlwaysOwned(trace: Trace) {
    forall n :: 0 <= n <= |trace| ==> OwnedAt(trace, n)
  }

  lemma InitiallyOwned()
    ensures Owned(After([]))
  {
    forall j | 0 <= j < |After([]).pending|
      ensures !After([]).pending[j].inUse
    {
      InitialPending(j);
    }
  }

  lemma PrefixAt(trace: Trace, n: nat, k: nat)
    requires k <= n <= |trace|
    ensures k < n ==> (StrandsAt(trace[..n], k) <==> StrandsAt(trace, k))
    ensures OwnedAt(trace[..n], k) <==> OwnedAt(trace, k)
  {
    hide After, Strands, Owned;
    assert trace[..n][..k] == trace[..k];
  }

  lemma PrefixStrands(trace: Trace)
    requires trace != []
    ensures var n := |trace| - 1;
      && (NeverStrands(trace) <==> NeverStrands(trace[..n]) && !StrandsAt(trace, n))
      && (AlwaysOwned(trace) <==> AlwaysOwned(trace[..n]) && OwnedAt(trace, n + 1))
  {
    hide StrandsAt, OwnedAt;
    var n := |trace| - 1;
    forall k | 0 <= k <= n
      ensures k < n ==> (StrandsAt(trace[..n], k) <==> StrandsAt(trace, k))
      ensures OwnedAt(trace[..n], k) <==> OwnedAt(trace, k)
    {
      PrefixAt(trace, n, k);
    }
  }

  /** Over runs: at every moment all pending packets have their connection iff no event of the run strands one. */
  lemma {:induction false} OwnedIff(trace: Trace)
    ensures AlwaysOwned(trace) <==> NeverStrands(trace)
    ensures AlwaysOwned(trace) ==> Owned(After(trace))
  {
    hide After, Step, Strands, Owned, TableOk;
    if trace == [] {
      InitiallyOwned();
      assert trace[..0] == [];
      assert AlwaysOwned(trace);
    } else {
      var init, ev := trace[..|trace| - 1], trace[|trace| - 1];
      OwnedIff(init);
      PrefixStrands(trace);
      ReachableTable(init);
      PendingSize(init);
      LastEngine(trace);
      assert trace[..|trace|] == trace;
      if Owned(After(init)) {
        StepOwned(After(init), ev);
      }
    }
  }

  lemma LastEngine(trace: Trace)
    requires trace != []
    ensures After(trace) == Step(After(trace[..|trace| - 1]), trace[|trace| - 1]).engine
  {
    hide Step;
  }

  /** DATA is only sent through quic_engine_send_to_connection. */
  ghost predicate Tame(trace: Trace) {
    forall ev | ev in trace :: ev.SendRaw? ==> !ev.packet.Has(DATA)
  }

  /** Pending-table invariant: then every in-use entry belongs to a live connection, stores a DATA packet
      that was sent to it, and has been sent again at most twice. */
  lemma PendingInvariant(trace: Trace, j: nat)
    requires Tame(trace) && j < |After(trace).pending|
    ensures var pd := After(trace).pending[j];
      pd.inUse ==> EntryAfter(trace, pd.id).Some? && pd.retries < MAX_RETRIES && SentIn(trace, pd)
  {
    hide After, Lookup, HasFlag, SentIn;
    PendingStored(trace, j);
    OwnedIff(trace);
  }

  /** DATA sent directly may be pending for nobody: whatever the packet, when it is the first thing sent. */
  lemma RawSendStrands(p: Outgoing, to: Address, now: int)
    requires p.Has(DATA) && p.length <= MAX_PAYLOAD
    ensures !AlwaysOwned([SendRaw(p, to, now, true)])
  {
    hide HasFlag, After;
    var ev := SendRaw(p, to, now, true);
    NothingLiveAtFirst(p.connectionId);
    PendingSize([]);
    InitialPending(0);
    assert [ev][..0] == [];
    assert StrandsAt([ev], 0);
    OwnedIff([ev]);
  }
}
