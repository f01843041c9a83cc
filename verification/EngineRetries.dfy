/** How often an unacknowledged packet goes out again. */
module EngineRetries {
  import opened Bytes
  import opened PacketCodec
  import opened EngineSpec
  import opened EngineTables
  import opened EnginePending
  import opened EngineSlots
  import opened EngineReplies

  /** The event does not take the packet out of slot `j`: it brings no acknowledgement and no CLOSE for it, does
      not close or time out its connection, and when it is a tick, sendto works and the connection is known. */
  ghost predicate Spares(e: Engine, ev: Event, j: nat)
    requires j < |e.pending|
  {
    var id := e.pending[j].id;
    match ev
    case Arrive(bytes, _, now, _) =>
      Decode(bytes).Some? ==>
        var p := Decode(bytes).value;
        && !(p.flags / 8 % 2 == 1 && FirstFor(e.pending, p.connectionId, p.packetNumber, j))
        && !Closes(e.conns, p, id, now) && !SomeTimedOut(e.conns, id, now)
    case Tick(now, failed) => j !in failed && Known(e.conns, id, now)
    case SendData(_, now, _) => !SomeTimedOut(e.conns, id, now)
    case SendRaw(_, _, _, _) => true
    case LookUp(_, now) => !SomeTimedOut(e.conns, id, now)
    case CloseCall(other, _, _) => other != id
  }

  /** Such an event leaves the packet as it is, and a tick that comes a second after it was last sent sends it. */
  lemma SparedSlot(e: Engine, ev: Event, j: nat)
    requires TableOk(e.conns) && j < |e.pending| && e.pending[j].inUse && Spares(e, ev, j)
    ensures var after := Step(e, ev).engine.pending; var pd := e.pending[j];
      && |after| == |e.pending|
      && after[j] == if SendsAgain(e, ev, j)
                     then pd.(retries := pd.retries + 1, lastSent := ev.now, inUse := pd.retries + 1 < 3) else pd
    ensures SendsAgain(e, ev, j) <==> ev.Tick? && ev.now - e.pending[j].lastSent >= 1
  {
    hide Step, TableOk, Decode, Closes, FirstFor, SomeTimedOut, Encode, FirstFree, SomeUsable, Cleanup;
    match ev
    case Arrive(bytes, from, now, env) =>
      if Decode(bytes).Some? {
        ArriveSlotIs(e, ev, Decode(bytes).value, j);
      } else {
        ReceiveJunk(e, bytes, from, now, env);
        JunkKeeps(e, bytes, from, now, env);
      }
    case Tick(now, failed) => TickSpares(e, now, failed, j);
    case SendData(p, now, sendOk) =>
      SendDataSlotIs(e, p, now, sendOk, j);
      UsedIsNotFree(Cleanup(e, now).pending, j);
    case SendRaw(p, to, now, sendOk) =>
      SentSlot(e, p, to, now, sendOk, j);
      UsedIsNotFree(e.pending, j);
    case LookUp(id, now) => LookupSlotIs(e, id, now, j);
    case CloseCall(id, now, sendOk) => CloseSlotIs(e, id, now, sendOk, j);
  }

  lemma UsedIsNotFree(pending: seq<Pending>, j: nat)
    requires j < |pending| && pending[j].inUse
    ensures !FirstFree(pending, j)
  {
  }

  lemma JunkKeeps(e: Engine, bytes: seq<byte>, from: Address, now: int, env: Env)
    requires Decode(bytes).None?
    ensures Step(e, Arrive(bytes, from, now, env)).engine.pending == e.pending
  {
    hide Decode;
  }

  lemma TickSpares(e: Engine, now: int, failed: set<nat>, j: nat)
    requires TableOk(e.conns) && j < |e.pending| && e.pending[j].inUse && Spares(e, Tick(now, failed), j)
    ensures var after := Step(e, Tick(now, failed)).engine.pending; var pd := e.pending[j];
      && |after| == |e.pending|
      && after[j] == if now - pd.lastSent >= 1
                     then pd.(retries := pd.retries + 1, lastSent := now, inUse := pd.retries + 1 < 3) else pd
    ensures Resent(e, now, failed, j) <==> now - e.pending[j].lastSent >= 1
  {
    hide Step, TableOk, SomeTimedOut;
    var i: nat :| Reached(e.conns, i, e.pending[j].id, now);
    if now - e.pending[j].lastSent >= 1 {
      assert DueFor(e, now, j, i);
      DueSlot(e, now, failed, j, i);
    } else {
      NotDueSlot(e, now, failed, j);
      ReachedAfterCleanup(e.conns, i, e.pending[j].id, now);
    }
  }

  /** The event is a tick that sends the packet in slot `j` (see TickWire). */
  ghost predicate SendsAgain(e: Engine, ev: Event, j: nat) {
    ev.Tick? && Resent(e, ev.now, ev.failed, j)
  }

  /** No event takes the packet out of slot `j` before it is used up. */
  ghost predicate Undisturbed(e: Engine, events: seq<Event>, j: nat)
    requires j < |e.pending|
    decreases |events|
  {
    events != [] && e.pending[j].inUse ==>
      && Spares(e, events[0], j)
      && j < |Step(e, events[0]).engine.pending|
      && Undisturbed(Step(e, events[0]).engine, events[1..], j)
  }

  /** How often the events send the packet that is in slot `j`. */
  ghost function TimesSent(e: Engine, events: seq<Event>, j: nat): nat
    decreases |events|
  {
    if events == [] || j >= |e.pending| || !e.pending[j].inUse then 0
    else (if SendsAgain(e, events[0], j) then 1 else 0) + TimesSent(Step(e, events[0]).engine, events[1..], j)
  }

  /** A packet that is neither acknowledged nor given up with its connection goes out again at each of the first
      three ticks that come a second after it was last sent: no more often, no less. */
  lemma {:induction false} SentAtThreeTicks(e: Engine, events: seq<Event>, j: nat)
    requires TableOk(e.conns) && j < |e.pending| && e.pending[j].inUse && e.pending[j].retries < 3
    requires Undisturbed(e, events, j)
    ensures TimesSent(e, events, j) == Min(3 - e.pending[j].retries, SpacedTicks(events, e.pending[j].lastSent))
    decreases |events|
  {
    hide Step, TableOk, Spares, SendsAgain;
    if events != [] {
      var ev := events[0];
      var after := Step(e, ev).engine;
      SparedSlot(e, ev, j);
      StepEntry(e, ev, 0);
      if after.pending[j].inUse {
        SentAtThreeTicks(after, events[1..], j);
      }
    }
  }
}
