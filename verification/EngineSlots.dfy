/** What each step does to every pending slot and what a tick puts on the wire, told from the slots and the
    connections alone. */
module EngineSlots {
  import opened Bytes
  import opened PacketCodec
  import opened EngineSpec
  import opened EngineTables
  import opened EnginePending

  /** Entry `i` is the live one of `id`, and was seen in the last 30 seconds. */
  predicate Reached(conns: seq<Conn>, i: nat, id: uint64, now: int) {
    i < |conns| && conns[i].inUse && conns[i].id == id && now - conns[i].lastSeen <= 30
  }

  /** Entry `i` is the live one of `id`, and was not. */
  predicate TimedOut(conns: seq<Conn>, i: nat, id: uint64, now: int) {
    i < |conns| && conns[i].inUse && conns[i].id == id && now - conns[i].lastSeen > 30
  }

  ghost predicate SomeTimedOut(conns: seq<Conn>, id: uint64, now: int) {
    exists i :: 0 <= i < |conns| && TimedOut(conns, i, id, now)
  }

  // --- cleanup ---

  lemma TimedOutIds(conns: seq<Conn>, id: uint64, now: int)
    ensures id in ExpiredIds(conns, now) <==> SomeTimedOut(conns, id, now)
  {
    if SomeTimedOut(conns, id, now) {
      var i :| 0 <= i < |conns| && TimedOut(conns, i, id, now);
      assert Expired(conns[i], now);
    }
    if id in ExpiredIds(conns, now) {
      var i :| 0 <= i < |conns| && Expired(conns[i], now) && conns[i].id == id;
      assert TimedOut(conns, i, id, now);
    }
  }

  /** Cleanup frees exactly the slots of timed-out connections. */
  lemma CleanupSlot(e: Engine, now: int, j: nat)
    requires j < |e.pending|
    ensures var after := Cleanup(e, now).pending;
      && |after| == |e.pending|
      && after[j] == if e.pending[j].inUse && SomeTimedOut(e.conns, e.pending[j].id, now)
                     then e.pending[j].(inUse := false) else e.pending[j]
  {
    hide ExpiredIds, SomeTimedOut;
    TimedOutIds(e.conns, e.pending[j].id, now);
  }

  /** And leaves an entry that is still reached where it is. */
  lemma ReachedAfterCleanup(conns: seq<Conn>, i: nat, id: uint64, now: int)
    requires TableOk(conns) && Reached(conns, i, id, now)
    ensures var after := CleanConns(conns, now); Find(after, id) == i && after[i] == conns[i]
    ensures !SomeTimedOut(conns, id, now)
  {
    var after := CleanConns(conns, now);
    assert after[i] == conns[i];
    CleanLookup(conns, now, id);
    LookupAt(after, i);
  }

  lemma UnreachedAfterCleanup(conns: seq<Conn>, id: uint64, now: int)
    requires forall i | 0 <= i < |conns| :: !Reached(conns, i, id, now)
    ensures Find(CleanConns(conns, now), id) == |conns|
  {
    var after := CleanConns(conns, now);
    var i := Find(after, id);
    if i < |conns| {
      assert Reached(conns, i, id, now);
    }
  }

  // --- a tick ---

  /** Slot `j` holds a packet last sent at least a second ago, and entry `i` is where it can be sent again. */
  predicate DueFor(e: Engine, now: int, j: nat, i: nat) {
    && j < |e.pending| && e.pending[j].inUse && now - e.pending[j].lastSent >= 1
    && Reached(e.conns, i, e.pending[j].id, now)
  }

  lemma TickSlotIs(e: Engine, now: int, failed: set<nat>, j: nat)
    requires j < |e.pending|
    ensures var after := Step(e, Tick(now, failed)).engine.pending;
      var e1 := Cleanup(e, now);
      |after| == |e.pending| == |e1.pending| && after[j] == RetransmitOne(e1.conns, e1.pending[j], now, j !in failed)
  {
    hide Cleanup, RetransmitOne, RetransmitWire;
    CleanupSlot(e, now, j);
  }

  /** A due packet whose sendto works counts one more retry and stays until the third. */
  lemma DueSlot(e: Engine, now: int, failed: set<nat>, j: nat, i: nat)
    requires TableOk(e.conns) && DueFor(e, now, j, i)
    ensures var after := Step(e, Tick(now, failed)).engine.pending; var pd := e.pending[j];
      && |after| == |e.pending|
      && after[j] == if j in failed then pd.(inUse := false)
                     else pd.(retries := pd.retries + 1, lastSent := now, inUse := pd.retries + 1 < 3)
  {
    hide Cleanup, CleanConns, Find, Step, TableOk, SomeTimedOut;
    TickSlotIs(e, now, failed, j);
    CleanupSlot(e, now, j);
    CleanupConns(e, now);
    ReachedAfterCleanup(e.conns, i, e.pending[j].id, now);
  }

  lemma CleanupConns(e: Engine, now: int)
    ensures Cleanup(e, now).conns == CleanConns(e.conns, now)
  {
  }

  /** A slot that is free or not due yet is left alone, unless its connection times out. */
  lemma NotDueSlot(e: Engine, now: int, failed: set<nat>, j: nat)
    requires j < |e.pending| && (!e.pending[j].inUse || now - e.pending[j].lastSent < 1)
    ensures var after := Step(e, Tick(now, failed)).engine.pending;
      && |after| == |e.pending|
      && after[j] == if e.pending[j].inUse && SomeTimedOut(e.conns, e.pending[j].id, now)
                     then e.pending[j].(inUse := false) else e.pending[j]
  {
    hide Cleanup, Find, Step, SomeTimedOut;
    TickSlotIs(e, now, failed, j);
    CleanupSlot(e, now, j);
  }

  /** A due packet without such a connection is freed. */
  lemma LostSlot(e: Engine, now: int, failed: set<nat>, j: nat)
    requires j < |e.pending| && e.pending[j].inUse && now - e.pending[j].lastSent >= 1
    requires forall i | 0 <= i < |e.conns| :: !Reached(e.conns, i, e.pending[j].id, now)
    ensures var after := Step(e, Tick(now, failed)).engine.pending;
      |after| == |e.pending| && after[j] == e.pending[j].(inUse := false)
  {
    hide Cleanup, CleanConns, Find, Step, SomeTimedOut;
    TickSlotIs(e, now, failed, j);
    CleanupSlot(e, now, j);
    CleanupConns(e, now);
    UnreachedAfterCleanup(e.conns, e.pending[j].id, now);
  }

  /** Retransmission: a due packet whose sendto works goes out, to the address of its connection. */
  lemma DueIsResent(e: Engine, now: int, failed: set<nat>, j: nat, i: nat)
    requires TableOk(e.conns) && DueFor(e, now, j, i) && j !in failed
    ensures Datagram(e.pending[j].bytes, e.conns[i].addr) in Step(e, Tick(now, failed)).wire
  {
    hide Step, DueFor, ResentTo, TableOk, Resent;
    assert Resent(e, now, failed, j) by { ResentWith(e, now, failed, j, i); }
    var slots := TickWire(e, now, failed);
    var k :| 0 <= k < |slots| && slots[k] == j;
    SameEntry(e, now, j, i, Step(e, Tick(now, failed)).wire[k].addr);
  }

  /** What a tick sends for slot `j`, and where to. */
  ghost predicate ResentTo(e: Engine, now: int, j: nat, addr: Address) {
    exists i: nat :: DueFor(e, now, j, i) && e.conns[i].addr == addr
  }

  lemma SameEntry(e: Engine, now: int, j: nat, i: nat, addr: Address)
    requires TableOk(e.conns) && DueFor(e, now, j, i) && ResentTo(e, now, j, addr)
    ensures e.conns[i].addr == addr
  {
  }

  ghost predicate Resent(e: Engine, now: int, failed: set<nat>, j: nat) {
    j !in failed && exists i: nat :: DueFor(e, now, j, i)
  }

  lemma ResentWith(e: Engine, now: int, failed: set<nat>, j: nat, i: nat)
    requires DueFor(e, now, j, i) && j !in failed
    ensures Resent(e, now, failed, j)
  {
  }

  ghost predicate Increasing(slots: seq<nat>) {
    forall a, b | 0 <= a < b < |slots| :: slots[a] < slots[b]
  }

  /** These are the slots below `n` that are sent again, in order. */
  ghost predicate ResentSlots(e: Engine, now: int, failed: set<nat>, n: nat, slots: seq<nat>) {
    && Increasing(slots)
    && forall j: nat :: j in slots <==> j < n && Resent(e, now, failed, j)
  }

  /** One datagram for each of the slots: its bytes, to the address of its connection. */
  ghost predicate SentFrom(e: Engine, now: int, wire: seq<Datagram>, slots: seq<nat>) {
    |wire| == |slots| && forall k | 0 <= k < |slots| ::
      && slots[k] < |e.pending| && wire[k].bytes == e.pending[slots[k]].bytes
      && ResentTo(e, now, slots[k], wire[k].addr)
  }

  /** The wire of a tick, datagram by datagram: one for every due slot whose sendto works, in the order of
      the slots, and nothing else. */
  lemma TickWire(e: Engine, now: int, failed: set<nat>) returns (slots: seq<nat>)
    requires TableOk(e.conns)
    ensures Increasing(slots) && forall j: nat :: j in slots <==> Resent(e, now, failed, j)
    ensures SentFrom(e, now, Step(e, Tick(now, failed)).wire, slots)
  {
    hide RetransmitTable, RetransmitWire, TableOk, Resent, SentFrom, CleanConns, ClearPending;
    slots := WireSlots(e, now, failed, |e.pending|);
    forall j: nat
      ensures j in slots <==> Resent(e, now, failed, j)
    {
      if Resent(e, now, failed, j) {
        ResentInRange(e, now, failed, j);
      }
    }
  }

  lemma ResentInRange(e: Engine, now: int, failed: set<nat>, j: nat)
    requires Resent(e, now, failed, j)
    ensures j < |e.pending|
  {
  }

  lemma {:induction false} WireSlots(e: Engine, now: int, failed: set<nat>, n: nat) returns (slots: seq<nat>)
    requires TableOk(e.conns) && n <= |e.pending| == |Cleanup(e, now).pending|
    ensures ResentSlots(e, now, failed, n, slots)
    ensures SentFrom(e, now, RetransmitWire(Cleanup(e, now).conns, Cleanup(e, now).pending, now, failed, n), slots)
  {
    hide TableOk, Resent, ResentTo, Cleanup, Find, Attempted, RetransmitWire, ResentSlots, SentFrom;
    if n == 0 {
      slots := [];
      NoWire(e, now, failed, Cleanup(e, now).conns, Cleanup(e, now).pending);
    } else {
      var before := WireSlots(e, now, failed, n - 1);
      var d := NextDatagram(e, now, failed, n - 1);
      SlotsNext(e, now, failed, n - 1, before);
      slots := if Resent(e, now, failed, n - 1) then before + [n - 1] else before;
      if Resent(e, now, failed, n - 1) {
        SentNext(e, now, RetransmitWire(Cleanup(e, now).conns, Cleanup(e, now).pending, now, failed, n - 1), before, d,
                 n - 1);
      }
    }
  }

  lemma NoWire(e: Engine, now: int, failed: set<nat>, conns: seq<Conn>, pending: seq<Pending>)
    ensures RetransmitWire(conns, pending, now, failed, 0) == []
    ensures ResentSlots(e, now, failed, 0, []) && SentFrom(e, now, [], [])
  {
  }

  /** What slot `k` adds to the wire. */
  lemma NextDatagram(e: Engine, now: int, failed: set<nat>, k: nat) returns (d: Datagram)
    requires TableOk(e.conns) && k < |e.pending| == |Cleanup(e, now).pending|
    ensures Resent(e, now, failed, k) ==> d.bytes == e.pending[k].bytes && ResentTo(e, now, k, d.addr)
    ensures var conns, pending := Cleanup(e, now).conns, Cleanup(e, now).pending;
      var before := RetransmitWire(conns, pending, now, failed, k);
      RetransmitWire(conns, pending, now, failed, k + 1) == if Resent(e, now, failed, k) then before + [d] else before
  {
    hide Cleanup, TableOk, Resent, ResentTo;
    SlotResent(e, now, failed, k);
    var conns, pending := Cleanup(e, now).conns, Cleanup(e, now).pending;
    var i := Find(conns, pending[k].id);
    d := Datagram(pending[k].bytes, if i < |conns| then conns[i].addr else Address(0, 0));
  }

  lemma SlotsNext(e: Engine, now: int, failed: set<nat>, n: nat, slots: seq<nat>)
    requires ResentSlots(e, now, failed, n, slots)
    ensures ResentSlots(e, now, failed, n + 1, if Resent(e, now, failed, n) then slots + [n] else slots)
  {
    hide Resent;
    assert forall k | 0 <= k < |slots| :: slots[k] in slots;
  }

  lemma SentNext(e: Engine, now: int, wire: seq<Datagram>, slots: seq<nat>, d: Datagram, n: nat)
    requires SentFrom(e, now, wire, slots)
    requires n < |e.pending| && d.bytes == e.pending[n].bytes && ResentTo(e, now, n, d.addr)
    ensures SentFrom(e, now, wire + [d], slots + [n])
  {
    hide ResentTo;
  }

  lemma SlotResent(e: Engine, now: int, failed: set<nat>, j: nat)
    requires TableOk(e.conns) && j < |e.pending| == |Cleanup(e, now).pending|
    ensures var e1 := Cleanup(e, now); var pd := e1.pending[j];
      && pd.bytes == e.pending[j].bytes
      && (Resent(e, now, failed, j) <==> Attempted(e1.conns, pd, now) && j !in failed)
      && (Attempted(e1.conns, pd, now) ==> ResentTo(e, now, j, e1.conns[Find(e1.conns, pd.id)].addr))
  {
    hide Cleanup, CleanConns, TableOk, SomeTimedOut, Find;
    CleanupSlot(e, now, j);
    CleanupConns(e, now);
    var id := e.pending[j].id;
    if i: nat :| Reached(e.conns, i, id, now) {
      ReachedAfterCleanup(e.conns, i, id, now);
      if Attempted(Cleanup(e, now).conns, Cleanup(e, now).pending[j], now) {
        assert DueFor(e, now, j, i);
      }
    } else {
      UnreachedAfterCleanup(e.conns, id, now);
    }
  }

  // --- an acknowledgement ---

  /** Slot `j` is the first that holds packet `number` of `id`. */
  predicate FirstFor(pending: seq<Pending>, id: uint64, number: uint32, j: nat) {
    && j < |pending| && pending[j].inUse && pending[j].id == id && pending[j].number == number
    && forall k | 0 <= k < j :: !(pending[k].inUse && pending[k].id == id && pending[k].number == number)
  }

  /** A packet with ACK frees that slot and no other; one without frees none. */
  lemma HeardSlot(e: Engine, p: Packet, j: nat)
    requires j < |e.pending|
    ensures var after := Heard(e, p).pending;
      && |after| == |e.pending|
      && after[j] == if p.flags / 8 % 2 == 1 && FirstFor(e.pending, p.connectionId, p.packetNumber, j)
                     then e.pending[j].(inUse := false) else e.pending[j]
  {
  }

  // --- what a packet finds ---

  ghost predicate Known(conns: seq<Conn>, id: uint64, now: int) {
    exists i: nat :: Reached(conns, i, id, now)
  }

  /** Some entry is free, or free once what has timed out is gone. */
  ghost predicate Vacant(conns: seq<Conn>, now: int) {
    exists i :: 0 <= i < |conns| && (!conns[i].inUse || now - conns[i].lastSeen > 30)
  }

  /** The packet opens a connection: INITIAL, for an id that is not known, with an entry for it. */
  ghost predicate Opens(conns: seq<Conn>, p: Packet, now: int) {
    !Known(conns, p.connectionId, now) && p.flags % 2 == 1 && Vacant(conns, now)
  }

  lemma KnownIff(conns: seq<Conn>, id: uint64, now: int)
    requires TableOk(conns)
    ensures Known(conns, id, now) <==> Find(CleanConns(conns, now), id) < |conns|
  {
    hide TableOk, Find, CleanConns;
    if i: nat :| Reached(conns, i, id, now) {
      ReachedAfterCleanup(conns, i, id, now);
    } else {
      UnreachedAfterCleanup(conns, id, now);
    }
  }

  lemma VacantIff(conns: seq<Conn>, now: int)
    ensures Vacant(conns, now) <==> Free(CleanConns(conns, now)) < |conns|
  {
    var after := CleanConns(conns, now);
    assert forall i | 0 <= i < |conns| :: after[i].inUse <==> conns[i].inUse && now - conns[i].lastSeen <= 30;
    if Free(after) < |conns| {
      assert !after[Free(after)].inUse;
    }
  }

  /** A packet is refused iff it neither names a known id nor opens one. */
  lemma AdmittedIff(e: Engine, p: Packet, from: Address, now: int)
    requires TableOk(e.conns)
    ensures match Admit(Cleanup(e, now), p, from, now)
      case Refused => !Known(e.conns, p.connectionId, now) && !Opens(e.conns, p, now)
      case Admitted(_, _, created) =>
        (created <==> Opens(e.conns, p, now)) && (!created <==> Known(e.conns, p.connectionId, now))
  {
    hide TableOk, CleanConns, ClearPending, ExpiredIds, ExpiredCount, Known, Vacant;
    KnownIff(e.conns, p.connectionId, now);
    VacantIff(e.conns, now);
  }

  /** A CLOSE packet for `id`, which is known or opened by it. */
  ghost predicate Closes(conns: seq<Conn>, p: Packet, id: uint64, now: int) {
    p.connectionId == id && p.flags / 16 % 2 == 1 && (Known(conns, id, now) || Opens(conns, p, now))
  }

  /** Every slot through a step that receives a packet: freed by its acknowledgement, by the timeout of its
      connection or by a CLOSE for it, and else as it was. */
  lemma ArriveSlotIs(e: Engine, ev: Event, p: Packet, j: nat)
    requires TableOk(e.conns) && ev.Arrive? && Decode(ev.bytes) == Some(p) && j < |e.pending|
    ensures var after := Step(e, ev).engine.pending; var pd := e.pending[j];
      && |after| == |e.pending|
      && after[j] == if pd.inUse && (|| (p.flags / 8 % 2 == 1 && FirstFor(e.pending, p.connectionId, p.packetNumber, j))
                                     || SomeTimedOut(e.conns, pd.id, ev.now)
                                     || Closes(e.conns, p, pd.id, ev.now))
                     then pd.(inUse := false) else pd
  {
    hide HasFlag, Process, Respond, Heard, Step, TableOk, SomeTimedOut, FirstFor, Decode, Closes;
    ReceiveShape(e, ev, p);
    HeardSlot(e, p, j);
    ProcessSlot(Heard(e, p), p, ev.from, ev.now, j);
    var r := Process(Heard(e, p), p, ev.from, ev.now);
    RespondKeepsPending(r.engine, p, ev.from, ev.now, r.handshakeNeeded, ev.env);
  }

  lemma ProcessSlot(e: Engine, p: Packet, from: Address, now: int, j: nat)
    requires TableOk(e.conns) && j < |e.pending|
    ensures var after := Process(e, p, from, now).engine.pending; var pd := e.pending[j];
      && |after| == |e.pending|
      && after[j] == if pd.inUse && (SomeTimedOut(e.conns, pd.id, now) || Closes(e.conns, p, pd.id, now))
                     then pd.(inUse := false) else pd
  {
    hide Cleanup, Admit, SomeTimedOut, Known, Opens, TableOk;
    var e1 := Cleanup(e, now);
    CleanupSlot(e, now, j);
    AdmitKeepsPending(e1, p, from, now);
    AdmittedIff(e, p, from, now);
  }

  // --- the other steps ---

  /** A local close frees the slots of a live connection and no other. */
  lemma CloseSlotIs(e: Engine, id: uint64, now: int, sendOk: bool, j: nat)
    requires TableOk(e.conns) && j < |e.pending|
    ensures var after := Step(e, CloseCall(id, now, sendOk)).engine.pending; var pd := e.pending[j];
      && |after| == |e.pending|
      && after[j] == if pd.inUse && pd.id == id && exists i :: 0 <= i < |e.conns| && e.conns[i].inUse && e.conns[i].id == id
                     then pd.(inUse := false) else pd
  {
    hide HasFlag, Send;
    var i := Find(e.conns, id);
    if i < |e.conns| {
      assert EntryOk(e.conns[i]);
      RepliesCarryNoData(id, CloseNotice(id));
      ReplyNotTracked(CloseConn(e, i), CloseNotice(id), e.conns[i].addr, now, sendOk);
    }
  }

  /** A lookup frees what has timed out. */
  lemma LookupSlotIs(e: Engine, id: uint64, now: int, j: nat)
    requires j < |e.pending|
    ensures var after := Step(e, LookUp(id, now)).engine.pending; var pd := e.pending[j];
      && |after| == |e.pending|
      && after[j] == if pd.inUse && SomeTimedOut(e.conns, pd.id, now) then pd.(inUse := false) else pd
  {
    hide Cleanup, SomeTimedOut, GetConnection;
    CleanupSlot(e, now, j);
    GetConnectionPending(e, id, now);
  }

  /** Slot `k` is the first that is free. */
  predicate FirstFree(pending: seq<Pending>, k: nat) {
    k < |pending| && !pending[k].inUse && forall i | 0 <= i < k :: pending[i].inUse
  }

  /** Sending: a DATA packet that goes out takes the first free slot; everything else stays. */
  lemma SentSlot(e: Engine, p: Outgoing, to: Address, now: int, sendOk: bool, j: nat)
    requires j < |e.pending|
    ensures var after := Step(e, SendRaw(p, to, now, sendOk)).engine.pending;
      && |after| == |e.pending|
      && after[j] == if p.flags / 4 % 2 == 1 && p.length <= 16384 && sendOk && FirstFree(e.pending, j)
                     then Pending(true, p.connectionId, p.packetNumber, Encode(p), now, 0) else e.pending[j]
  {
    hide Encode;
  }
}
