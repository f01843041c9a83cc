/** What a run of the engine says about one connection id: when it is live, when
    it is CONNECTED, and which address it is reached at. */
module EngineLifecycle {
  import opened Bytes
  import opened PacketCodec
  import opened EngineSpec
  import opened EngineTables

  /** The live entry of `id` after the run. */
  function EntryAfter(trace: Trace, id: uint64): Option<Conn> {
    Lookup(After(trace).conns, id)
  }

  /** The packet an event brings for `id`. */
  function PacketFor(ev: Event, id: uint64): Option<Packet> {
    if ev.Arrive? && Decode(ev.bytes).Some? && Decode(ev.bytes).value.connectionId == id
    then Decode(ev.bytes) else None
  }

  /** The event runs the 30-second cleanup. */
  predicate Cleans(ev: Event) {
    match ev
    case Arrive(bytes, _, _, _) => Decode(bytes).Some?
    case Tick(_, _) => true
    case SendData(_, _, _) => true
    case LookUp(_, _) => true
    case SendRaw(_, _, _, _) => false
    case CloseCall(_, _, _) => false
  }

  /** `id` has a live entry and the event ends it: a timeout, a CLOSE packet or a local close. */
  predicate Ends(c: Option<Conn>, ev: Event, id: uint64) {
    && c.Some?
    && (|| (Cleans(ev) && Expired(c.value, ev.now))
        || (PacketFor(ev, id).Some? && PacketFor(ev, id).value.Has(CLOSE))
        || (ev.CloseCall? && ev.id == id))
  }

  /** The event creates an entry for `id` that outlives it: an INITIAL packet
      without CLOSE, for an id not live at that time, with room in the table. */
  predicate Creates(c: Option<Conn>, ev: Event, id: uint64, room: bool) {
    && PacketFor(ev, id).Some?
    && PacketFor(ev, id).value.Has(INITIAL) && !PacketFor(ev, id).value.Has(CLOSE)
    && Unexpired(c, ev.now).None? && room
  }

  predicate Shakes(ev: Event, id: uint64) {
    PacketFor(ev, id).Some? && PacketFor(ev, id).value.Has(HANDSHAKE)
  }

  predicate IsConnected(c: Option<Conn>) {
    c.Some? && c.value.state == Connected
  }

  /** One step: an entry is live afterwards iff it was created or not ended, and
      CONNECTED iff moreover a HANDSHAKE has come since its creation. */
  lemma NextConnState(c: Option<Conn>, ev: Event, id: uint64, room: bool)
    requires c.Some? ==> c.value.state == Connecting || c.value.state == Connected
    ensures var n := NextConn(c, ev, id, room);
      && (n.Some? <==> Creates(c, ev, id, room) || (c.Some? && !Ends(c, ev, id)))
      && (IsConnected(n) <==>
            || (Creates(c, ev, id, room) && Shakes(ev, id))
            || (c.Some? && !Ends(c, ev, id) && (IsConnected(c) || Shakes(ev, id))))
  {
    hide HasFlag, Decode;
  }

  lemma EntryState(conns: seq<Conn>, id: uint64)
    requires TableOk(conns)
    ensures var c := Lookup(conns, id);
      c.Some? ==>
        && c.value.inUse && c.value.id == id && EntryOk(c.value)
        && (c.value.state == Connecting || c.value.state == Connected)
  {
  }

  // --- the same over runs, event by event ---

  ghost predicate CreatedAt(trace: Trace, k: nat, id: uint64)
    requires k < |trace|
  {
    Creates(EntryAfter(trace[..k], id), trace[k], id, Room(After(trace[..k]), trace[k].now))
  }

  ghost predicate EndedAt(trace: Trace, k: nat, id: uint64)
    requires k < |trace|
  {
    Ends(EntryAfter(trace[..k], id), trace[k], id)
  }

  /** Entry `id` was created by event `k` and nothing has ended it since. */
  ghost predicate LiveSince(trace: Trace, k: nat, id: uint64)
    requires k < |trace|
  {
    CreatedAt(trace, k, id) && forall j | k < j < |trace| :: !EndedAt(trace, j, id)
  }

  lemma PrefixEvents(trace: Trace, n: nat, id: uint64)
    requires n <= |trace|
    ensures forall k | 0 <= k < n ::
      (CreatedAt(trace[..n], k, id) <==> CreatedAt(trace, k, id)) && (EndedAt(trace[..n], k, id) <==> EndedAt(trace, k, id))
  {
    hide Creates, Ends, After, Room, EntryAfter;
    assert forall k | 0 <= k < n :: trace[..n][..k] == trace[..k] && trace[..n][k] == trace[k];
  }

  lemma LastStep(trace: Trace, id: uint64)
    requires trace != []
    ensures var init, ev := trace[..|trace| - 1], trace[|trace| - 1];
      && EntryAfter(trace, id) == NextConn(EntryAfter(init, id), ev, id, Room(After(init), ev.now))
      && (EntryAfter(init, id).Some? ==> EntryAfter(init, id).value.state in {Connecting, Connected})
  {
    hide Step, NextConn, TableOk;
    var init := trace[..|trace| - 1];
    ReachableTable(init);
    StepEntry(After(init), trace[|trace| - 1], id);
    EntryState(After(init).conns, id);
  }

  /** One more event keeps an entry live unless it ends it. */
  lemma LiveSinceSnoc(trace: Trace, id: uint64)
    requires trace != []
    ensures var n := |trace| - 1;
      && (LiveSince(trace, n, id) <==> CreatedAt(trace, n, id))
      && forall k | 0 <= k < n :: LiveSince(trace, k, id) <==> LiveSince(trace[..n], k, id) && !EndedAt(trace, n, id)
  {
    hide CreatedAt, EndedAt;
    PrefixEvents(trace, |trace| - 1, id);
  }

  lemma StepState(trace: Trace, id: uint64)
    requires trace != []
    ensures var n := |trace| - 1;
      var before, after := EntryAfter(trace[..n], id), EntryAfter(trace, id);
      && (after.Some? <==> CreatedAt(trace, n, id) || (before.Some? && !EndedAt(trace, n, id)))
      && (IsConnected(after) <==>
            || (CreatedAt(trace, n, id) && Shakes(trace[n], id))
            || (before.Some? && !EndedAt(trace, n, id) && (IsConnected(before) || Shakes(trace[n], id))))
  {
    hide NextConn, Creates, Ends, After, Room, EntryAfter, Shakes;
    var n := |trace| - 1;
    LastStep(trace, id);
    NextConnState(EntryAfter(trace[..n], id), trace[n], id, Room(After(trace[..n]), trace[n].now));
  }

  /** Live ids: after every run, `id` is live iff some event created it and no event has ended it since. */
  lemma {:induction false} LiveIff(trace: Trace, id: uint64)
    ensures EntryAfter(trace, id).Some? <==> exists k :: 0 <= k < |trace| && LiveSince(trace, k, id)
  {
    hide EntryAfter, LiveSince, CreatedAt, EndedAt, IsConnected, Shakes;
    if trace == [] {
      NothingLiveAtFirst(id);
    } else {
      LiveIff(trace[..|trace| - 1], id);
      StepState(trace, id);
      LiveSinceSnoc(trace, id);
    }
  }

  lemma NothingLiveAtFirst(id: uint64)
    ensures EntryAfter([], id).None?
  {
  }

  /** Lifecycle: after every run, `id` is CONNECTED iff an INITIAL packet created its
      entry, that packet or a later one carried HANDSHAKE, and since the creation
      there was no CLOSE, no local close and no timeout for it. */
  lemma {:induction false} ConnectedIff(trace: Trace, id: uint64)
    ensures IsConnected(EntryAfter(trace, id)) <==>
      exists k, h :: 0 <= k <= h < |trace| && LiveSince(trace, k, id) && Shakes(trace[h], id)
  {
    hide EntryAfter, LiveSince, CreatedAt, EndedAt, Shakes;
    if trace == [] {
      NothingLiveAtFirst(id);
    } else {
      var n := |trace| - 1;
      ConnectedIff(trace[..n], id);
      LiveIff(trace[..n], id);
      StepState(trace, id);
      LiveSinceSnoc(trace, id);
    }
  }

  // --- where a connection is reached, and when it was last heard of ---

  /** The source of the latest packet that named `id`. */
  function LatestSource(trace: Trace, id: uint64): Option<Address> {
    if trace == [] then None
    else
      var ev := trace[|trace| - 1];
      if PacketFor(ev, id).Some? then Some(ev.from) else LatestSource(trace[..|trace| - 1], id)
  }

  lemma NextConnAddress(c: Option<Conn>, ev: Event, id: uint64, room: bool)
    ensures var n := NextConn(c, ev, id, room);
      n.Some? ==> if PacketFor(ev, id).Some? then n.value.addr == ev.from else c.Some? && n.value.addr == c.value.addr
  {
    hide HasFlag, Decode;
  }

  /** A live connection is reached at the source of its latest packet, also after it moved. */
  lemma {:induction false} AddressIsLatest(trace: Trace, id: uint64)
    ensures EntryAfter(trace, id).Some? ==> LatestSource(trace, id) == Some(EntryAfter(trace, id).value.addr)
  {
    hide EntryAfter, PacketFor, NextConn;
    if trace == [] {
      NothingLiveAtFirst(id);
    } else {
      var init, ev := trace[..|trace| - 1], trace[|trace| - 1];
      AddressIsLatest(init, id);
      LastStep(trace, id);
      NextConnAddress(EntryAfter(init, id), ev, id, Room(After(init), ev.now));
    }
  }

  /** When `id` was last heard of: the time of its latest packet, or of a later
      lookup or send that found it CONNECTED. */
  ghost function LatestTime(trace: Trace, id: uint64): int {
    if trace == [] then 0
    else
      var init, ev := trace[..|trace| - 1], trace[|trace| - 1];
      if PacketFor(ev, id).Some? || (Uses(ev, id) && IsConnected(EntryAfter(init, id))) then ev.now
      else LatestTime(init, id)
  }

  predicate Uses(ev: Event, id: uint64) {
    (ev.LookUp? && ev.id == id) || (ev.SendData? && ev.packet.connectionId == id)
  }

  lemma NextConnSeen(c: Option<Conn>, ev: Event, id: uint64, room: bool)
    ensures var n := NextConn(c, ev, id, room);
      n.Some? ==>
        if PacketFor(ev, id).Some? || (Uses(ev, id) && IsConnected(c)) then n.value.lastSeen == ev.now
        else c.Some? && n.value.lastSeen == c.value.lastSeen
  {
    hide HasFlag, Decode;
  }

  /** The time an entry was last seen, which the 30-second timeout counts from. */
  lemma {:induction false} LastSeenIsLatest(trace: Trace, id: uint64)
    ensures EntryAfter(trace, id).Some? ==> EntryAfter(trace, id).value.lastSeen == LatestTime(trace, id)
  {
    hide EntryAfter, PacketFor, NextConn, Uses;
    if trace == [] {
      NothingLiveAtFirst(id);
    } else {
      var init, ev := trace[..|trace| - 1], trace[|trace| - 1];
      LastSeenIsLatest(init, id);
      LastStep(trace, id);
      NextConnSeen(EntryAfter(init, id), ev, id, Room(After(init), ev.now));
    }
  }
}
