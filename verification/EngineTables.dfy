/** The connection table as a map from connection ids to entries: what every
    step of the engine does to the entry of one id. */
module EngineTables {
  import opened Bytes
  import opened PacketCodec
  import opened Reassembly
  import opened EngineSpec
  import Streams = StreamTable

  ghost predicate Distinct(conns: seq<Conn>) {
    forall i, j | 0 <= i < j < |conns| && conns[i].inUse && conns[j].inUse :: conns[i].id != conns[j].id
  }

  ghost predicate EntryOk(c: Conn) {
    c.inUse ==>
      && (c.state == Connecting || c.state == Connected)
      && Streams.DistinctIds(c.streams)
      && |c.streams| == Streams.MAX_STREAMS
  }

  /** Live ids are pairwise distinct and every live entry is CONNECTING or CONNECTED. */
  ghost predicate TableOk(conns: seq<Conn>) {
    Distinct(conns) && forall i | 0 <= i < |conns| :: EntryOk(conns[i])
  }

  /** The live entry of `id`. */
  function Lookup(conns: seq<Conn>, id: uint64): Option<Conn> {
    var i := Find(conns, id);
    if i < |conns| then Some(conns[i]) else None
  }

  lemma LookupAt(conns: seq<Conn>, i: nat)
    requires Distinct(conns) && i < |conns| && conns[i].inUse
    ensures Find(conns, conns[i].id) == i
  {
  }

  /** Rewriting a live entry without changing its id is a map update. */
  lemma SetEntry(conns: seq<Conn>, i: nat, c: Conn, id: uint64)
    requires TableOk(conns) && i < |conns| && conns[i].inUse
    requires c.inUse && c.id == conns[i].id && EntryOk(c)
    ensures TableOk(conns[i := c])
    ensures Lookup(conns[i := c], id) == if id == c.id then Some(c) else Lookup(conns, id)
    ensures Find(conns[i := c], id) == Find(conns, id)
    ensures Free(conns[i := c]) == Free(conns)
  {
    var after := conns[i := c];
    assert forall j | 0 <= j < |conns| :: after[j].inUse == conns[j].inUse && after[j].id == conns[j].id;
    LookupAt(after, i);
  }

  /** Taking a free entry for an unknown id adds it to the map. */
  lemma AddEntry(conns: seq<Conn>, k: nat, c: Conn, id: uint64)
    requires TableOk(conns) && k < |conns| && !conns[k].inUse
    requires c.inUse && EntryOk(c) && Lookup(conns, c.id).None?
    ensures TableOk(conns[k := c])
    ensures Lookup(conns[k := c], id) == if id == c.id then Some(c) else Lookup(conns, id)
    ensures Find(conns[k := c], c.id) == k
  {
    var after := conns[k := c];
    assert forall j | 0 <= j < |conns| && j != k :: after[j] == conns[j];
    LookupAt(after, k);
    LookupOutside(conns, after, k, id);
  }

  /** Freeing an entry removes its id from the map. */
  lemma DropEntry(conns: seq<Conn>, i: nat, id: uint64)
    requires TableOk(conns) && i < |conns| && conns[i].inUse
    ensures TableOk(conns[i := ClosedConn(conns[i])])
    ensures Lookup(conns[i := ClosedConn(conns[i])], id) == if id == conns[i].id then None else Lookup(conns, id)
  {
    var after := conns[i := ClosedConn(conns[i])];
    assert forall j | 0 <= j < |conns| && j != i :: after[j] == conns[j];
    LookupOutside(conns, after, i, id);
  }

  /** Tables that differ at `k` only agree on every id that neither has there. */
  lemma LookupOutside(conns: seq<Conn>, after: seq<Conn>, k: nat, id: uint64)
    requires k < |conns| == |after|
    requires forall j | 0 <= j < |conns| && j != k :: after[j] == conns[j]
    ensures !(conns[k].inUse && conns[k].id == id) && !(after[k].inUse && after[k].id == id) ==>
      Lookup(after, id) == Lookup(conns, id)
  {
  }

  /** Cleanup removes exactly the ids that have not been seen for 30 seconds. */
  function Unexpired(c: Option<Conn>, now: int): Option<Conn> {
    if c.Some? && Expired(c.value, now) then None else c
  }

  lemma CleanLookup(conns: seq<Conn>, now: int, id: uint64)
    requires TableOk(conns)
    ensures TableOk(CleanConns(conns, now))
    ensures Lookup(CleanConns(conns, now), id) == Unexpired(Lookup(conns, id), now)
  {
    var after := CleanConns(conns, now);
    assert forall j | 0 <= j < |conns| :: after[j] == if Expired(conns[j], now) then ClosedConn(conns[j]) else conns[j];
    var i := Find(conns, id);
    if i < |conns| && !Expired(conns[i], now) {
      LookupAt(after, i);
    }
  }

  // --- every step, seen from one id ---

  /** The entry of a packet's own id, after the table had `room` or not. */
  function AdmittedConn(c: Option<Conn>, p: Packet, addr: Address, now: int, room: bool): Option<Conn> {
    match c
    case Some(k) => Some(k.(addr := addr, lastSeen := now))
    case None =>
      if p.Has(INITIAL) && room
      then Some(Conn(true, p.connectionId, addr, now, Connecting, Streams.EmptyTable())) else None
  }

  function ShakenConn(c: Conn, p: Packet): Conn {
    if c.state == Connecting && p.Has(HANDSHAKE) then c.(state := Connected) else c
  }

  predicate Delivers(c: Conn, p: Packet) {
    c.state == Connected || p.Has(INITIAL) || p.Has(HANDSHAKE)
  }

  function FedConn(c: Conn, p: Packet, allocOk: bool): Conn {
    c.(streams := Streams.OnData(c.streams, p.streamId, Segment(p.offset, p.payload), MAX_PAYLOAD, allocOk).table)
  }

  /** The entry after process_packet. */
  function ProcessedConn(c: Option<Conn>, p: Packet, addr: Address, now: int, room: bool): Option<Conn> {
    var c1 := AdmittedConn(c, p, addr, now, room);
    if c1.None? || p.Has(CLOSE) then None else Some(ShakenConn(c1.value, p))
  }

  function RespondedConn(c: Option<Conn>, p: Packet, env: Env): Option<Conn> {
    if c.Some? && p.Has(DATA) && env.streamHandler then Some(FedConn(c.value, p, env.allocOk)) else c
  }

  function PacketConn(c: Option<Conn>, p: Packet, addr: Address, now: int, room: bool, env: Env): Option<Conn> {
    var c1 := ProcessedConn(c, p, addr, now, room);
    if c1.Some? && Delivers(c1.value, p) then RespondedConn(c1, p, env) else c1
  }

  function SeenConn(c: Option<Conn>, now: int): Option<Conn> {
    if c.Some? && c.value.state == Connected then Some(c.value.(lastSeen := now)) else c
  }

  /** Does a packet that arrives at `now` find a free entry? */
  predicate Room(e: Engine, now: int) {
    Free(CleanConns(e.conns, now)) < |e.conns|
  }

  /** The entry of `id` after `ev`, from the entry before and `ev` alone; the
      rest of the table only matters for whether there is room for a new one. */
  function NextConn(c: Option<Conn>, ev: Event, id: uint64, room: bool): Option<Conn> {
    match ev
    case Arrive(bytes, from, now, env) =>
      (match Decode(bytes)
       case None => c
       case Some(p) =>
         var c1 := Unexpired(c, now);
         if p.connectionId == id then PacketConn(c1, p, from, now, room, env) else c1)
    case Tick(now, _) => Unexpired(c, now)
    case SendData(p, now, _) =>
      var c1 := Unexpired(c, now);
      if p.connectionId == id then SeenConn(c1, now) else c1
    case SendRaw(_, _, _, _) => c
    case LookUp(other, now) =>
      var c1 := Unexpired(c, now);
      if other == id then SeenConn(c1, now) else c1
    case CloseCall(other, _, _) => if other == id then None else c
  }

  lemma GetConnectionEntry(e: Engine, target: uint64, now: int, id: uint64)
    requires TableOk(e.conns)
    ensures TableOk(GetConnection(e, target, now).0.conns)
    ensures Lookup(GetConnection(e, target, now).0.conns, id) ==
      var c := Unexpired(Lookup(e.conns, id), now); if target == id then SeenConn(c, now) else c
  {
    var conns := CleanConns(e.conns, now);
    CleanLookup(e.conns, now, id);
    CleanLookup(e.conns, now, target);
    var i := Find(conns, target);
    if i < |conns| && conns[i].state == Connected {
      SetEntry(conns, i, conns[i].(lastSeen := now), id);
    }
  }

  lemma AdmitEntry(e: Engine, p: Packet, addr: Address, now: int, id: uint64)
    requires TableOk(e.conns)
    ensures var room := Free(e.conns) < |e.conns|;
      var mine := AdmittedConn(Lookup(e.conns, p.connectionId), p, addr, now, room);
      match Admit(e, p, addr, now)
      case Refused => mine.None? && Lookup(e.conns, p.connectionId).None?
      case Admitted(e1, i, _) =>
        && TableOk(e1.conns)
        && mine == Some(e1.conns[i]) && e1.conns[i].inUse && e1.conns[i].id == p.connectionId
        && Lookup(e1.conns, id) == if id == p.connectionId then mine else Lookup(e.conns, id)
  {
    var i := Find(e.conns, p.connectionId);
    if i < |e.conns| {
      SetEntry(e.conns, i, e.conns[i].(addr := addr, lastSeen := now), id);
    } else if p.Has(INITIAL) && Free(e.conns) < |e.conns| {
      var c := Conn(true, p.connectionId, addr, now, Connecting, Streams.EmptyTable());
      AddEntry(e.conns, Free(e.conns), c, id);
    }
  }

  lemma ProcessEntry(e: Engine, p: Packet, addr: Address, now: int, id: uint64)
    requires TableOk(e.conns)
    ensures var r := Process(e, p, addr, now);
      var c := Unexpired(Lookup(e.conns, id), now);
      var mine := ProcessedConn(c, p, addr, now, Room(e, now));
      && TableOk(r.engine.conns)
      && Lookup(r.engine.conns, id) == (if id == p.connectionId then mine else c)
      && (id == p.connectionId && mine.Some? ==> r.ok == Delivers(mine.value, p))
      && (id == p.connectionId && mine.None? && r.ok ==> p.Has(CLOSE))
  {
    var e1 := Cleanup(e, now);
    CleanLookup(e.conns, now, id);
    AdmitEntry(e1, p, addr, now, id);
    match Admit(e1, p, addr, now)
    case Refused =>
    case Admitted(e2, i, _) =>
      if p.Has(CLOSE) {
        DropEntry(e2.conns, i, id);
      } else {
        SetEntry(e2.conns, i, ShakenConn(e2.conns[i], p), id);
        assert Shake(e2, i, p).conns == e2.conns[i := ShakenConn(e2.conns[i], p)];
      }
  }

  lemma DeliverEntry(e: Engine, p: Packet, allocOk: bool, id: uint64)
    requires TableOk(e.conns)
    ensures var d := Deliver(e, p, allocOk);
      && TableOk(d.engine.conns)
      && Lookup(d.engine.conns, id) ==
         var c := Lookup(e.conns, id);
         if id == p.connectionId && c.Some? then Some(FedConn(c.value, p, allocOk)) else c
  {
    var i := Find(e.conns, p.connectionId);
    if i < |e.conns| {
      var c := e.conns[i];
      assert EntryOk(c);
      Streams.OnDataViews(c.streams, p.streamId, Segment(p.offset, p.payload), MAX_PAYLOAD, allocOk);
      SetEntry(e.conns, i, FedConn(c, p, allocOk), id);
    }
  }

  /** Sending touches no connection entry. */
  lemma SendConns(e: Engine, p: Outgoing, addr: Address, now: int, sendOk: bool)
    ensures Send(e, p, addr, now, sendOk).engine.conns == e.conns
  {
  }

  lemma RespondEntry(e: Engine, p: Packet, addr: Address, now: int, handshakeNeeded: bool, env: Env, id: uint64)
    requires TableOk(e.conns)
    ensures var r := Respond(e, p, addr, now, handshakeNeeded, env).engine.conns;
      && TableOk(r)
      && Lookup(r, id) ==
         var c := Lookup(e.conns, id); if id == p.connectionId then RespondedConn(c, p, env) else c
  {
    hide Deliver, FedConn, Send, TableOk, Lookup, HasFlag;
    SendConns(e, HandshakeReply(p.connectionId), addr, now, env.handshakeOk);
    var hs := if handshakeNeeded then Send(e, HandshakeReply(p.connectionId), addr, now, env.handshakeOk)
              else SendResult(e, true, []);
    DeliverEntry(hs.engine, p, env.allocOk, id);
    SendConns(Deliver(hs.engine, p, env.allocOk).engine, AckFor(p), addr, now, env.ackOk);
    assert Lookup(hs.engine.conns, id) == Lookup(e.conns, id);
  }

  lemma ReceiveEntry(e: Engine, p: Packet, bytes: seq<byte>, addr: Address, now: int, env: Env, id: uint64)
    requires TableOk(e.conns) && Decode(bytes) == Some(p)
    ensures var r := Receive(e, bytes, addr, now, env).engine.conns;
      var c := Unexpired(Lookup(e.conns, id), now);
      && TableOk(r)
      && Lookup(r, id) == if id == p.connectionId then PacketConn(c, p, addr, now, Room(e, now), env) else c
  {
    hide Process, Respond, ProcessedConn, FedConn, Decode, TableOk, Lookup, HasFlag, Unexpired, Delivers, AckPending;
    var e1 := Heard(e, p);
    assert e1.conns == e.conns;
    var r := Process(e1, p, addr, now);
    ProcessEntry(e1, p, addr, now, id);
    RespondEntry(r.engine, p, addr, now, r.handshakeNeeded, env, id);
  }

  lemma CloseCallEntry(e: Engine, target: uint64, now: int, sendOk: bool, id: uint64)
    requires TableOk(e.conns)
    ensures var r := CloseLocally(e, target, now, sendOk).engine.conns;
      TableOk(r) && Lookup(r, id) == if id == target then None else Lookup(e.conns, id)
  {
    hide Send;
    var i := Find(e.conns, target);
    if i < |e.conns| {
      assert EntryOk(e.conns[i]);
      DropEntry(e.conns, i, id);
      SendConns(CloseConn(e, i), CloseNotice(target), e.conns[i].addr, now, sendOk);
    }
  }

  /** Every step keeps the table sound and acts on each id on its own. */
  lemma StepEntry(e: Engine, ev: Event, id: uint64)
    requires TableOk(e.conns)
    ensures var r := Step(e, ev).engine.conns;
      TableOk(r) && Lookup(r, id) == NextConn(Lookup(e.conns, id), ev, id, Room(e, ev.now))
  {
    hide Receive, GetConnection, CloseLocally, Send, Decode, TableOk, Lookup, Unexpired, PacketConn, SeenConn, RetransmitTable, RetransmitWire;
    match ev
    case Arrive(bytes, from, now, env) =>
      if Decode(bytes).Some? {
        ReceiveEntry(e, Decode(bytes).value, bytes, from, now, env, id);
      } else {
        ReceiveJunk(e, bytes, from, now, env);
      }
    case Tick(now, failed) => CleanLookup(e.conns, now, id);
    case SendData(p, now, sendOk) =>
      GetConnectionEntry(e, p.connectionId, now, id);
      SendToConns(e, p, now, sendOk);
    case SendRaw(p, to, now, sendOk) => SendConns(e, p, to, now, sendOk);
    case LookUp(target, now) => GetConnectionEntry(e, target, now, id);
    case CloseCall(target, now, sendOk) => CloseCallEntry(e, target, now, sendOk, id);
  }

  lemma SendToConns(e: Engine, p: Outgoing, now: int, sendOk: bool)
    ensures SendToConnection(e, p, now, sendOk).engine.conns == GetConnection(e, p.connectionId, now).0.conns
  {
  }

  /** What does not deserialize only counts as received. */
  lemma ReceiveJunk(e: Engine, bytes: seq<byte>, addr: Address, now: int, env: Env)
    requires Decode(bytes).None?
    ensures Receive(e, bytes, addr, now, env) == Outcome(Counted(e), [], [])
  {
  }

  /** What deserializes is heard, processed and, when accepted, responded to. */
  lemma ReceiveShape(e: Engine, ev: Event, p: Packet)
    requires ev.Arrive? && Decode(ev.bytes) == Some(p)
    ensures Heard(e, p).conns == e.conns
    ensures var r := Process(Heard(e, p), p, ev.from, ev.now);
      Step(e, ev) == if r.ok then Respond(r.engine, p, ev.from, ev.now, r.handshakeNeeded, ev.env)
                     else Outcome(r.engine, [], [])
  {
    hide Process, Respond, AckPending, HasFlag, Decode;
  }

  /** In every reachable state live ids are distinct and live entries are CONNECTING or CONNECTED. */
  lemma {:induction false} ReachableTable(trace: Trace)
    ensures TableOk(After(trace).conns)
    ensures trace == [] ==> forall id: uint64 :: Lookup(After(trace).conns, id).None?
  {
    if trace != [] {
      ReachableTable(trace[..|trace| - 1]);
      StepEntry(After(trace[..|trace| - 1]), trace[|trace| - 1], 0);
    } else {
      assert forall i | 0 <= i < |Init().conns| :: Init().conns[i] == EmptyConn;
    }
  }
}
