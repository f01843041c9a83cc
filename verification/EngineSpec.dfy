/** The connection and retransmission engine, on values: its tables, and what
    every step does to them.  One receive iteration and one public call are one
    step each; the clock reading, the outcome of sendto and of the node
    allocation are inputs of the step. */
module EngineSpec {
  import opened Bytes
  import opened PacketCodec
  import opened Reassembly
  import Streams = StreamTable

  const MAX_CONNECTIONS: nat := 32
  const CONNECTION_TIMEOUT: int := 30
  const MAX_PENDING: nat := 64
  const RETRANS_TIMEOUT: int := 1
  const MAX_RETRIES: nat := 3

  datatype Address = Address(ip: uint32, port: nat)

  datatype ConnState = Idle | Connecting | Connected | Closed

  datatype Conn = Conn(inUse: bool, id: uint64, addr: Address, lastSeen: int, state: ConnState,
                       streams: Streams.Table)

  datatype Pending = Pending(inUse: bool, id: uint64, number: uint32, bytes: seq<byte>, lastSent: int,
                             retries: nat)

  datatype Metrics = Metrics(received: nat, sent: nat, opens: nat, closes: nat, migrations: nat)

  datatype Engine = Engine(conns: seq<Conn>, pending: seq<Pending>, metrics: Metrics)

  const EmptyConn := Conn(false, 0, Address(0, 0), 0, Idle, Streams.EmptyTable())
  const EmptyPending := Pending(false, 0, 0, [], 0, 0)

  /** The state memset leaves in quic_engine_init. */
  function Init(): Engine {
    Engine(seq(MAX_CONNECTIONS, i => EmptyConn), seq(MAX_PENDING, i => EmptyPending), Metrics(0, 0, 0, 0, 0))
  }

  datatype Datagram = Datagram(bytes: seq<byte>, addr: Address)
  datatype Delivery = Delivery(id: uint64, streamId: uint32, offset: uint32, bytes: seq<byte>)

  /** A step's result: the engine, what went on the wire, what the stream handler was given. */
  datatype Outcome = Outcome(engine: Engine, wire: seq<Datagram>, delivered: seq<Delivery>)

  /** A packet whose payload is there, as every caller of the send functions builds it. */
  type Outgoing = p: Packet | p.Present() witness Packet(0, 0, 0, 0, 0, 0, [])

  // --- the connection table ---

  /** The first entry at or after `k` in use for `id`, or |conns|. */
  function FindFrom(conns: seq<Conn>, id: uint64, k: nat): (i: nat)
    requires k <= |conns|
    ensures k <= i <= |conns|
    ensures i < |conns| ==> conns[i].inUse && conns[i].id == id
    ensures forall j | k <= j < i :: !(conns[j].inUse && conns[j].id == id)
    decreases |conns| - k
  {
    if k == |conns| || (conns[k].inUse && conns[k].id == id) then k else FindFrom(conns, id, k + 1)
  }

  /** The first free entry at or after `k`, or |conns|. */
  function FreeFrom(conns: seq<Conn>, k: nat): (i: nat)
    requires k <= |conns|
    ensures k <= i <= |conns|
    ensures i < |conns| ==> !conns[i].inUse
    ensures forall j | k <= j < i :: conns[j].inUse
    decreases |conns| - k
  {
    if k == |conns| || !conns[k].inUse then k else FreeFrom(conns, k + 1)
  }

  function Find(conns: seq<Conn>, id: uint64): (i: nat)
    ensures i <= |conns|
  {
    FindFrom(conns, id, 0)
  }

  function Free(conns: seq<Conn>): (i: nat)
    ensures i <= |conns|
  {
    FreeFrom(conns, 0)
  }

  function ClosedConn(c: Conn): Conn {
    c.(inUse := false, state := Closed, streams := Streams.Destroy(c.streams))
  }

  /** quic_engine_clear_pending_for_connection, for every id in `ids`. */
  function ClearPending(pending: seq<Pending>, ids: set<uint64>): (r: seq<Pending>)
    ensures |r| == |pending|
  {
    seq(|pending|, j requires 0 <= j < |pending| =>
      if pending[j].inUse && pending[j].id in ids then pending[j].(inUse := false) else pending[j])
  }

  /** What CLOSE, a local close and a timeout do to entry `i`. */
  function CloseConn(e: Engine, i: nat): Engine
    requires i < |e.conns|
  {
    Engine(e.conns[i := ClosedConn(e.conns[i])],
           ClearPending(e.pending, {e.conns[i].id}),
           e.metrics.(closes := e.metrics.closes + 1))
  }

  predicate Expired(c: Conn, now: int) {
    c.inUse && now - c.lastSeen > CONNECTION_TIMEOUT
  }

  function ExpiredIds(conns: seq<Conn>, now: int): set<uint64> {
    set i | 0 <= i < |conns| && Expired(conns[i], now) :: conns[i].id
  }

  function ExpiredCount(conns: seq<Conn>, now: int): nat {
    if conns == [] then 0
    else ExpiredCount(conns[..|conns| - 1], now) + if Expired(conns[|conns| - 1], now) then 1 else 0
  }

  function CleanConns(conns: seq<Conn>, now: int): (r: seq<Conn>)
    ensures |r| == |conns|
  {
    seq(|conns|, i requires 0 <= i < |conns| =>
      if Expired(conns[i], now) then ClosedConn(conns[i]) else conns[i])
  }

  /** quic_engine_cleanup_connections_locked */
  function Cleanup(e: Engine, now: int): Engine {
    Engine(CleanConns(e.conns, now),
           ClearPending(e.pending, ExpiredIds(e.conns, now)),
           e.metrics.(closes := e.metrics.closes + ExpiredCount(e.conns, now)))
  }

  // --- the pending table ---

  function FreePendingFrom(pending: seq<Pending>, k: nat): (i: nat)
    requires k <= |pending|
    ensures k <= i <= |pending|
    ensures i < |pending| ==> !pending[i].inUse
    ensures forall j | k <= j < i :: pending[j].inUse
    decreases |pending| - k
  {
    if k == |pending| || !pending[k].inUse then k else FreePendingFrom(pending, k + 1)
  }

  function FindPendingFrom(pending: seq<Pending>, id: uint64, number: uint32, k: nat): (i: nat)
    requires k <= |pending|
    ensures k <= i <= |pending|
    ensures i < |pending| ==> pending[i].inUse && pending[i].id == id && pending[i].number == number
    ensures forall j | k <= j < i :: !(pending[j].inUse && pending[j].id == id && pending[j].number == number)
    decreases |pending| - k
  {
    if k == |pending| || (pending[k].inUse && pending[k].id == id && pending[k].number == number) then k
    else FindPendingFrom(pending, id, number, k + 1)
  }

  /** quic_engine_track_pending: a DATA packet takes the first free slot, if there is one. */
  function Track(pending: seq<Pending>, p: Packet, bytes: seq<byte>, now: int): (r: seq<Pending>)
    ensures |r| == |pending|
  {
    var k := FreePendingFrom(pending, 0);
    if !p.Has(DATA) || k == |pending| then pending
    else pending[k := Pending(true, p.connectionId, p.packetNumber, bytes, now, 0)]
  }

  /** quic_engine_ack_pending: frees the first entry with that id and number. */
  function AckPending(pending: seq<Pending>, id: uint64, number: uint32): (r: seq<Pending>)
    ensures |r| == |pending|
  {
    var k := FindPendingFrom(pending, id, number, 0);
    if k == |pending| then pending else pending[k := pending[k].(inUse := false)]
  }

  predicate Due(pd: Pending, now: int) {
    pd.inUse && now - pd.lastSent >= RETRANS_TIMEOUT
  }

  /** Is the entry handed to sendto by a tick at `now`? */
  predicate Attempted(conns: seq<Conn>, pd: Pending, now: int) {
    Due(pd, now) && Find(conns, pd.id) < |conns|
  }

  function RetransmitOne(conns: seq<Conn>, pd: Pending, now: int, sendOk: bool): Pending {
    if !Due(pd, now) then pd
    else if Find(conns, pd.id) == |conns| || !sendOk then pd.(inUse := false)
    else pd.(lastSent := now, retries := pd.retries + 1, inUse := pd.retries + 1 < MAX_RETRIES)
  }

  /** What the first `k` slots put on the wire; `failed` are the slots whose sendto fails. */
  function RetransmitWire(conns: seq<Conn>, pending: seq<Pending>, now: int, failed: set<nat>, k: nat): seq<Datagram>
    requires k <= |pending|
  {
    if k == 0 then []
    else
      RetransmitWire(conns, pending, now, failed, k - 1)
      + if Attempted(conns, pending[k - 1], now) && k - 1 !in failed
        then [Datagram(pending[k - 1].bytes, conns[Find(conns, pending[k - 1].id)].addr)] else []
  }

  function RetransmitTable(conns: seq<Conn>, pending: seq<Pending>, now: int, failed: set<nat>): (r: seq<Pending>)
    ensures |r| == |pending|
  {
    seq(|pending|, j requires 0 <= j < |pending| => RetransmitOne(conns, pending[j], now, j !in failed))
  }

  /** quic_engine_retransmit_pending */
  function Retransmit(e: Engine, now: int, failed: set<nat>): Outcome {
    var wire := RetransmitWire(e.conns, e.pending, now, failed, |e.pending|);
    Outcome(e.(pending := RetransmitTable(e.conns, e.pending, now, failed),
               metrics := e.metrics.(sent := e.metrics.sent + |wire|)),
            wire, [])
  }

  // --- sending ---

  datatype SendResult = SendResult(engine: Engine, ok: bool, wire: seq<Datagram>)

  /** quic_engine_send */
  function Send(e: Engine, p: Outgoing, addr: Address, now: int, sendOk: bool): SendResult {
    if p.length > MAX_PAYLOAD || !sendOk then SendResult(e, false, [])
    else SendResult(e.(pending := Track(e.pending, p, Encode(p), now),
                       metrics := e.metrics.(sent := e.metrics.sent + 1)),
                    true, [Datagram(Encode(p), addr)])
  }

  /** quic_engine_get_connection: the address of a CONNECTED entry, which counts as seen now. */
  function GetConnection(e: Engine, id: uint64, now: int): (Engine, Option<Address>) {
    var e1 := Cleanup(e, now);
    var i := Find(e1.conns, id);
    if i == |e1.conns| || e1.conns[i].state != Connected then (e1, None)
    else (e1.(conns := e1.conns[i := e1.conns[i].(lastSeen := now)]), Some(e1.conns[i].addr))
  }

  function SendToConnection(e: Engine, p: Outgoing, now: int, sendOk: bool): SendResult {
    match GetConnection(e, p.connectionId, now)
    case (e1, None) => SendResult(e1, false, [])
    case (e1, Some(addr)) => Send(e1, p, addr, now, sendOk)
  }

  function HandshakeReply(id: uint64): Outgoing {
    Packet(HANDSHAKE + ACK, id, 1, 0, 0, 0, [])
  }

  function CloseNotice(id: uint64): Outgoing {
    Packet(CLOSE, id, 0, 0, 0, 0, [])
  }

  function AckFor(p: Packet): Outgoing {
    Packet(ACK, p.connectionId, p.packetNumber, p.streamId, p.offset, 0, [])
  }

  /** quic_engine_close_connection */
  function CloseLocally(e: Engine, id: uint64, now: int, sendOk: bool): SendResult {
    var i := Find(e.conns, id);
    if i == |e.conns| || e.conns[i].state == Closed then SendResult(e, false, [])
    else
      var s := Send(CloseConn(e, i), CloseNotice(id), e.conns[i].addr, now, sendOk);
      s.(ok := true)
  }

  // --- receiving ---

  datatype Admission = Refused | Admitted(engine: Engine, index: nat, created: bool)

  /** The entry for a packet: an unknown id needs INITIAL and a free slot, a
      known one takes over the packet's address and time. */
  function Admit(e: Engine, p: Packet, addr: Address, now: int): (a: Admission)
    ensures a.Admitted? ==> a.index < |a.engine.conns|
  {
    var i := Find(e.conns, p.connectionId);
    if i == |e.conns| then
      var k := Free(e.conns);
      if !p.Has(INITIAL) || k == |e.conns| then Refused
      else
        var c := Conn(true, p.connectionId, addr, now, Connecting, Streams.EmptyTable());
        Admitted(e.(conns := e.conns[k := c]), k, true)
    else
      var moved := if e.conns[i].addr != addr then 1 else 0;
      Admitted(Engine(e.conns[i := e.conns[i].(addr := addr, lastSeen := now)], e.pending,
                      e.metrics.(migrations := e.metrics.migrations + moved)), i, false)
  }

  datatype Processed = Processed(engine: Engine, ok: bool, handshakeNeeded: bool)

  /** The state of an admitted entry after a packet without CLOSE. */
  function Shake(e: Engine, i: nat, p: Packet): Engine
    requires i < |e.conns|
  {
    if e.conns[i].state == Connecting && p.Has(HANDSHAKE)
    then e.(conns := e.conns[i := e.conns[i].(state := Connected)]) else e
  }

  /** quic_engine_process_packet */
  function Process(e: Engine, p: Packet, addr: Address, now: int): Processed {
    var e1 := Cleanup(e, now);
    match Admit(e1, p, addr, now)
    case Refused => Processed(e1, false, false)
    case Admitted(e2, i, created) =>
      if p.Has(CLOSE) then Processed(CloseConn(e2, i), true, created)
      else
        var e3 := Shake(e2, i, p);
        var deliver := e3.conns[i].state == Connected || p.Has(INITIAL) || p.Has(HANDSHAKE);
        Processed(if created then e3.(metrics := e3.metrics.(opens := e3.metrics.opens + 1)) else e3,
                  deliver, created)
  }

  /** Hands the payload to the connection's stream; the handler hears of what became contiguous. */
  function Deliver(e: Engine, p: Packet, allocOk: bool): Outcome {
    var i := Find(e.conns, p.connectionId);
    if i == |e.conns| then Outcome(e, [], [])
    else
      var r := Streams.OnData(e.conns[i].streams, p.streamId, Segment(p.offset, p.payload), MAX_PAYLOAD, allocOk);
      Outcome(e.(conns := e.conns[i := e.conns[i].(streams := r.table)]), [],
              if r.Accepted? && r.bytes != [] then [Delivery(p.connectionId, p.streamId, r.outOffset, r.bytes)]
              else [])
  }

  /** What the world decides in one receive iteration. */
  datatype Env = Env(streamHandler: bool, allocOk: bool, handshakeOk: bool, ackOk: bool)

  function Counted(e: Engine): Engine {
    e.(metrics := e.metrics.(received := e.metrics.received + 1))
  }

  /** The engine once the packet has been counted and an ACK in it has freed its pending entry. */
  function Heard(e: Engine, p: Packet): Engine {
    if p.Has(ACK) then Counted(e).(pending := AckPending(e.pending, p.connectionId, p.packetNumber)) else Counted(e)
  }

  /** What follows a packet that process_packet accepted. */
  function Respond(e: Engine, p: Packet, addr: Address, now: int, handshakeNeeded: bool, env: Env): Outcome {
    var hs := if handshakeNeeded then Send(e, HandshakeReply(p.connectionId), addr, now, env.handshakeOk)
              else SendResult(e, true, []);
    if !p.Has(DATA) || !env.streamHandler then Outcome(hs.engine, hs.wire, [])
    else
      var d := Deliver(hs.engine, p, env.allocOk);
      var ack := Send(d.engine, AckFor(p), addr, now, env.ackOk);
      Outcome(ack.engine, hs.wire + ack.wire, d.delivered)
  }

  /** One iteration of quic_engine_loop that received `bytes` from `addr`. */
  function Receive(e: Engine, bytes: seq<byte>, addr: Address, now: int, env: Env): Outcome {
    match Decode(bytes)
    case None => Outcome(Counted(e), [], [])
    case Some(p) =>
      var r := Process(Heard(e, p), p, addr, now);
      if !r.ok then Outcome(r.engine, [], [])
      else Respond(r.engine, p, addr, now, r.handshakeNeeded, env)
  }

  // --- steps and runs ---

  datatype Event =
    | Arrive(bytes: seq<byte>, from: Address, now: int, env: Env)
    | Tick(now: int, failed: set<nat>)
    | SendData(packet: Outgoing, now: int, sendOk: bool)
    | SendRaw(packet: Outgoing, to: Address, now: int, sendOk: bool)
    | LookUp(id: uint64, now: int)
    | CloseCall(id: uint64, now: int, sendOk: bool)

  function Step(e: Engine, ev: Event): Outcome {
    match ev
    case Arrive(bytes, from, now, env) => Receive(e, bytes, from, now, env)
    case Tick(now, failed) => Retransmit(Cleanup(e, now), now, failed)
    case SendData(p, now, sendOk) =>
      var r := SendToConnection(e, p, now, sendOk);
      Outcome(r.engine, r.wire, [])
    case SendRaw(p, to, now, sendOk) =>
      var r := Send(e, p, to, now, sendOk);
      Outcome(r.engine, r.wire, [])
    case LookUp(id, now) => Outcome(GetConnection(e, id, now).0, [], [])
    case CloseCall(id, now, sendOk) =>
      var r := CloseLocally(e, id, now, sendOk);
      Outcome(r.engine, r.wire, [])
  }

  type Trace = seq<Event>

  function After(trace: Trace): Engine {
    if trace == [] then Init() else Step(After(trace[..|trace| - 1]), trace[|trace| - 1]).engine
  }
}
