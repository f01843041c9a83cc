/** What the engine's counters conserve over every run. */
module EngineMetrics {
  import opened Bytes
  import opened PacketCodec
  import opened EngineSpec
  import opened EngineTables
  import opened EngineLifecycle

  function LiveCount(conns: seq<Conn>): nat {
    if conns == [] then 0
    else LiveCount(conns[..|conns| - 1]) + if conns[|conns| - 1].inUse then 1 else 0
  }

  lemma {:induction false} LiveCountUpdate(conns: seq<Conn>, i: nat, c: Conn)
    requires i < |conns|
    ensures LiveCount(conns[i := c]) ==
      LiveCount(conns) - (if conns[i].inUse then 1 else 0) + if c.inUse then 1 else 0
  {
    var n := |conns| - 1;
    if i < n {
      LiveCountUpdate(conns[..n], i, c);
      assert conns[i := c][..n] == conns[..n][i := c];
    } else {
      assert conns[i := c][..n] == conns[..n];
    }
  }

  lemma {:induction false} LiveCountClean(conns: seq<Conn>, now: int)
    ensures LiveCount(CleanConns(conns, now)) == LiveCount(conns) - ExpiredCount(conns, now)
  {
    if conns != [] {
      var n := |conns| - 1;
      LiveCountClean(conns[..n], now);
      assert CleanConns(conns, now)[..n] == CleanConns(conns[..n], now);
    }
  }

  lemma {:induction false} NoneLive(conns: seq<Conn>)
    requires forall c | c in conns :: !c.inUse
    ensures LiveCount(conns) == 0
  {
    if conns != [] {
      NoneLive(conns[..|conns| - 1]);
    }
  }

  /** Closed plus live, against opened. */
  function Balance(e: Engine): int {
    e.metrics.closes + LiveCount(e.conns) - e.metrics.opens
  }

  /** A packet with both INITIAL and CLOSE that got a slot for an unknown id:
      process_packet returns before it counts the opening. */
  predicate ShortLived(e: Engine, ev: Event) {
    && ev.Arrive? && Decode(ev.bytes).Some?
    && var p := Decode(ev.bytes).value;
       p.Has(INITIAL) && p.Has(CLOSE) && Unexpired(Lookup(e.conns, p.connectionId), ev.now).None? && Room(e, ev.now)
  }

  lemma CleanupBalance(e: Engine, now: int)
    ensures Balance(Cleanup(e, now)) == Balance(e)
  {
    LiveCountClean(e.conns, now);
  }

  lemma CloseBalance(e: Engine, i: nat)
    requires i < |e.conns| && e.conns[i].inUse
    ensures Balance(CloseConn(e, i)) == Balance(e)
  {
    LiveCountUpdate(e.conns, i, ClosedConn(e.conns[i]));
  }

  /** Rewriting live entries, sending and acknowledging move nothing. */
  lemma SetBalance(e: Engine, i: nat, c: Conn)
    requires i < |e.conns| && e.conns[i].inUse == c.inUse
    ensures Balance(e.(conns := e.conns[i := c])) == Balance(e)
  {
    LiveCountUpdate(e.conns, i, c);
  }

  lemma SendBalance(e: Engine, p: Outgoing, addr: Address, now: int, sendOk: bool)
    ensures Balance(Send(e, p, addr, now, sendOk).engine) == Balance(e)
  {
  }

  lemma GetConnectionBalance(e: Engine, id: uint64, now: int)
    ensures Balance(GetConnection(e, id, now).0) == Balance(e)
  {
    hide ClearPending;
    CleanupBalance(e, now);
    var e1 := Cleanup(e, now);
    var i := Find(e1.conns, id);
    if i < |e1.conns| {
      SetBalance(e1, i, e1.conns[i].(lastSeen := now));
    }
  }

  lemma AdmitBalance(e: Engine, p: Packet, addr: Address, now: int)
    ensures match Admit(e, p, addr, now)
      case Refused => true
      case Admitted(e1, i, created) =>
        e1.conns[i].inUse && Balance(e1) == Balance(e) + if created then 1 else 0
  {
    var i := Find(e.conns, p.connectionId);
    if i < |e.conns| {
      LiveCountUpdate(e.conns, i, e.conns[i].(addr := addr, lastSeen := now));
    } else if Free(e.conns) < |e.conns| {
      LiveCountUpdate(e.conns, Free(e.conns),
                      Conn(true, p.connectionId, addr, now, Connecting, Streams.EmptyTable()));
    }
  }

  lemma ShakeBalance(e: Engine, i: nat, p: Packet)
    requires i < |e.conns| && e.conns[i].inUse
    ensures Balance(Shake(e, i, p)) == Balance(e)
  {
    SetBalance(e, i, e.conns[i].(state := Connected));
  }

  lemma ProcessBalance(e: Engine, p: Packet, addr: Address, now: int)
    ensures var a := Admit(Cleanup(e, now), p, addr, now);
      Balance(Process(e, p, addr, now).engine) ==
        Balance(e) + if a.Admitted? && a.created && p.Has(CLOSE) then 1 else 0
  {
    hide Balance, Cleanup, Admit, Shake, CloseConn, HasFlag;
    CleanupBalance(e, now);
    AdmitBalance(Cleanup(e, now), p, addr, now);
    match Admit(Cleanup(e, now), p, addr, now)
    case Refused =>
    case Admitted(e2, i, created) =>
      CloseBalance(e2, i);
      ShakeBalance(e2, i, p);
      var e3 := Shake(e2, i, p);
      OpenedBalance(e3);
  }

  lemma OpenedBalance(e: Engine)
    ensures Balance(e.(metrics := e.metrics.(opens := e.metrics.opens + 1))) == Balance(e) - 1
  {
  }

  lemma DeliverBalance(e: Engine, p: Packet, allocOk: bool)
    ensures Balance(Deliver(e, p, allocOk).engine) == Balance(e)
  {
    hide Balance;
    var i := Find(e.conns, p.connectionId);
    if i < |e.conns| {
      SetBalance(e, i, FedConn(e.conns[i], p, allocOk));
    }
  }

  lemma RespondBalance(e: Engine, p: Packet, from: Address, now: int, handshakeNeeded: bool, env: Env)
    ensures Balance(Respond(e, p, from, now, handshakeNeeded, env).engine) == Balance(e)
  {
    hide Balance, Send, Deliver, HasFlag;
    SendBalance(e, HandshakeReply(p.connectionId), from, now, env.handshakeOk);
    var hs := if handshakeNeeded then Send(e, HandshakeReply(p.connectionId), from, now, env.handshakeOk)
              else SendResult(e, true, []);
    DeliverBalance(hs.engine, p, env.allocOk);
    SendBalance(Deliver(hs.engine, p, env.allocOk).engine, AckFor(p), from, now, env.ackOk);
  }

  lemma ReceiveBalance(e: Engine, ev: Event, p: Packet)
    requires TableOk(e.conns) && ev.Arrive? && Decode(ev.bytes) == Some(p)
    ensures Balance(Step(e, ev).engine) == Balance(e) + if ShortLived(e, ev) then 1 else 0
  {
    hide Balance, Process, Respond, Step, HasFlag, Decode, TableOk, Heard, Admit, Cleanup, ShortLived;
    HeardBalance(e, p);
    ReceiveShape(e, ev, p);
    ProcessBalance(Heard(e, p), p, ev.from, ev.now);
    var r := Process(Heard(e, p), p, ev.from, ev.now);
    RespondBalance(r.engine, p, ev.from, ev.now, r.handshakeNeeded, ev.env);
    ShortLivedIsAdmission(Heard(e, p), e, ev, p);
  }

  lemma HeardBalance(e: Engine, p: Packet)
    ensures Balance(Heard(e, p)) == Balance(e)
  {
  }

  lemma ShortLivedIsAdmission(e1: Engine, e: Engine, ev: Event, p: Packet)
    requires TableOk(e.conns) && e1.conns == e.conns && ev.Arrive? && Decode(ev.bytes) == Some(p)
    ensures var a := Admit(Cleanup(e1, ev.now), p, ev.from, ev.now);
      ShortLived(e, ev) <==> a.Admitted? && a.created && p.Has(CLOSE)
  {
    hide HasFlag, Decode, CleanConns, Unexpired;
    CleanLookup(e.conns, ev.now, p.connectionId);
  }

  lemma CloseCallBalance(e: Engine, id: uint64, now: int, sendOk: bool)
    ensures Balance(CloseLocally(e, id, now, sendOk).engine) == Balance(e)
  {
    hide Balance, Send, CloseConn;
    var i := Find(e.conns, id);
    if i < |e.conns| {
      CloseBalance(e, i);
      SendBalance(CloseConn(e, i), CloseNotice(id), e.conns[i].addr, now, sendOk);
    }
  }

  lemma StepBalance(e: Engine, ev: Event)
    requires TableOk(e.conns)
    ensures Balance(Step(e, ev).engine) == Balance(e) + if ShortLived(e, ev) then 1 else 0
  {
    hide Balance, Receive, GetConnection, CloseLocally, Send, Cleanup, Decode, TableOk, Retransmit;
    match ev
    case Arrive(bytes, from, now, env) =>
      if Decode(bytes).Some? {
        ReceiveBalance(e, ev, Decode(bytes).value);
      } else {
        ReceiveJunk(e, bytes, from, now, env);
        ReceivedBalance(e);
      }
    case Tick(now, failed) =>
      CleanupBalance(e, now);
      RetransmitBalance(Cleanup(e, now), now, failed);
    case SendData(p, now, sendOk) =>
      GetConnectionBalance(e, p.connectionId, now);
      var g := GetConnection(e, p.connectionId, now);
      if g.1.Some? {
        SendBalance(g.0, p, g.1.value, now, sendOk);
      }
    case SendRaw(p, to, now, sendOk) => SendBalance(e, p, to, now, sendOk);
    case LookUp(id, now) => GetConnectionBalance(e, id, now);
    case CloseCall(id, now, sendOk) => CloseCallBalance(e, id, now, sendOk);
  }

  lemma ReceivedBalance(e: Engine)
    ensures Balance(Counted(e)) == Balance(e)
  {
  }

  lemma RetransmitBalance(e: Engine, now: int, failed: set<nat>)
    ensures Balance(Retransmit(e, now, failed).engine) == Balance(e)
  {
  }

  /** How many events of the run were of that kind. */
  ghost function ShortLivedCount(trace: Trace): nat {
    if trace == [] then 0
    else
      var init := trace[..|trace| - 1];
      ShortLivedCount(init) + if ShortLived(After(init), trace[|trace| - 1]) then 1 else 0
  }

  /** Conservation: closed plus live is opened plus the short-lived ones, after every run. */
  lemma {:induction false} MetricsConserved(trace: Trace)
    ensures var e := After(trace);
      e.metrics.closes + LiveCount(e.conns) == e.metrics.opens + ShortLivedCount(trace)
  {
    hide Step, ShortLived;
    if trace == [] {
      NoneLive(Init().conns);
    } else {
      var init := trace[..|trace| - 1];
      MetricsConserved(init);
      ReachableTable(init);
      StepBalance(After(init), trace[|trace| - 1]);
    }
  }

  /** There are such packets: one of them leaves more connections closed than opened. */
  lemma ClosedExceedsOpened(id: uint64, from: Address, now: int, env: Env)
    ensures var bytes := Encode(Packet(INITIAL + CLOSE, id, 0, 0, 0, 0, []));
      var e := After([Arrive(bytes, from, now, env)]);
      e.metrics.closes + LiveCount(e.conns) == e.metrics.opens + 1
  {
    hide Encode, Decode, Step, ShortLived;
    var p := Packet(INITIAL + CLOSE, id, 0, 0, 0, 0, []);
    var ev := Arrive(Encode(p), from, now, env);
    DecodeUndoesEncode(p, []);
    assert Encode(p) + [] == Encode(p);
    MetricsConserved([ev]);
    ShortLivedAtFirst(ev, p);
    assert [ev][..0] == [];
    assert ShortLivedCount([ev]) == ShortLivedCount([]) + 1;
  }

  lemma ShortLivedAtFirst(ev: Event, p: Packet)
    requires ev.Arrive? && Decode(ev.bytes) == Some(p) && p.flags == INITIAL + CLOSE
    ensures ShortLived(After([]), ev)
  {
    hide Decode;
    NothingLiveAtFirst(p.connectionId);
    var conns := CleanConns(After([]).conns, ev.now);
    assert conns[0] == EmptyConn;
    assert p.Has(INITIAL) && p.Has(CLOSE);
  }
}
