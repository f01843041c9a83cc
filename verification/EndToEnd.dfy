/** From a file on the sender to the stream handler on the receiver. */
module EndToEnd {
  import opened Bytes
  import opened PacketCodec
  import opened Reassembly
  import opened EngineSpec
  import opened EngineTables
  import opened EngineLifecycle
  import opened EngineIsolation
  import opened EngineAcks
  import opened ChunkSender

  /** What a stream is given when these datagrams arrive, each drained into a 16 KiB buffer. */
  function Received(datagrams: seq<seq<byte>>): seq<Arrival> {
    if datagrams == [] then []
    else
      var n := |datagrams| - 1;
      match Decode(datagrams[n])
      case None => Received(datagrams[..n])
      case Some(p) => Received(datagrams[..n]) + [Arrival(PayloadOf(p), MAX_PAYLOAD)]
  }

  /** The part of the file that was asked for. */
  function Slice(file: seq<byte>, length: uint32): (s: seq<byte>)
    ensures |s| == Min(length, |file|)
  {
    file[..Min(length, |file|)]
  }

  function SliceChunks(file: seq<byte>, id: uint64, sid: uint32, length: uint32, number: uint32): seq<Outgoing> {
    Chunks(file, id, sid, 0, length, number)
  }

  ghost function SliceSource(slice: seq<byte>): Source {
    (x: nat, b: byte) => x < |slice| && slice[x] == b
  }

  ghost predicate FromOne(a: Arrival, packets: seq<Outgoing>) {
    exists p :: p in packets && a == Arrival(PayloadOf(p), MAX_PAYLOAD)
  }

  /** Every arrival carries the payload of one of the packets. */
  ghost predicate AllFrom(arrivals: seq<Arrival>, packets: seq<Outgoing>) {
    forall a | a in arrivals :: FromOne(a, packets)
  }

  /** The datagram is one of the packets, serialized. */
  ghost predicate Serialized(d: seq<byte>, packets: seq<Outgoing>) {
    exists p :: p in packets && d == Encode(p)
  }

  /** A chunk is a bounded segment whose bytes are the slice's. */
  lemma ChunkSegment(file: seq<byte>, id: uint64, sid: uint32, length: uint32, number: uint32, p: Outgoing)
    requires |file| < TWO32 && p in SliceChunks(file, id, sid, length, number)
    ensures PayloadOf(p).Bounded() && p.payload != [] && p.length <= MAX_PAYLOAD
    ensures Agrees(PayloadOf(p), SliceSource(Slice(file, length)))
    ensures forall x: nat | PayloadOf(p).Has(x) :: x < |Slice(file, length)|
  {
    hide Chunks;
    ChunksPresent(file, id, sid, 0, length, number);
    ChunksArePieces(file, id, sid, 0, length, number);
    PieceSegment(file, length, p);
  }

  lemma PieceSegment(file: seq<byte>, length: uint32, p: Packet)
    requires |file| < TWO32 && IsPiece(file, p) && p.offset + |p.payload| <= length
    ensures PayloadOf(p).Bounded() && Agrees(PayloadOf(p), SliceSource(Slice(file, length)))
    ensures forall x: nat | PayloadOf(p).Has(x) :: x < |Slice(file, length)|
  {
    var slice := Slice(file, length);
    forall i | 0 <= i < |p.payload|
      ensures p.offset + i < |slice| && slice[p.offset + i] == p.payload[i]
    {
      assert slice[p.offset + i] == file[p.offset + i];
    }
  }

  lemma ArrivalsFromChunks(file: seq<byte>, id: uint64, sid: uint32, length: uint32, number: uint32, arrivals: seq<Arrival>)
    requires |file| < TWO32 && AllFrom(arrivals, SliceChunks(file, id, sid, length, number))
    ensures ArrivalsOk(arrivals, SliceSource(Slice(file, length))) && ArrivalsBounded(arrivals)
    ensures forall x: nat | Sent(arrivals, x) :: x < |Slice(file, length)|
  {
    var packets := SliceChunks(file, id, sid, length, number);
    hide Slice, SliceChunks, SliceSource, Agrees;
    forall a | a in arrivals
      ensures a.segment.Bounded() && Agrees(a.segment, SliceSource(Slice(file, length)))
      ensures forall x: nat | a.segment.Has(x) :: x < |Slice(file, length)|
    {
      var p :| p in packets && a == Arrival(PayloadOf(p), MAX_PAYLOAD);
      ChunkSegment(file, id, sid, length, number, p);
    }
  }

  /** Whatever arrives, and however often, what has been delivered is a prefix of the slice. */
  lemma DeliversPrefix(file: seq<byte>, id: uint64, sid: uint32, length: uint32, number: uint32, arrivals: seq<Arrival>)
    requires |file| < TWO32 && AllFrom(arrivals, SliceChunks(file, id, sid, length, number))
    ensures Run(Fresh, arrivals).bytes <= Slice(file, length)
    ensures Inv(Run(Fresh, arrivals).stream) && Run(Fresh, arrivals).stream.next == |Run(Fresh, arrivals).bytes|
  {
    hide SliceChunks, Slice;
    var slice := Slice(file, length);
    ArrivalsFromChunks(file, id, sid, length, number, arrivals);
    RunDeliversSource(Fresh, arrivals, SliceSource(slice));
    RunCovers(Fresh, arrivals);
    var d := Run(Fresh, arrivals);
    if d.bytes != [] {
      assert SliceSource(slice)(0 + (|d.bytes| - 1), d.bytes[|d.bytes| - 1]);
    }
    forall i | 0 <= i < |d.bytes|
      ensures d.bytes[i] == slice[i]
    {
      assert SliceSource(slice)(0 + i, d.bytes[i]);
    }
  }

  /** Every packet has arrived. */
  ghost predicate Complete(arrivals: seq<Arrival>, packets: seq<Outgoing>) {
    forall p | p in packets :: Arrival(PayloadOf(p), MAX_PAYLOAD) in arrivals
  }

  /** Then exactly the slice is delivered or held: nothing is missing, nothing is added. */
  lemma CompleteCovers(file: seq<byte>, id: uint64, sid: uint32, length: uint32, number: uint32, arrivals: seq<Arrival>)
    requires |file| < TWO32 && AllFrom(arrivals, SliceChunks(file, id, sid, length, number))
    requires Complete(arrivals, SliceChunks(file, id, sid, length, number))
    ensures forall x: nat :: Covers(Run(Fresh, arrivals).stream, x) <==> x < |Slice(file, length)|
  {
    ArrivalsFromChunks(file, id, sid, length, number, arrivals);
    RunCovers(Fresh, arrivals);
    forall x: nat
      ensures Covers(Run(Fresh, arrivals).stream, x) <==> x < |Slice(file, length)|
    {
      CoveredIff(file, id, sid, length, number, arrivals, x);
      assert !Covers(Fresh, x);
    }
  }

  lemma CoveredIff(file: seq<byte>, id: uint64, sid: uint32, length: uint32, number: uint32, arrivals: seq<Arrival>, x: nat)
    requires |file| < TWO32 && AllFrom(arrivals, SliceChunks(file, id, sid, length, number))
    requires Complete(arrivals, SliceChunks(file, id, sid, length, number))
    ensures Sent(arrivals, x) <==> x < |Slice(file, length)|
  {
    hide Chunks;
    ArrivalsFromChunks(file, id, sid, length, number, arrivals);
    if x < |Slice(file, length)| {
      ChunksCoverRange(file, id, sid, 0, length, number, x);
      var p :| p in SliceChunks(file, id, sid, length, number) && Holds(p, x);
      assert Arrival(PayloadOf(p), MAX_PAYLOAD) in arrivals && PayloadOf(p).Has(x);
    }
  }

  /** From then on each further packet of the slice drains the next 16 KiB, or the rest. */
  lemma NextDrain(file: seq<byte>, id: uint64, sid: uint32, length: uint32, number: uint32, arrivals: seq<Arrival>, p: Outgoing)
    requires |file| < TWO32 && AllFrom(arrivals, SliceChunks(file, id, sid, length, number))
    requires Complete(arrivals, SliceChunks(file, id, sid, length, number))
    requires p in SliceChunks(file, id, sid, length, number)
    ensures var d := Run(Fresh, arrivals);
      var rest := |Slice(file, length)| - |d.bytes|;
      |Feed(d.stream, PayloadOf(p), MAX_PAYLOAD).bytes| == if rest < MAX_PAYLOAD then rest else MAX_PAYLOAD
  {
    hide SliceChunks, Slice, Feed, AllFrom, Complete;
    var d := Run(Fresh, arrivals);
    var m := |Slice(file, length)|;
    DeliversPrefix(file, id, sid, length, number, arrivals);
    CompleteCovers(file, id, sid, length, number, arrivals);
    ChunkSegment(file, id, sid, length, number, p);
    forall x | d.stream.next <= x < m
      ensures HeldHas(d.stream.held, x)
    {
      assert Covers(d.stream, x);
    }
    assert !Covers(d.stream, m);
    assert IsGap(d.stream, PayloadOf(p), m);
    var any: Source := (x: nat, b: byte) => true;
    ExactReassembly(d.stream, PayloadOf(p), MAX_PAYLOAD, any, m);
  }

  lemma RunAppend(arrivals: seq<Arrival>, a: Arrival)
    ensures Run(Fresh, arrivals + [a]).bytes == Run(Fresh, arrivals).bytes + Feed(Run(Fresh, arrivals).stream, a.segment, a.room).bytes
  {
  }

  /** `n` full output buffers. */
  function PiecesSize(n: nat): nat {
    16384 * n
  }

  /** So the whole slice comes out: `|more|` packets later it is all delivered, or 16 KiB more for each of them. */
  lemma {:induction false} DrainsOut(file: seq<byte>, id: uint64, sid: uint32, length: uint32, number: uint32,
                                     arrivals: seq<Arrival>, more: seq<Arrival>)
    requires |file| < TWO32
    requires AllFrom(arrivals, SliceChunks(file, id, sid, length, number))
    requires AllFrom(more, SliceChunks(file, id, sid, length, number))
    requires Complete(arrivals, SliceChunks(file, id, sid, length, number))
    ensures Run(Fresh, arrivals + more).bytes <= Slice(file, length)
    ensures |Run(Fresh, arrivals + more).bytes|
      == Min(|Slice(file, length)|, |Run(Fresh, arrivals).bytes| + PiecesSize(|more|))
    decreases |more|
  {
    hide SliceChunks, Slice, Run;
    var packets := SliceChunks(file, id, sid, length, number);
    DeliversPrefix(file, id, sid, length, number, arrivals);
    if more == [] {
      assert arrivals + more == arrivals;
    } else {
      var n := |more| - 1;
      var init := arrivals + more[..n];
      assert arrivals + more == init + [more[n]];
      assert AllFrom(init, packets) && Complete(init, packets);
      DrainsOut(file, id, sid, length, number, arrivals, more[..n]);
      assert more[n] in more;
      var p :| p in packets && more[n] == Arrival(PayloadOf(p), MAX_PAYLOAD);
      NextDrain(file, id, sid, length, number, init, p);
      RunAppend(init, more[n]);
      DeliversPrefix(file, id, sid, length, number, arrivals + more);
    }
  }

  // --- on the wire, and through the receiving engine ---

  /** Datagrams that are serialized chunks arrive as those chunks' payloads. */
  lemma {:induction false} WireArrivals(datagrams: seq<seq<byte>>, packets: seq<Outgoing>)
    requires forall p | p in packets :: p.length <= MAX_PAYLOAD
    requires forall d | d in datagrams :: Serialized(d, packets)
    ensures AllFrom(Received(datagrams), packets)
    ensures (forall p | p in packets :: Encode(p) in datagrams) ==> Complete(Received(datagrams), packets)
    ensures forall p | p in packets && Encode(p) in datagrams :: Arrival(PayloadOf(p), MAX_PAYLOAD) in Received(datagrams)
  {
    hide Encode, Decode;
    if datagrams != [] {
      var n := |datagrams| - 1;
      var d := datagrams[n];
      assert d in datagrams;
      WireArrivals(datagrams[..n], packets);
      var p :| p in packets && d == Encode(p);
      DecodeUndoesEncode(p, []);
      assert Encode(p) + [] == Encode(p);
      forall q | q in packets && Encode(q) == d
        ensures q == p
      {
        DecodeUndoesEncode(q, []);
        assert Encode(q) + [] == Encode(q);
      }
    }
  }

  /** End to end: cut the slice into packets, serialize them, reorder and duplicate
      the datagrams at will, deserialize them and feed a fresh stream.  What has been
      delivered is always a prefix of the slice; once every packet has arrived,
      exactly the slice is delivered or held. */
  lemma SliceEndToEnd(file: seq<byte>, id: uint64, sid: uint32, length: uint32, number: uint32, datagrams: seq<seq<byte>>)
    requires |file| < TWO32
    requires forall d | d in datagrams :: Serialized(d, SliceChunks(file, id, sid, length, number))
    ensures Run(Fresh, Received(datagrams)).bytes <= Slice(file, length)
    ensures (forall p | p in SliceChunks(file, id, sid, length, number) :: Encode(p) in datagrams) ==>
      forall x: nat :: Covers(Run(Fresh, Received(datagrams)).stream, x) <==> x < |Slice(file, length)|
  {
    hide Run, Slice, Received, Covers, AllFrom, Complete, Encode;
    var packets := SliceChunks(file, id, sid, length, number);
    ChunksPresent(file, id, sid, 0, length, number);
    hide Chunks;
    WireArrivals(datagrams, packets);
    DeliversPrefix(file, id, sid, length, number, Received(datagrams));
    if forall p | p in packets :: Encode(p) in datagrams {
      CompleteCovers(file, id, sid, length, number, Received(datagrams));
    }
  }

  /** Through the receiving engine: whatever else the run brings, if the DATA packets
      that name the pair are chunks, the stream handler is given a prefix of the slice. */
  lemma EngineDeliversPrefix(trace: Trace, file: seq<byte>, id: uint64, sid: uint32, length: uint32, number: uint32)
    requires |file| < TWO32
    requires forall ev, p | ev in trace && PacketFor(ev, id) == Some(p) && p.streamId == sid && p.Has(DATA) ::
      p in SliceChunks(file, id, sid, length, number)
    ensures DeliveredBytes(trace, id, sid) <= Slice(file, length)
  {
    hide History, SliceChunks, Slice, Run, EntryAfter, DeliveredBytes, PacketFor, HasFlag, NotEndedAfter;
    var packets := SliceChunks(file, id, sid, length, number);
    forall a | a in History(trace, id, sid)
      ensures FromOne(a, packets)
    {
      HistoryWasBrought(trace, id, sid, a);
      HistoryRoom(trace, id, sid, a);
      var k :| 0 <= k < |trace| && Brought(trace, k, id, sid, a.segment) && NotEndedAfter(trace, k, id);
      var p := PacketFor(trace[k], id).value;
      assert trace[k] in trace;
    }
    DeliversPrefix(file, id, sid, length, number, History(trace, id, sid));
    Isolation(trace, id, sid);
  }

  lemma {:induction false} HistoryRoom(trace: Trace, id: uint64, sid: uint32, a: Arrival)
    requires a in History(trace, id, sid)
    ensures a.room == MAX_PAYLOAD
  {
    hide EntryAfter, After, AcceptedPayload, Survives, Room;
    var init := trace[..|trace| - 1];
    if a in History(init, id, sid) {
      HistoryRoom(init, id, sid, a);
    }
  }
}
