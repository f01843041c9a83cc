/** The linked-list code of a stream and of the stream manager, proved against
    modules Reassembly and StreamTable. */
module StreamList {
  import opened Bytes
  import opened Reassembly
  import Table = StreamTable

  /** One held segment; only the node refers to its buffer `data`. */
  class SegmentNode {
    var offset: uint32
    var data: seq<byte>
    var next: SegmentNode?
    /** The stream whose list the node is in. */
    ghost const owner: StreamState

    constructor (offset: uint32, data: seq<byte>, ghost owner: StreamState)
      ensures this.offset == offset && this.data == data && next == null && this.owner == owner
    {
      this.offset, this.data, this.next, this.owner := offset, data, null, owner;
    }
  }

  class StreamState {
    var inUse: bool
    var id: uint32
    var nextOffset: uint32
    var segments: SegmentNode?
    /** The nodes reachable from `segments`, in order, and what they hold. */
    ghost var spine: seq<SegmentNode>
    ghost var held: seq<Segment>
    /** Every node this list has had. */
    ghost var nodes: set<SegmentNode>

    ghost predicate Valid()
      reads this, nodes
    {
      && |held| == |spine|
      && (forall n | n in spine :: n in nodes)
      && segments == (if spine == [] then null else spine[0])
      && (forall i {:trigger spine[i].next} | 0 <= i < |spine| - 1 :: spine[i].next == spine[i + 1])
      && (spine != [] ==> spine[|spine| - 1].next == null)
      && (forall i | 0 <= i < |spine| :: spine[i].offset == held[i].offset && spine[i].data == held[i].data)
      && Distinct(spine)
    }

    ghost function Abs(): Stream
      reads this
    {
      Stream(nextOffset, held)
    }

    /** What the first pointer reaches. */
    lemma Head()
      requires Valid()
      ensures segments == null <==> held == []
      ensures |spine| == |held|
      ensures segments != null ==>
        segments == spine[0] && segments in nodes && held[0] == Segment(segments.offset, segments.data)
    {
    }

    constructor ()
      ensures Valid() && !inUse && id == 0 && nodes == {} && Abs() == Fresh
    {
      inUse, id, nextOffset, segments := false, 0, 0, null;
      spine, held, nodes := [], [], {};
    }

    /** Forgets every segment; the offset stays. */
    method FreeSegments()
      requires Valid()
      modifies this
      ensures Valid() && nodes == old(nodes) && Abs() == old(Abs()).(held := [])
      ensures inUse == old(inUse) && id == old(id)
    {
      segments, spine, held := null, [], [];
    }

    /** The next byte is the one at offset 0 again. */
    method Rewind()
      requires Valid()
      modifies this`nextOffset
      ensures Valid() && Abs() == old(Abs()).(next := 0)
    {
      nextOffset := 0;
    }

    /** Gives the state back. */
    method Close()
      requires Valid()
      modifies this`inUse
      ensures Valid() && !inUse && Abs() == old(Abs())
    {
      inUse := false;
    }

    /** Takes the state, free until now, for stream `newId`. */
    method Open(newId: uint32)
      requires Valid()
      modifies this
      ensures Valid() && nodes == old(nodes) && Abs() == Fresh
      ensures inUse && id == newId
    {
      inUse, id, nextOffset, segments := true, newId, 0, null;
      spine, held := [], [];
    }

    /** Splices a copy of `data` in before the first node that does not start before it. */
    method Insert(offset: uint32, data: seq<byte>)
      requires Valid()
      modifies `segments, `spine, `held, `nodes, nodes`next
      ensures Valid() && fresh(nodes - old(nodes))
      ensures forall n | n in nodes :: n in old(nodes) || n.owner == this
      ensures Abs() == old(Abs()).(held := Reassembly.Insert(old(held), Segment(offset, data)))
    {
      hide Valid, Position;
      var node := new SegmentNode(offset, data, this);
      var prev, cursor;
      ghost var k;
      prev, cursor, k := Locate(offset);
      node.next := cursor;
      if prev == null {
        LinkFirst(node);
      } else {
        LinkAfter(prev, node, k);
      }
    }

    /** The place for a segment: the first node that does not start before it, and the one before that. */
    method Locate(offset: uint32) returns (prev: SegmentNode?, cursor: SegmentNode?, ghost k: nat)
      requires Valid()
      ensures k == Position(held, offset) <= |spine|
      ensures if k == 0 then prev == null && cursor == segments
              else prev != null && prev == spine[k - 1] && prev in nodes && cursor == prev.next
    {
      hide Distinct, Position;
      prev, cursor, k := null, segments, 0;
      while cursor != null && cursor.offset < offset
        invariant k <= |spine|
        invariant cursor == if k < |spine| then spine[k] else null
        invariant prev == if k == 0 then null else spine[k - 1]
        invariant forall i | 0 <= i < k :: held[i].offset < offset
        decreases |spine| - k
      {
        prev, cursor, k := cursor, cursor.next, k + 1;
      }
      PositionIs(held, offset, k);
    }

    method LinkFirst(node: SegmentNode)
      requires Valid() && node !in nodes && node.next == segments
      modifies `segments, `spine, `held, `nodes
      ensures Valid() && nodes == old(nodes) + {node}
      ensures held == [Segment(node.offset, node.data)] + old(held)
    {
      InsertKeepsDistinct(spine, 0, node);
      hide Distinct;
      segments := node;
      assert spine[..0] + [node] + spine[0..] == [node] + spine;
      spine, nodes, held := [node] + spine, nodes + {node}, [Segment(node.offset, node.data)] + held;
    }

    method LinkAfter(prev: SegmentNode, node: SegmentNode, ghost k: nat)
      requires Valid() && node !in nodes
      requires 0 < k <= |spine| && prev == spine[k - 1] && node.next == prev.next
      modifies `spine, `held, `nodes, prev`next
      ensures Valid() && nodes == old(nodes) + {node}
      ensures held == old(held)[..k] + [Segment(node.offset, node.data)] + old(held)[k..]
    {
      InsertKeepsDistinct(spine, k, node);
      hide Distinct;
      prev.next := node;
      ghost var after := spine[..k] + [node] + spine[k..];
      forall i {:trigger after[i].next} | 0 <= i < |after| - 1
        ensures after[i].next == after[i + 1]
      {
        if i > k {
          assert after[i] == spine[i - 1] && after[i + 1] == spine[i];
        }
      }
      spine, nodes := after, nodes + {node};
      held := held[..k] + [Segment(node.offset, node.data)] + held[k..];
    }

    /** Drops the first `used` bytes of the head segment in place. */
    method TrimHead(used: nat)
      requires Valid() && spine != [] && used <= |spine[0].data|
      modifies `held, segments`offset, segments`data
      ensures Valid()
      ensures held == [Segment(Add32(old(held)[0].offset, used), old(held)[0].data[used..])] + old(held)[1..]
    {
      segments.data := segments.data[used..];
      segments.offset := Add32(segments.offset, used);
      held := held[0 := Segment(segments.offset, segments.data)];
    }

    /** Unlinks the head node. */
    method PopHead()
      requires Valid() && spine != []
      modifies `segments, `spine, `held
      ensures Valid() && held == old(held)[1..]
    {
      segments := segments.next;
      spine, held := spine[1..], held[1..];
    }

    /** Copies from the head segment, which reaches past `nextOffset`; a segment
        that does not fit is trimmed, one that does is unlinked. */
    method CopyHead(outBuf: array<byte>, written: nat) returns (n: nat, trimmed: bool)
      requires Valid() && spine != [] && written <= outBuf.Length
      requires held[0].offset <= nextOffset < held[0].offset + |held[0].data|
      modifies `nextOffset, `segments, `spine, `held, segments`offset, segments`data, outBuf
      ensures Valid()
      ensures old(AtHead(Abs())) && Abs() == Turned(old(Abs()), outBuf.Length - written)
      ensures n == Min(Left(old(Abs())), outBuf.Length - written) && trimmed == (n < Left(old(Abs())))
      ensures outBuf[..written + n] == old(outBuf[..written]) + HeadBytes(old(Abs()), n)
      ensures forall k | written + n <= k < outBuf.Length :: outBuf[k] == old(outBuf[k])
    {
      hide Valid, Turned, HeadBytes;
      Head();
      ghost var st := Abs();
      var start := nextOffset - segments.offset;
      n := Min(|segments.data| - start, outBuf.Length - written);
      CopyOut(outBuf, written, segments.data[start..start + n]);
      trimmed := AdvanceHead(start, n);
      TurnedIs(st, outBuf.Length - written, n);
    }

    /** After the copy: the offset moves on, the head is trimmed or unlinked. */
    method AdvanceHead(start: nat, n: nat) returns (trimmed: bool)
      requires Valid() && spine != [] && start + n <= |held[0].data|
      modifies `nextOffset, `segments, `spine, `held, segments`offset, segments`data
      ensures Valid() && nextOffset == Add32(old(nextOffset), n)
      ensures trimmed == (start + n < |old(held)[0].data|)
      ensures held == (if trimmed
                       then [Segment(Add32(old(held)[0].offset, start + n), old(held)[0].data[start + n..])]
                       else []) + old(held)[1..]
    {
      hide Distinct;
      nextOffset := Add32(nextOffset, n);
      trimmed := start + n < |segments.data|;
      if trimmed {
        TrimHead(start + n);
      } else {
        PopHead();
      }
    }

    /** Drains the list into `outBuf`. */
    method Consume(outBuf: array<byte>) returns (written: nat)
      requires Valid()
      modifies `nextOffset, `segments, `spine, `held, nodes`offset, nodes`data, outBuf
      ensures Valid()
      ensures var d := Reassembly.Consume(old(Abs()), outBuf.Length);
        && Abs() == d.stream
        && written == |d.bytes| <= outBuf.Length
        && outBuf[..written] == d.bytes
      ensures forall k | written <= k < outBuf.Length :: outBuf[k] == old(outBuf[k])
    {
      hide Valid, Reassembly.Consume, Turned, HeadBytes, Continues;
      Head();
      ContinuesFrom(Abs(), outBuf.Length, outBuf[..0]);
      written := 0;
      ghost var was := Abs();
      while segments != null && segments.offset <= nextOffset
        invariant Valid()
        invariant written <= outBuf.Length
        invariant Continues(was, outBuf.Length, Abs(), outBuf[..written])
        invariant forall k | written <= k < outBuf.Length :: outBuf[k] == old(outBuf[k])
        decreases |held|
      {
        ghost var st, out := Abs(), outBuf[..written];
        Head();
        if nextOffset - segments.offset >= |segments.data| {
          PopHead();
          ContinuesPast(was, outBuf.Length, st, out);
          StalePassed(st);
        } else {
          var n, trimmed := CopyHead(outBuf, written);
          written := written + n;
          if trimmed {
            ContinuesToTrim(was, outBuf.Length, st, out);
            return;
          }
          ContinuesPast(was, outBuf.Length, st, out);
        }
      }
      Head();
      ContinuesToStop(was, outBuf.Length, Abs(), outBuf[..written]);
    }
  }

  /** State `st` stands for `slot`, and its nodes are among `repr`. */
  ghost predicate StandsFor(st: StreamState, slot: Table.Slot, repr: set<SegmentNode>)
    reads st, st.nodes
  {
    && st.Valid()
    && (forall n | n in st.nodes :: n in repr && n.owner == st)
    && slot == Table.Slot(st.inUse, st.id, st.Abs())
  }

  /** The streams of one connection: sixteen states, which never move. */
  class StreamManager {
    const streams: seq<StreamState>
    /** What the states hold, and the nodes of all of them. */
    ghost var table: Table.Table
    ghost var repr: set<SegmentNode>

    ghost predicate Valid()
      reads this, streams, repr
    {
      && |streams| == |table| == Table.MAX_STREAMS
      && (forall i, j | 0 <= i < j < |streams| :: streams[i] != streams[j])
      && (forall i | 0 <= i < |streams| :: streams[i].nodes <= repr)
      && (forall i | 0 <= i < |streams| :: StandsFor(streams[i], table[i], repr))
    }

    /** First state in use for `id`; otherwise the first free one, opened for it. */
    method FindOrCreate(id: uint32) returns (i: nat)
      requires Valid()
      modifies this, streams
      ensures Valid() && repr == old(repr)
      ensures (table, i) == Table.FindOrCreate(old(table), id)
    {
      i := 0;
      while i < |streams| && !(streams[i].inUse && streams[i].id == id)
        invariant i <= |streams|
        invariant Table.FindFrom(table, id, i) == Table.Find(table, id)
      {
        i := i + 1;
      }
      if i < |streams| {
        return;
      }
      i := 0;
      while i < |streams| && streams[i].inUse
        invariant i <= |streams|
        invariant Table.FreeFrom(table, i) == Table.Free(table)
      {
        i := i + 1;
      }
      if i < |streams| {
        OpenSlot(i, id);
      }
    }

    method OpenSlot(i: nat, id: uint32)
      requires Valid() && i < |streams| && !streams[i].inUse
      modifies this, streams[i]
      ensures Valid() && repr == old(repr)
      ensures table == old(table)[i := Table.Slot(true, id, Fresh)]
    {
      hide StreamState.Valid;
      streams[i].Open(id);
      table := table[i := Table.Slot(true, id, Fresh)];
    }

    constructor ()
      ensures Valid() && fresh(streams) && repr == {} && table == Table.EmptyTable()
    {
      var states: seq<StreamState> := [];
      while |states| < Table.MAX_STREAMS
        invariant |states| <= Table.MAX_STREAMS
        invariant forall st | st in states :: fresh(st) && StandsFor(st, Table.EmptySlot, {}) && st.nodes == {}
        invariant forall i, j | 0 <= i < j < |states| :: states[i] != states[j]
      {
        var st := new StreamState();
        states := states + [st];
      }
      streams, table, repr := states, Table.EmptyTable(), {};
    }

    /** Inserts into the stream in slot `i` and drains it into `outBuf`. */
    method FeedSlot(i: nat, offset: uint32, data: seq<byte>, outBuf: array<byte>) returns (outLen: nat)
      requires Valid() && i < |streams|
      modifies this, streams[i], streams[i].nodes, outBuf
      ensures Valid() && fresh(repr - old(repr))
      ensures var d := Feed(old(table[i].stream), Segment(offset, data), outBuf.Length);
        && table == old(table)[i := old(table)[i].(stream := d.stream)]
        && outLen == |d.bytes| <= outBuf.Length
        && outBuf[..outLen] == d.bytes
        && forall k | outLen <= k < outBuf.Length :: outBuf[k] == old(outBuf[k])
    {
      hide StreamState.Valid, Reassembly.Consume, Reassembly.Insert;
      var st := streams[i];
      st.Insert(offset, data);
      outLen := st.Consume(outBuf);
      repr := repr + st.nodes;
      table := table[i := Table.Slot(st.inUse, st.id, st.Abs())];
    }

    /** quic_stream_on_data: 0 or -1, the offset of the bytes delivered and their
        number.  `allocOk` says whether the new node could be allocated. */
    method OnData(id: uint32, offset: uint32, data: seq<byte>, outBuf: array<byte>, allocOk: bool)
      returns (rc: int, outOffset: uint32, outLen: nat)
      requires Valid()
      modifies this, streams, repr, outBuf
      ensures Valid() && fresh(repr - old(repr))
      ensures var r := Table.OnData(old(table), id, Segment(offset, data), outBuf.Length, allocOk);
        && table == r.table
        && rc == (if r.Accepted? then 0 else -1)
        && (r.Accepted? ==> outOffset == r.outOffset && outLen == |r.bytes| <= outBuf.Length && outBuf[..outLen] == r.bytes)
      ensures rc != 0 ==> outLen == 0
      ensures forall k | outLen <= k < outBuf.Length :: outBuf[k] == old(outBuf[k])
    {
      hide StreamState.Valid, Feed, Table.FindOrCreate;
      rc, outOffset, outLen := -1, 0, 0;
      if |data| == 0 || outBuf.Length == 0 {
        return;
      }
      var i := FindOrCreate(id);
      if i == |streams| {
        return;
      }
      outOffset := streams[i].nextOffset;
      assert StandsFor(streams[i], table[i], repr);
      if !allocOk {
        return;
      }
      outLen := FeedSlot(i, offset, data, outBuf);
      rc := 0;
    }

    /** quic_stream_reset */
    method Reset(id: uint32) returns (rc: int)
      requires Valid()
      modifies this, streams
      ensures Valid() && repr == old(repr)
      ensures var r := Table.Reset(old(table), id);
        if r.Some? then rc == 0 && table == r.value else rc == -1 && table == old(table)
    {
      hide StreamState.Valid;
      var i := 0;
      while i < |streams|
        invariant i <= |streams|
        invariant Valid() && repr == old(repr) && table == old(table)
        invariant Table.FindFrom(table, id, i) == Table.Find(table, id)
      {
        if streams[i].inUse && streams[i].id == id {
          ResetSlot(i);
          return 0;
        }
        i := i + 1;
      }
      rc := -1;
    }

    method ResetSlot(i: nat)
      requires Valid() && i < |streams|
      modifies this, streams[i]
      ensures Valid() && repr == old(repr)
      ensures table == old(table)[i := old(table)[i].(stream := Fresh)]
    {
      hide StreamState.Valid;
      var st := streams[i];
      st.FreeSegments();
      st.Rewind();
      table := table[i := table[i].(stream := Fresh)];
    }

    /** quic_stream_manager_destroy */
    method Destroy()
      requires Valid()
      modifies this, streams
      ensures Valid() && repr == old(repr)
      ensures table == Table.Destroy(old(table))
    {
      hide StreamState.Valid;
      var i := 0;
      while i < |streams|
        invariant i <= |streams|
        invariant Valid() && repr == old(repr)
        invariant forall k | 0 <= k < |table| ::
          table[k] == if k < i then Table.Freed(old(table)[k]) else old(table)[k]
      {
        FreeSlot(i);
        i := i + 1;
      }
    }

    method FreeSlot(i: nat)
      requires Valid() && i < |streams|
      modifies this, streams[i]
      ensures Valid() && repr == old(repr)
      ensures table == old(table)[i := Table.Freed(old(table)[i])]
    {
      hide StreamState.Valid;
      var st := streams[i];
      if st.inUse {
        st.FreeSegments();
        st.Close();
        table := table[i := Table.Freed(table[i])];
      }
    }
  }

  /** One turn of the loop with the head at or before `next`, and `room` left in the buffer. */
  ghost function Turned(st: Stream, room: nat): Stream
    requires AtHead(st)
  {
    if room < Left(st) then Stream(Add32(st.next, room), [TrimmedHead(st, room)] + st.held[1..]) else Passed(st)
  }

  lemma TurnedIs(st: Stream, room: nat, n: nat)
    requires AtHead(st) && st.next < st.held[0].offset + |st.held[0].data| && n == Min(Left(st), room)
    ensures var start := st.next - st.held[0].offset;
      && Left(st) == |st.held[0].data| - start
      && HeadBytes(st, n) == st.held[0].data[start..start + n]
      && Turned(st, room).next == Add32(st.next, n)
      && Turned(st, room).held
         == (if start + n < |st.held[0].data|
             then [Segment(Add32(st.held[0].offset, start + n), st.held[0].data[start + n..])]
             else []) + st.held[1..]
  {
  }

  /** Draining `was` into `size` bytes comes to: `out`, and then draining `st` into what is left. */
  ghost predicate Continues(was: Stream, size: nat, st: Stream, out: seq<byte>) {
    && |out| <= size
    && var d := Reassembly.Consume(st, size - |out|);
       Reassembly.Consume(was, size) == Drained(d.stream, out + d.bytes)
  }

  lemma ContinuesFrom(was: Stream, size: nat, out: seq<byte>)
    requires out == []
    ensures Continues(was, size, was, out)
  {
    hide Reassembly.Consume;
    var d := Reassembly.Consume(was, size);
    assert out + d.bytes == d.bytes;
  }

  lemma StalePassed(st: Stream)
    requires AtHead(st) && Left(st) == 0
    ensures Passed(st) == st.(held := st.held[1..]) && HeadBytes(st, 0) == []
    ensures forall out: seq<byte> :: out + HeadBytes(st, 0) == out
  {
  }

  lemma ContinuesPast(was: Stream, size: nat, st: Stream, out: seq<byte>)
    requires Continues(was, size, st, out) && AtHead(st) && Left(st) <= size - |out|
    ensures Continues(was, size, Passed(st), out + HeadBytes(st, Left(st)))
    ensures size - |out| >= Left(st) ==> Turned(st, size - |out|) == Passed(st)
  {
    hide Reassembly.Consume, HeadBytes, Left;
    ConsumePass(st, size - |out|);
    var d := Reassembly.Consume(Passed(st), size - |out| - Left(st));
    assert out + (HeadBytes(st, Left(st)) + d.bytes) == out + HeadBytes(st, Left(st)) + d.bytes;
  }

  lemma ContinuesToTrim(was: Stream, size: nat, st: Stream, out: seq<byte>)
    requires Continues(was, size, st, out) && AtHead(st) && size - |out| < Left(st)
    ensures Reassembly.Consume(was, size)
         == Drained(Turned(st, size - |out|), out + HeadBytes(st, size - |out|))
  {
    hide Reassembly.Consume, HeadBytes, Left, TrimmedHead;
    ConsumeTrim(st, size - |out|);
  }

  lemma ContinuesToStop(was: Stream, size: nat, st: Stream, out: seq<byte>)
    requires Continues(was, size, st, out) && !AtHead(st)
    ensures Reassembly.Consume(was, size) == Drained(st, out)
  {
    hide Reassembly.Consume;
    ConsumeStop(st, size - |out|);
    assert out + [] == out;
  }

  ghost predicate Distinct(nodes: seq<SegmentNode>) {
    forall i, j | 0 <= i < j < |nodes| :: nodes[i] != nodes[j]
  }

  lemma InsertKeepsDistinct(nodes: seq<SegmentNode>, k: nat, node: SegmentNode)
    requires Distinct(nodes) && node !in nodes && k <= |nodes|
    ensures Distinct(nodes[..k] + [node] + nodes[k..])
    ensures k > 0 ==> forall i | 0 <= i < |nodes| && i != k - 1 :: nodes[i] != nodes[k - 1]
  {
  }

  /** memcpy(outBuf + at, bytes, |bytes|) */
  method CopyOut(outBuf: array<byte>, at: nat, bytes: seq<byte>)
    requires at + |bytes| <= outBuf.Length
    modifies outBuf
    ensures outBuf[..at + |bytes|] == old(outBuf[..at]) + bytes
    ensures forall k | at + |bytes| <= k < outBuf.Length :: outBuf[k] == old(outBuf[k])
  {
    forall i | 0 <= i < |bytes| {
      outBuf[at + i] := bytes[i];
    }
  }

  lemma PositionIs(held: seq<Segment>, offset: uint32, k: nat)
    requires k <= |held|
    requires forall i | 0 <= i < k :: held[i].offset < offset
    requires k < |held| ==> offset <= held[k].offset
    ensures Position(held, offset) == k
  {
  }
}
