/** The streams of one connection, on values: a table of slots, each one in
    use for a stream id or free. */
module StreamTable {
  import opened Bytes
  import opened Reassembly

  const MAX_STREAMS: nat := 16

  datatype Slot = Slot(inUse: bool, id: uint32, stream: Stream)

  type Table = seq<Slot>

  const EmptySlot := Slot(false, 0, Fresh)

  function EmptyTable(): (t: Table)
    ensures |t| == MAX_STREAMS
    ensures forall i | 0 <= i < |t| :: t[i] == EmptySlot
  {
    seq(MAX_STREAMS, i => EmptySlot)
  }

  /** The first slot at or after `k` in use for `id`, or |t|. */
  function FindFrom(t: Table, id: uint32, k: nat): (i: nat)
    requires k <= |t|
    ensures k <= i <= |t|
    ensures i < |t| ==> t[i].inUse && t[i].id == id
    ensures forall j | k <= j < i :: !(t[j].inUse && t[j].id == id)
    decreases |t| - k
  {
    if k == |t| || (t[k].inUse && t[k].id == id) then k else FindFrom(t, id, k + 1)
  }

  /** The first free slot at or after `k`, or |t|. */
  function FreeFrom(t: Table, k: nat): (i: nat)
    requires k <= |t|
    ensures k <= i <= |t|
    ensures i < |t| ==> !t[i].inUse
    ensures forall j | k <= j < i :: t[j].inUse
    decreases |t| - k
  {
    if k == |t| || !t[k].inUse then k else FreeFrom(t, k + 1)
  }

  function Find(t: Table, id: uint32): nat {
    FindFrom(t, id, 0)
  }

  function Free(t: Table): nat {
    FreeFrom(t, 0)
  }

  predicate Open(t: Table, id: uint32) {
    Find(t, id) < |t|
  }

  predicate HasRoom(t: Table) {
    Free(t) < |t|
  }

  /** What the stream `id` has come to: a stream without a slot is fresh. */
  function View(t: Table, id: uint32): Stream {
    var i := Find(t, id);
    if i < |t| then t[i].stream else Fresh
  }

  /** Slot of `id`, which takes the first free slot when it has none;
      the slot is |t| when none is free. */
  function FindOrCreate(t: Table, id: uint32): (r: (Table, nat))
    ensures r.1 <= |r.0| == |t|
  {
    var i := Find(t, id);
    if i < |t| then (t, i)
    else
      var k := Free(t);
      if k < |t| then (t[k := Slot(true, id, Fresh)], k) else (t, |t|)
  }

  datatype Reply = Rejected(table: Table) | Accepted(table: Table, outOffset: uint32, bytes: seq<byte>)

  /** One call of quic_stream_on_data.  `allocOk` says whether the segment could be allocated. */
  function OnData(t: Table, id: uint32, s: Segment, room: nat, allocOk: bool): Reply {
    if s.data == [] || room == 0 then Rejected(t)
    else
      var (t1, i) := FindOrCreate(t, id);
      if i == |t1| || !allocOk then Rejected(t1)
      else
        var d := Feed(t1[i].stream, s, room);
        Accepted(t1[i := t1[i].(stream := d.stream)], t1[i].stream.next, d.bytes)
  }

  /** Forgets the stream's segments and offset; None when the id has no slot. */
  function Reset(t: Table, id: uint32): Option<Table> {
    var i := Find(t, id);
    if i < |t| then Some(t[i := t[i].(stream := Fresh)]) else None
  }

  /** Frees every slot; ids and offsets of freed slots stay behind. */
  function Destroy(t: Table): (r: Table)
    ensures |r| == |t|
    ensures forall i | 0 <= i < |r| :: !r[i].inUse
  {
    seq(|t|, i requires 0 <= i < |t| => Freed(t[i]))
  }

  function Freed(slot: Slot): Slot {
    if slot.inUse then slot.(inUse := false, stream := slot.stream.(held := [])) else slot
  }

  ghost predicate DistinctIds(t: Table) {
    forall i, j | 0 <= i < j < |t| && t[i].inUse && t[j].inUse :: t[i].id != t[j].id
  }

  /** Looking a stream up or opening it changes no view and keeps ids distinct. */
  lemma FindOrCreateViews(t: Table, id: uint32)
    requires DistinctIds(t)
    ensures var (t1, i) := FindOrCreate(t, id);
      && DistinctIds(t1)
      && (i < |t1| <==> Open(t, id) || HasRoom(t))
      && (i < |t1| ==> t1[i].inUse && t1[i].id == id && t1[i].stream == View(t, id))
      && forall other: uint32 :: View(t1, other) == View(t, other)
  {
    var (t1, i) := FindOrCreate(t, id);
    forall other: uint32
      ensures View(t1, other) == View(t, other)
    {
      var a, b := Find(t, other), Find(t1, other);
      assert forall j | 0 <= j < |t| && j != i :: t1[j] == t[j];
      if b < |t| && b != i {
        assert t[b].inUse && t[b].id == other;
      }
      if a < |t| && a != i {
        assert t1[a].inUse && t1[a].id == other;
      }
    }
  }

  /** The table is a refinement of a map from stream ids to streams: an accepted
      call feeds exactly the named stream, every other stream keeps its state,
      and a rejected call changes no stream. */
  lemma OnDataViews(t: Table, id: uint32, s: Segment, room: nat, allocOk: bool)
    requires DistinctIds(t)
    ensures var r := OnData(t, id, s, room, allocOk);
      && DistinctIds(r.table) && |r.table| == |t|
      && (r.Accepted? <==> s.data != [] && room > 0 && allocOk && (Open(t, id) || HasRoom(t)))
      && (r.Accepted? ==>
            && r.outOffset == View(t, id).next
            && r.bytes == Feed(View(t, id), s, room).bytes
            && View(r.table, id) == Feed(View(t, id), s, room).stream
            && Open(r.table, id))
      && (forall other: uint32 | other != id || r.Rejected? :: View(r.table, other) == View(t, other))
  {
    hide Feed, View, FindOrCreate, Open, HasRoom;
    var r := OnData(t, id, s, room, allocOk);
    if s.data != [] && room != 0 {
      FindOrCreateViews(t, id);
      var (t1, i) := FindOrCreate(t, id);
      if r.Accepted? {
        forall other: uint32
          ensures View(r.table, other) == if other == id then r.table[i].stream else View(t1, other)
        {
          UpdatedView(t1, i, r.table[i], other);
        }
        UpdatedOpen(t1, i, r.table[i]);
      }
    }
  }

  /** A slot in use that keeps its id changes the view of that id only. */
  lemma UpdatedView(t: Table, i: nat, slot: Slot, other: uint32)
    requires DistinctIds(t) && i < |t| && t[i].inUse && slot.inUse && slot.id == t[i].id
    ensures DistinctIds(t[i := slot])
    ensures View(t[i := slot], other) == if other == slot.id then slot.stream else View(t, other)
  {
    var after := t[i := slot];
    assert forall j | 0 <= j < |t| :: after[j].inUse == t[j].inUse && after[j].id == t[j].id;
    var a, b := Find(t, other), Find(after, other);
    assert a == b;
  }

  lemma UpdatedOpen(t: Table, i: nat, slot: Slot)
    requires i < |t| && slot.inUse
    ensures Open(t[i := slot], slot.id)
  {
    assert t[i := slot][i] == slot;
  }

  /** A reset stream is fresh again; the others are as they were. */
  lemma ResetViews(t: Table, id: uint32)
    requires DistinctIds(t)
    ensures Reset(t, id).Some? <==> Open(t, id)
    ensures Reset(t, id).Some? ==>
      var t1 := Reset(t, id).value;
      && DistinctIds(t1)
      && View(t1, id) == Fresh
      && forall other: uint32 | other != id :: View(t1, other) == View(t, other)
  {
    if Open(t, id) {
      var t1 := Reset(t, id).value;
      forall other: uint32
        ensures Find(t1, other) == Find(t, other)
      {
        assert forall j | 0 <= j < |t| :: t1[j].inUse == t[j].inUse && t1[j].id == t[j].id;
      }
    }
  }

  /** After destroy, every stream starts from nothing, although slots keep stale offsets. */
  lemma DestroyedViews(t: Table, id: uint32)
    ensures DistinctIds(Destroy(t)) && View(Destroy(t), id) == Fresh
  {
  }
}
