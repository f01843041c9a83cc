/** The reassembly of one stream, on values.

    A stream is the offset of the next byte to deliver and the list of held
    segments.  `Feed` is what one call does to it: insert a segment, then drain
    what is contiguous into an output buffer with `room` bytes.  The linked-list
    code of module StreamList is proved equal to these functions. */
module Reassembly {
  import opened Bytes

  datatype Segment = Segment(offset: uint32, data: seq<byte>) {
    predicate Has(x: nat) {
      offset <= x < offset + |data|
    }

    /** Its end is a 32-bit number too. */
    predicate Bounded() {
      offset + |data| < TWO32
    }
  }

  datatype Stream = Stream(next: uint32, held: seq<Segment>)

  const Fresh := Stream(0, [])

  datatype Drained = Drained(stream: Stream, bytes: seq<byte>)

  /** How many leading segments start before `offset`. */
  function Position(held: seq<Segment>, offset: uint32): (k: nat)
    ensures k <= |held|
    ensures forall i | 0 <= i < k :: held[i].offset < offset
    ensures k < |held| ==> offset <= held[k].offset
  {
    if held == [] || offset <= held[0].offset then 0 else 1 + Position(held[1..], offset)
  }

  function Insert(held: seq<Segment>, s: Segment): seq<Segment> {
    var k := Position(held, s.offset);
    held[..k] + [s] + held[k..]
  }

  /** Copies from the head of the list while the head starts at or before
      `next`: stale heads go, used-up heads go, a head that does not fit into
      `room` is trimmed and stays. */
  function Consume(st: Stream, room: nat): Drained
    decreases |st.held|
  {
    if st.held == [] || st.held[0].offset > st.next then
      Drained(st, [])
    else
      var seg := st.held[0];
      var start := st.next - seg.offset;
      if start >= |seg.data| then
        Consume(st.(held := st.held[1..]), room)
      else
        var n := Min(|seg.data| - start, room);
        var bytes := seg.data[start..start + n];
        var next := Add32(st.next, n);
        if start + n < |seg.data| then
          var rest := Segment(Add32(seg.offset, start + n), seg.data[start + n..]);
          Drained(Stream(next, [rest] + st.held[1..]), bytes)
        else
          var d := Consume(Stream(next, st.held[1..]), room - n);
          Drained(d.stream, bytes + d.bytes)
  }

  function Feed(st: Stream, s: Segment, room: nat): Drained {
    Consume(st.(held := Insert(st.held, s)), room)
  }

  // --- what a stream state means ---

  ghost predicate HeldHas(held: seq<Segment>, x: nat) {
    exists s :: s in held && s.Has(x)
  }

  /** Byte `x` has been delivered or is held. */
  ghost predicate Covers(st: Stream, x: nat) {
    x < st.next || HeldHas(st.held, x)
  }

  ghost predicate AllBounded(held: seq<Segment>) {
    forall s | s in held :: s.Bounded()
  }

  /** The list is a prefix of segments at or before `next`, in any order,
      followed by the others sorted by offset (see PartitionForm). */
  ghost predicate Ordered(st: Stream) {
    forall i, j | 0 <= i < j < |st.held| && st.held[i].offset > st.next ::
      st.held[i].offset <= st.held[j].offset
  }

  ghost predicate Inv(st: Stream) {
    Ordered(st) && AllBounded(st.held)
  }

  /** Where bytes come from: `src(x, b)` says that byte `b` may stand at offset `x`.
      One sender's data is a source with a single byte at every offset. */
  type Source = (nat, byte) -> bool

  ghost predicate SingleValued(src: Source) {
    forall x, b, c :: src(x, b) && src(x, c) ==> b == c
  }

  ghost predicate Agrees(s: Segment, src: Source) {
    FromSource(s.data, s.offset, src)
  }

  ghost predicate AllAgree(held: seq<Segment>, src: Source) {
    forall s | s in held :: Agrees(s, src)
  }

  ghost predicate SplitsAt(st: Stream, k: nat)
    requires k <= |st.held|
  {
    && (forall i | 0 <= i < k :: st.held[i].offset <= st.next)
    && (forall i | k <= i < |st.held| :: st.held[i].offset > st.next)
    && (forall i, j | k <= i < j < |st.held| :: st.held[i].offset <= st.held[j].offset)
  }

  /** `bytes` are the source's bytes from offset `from` on. */
  ghost predicate FromSource(bytes: seq<byte>, from: nat, src: Source) {
    forall i | 0 <= i < |bytes| :: src(from + i, bytes[i])
  }

  lemma NothingFromSource(from: nat, src: Source)
    ensures FromSource([], from, src)
  {
  }

  lemma FromSourceConcat(a: seq<byte>, b: seq<byte>, from: nat, src: Source)
    requires FromSource(a, from, src) && FromSource(b, from + |a|, src)
    ensures FromSource(a + b, from, src)
  {
  }

  lemma FromSourceSlice(bytes: seq<byte>, from: nat, src: Source, lo: nat, hi: nat)
    requires FromSource(bytes, from, src) && lo <= hi <= |bytes|
    ensures FromSource(bytes[lo..hi], from + lo, src)
  {
  }

  /** `Ordered` says exactly that the list splits into such a prefix and such a rest. */
  lemma PartitionForm(st: Stream)
    ensures Ordered(st) <==> exists k: nat :: k <= |st.held| && SplitsAt(st, k)
  {
    if Ordered(st) {
      var k := 0;
      while k < |st.held| && st.held[k].offset <= st.next
        invariant k <= |st.held|
        invariant forall i | 0 <= i < k :: st.held[i].offset <= st.next
      {
        k := k + 1;
      }
      assert SplitsAt(st, k);
    }
  }

  ghost predicate Sorted(held: seq<Segment>) {
    forall i, j | 0 <= i < j < |held| :: held[i].offset <= held[j].offset
  }

  /** Plain sortedness is lost: a full buffer trims the head past the next segment (see SortedIff). */
  lemma SortednessIsLost()
    ensures exists st: Stream, s: Segment, room: nat ::
      && Inv(st) && s.Bounded() && Sorted(st.held)
      && var after := Feed(st, s, room).stream.held;
         |after| == 2 && after[0].offset > after[1].offset
  {
    var long := Segment(0, seq(100, i => 0));
    var short := Segment(10, seq(10, i => 0));
    var st := Stream(0, [short]);
    assert Position([short], 0) == 0;
    assert Insert(st.held, long) == [long, short];
    var after := Feed(st, long, 50).stream.held;
    assert after == [Segment(50, long.data[50..]), short];
  }

  // --- insertion ---

  lemma InsertMembers(held: seq<Segment>, s: Segment)
    ensures forall t :: t in Insert(held, s) <==> t == s || t in held
  {
  }

  lemma InsertKeepsOrdered(st: Stream, s: Segment)
    requires Ordered(st)
    ensures Ordered(st.(held := Insert(st.held, s)))
  {
  }

  lemma InsertKeepsInv(st: Stream, s: Segment)
    requires Inv(st) && s.Bounded()
    ensures Inv(st.(held := Insert(st.held, s)))
  {
  }

  // --- draining ---

  lemma TailKeepsInv(st: Stream, next: uint32)
    requires Inv(st) && st.held != [] && st.next <= next
    ensures Inv(Stream(next, st.held[1..]))
  {
  }

  lemma TrimKeepsInv(st: Stream, next: uint32, rest: Segment)
    requires Inv(st) && st.held != [] && st.next <= next
    requires rest.offset == next && rest.Bounded()
    ensures Inv(Stream(next, [rest] + st.held[1..]))
  {
  }

  // Draining by turns: the head is passed over, used up or stale; or it is trimmed; or it comes later.

  predicate AtHead(st: Stream) {
    st.held != [] && st.held[0].offset <= st.next
  }

  /** How many bytes of the head are still to be delivered. */
  function Left(st: Stream): nat
    requires AtHead(st)
  {
    var start := st.next - st.held[0].offset;
    if start >= |st.held[0].data| then 0 else |st.held[0].data| - start
  }

  function HeadBytes(st: Stream, n: nat): (s: seq<byte>)
    requires AtHead(st) && n <= Left(st)
    ensures |s| == n
  {
    var start := st.next - st.held[0].offset;
    if n == 0 then [] else st.held[0].data[start..start + n]
  }

  function Passed(st: Stream): Stream
    requires AtHead(st)
  {
    Stream(Add32(st.next, Left(st)), st.held[1..])
  }

  function TrimmedHead(st: Stream, room: nat): Segment
    requires AtHead(st) && room < Left(st)
  {
    var used := st.next - st.held[0].offset + room;
    Segment(Add32(st.held[0].offset, used), st.held[0].data[used..])
  }

  lemma ConsumeStop(st: Stream, room: nat)
    requires !AtHead(st)
    ensures Consume(st, room) == Drained(st, [])
  {
  }

  lemma ConsumePass(st: Stream, room: nat)
    requires AtHead(st) && Left(st) <= room
    ensures var d := Consume(Passed(st), room - Left(st));
      Consume(st, room) == Drained(d.stream, HeadBytes(st, Left(st)) + d.bytes)
  {
    hide Consume, Left, HeadBytes, Passed;
    if Left(st) == 0 {
      ConsumeStale(st, room);
    } else {
      ConsumeUsed(st, room);
    }
  }

  lemma ConsumeStale(st: Stream, room: nat)
    requires AtHead(st) && Left(st) == 0
    ensures Consume(st, room) == Consume(Passed(st), room)
    ensures HeadBytes(st, 0) + Consume(Passed(st), room).bytes == Consume(Passed(st), room).bytes
  {
    assert Passed(st) == st.(held := st.held[1..]);
  }

  lemma ConsumeUsed(st: Stream, room: nat)
    requires AtHead(st) && 0 < Left(st) <= room
    ensures var d := Consume(Passed(st), room - Left(st));
      Consume(st, room) == Drained(d.stream, HeadBytes(st, Left(st)) + d.bytes)
  {
  }

  lemma ConsumeTrim(st: Stream, room: nat)
    requires AtHead(st) && room < Left(st)
    ensures Consume(st, room)
         == Drained(Stream(Add32(st.next, room), [TrimmedHead(st, room)] + st.held[1..]), HeadBytes(st, room))
  {
  }

  lemma PassKeepsInv(st: Stream)
    requires Inv(st) && AtHead(st)
    ensures Inv(Passed(st)) && Passed(st).next == st.next + Left(st)
  {
    hide Ordered;
    assert st.held[0].Bounded();
    TailKeepsInv(st, st.next + Left(st));
  }

  lemma TrimmedKeepsInv(st: Stream, room: nat)
    requires Inv(st) && AtHead(st) && room < Left(st)
    ensures st.next + room < TWO32
    ensures Inv(Stream(st.next + room, [TrimmedHead(st, room)] + st.held[1..]))
  {
    hide Ordered;
    assert st.held[0].Bounded();
    TrimKeepsInv(st, st.next + room, TrimmedHead(st, room));
  }

  lemma {:induction false} ConsumeKeepsInv(st: Stream, room: nat)
    requires Inv(st)
    ensures var d := Consume(st, room);
      Inv(d.stream) && d.stream.next == st.next + |d.bytes| && |d.bytes| <= room
    decreases |st.held|
  {
    hide Consume, Inv, Left, TrimmedHead, HeadBytes;
    if !AtHead(st) {
      ConsumeStop(st, room);
    } else if Left(st) <= room {
      ConsumePass(st, room);
      PassKeepsInv(st);
      ConsumeKeepsInv(Passed(st), room - Left(st));
    } else {
      ConsumeTrim(st, room);
      TrimmedKeepsInv(st, room);
    }
  }

  lemma HeldHasCons(s: Segment, tail: seq<Segment>, x: nat)
    ensures HeldHas([s] + tail, x) <==> s.Has(x) || HeldHas(tail, x)
  {
  }

  lemma HeldHasHead(held: seq<Segment>, x: nat)
    requires held != []
    ensures HeldHas(held, x) <==> held[0].Has(x) || HeldHas(held[1..], x)
  {
    assert held == [held[0]] + held[1..];
    HeldHasCons(held[0], held[1..], x);
  }

  lemma PassCovers(st: Stream, x: nat)
    requires AtHead(st) && AllBounded(st.held)
    ensures AllBounded(Passed(st).held) && (Covers(Passed(st), x) <==> Covers(st, x))
  {
    hide HeldHas;
    assert st.held[0].Bounded();
    HeldHasHead(st.held, x);
  }

  lemma TrimCovers(st: Stream, room: nat, x: nat)
    requires AtHead(st) && AllBounded(st.held) && room < Left(st)
    ensures Covers(Stream(Add32(st.next, room), [TrimmedHead(st, room)] + st.held[1..]), x) <==> Covers(st, x)
  {
    hide HeldHas;
    assert st.held[0].Bounded();
    HeldHasHead(st.held, x);
    HeldHasCons(TrimmedHead(st, room), st.held[1..], x);
  }

  lemma {:induction false} ConsumeCovers(st: Stream, room: nat, x: nat)
    requires AllBounded(st.held)
    ensures Covers(Consume(st, room).stream, x) <==> Covers(st, x)
    decreases |st.held|
  {
    hide Consume, Covers, AllBounded, Left, TrimmedHead, HeadBytes;
    if !AtHead(st) {
      ConsumeStop(st, room);
    } else if Left(st) <= room {
      ConsumePass(st, room);
      PassCovers(st, x);
      ConsumeCovers(Passed(st), room - Left(st), x);
    } else {
      ConsumeTrim(st, room);
      TrimCovers(st, room, x);
    }
  }

  lemma HeadAgrees(st: Stream, n: nat, src: Source)
    requires AtHead(st) && n <= Left(st) && AllAgree(st.held, src)
    ensures FromSource(HeadBytes(st, n), st.next, src)
  {
    hide FromSource;
    var start := st.next - st.held[0].offset;
    if n == 0 {
      FromSourceNil(st.next, src);
    } else {
      assert Agrees(st.held[0], src);
      FromSourceSlice(st.held[0].data, st.held[0].offset, src, start, start + n);
    }
  }

  lemma FromSourceNil(from: nat, src: Source)
    ensures FromSource([], from, src)
  {
  }

  lemma TrimAgrees(st: Stream, room: nat, src: Source)
    requires AtHead(st) && room < Left(st) && st.next + room < TWO32 && AllAgree(st.held, src)
    ensures AllAgree([TrimmedHead(st, room)] + st.held[1..], src)
  {
    var used := st.next - st.held[0].offset + room;
    assert Agrees(st.held[0], src);
    FromSourceSlice(st.held[0].data, st.held[0].offset, src, used, |st.held[0].data|);
    assert st.held[0].data[used..] == st.held[0].data[used..|st.held[0].data|];
  }

  /** What comes out without a wrap is the source's bytes from the old `next` on. */
  lemma {:induction false} ConsumeAgrees(st: Stream, room: nat, src: Source)
    requires AllAgree(st.held, src) && st.next + |Consume(st, room).bytes| < TWO32
    ensures AllAgree(Consume(st, room).stream.held, src)
    ensures FromSource(Consume(st, room).bytes, st.next, src)
    decreases |st.held|
  {
    hide Consume, FromSource, Left, TrimmedHead, HeadBytes, Agrees;
    if !AtHead(st) {
      ConsumeStop(st, room);
      FromSourceNil(st.next, src);
    } else if Left(st) <= room {
      ConsumePass(st, room);
      HeadAgrees(st, Left(st), src);
      ConsumeAgrees(Passed(st), room - Left(st), src);
      FromSourceConcat(HeadBytes(st, Left(st)), Consume(Passed(st), room - Left(st)).bytes, st.next, src);
    } else {
      ConsumeTrim(st, room);
      HeadAgrees(st, room, src);
      TrimAgrees(st, room, src);
    }
  }

  /** The offset moves by what is delivered, modulo 2^32. */
  lemma {:induction false} ConsumeCounts(st: Stream, room: nat)
    ensures var d := Consume(st, room); |d.bytes| <= room && d.stream.next == (st.next + |d.bytes|) % TWO32
    decreases |st.held|
  {
    hide Consume, Left, TrimmedHead, HeadBytes, Add32;
    if !AtHead(st) {
      ConsumeStop(st, room);
    } else if Left(st) <= room {
      ConsumePass(st, room);
      ConsumeCounts(Passed(st), room - Left(st));
      AddTwice(st.next, Left(st), |Consume(Passed(st), room - Left(st)).bytes|);
    } else {
      ConsumeTrim(st, room);
      AddTwice(st.next, room, 0);
    }
  }

  lemma AddTwice(a: uint32, n: nat, k: nat)
    ensures (Add32(a, n) + k) % TWO32 == (a + n + k) % TWO32
    ensures Add32(a, n) == (a + n) % TWO32
  {
  }

  /** `m` is the least offset at or after `next` that no held segment has. */
  ghost predicate Gap(held: seq<Segment>, next: nat, m: nat) {
    && next <= m && !HeldHas(held, m)
    && forall x | next <= x < m :: HeldHas(held, x)
  }

  lemma TailKeepsOrdered(st: Stream, next: uint32)
    requires Ordered(st) && st.held != [] && st.next <= next
    ensures Ordered(Stream(next, st.held[1..]))
  {
  }

  /** The head does not reach past the gap, and the gap stays where it is when the head is passed over. */
  lemma PassGap(st: Stream, m: nat)
    requires AtHead(st) && Gap(st.held, st.next, m)
    ensures st.next + Left(st) <= m && Gap(st.held[1..], st.next + Left(st), m)
  {
    hide HeldHas;
    forall x: nat
      ensures HeldHas(st.held, x) <==> st.held[0].Has(x) || HeldHas(st.held[1..], x)
    {
      HeldHasHead(st.held, x);
    }
    assert !st.held[0].Has(m);
  }

  /** With nothing at or before it, `next` is the gap. */
  lemma GapAtNext(st: Stream, m: nat)
    requires Ordered(st) && !AtHead(st) && Gap(st.held, st.next, m)
    ensures m == st.next
  {
    hide HeldHas, Ordered;
    LaterHasNot(st);
  }

  /** Draining reaches the gap or the end of the buffer, unless 2^32 comes first. */
  lemma {:induction false} ConsumeReaches(st: Stream, room: nat, m: nat)
    requires Ordered(st) && Gap(st.held, st.next, m)
    ensures var n := |Consume(st, room).bytes|;
      && (st.next + n < TWO32 <==> m < TWO32 || st.next + room < TWO32)
      && (st.next + n < TWO32 ==> n == Min(room, m - st.next))
    decreases |st.held|
  {
    hide Consume, Ordered, Gap, Left, TrimmedHead, HeadBytes;
    if !AtHead(st) {
      ConsumeStop(st, room);
      GapAtNext(st, m);
    } else {
      PassGap(st, m);
      if Left(st) <= room {
        ConsumePass(st, room);
        if st.next + Left(st) < TWO32 {
          TailKeepsOrdered(st, st.next + Left(st));
          ConsumeReaches(Passed(st), room - Left(st), m);
        }
      } else {
        ConsumeTrim(st, room);
      }
    }
  }

  /** Draining stops only at a full buffer or at a byte nobody has sent. */
  lemma {:induction false} ConsumeDrains(st: Stream, room: nat)
    requires Inv(st)
    ensures var d := Consume(st, room);
      |d.bytes| == room || !HeldHas(d.stream.held, d.stream.next)
    decreases |st.held|
  {
    hide Consume, Ordered, AllBounded, HeldHas, Left, TrimmedHead, HeadBytes;
    if !AtHead(st) {
      ConsumeStop(st, room);
      LaterHasNot(st);
    } else if Left(st) <= room {
      ConsumePass(st, room);
      PassKeepsInv(st);
      ConsumeDrains(Passed(st), room - Left(st));
    } else {
      ConsumeTrim(st, room);
    }
  }

  /** Segments behind a head that comes later do not have `next` either. */
  lemma LaterHasNot(st: Stream)
    requires Ordered(st) && !AtHead(st)
    ensures !HeldHas(st.held, st.next)
  {
    assert st.held != [] ==> forall i | 0 <= i < |st.held| :: st.held[i].offset >= st.held[0].offset;
  }

  // --- one call ---

  /** Every call keeps the held-list invariant and conserves coverage: what is
      delivered or held afterwards is what was before plus the new segment. */
  lemma FeedKeepsInv(st: Stream, s: Segment, room: nat)
    requires Inv(st) && s.Bounded()
    ensures var d := Feed(st, s, room);
      && Inv(d.stream)
      && d.stream.next == st.next + |d.bytes|
      && |d.bytes| <= room
      && forall x: nat :: Covers(d.stream, x) <==> Covers(st, x) || s.Has(x)
  {
    var mid := st.(held := Insert(st.held, s));
    InsertKeepsInv(st, s);
    InsertMembers(st.held, s);
    ConsumeKeepsInv(mid, room);
    forall x: nat
      ensures Covers(Feed(st, s, room).stream, x) <==> Covers(st, x) || s.Has(x)
    {
      ConsumeCovers(mid, room, x);
      assert s in mid.held;
      assert HeldHas(mid.held, x) <==> HeldHas(st.held, x) || s.Has(x);
    }
  }

  lemma FeedAgrees(st: Stream, s: Segment, room: nat, src: Source)
    requires Inv(st) && s.Bounded() && AllAgree(st.held, src) && Agrees(s, src)
    ensures var d := Feed(st, s, room);
      && AllAgree(d.stream.held, src)
      && FromSource(d.bytes, st.next, src)
  {
    InsertKeepsInv(st, s);
    InsertMembers(st.held, s);
    ConsumeKeepsInv(st.(held := Insert(st.held, s)), room);
    ConsumeAgrees(st.(held := Insert(st.held, s)), room, src);
  }

  /** `m` is the least offset at or after `next` that neither the held segments nor `s` reach. */
  ghost predicate IsGap(st: Stream, s: Segment, m: nat) {
    && st.next <= m
    && !HeldHas(st.held, m) && !s.Has(m)
    && forall x | st.next <= x < m :: HeldHas(st.held, x) || s.Has(x)
  }

  lemma InsertGap(st: Stream, s: Segment, m: nat)
    requires IsGap(st, s, m)
    ensures Gap(Insert(st.held, s), st.next, m)
  {
    hide Insert;
    InsertMembers(st.held, s);
    forall x: nat
      ensures HeldHas(Insert(st.held, s), x) <==> HeldHas(st.held, x) || s.Has(x)
    {
      assert s in Insert(st.held, s);
    }
  }

  /** When the offset wraps: in a call that has both segments and room for 2^32, whatever the segments are. */
  lemma WrapsIff(st: Stream, s: Segment, room: nat, m: nat)
    requires Ordered(st) && IsGap(st, s, m)
    ensures var d := Feed(st, s, room);
      d.stream.next == st.next + |d.bytes| <==> m < TWO32 || st.next + room < TWO32
  {
    hide Ordered, IsGap, Consume, Insert;
    var mid := st.(held := Insert(st.held, s));
    InsertKeepsOrdered(st, s);
    InsertGap(st, s, m);
    ConsumeReaches(mid, room, m);
    ConsumeCounts(mid, room);
  }

  /** Exact reassembly: a call that does not wrap delivers everything up to the first gap that the
      buffer has room for, no more and no less, and the bytes are the source's. */
  lemma ExactReassembly(st: Stream, s: Segment, room: nat, src: Source, m: nat)
    requires Ordered(st) && AllAgree(st.held, src) && Agrees(s, src) && IsGap(st, s, m)
    requires m < TWO32 || st.next + room < TWO32
    ensures var d := Feed(st, s, room);
      && |d.bytes| == Min(room, m - st.next)
      && d.stream.next == st.next + |d.bytes|
      && FromSource(d.bytes, st.next, src)
  {
    hide Ordered, IsGap, Consume, Insert, Agrees, FromSource;
    var mid := st.(held := Insert(st.held, s));
    InsertKeepsOrdered(st, s);
    InsertGap(st, s, m);
    InsertMembers(st.held, s);
    ConsumeReaches(mid, room, m);
    ConsumeCounts(mid, room);
    ConsumeAgrees(mid, room, src);
  }

  /** Where the last held segment ends. */
  function Reach(held: seq<Segment>): nat {
    if held == [] then 0
    else
      var end, rest := held[0].offset + |held[0].data|, Reach(held[1..]);
      if end > rest then end else rest
  }

  lemma {:induction false} WithinReach(held: seq<Segment>, x: nat)
    requires HeldHas(held, x)
    ensures x < Reach(held)
  {
    HeldHasCons(held[0], held[1..], x);
    assert held == [held[0]] + held[1..];
    if !held[0].Has(x) {
      WithinReach(held[1..], x);
    }
  }

  /** There always is such a gap. */
  lemma GapExists(st: Stream, s: Segment) returns (m: nat)
    ensures IsGap(st, s, m)
  {
    m := st.next;
    while HeldHas(st.held, m) || s.Has(m)
      invariant st.next <= m
      invariant forall x | st.next <= x < m :: HeldHas(st.held, x) || s.Has(x)
      decreases Reach(st.held) + s.offset + |s.data| - m
    {
      if HeldHas(st.held, m) {
        WithinReach(st.held, m);
      }
      m := m + 1;
    }
  }

  /** A segment that ends at 2^32 makes delivery start again at 0. */
  lemma UnboundedSegmentWraps()
    ensures exists st: Stream, s: Segment, room: nat ::
      Inv(st) && !s.Bounded() && var d := Feed(st, s, room); |d.bytes| == 1 && d.stream.next == 0
  {
    var st := Stream(0xFFFF_FFFF, []);
    var s := Segment(0xFFFF_FFFF, [7]);
    assert Position([], s.offset) == 0;
    assert Insert([], s) == [s];
    assert Feed(st, s, 1).bytes == [7];
  }

  // --- whole runs ---

  /** One call: the segment that arrives and the room in the output buffer. */
  datatype Arrival = Arrival(segment: Segment, room: nat)

  /** All calls in turn; `bytes` collects everything delivered. */
  function Run(st: Stream, arrivals: seq<Arrival>): Drained {
    if arrivals == [] then Drained(st, [])
    else
      var before := Run(st, arrivals[..|arrivals| - 1]);
      var a := arrivals[|arrivals| - 1];
      var d := Feed(before.stream, a.segment, a.room);
      Drained(d.stream, before.bytes + d.bytes)
  }

  ghost predicate Sent(arrivals: seq<Arrival>, x: nat) {
    exists a :: a in arrivals && a.segment.Has(x)
  }

  ghost predicate ArrivalsOk(arrivals: seq<Arrival>, src: Source) {
    forall a | a in arrivals :: a.segment.Bounded() && Agrees(a.segment, src)
  }

  ghost predicate ArrivalsBounded(arrivals: seq<Arrival>) {
    forall a | a in arrivals :: a.segment.Bounded()
  }

  /** Coverage is conserved over every run. */
  lemma {:induction false} RunCovers(st: Stream, arrivals: seq<Arrival>)
    requires Inv(st) && ArrivalsBounded(arrivals)
    ensures var d := Run(st, arrivals);
      && Inv(d.stream)
      && d.stream.next == st.next + |d.bytes|
      && forall x: nat :: Covers(d.stream, x) <==> Covers(st, x) || Sent(arrivals, x)
  {
    if arrivals != [] {
      var init, a := arrivals[..|arrivals| - 1], arrivals[|arrivals| - 1];
      assert forall b :: b in arrivals <==> b in init || b == a;
      RunCovers(st, init);
      FeedKeepsInv(Run(st, init).stream, a.segment, a.room);
      forall x: nat
        ensures Sent(arrivals, x) <==> Sent(init, x) || a.segment.Has(x)
      {
        assert a in arrivals;
      }
    }
  }

  /** What a run delivers is the source from the starting offset on, without a hole. */
  lemma {:induction false} RunDeliversSource(st: Stream, arrivals: seq<Arrival>, src: Source)
    requires Inv(st) && AllAgree(st.held, src) && ArrivalsOk(arrivals, src)
    ensures AllAgree(Run(st, arrivals).stream.held, src)
    ensures var d := Run(st, arrivals);
      FromSource(d.bytes, st.next, src)
  {
    hide Inv, Feed, Covers, FromSource, AllAgree, Agrees, Sent;
    if arrivals == [] {
      NothingFromSource(st.next, src);
    } else {
      var init, a := arrivals[..|arrivals| - 1], arrivals[|arrivals| - 1];
      assert a in arrivals;
      RunDeliversSource(st, init, src);
      RunCovers(st, init);
      var before := Run(st, init);
      FeedAgrees(before.stream, a.segment, a.room, src);
      FromSourceConcat(before.bytes, Feed(before.stream, a.segment, a.room).bytes, st.next, src);
    }
  }

  ghost function Segments(arrivals: seq<Arrival>): set<Segment> {
    set a | a in arrivals :: a.segment
  }

  /** Nothing deliverable is left behind; so it is whenever the last call did not fill its buffer. */
  ghost predicate Dry(st: Stream) {
    !HeldHas(st.held, st.next)
  }

  lemma UnfilledBufferIsDry(st: Stream, s: Segment, room: nat)
    requires Inv(st) && s.Bounded() && |Feed(st, s, room).bytes| < room
    ensures Dry(Feed(st, s, room).stream)
  {
    InsertKeepsInv(st, s);
    ConsumeDrains(st.(held := Insert(st.held, s)), room);
  }

  lemma SentBySegments(arrivals: seq<Arrival>, x: nat)
    ensures Sent(arrivals, x) <==> exists s :: s in Segments(arrivals) && s.Has(x)
  {
  }

  /** Order independence: the same segments, in any orders and multiplicities and
      with any buffers, cover the same offsets. */
  lemma SameSegmentsSameCover(st: Stream, a: seq<Arrival>, b: seq<Arrival>, x: nat)
    requires Inv(st) && ArrivalsBounded(a) && ArrivalsBounded(b) && Segments(a) == Segments(b)
    ensures Covers(Run(st, a).stream, x) <==> Covers(Run(st, b).stream, x)
  {
    hide Run, Covers, Inv, Sent, Segments;
    RunCovers(st, a);
    RunCovers(st, b);
    SentBySegments(a, x);
    SentBySegments(b, x);
  }

  /** And when both runs end dry they have delivered the same bytes. */
  lemma OrderIndependence(st: Stream, a: seq<Arrival>, b: seq<Arrival>, src: Source)
    requires Inv(st) && AllAgree(st.held, src) && SingleValued(src)
    requires ArrivalsOk(a, src) && ArrivalsOk(b, src) && Segments(a) == Segments(b)
    requires Dry(Run(st, a).stream) && Dry(Run(st, b).stream)
    ensures Run(st, a).bytes == Run(st, b).bytes
  {
    hide Run, Inv, AllAgree, HeldHas, Segments, Agrees;
    RunCovers(st, a);
    RunCovers(st, b);
    var da, db := Run(st, a), Run(st, b);
    SameSegmentsSameCover(st, a, b, da.stream.next);
    SameSegmentsSameCover(st, a, b, db.stream.next);
    assert da.stream.next == db.stream.next;
    RunDeliversSource(st, a, src);
    RunDeliversSource(st, b, src);
    SameBytes(da.bytes, db.bytes, st.next, src);
  }

  lemma SameBytes(a: seq<byte>, b: seq<byte>, from: nat, src: Source)
    requires SingleValued(src) && FromSource(a, from, src) && FromSource(b, from, src) && |a| == |b|
    ensures a == b
  {
  }

  /** Some arrival has byte `b` at offset `x`. */
  ghost predicate Carried(arrivals: seq<Arrival>, x: nat, b: byte) {
    exists a :: a in arrivals && a.segment.Has(x) && a.segment.data[x - a.segment.offset] == b
  }

  /** Provenance, whatever the segments say: every byte a fresh stream delivers
      stands at its offset in one of the segments that arrived. */
  lemma RunDeliversArrivals(arrivals: seq<Arrival>)
    requires ArrivalsBounded(arrivals)
    ensures forall x | 0 <= x < |Run(Fresh, arrivals).bytes| :: Carried(arrivals, x, Run(Fresh, arrivals).bytes[x])
  {
    var src: Source := (x: nat, b: byte) => Carried(arrivals, x, b);
    forall a | a in arrivals
      ensures Agrees(a.segment, src)
    {
      forall i | 0 <= i < |a.segment.data|
        ensures src(a.segment.offset + i, a.segment.data[i])
      {
        assert a.segment.Has(a.segment.offset + i);
      }
    }
    RunDeliversSource(Fresh, arrivals, src);
    var bytes := Run(Fresh, arrivals).bytes;
    forall x | 0 <= x < |bytes|
      ensures Carried(arrivals, x, bytes[x])
    {
      assert src(0 + x, bytes[x]);
    }
  }
}
