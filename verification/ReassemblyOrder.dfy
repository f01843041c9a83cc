/** When one call keeps the held list sorted. */
module ReassemblyOrder {
  import opened Bytes
  import opened Reassembly

  /** What reaches past `end` has nothing before `end` behind it. */
  ghost predicate NothingBehind(held: seq<Segment>, end: nat) {
    forall i, j | 0 <= i < j < |held| && held[i].offset + |held[i].data| > end :: held[j].offset >= end
  }

  lemma TailSorted(held: seq<Segment>)
    requires held != [] && Sorted(held)
    ensures Sorted(held[1..])
  {
  }

  /** A segment that does not reach past `end` does not matter. */
  lemma TailBehind(held: seq<Segment>, end: nat)
    requires held != [] && held[0].offset + |held[0].data| <= end
    ensures NothingBehind(held[1..], end) <==> NothingBehind(held, end)
  {
    if NothingBehind(held[1..], end) {
      forall i, j | 0 <= i < j < |held| && held[i].offset + |held[i].data| > end
        ensures held[j].offset >= end
      {
        assert held[i] == held[1..][i - 1] && held[j] == held[1..][j - 1];
      }
    }
    if NothingBehind(held, end) {
      forall i, j | 0 <= i < j < |held| - 1 && held[1..][i].offset + |held[1..][i].data| > end
        ensures held[1..][j].offset >= end
      {
        assert held[1..][i] == held[i + 1] && held[1..][j] == held[j + 1];
      }
    }
  }

  /** A head cut at `end` stays first iff nothing behind it starts earlier. */
  lemma CutSorted(held: seq<Segment>, cut: Segment)
    requires held != [] && Sorted(held)
    requires held[0].offset <= cut.offset < held[0].offset + |held[0].data|
    ensures Sorted([cut] + held[1..]) <==> NothingBehind(held, cut.offset)
  {
    var after := [cut] + held[1..];
    assert forall j | 0 < j < |held| :: after[j] == held[j];
    if Sorted(after) {
      forall j | 0 < j < |held|
        ensures held[j].offset >= cut.offset
      {
        assert after[0].offset <= after[j].offset;
      }
    }
  }

  lemma PassSorted(st: Stream, end: nat)
    requires AtHead(st) && Sorted(st.held) && st.next + Left(st) <= end
    ensures Sorted(Passed(st).held) && (NothingBehind(Passed(st).held, end) <==> NothingBehind(st.held, end))
  {
    hide Sorted, NothingBehind;
    TailSorted(st.held);
    TailBehind(st.held, end);
  }

  lemma TrimSorted(st: Stream, room: nat)
    requires AtHead(st) && Sorted(st.held) && room < Left(st) && st.next + room < TWO32
    ensures Sorted([TrimmedHead(st, room)] + st.held[1..]) <==> NothingBehind(st.held, st.next + room)
  {
    hide Sorted, NothingBehind;
    CutSorted(st.held, TrimmedHead(st, room));
  }

  lemma SortedIsOrdered(st: Stream)
    requires Sorted(st.held)
    ensures Ordered(st)
  {
  }

  /** Draining a sorted list without a wrap. */
  lemma {:induction false} ConsumeSorted(st: Stream, room: nat, m: nat)
    requires Sorted(st.held) && Gap(st.held, st.next, m) && (m < TWO32 || st.next + room < TWO32)
    ensures Sorted(Consume(st, room).stream.held)
       <==> m <= st.next + room || NothingBehind(st.held, st.next + room)
    decreases |st.held|
  {
    hide Consume, Sorted, NothingBehind, Gap, Left, TrimmedHead, HeadBytes;
    if !AtHead(st) {
      ConsumeStop(st, room);
      SortedIsOrdered(st);
      GapAtNext(st, m);
    } else {
      PassGap(st, m);
      if Left(st) <= room {
        ConsumePass(st, room);
        PassSorted(st, st.next + room);
        ConsumeSorted(Passed(st), room - Left(st), m);
      } else {
        ConsumeTrim(st, room);
        TrimSorted(st, room);
      }
    }
  }

  lemma InsertSorted(held: seq<Segment>, s: Segment)
    requires Sorted(held)
    ensures Sorted(Insert(held, s))
  {
    SortedTailsAfter(held, s.offset);
    var k, after := Position(held, s.offset), Insert(held, s);
    forall i, j | 0 <= i < j < |after|
      ensures after[i].offset <= after[j].offset
    {
      assert i != k ==> after[i] == held[if i < k then i else i - 1];
      assert j != k ==> after[j] == held[if j < k then j else j - 1];
    }
  }

  lemma SortedTailsAfter(held: seq<Segment>, offset: uint32)
    requires Sorted(held)
    ensures forall i | Position(held, offset) <= i < |held| :: held[i].offset >= offset
  {
  }

  /** One call that does not wrap leaves a sorted list sorted iff the buffer takes everything up to the first gap, or the
      segments that reach past its end have nothing before that end behind them. */
  lemma SortedIff(st: Stream, s: Segment, room: nat, m: nat)
    requires Sorted(st.held) && IsGap(st, s, m) && (m < TWO32 || st.next + room < TWO32)
    ensures Sorted(Feed(st, s, room).stream.held)
       <==> m <= st.next + room || NothingBehind(Insert(st.held, s), st.next + room)
  {
    hide Consume, Sorted, NothingBehind, IsGap, Insert;
    InsertSorted(st.held, s);
    InsertGap(st, s, m);
    ConsumeSorted(st.(held := Insert(st.held, s)), room, m);
  }
}
