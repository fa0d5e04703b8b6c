/** When nothing is dropped: exactly a condition on the segments alone. */
module TcpRoom {
  import opened Bytes
  import opened SerialNumbers
  import opened StreamBuffers
  import opened TcpReassembly
  import opened TcpStream

  function SentBytes(arrivals: seq<Arrival>): nat {
    if arrivals == [] then 0 else SentBytes(arrivals[..|arrivals| - 1]) + arrivals[|arrivals| - 1].length
  }

  /** No arrival ends beyond what the buffer holds. */
  predicate Reachable(base: nat, cap: nat, arrivals: seq<Arrival>) {
    forall a <- arrivals :: a.End() <= base + cap
  }

  /** The arrival does not have to wait, or a slot and the bytes are free beside the earlier arrivals that wait, which
      are those that start beyond the first offset not covered yet. */
  ghost predicate FindsSlot(src: Source, base: nat, cap: nat, before: seq<Arrival>, a: Arrival)
    requires base <= |src.bytes| && forall x <- before :: x.End() <= |src.bytes|
  {
    var m := FirstUncovered(src, before, base);
    a.length == 0 || a.offset <= m ||
    (|Beyond(before, m)| < 8 && SentBytes(Beyond(before, m)) + a.length <= cap)
  }

  /** Every arrival finds a slot among those before it. */
  ghost predicate EnoughRoom(src: Source, base: nat, cap: nat, arrivals: seq<Arrival>)
    requires base <= |src.bytes| && forall x <- arrivals :: x.End() <= |src.bytes|
  {
    arrivals == [] ||
    var before := arrivals[..|arrivals| - 1];
    EnoughRoom(src, base, cap, before) && FindsSlot(src, base, cap, before, arrivals[|arrivals| - 1])
  }

  /** Segments that end within the buffer are all delivered. */
  lemma {:induction false} FlushFits(src: Source, base: nat, next: nat, d: Direction, held: seq<Arrival>)
    requires Bounded(d) && OnStream(src, base, next, d) && Holds(src, base, d, held)
    requires Reachable(base, d.stream.capacity, held)
    ensures Flush(d).1 && !Flush(d).0.unusable
    decreases |held|
  {
    hide Wrap, PendingDelivered, TotalBytes, IsPrefixAt;
    var i := FirstReady(d.next, d.store.pending, 0);
    ReadyMeansReached(src, base, next, d, held);
    if i < |held| {
      HeldAt(src, base, d, held, i);
      DeliveryInOffsets(src, base, next, d, held[i], i);
      var middle := DeliveryTracks(src, base, next, d, held, i);
      MembersWithoutAt(held, i);
      FlushFits(src, base, middle, PendingDelivered(d, i).0, WithoutAt(held, i));
    }
  }

  lemma WholeArrivalFits(src: Source, base: nat, next: nat, d: Direction, held: seq<Arrival>, a: Arrival, d0: Direction)
    requires Tracks(src, base, next, d, held) && Consistent(src, a) && d0 == d.(counters := d0.counters)
    requires a.offset <= next < a.End() && Reachable(base, d.stream.capacity, held + [a])
    ensures var (r, result) := Delivered(d0, d.next, FinFlag(a.flags), Slice(src, next, a.End()));
            result == Accepted && !r.unusable
  {
    hide Wrap, TotalBytes, Flush, Holds;
    var fin, tail := FinFlag(a.flags), Slice(src, next, a.End());
    assert a in held + [a];
    AppendSlice(src, base, d.stream.unread, a.End());
    WrapOfSum(src.isn + next, |tail|);
    FinMovesOn(src.isn + a.End(), fin);
    var grown := d0.(stream := Appended(d0.stream, tail), next := EndSequence(Wrap(d.next + |tail|), fin));
    HoldsOn(src, base, d, grown, held);
    FlushFits(src, base, a.End() + if fin then 1 else 0, grown, held);
  }

  lemma HoldsOn(src: Source, base: nat, d: Direction, d': Direction, held: seq<Arrival>)
    requires Holds(src, base, d, held) && d'.store == d.store && d'.stream.capacity == d.stream.capacity
    ensures Holds(src, base, d', held)
  {
  }

  /** An arrival that ends within the buffer is refused only for want of a slot. */
  lemma ArrivalIsTaken(src: Source, base: nat, next: nat, d: Direction, held: seq<Arrival>, a: Arrival)
    requires Tracks(src, base, next, d, held) && Consistent(src, a) && InWindow(base, d.stream.capacity, a)
    requires Reachable(base, d.stream.capacity, held + [a])
    ensures var (r, result) := Received(src, d, a);
            && !r.unusable
            && (result == Dropped <==>
                  a.length > 0 && next < a.offset &&
                  !(|d.store.pending| < 8 && d.store.bytes + a.length <= d.store.cap))
  {
    hide Wrap, TotalBytes, Delivered;
    WireStart(src, a);
    if a.length > 0 {
      ComparisonsAreExact(src, base, next, d.stream.capacity, a);
      var tracked, bytes := TrackedFlags(d, a.flags), Slice(src, a.offset, a.End());
      if a.offset <= next < a.End() {
        assert bytes[next - a.offset..] == Slice(src, next, a.End());
        WholeArrivalFits(src, base, next, tracked, held, a, if a.offset < next then CountOverlap(tracked) else tracked);
      }
    }
  }

  // ----- what waits -----

  /** The pending store holds exactly the arrivals beyond the first offset not covered, in order of arrival. */
  ghost predicate WaitsFor(src: Source, base: nat, arrivals: seq<Arrival>, d: Direction)
    requires base <= |src.bytes| && forall x <- arrivals :: x.End() <= |src.bytes|
  {
    var waiting := Beyond(arrivals, FirstUncovered(src, arrivals, base));
    && |d.store.pending| == |waiting| && d.store.bytes == SentBytes(waiting)
    && forall i | 0 <= i < |waiting| :: HeldAs(src, waiting[i], d.store.pending[i])
  }

  lemma {:induction false} HeldBytes(src: Source, held: seq<Arrival>, pending: seq<Segment>)
    requires |held| == |pending| && forall i | 0 <= i < |held| :: HeldAs(src, held[i], pending[i])
    ensures TotalBytes(pending) == SentBytes(held)
    decreases |held|
  {
    if held != [] {
      var n := |held| - 1;
      HeldBytes(src, held[..n], pending[..n]);
      assert HeldAs(src, held[n], pending[n]);
    }
  }

  lemma {:induction false} NothingBeyondTheEnd(src: Source, arrivals: seq<Arrival>, n: nat)
    requires n >= |src.bytes| && forall x <- arrivals :: x.End() <= |src.bytes|
    ensures Beyond(arrivals, n) == []
    decreases |arrivals|
  {
    if arrivals != [] {
      assert arrivals[|arrivals| - 1] in arrivals;
      NothingBeyondTheEnd(src, arrivals[..|arrivals| - 1], n);
    }
  }

  /** The expected byte of a run that dropped nothing is the first one not covered, or one past it after a FIN. */
  lemma ExpectsFirstUncovered(src: Source, base: nat, cap: nat, arrivals: seq<Arrival>, d: Direction, next: nat,
                              held: seq<Arrival>)
    requires Progress(src, base, cap, arrivals, false, d, next, held) && !d.unusable
    requires base <= |src.bytes| && forall x <- arrivals :: x.End() <= |src.bytes|
    ensures FirstUncovered(src, arrivals, base) == Min(next, |src.bytes|)
    ensures WaitsFor(src, base, arrivals, d)
    ensures d.stream.unread == Slice(src, base, FirstUncovered(src, arrivals, base))
  {
    hide Wrap, TotalBytes, Beyond, HeldAs;
    var end := Min(next, |src.bytes|);
    forall a | a in arrivals
      ensures !Covers(a, end)
    {
      assert Settled(a, next) || a in held;
    }
    FirstUncoveredIsLeast(src, arrivals, base, end);
    HeldBytes(src, held, d.store.pending);
    if next > |src.bytes| {
      NothingBeyondTheEnd(src, arrivals, next);
      NothingBeyondTheEnd(src, arrivals, end);
    }
  }

  /** The state of a run in which nothing was dropped and nothing ended beyond the buffer. */
  ghost predicate AllTaken(src: Source, base: nat, cap: nat, arrivals: seq<Arrival>, d: Direction, next: nat,
                           held: seq<Arrival>) {
    Progress(src, base, cap, arrivals, false, d, next, held) && !d.unusable && d.store.cap == cap
  }

  lemma CapStays(src: Source, d: Direction, a: Arrival)
    requires Bounded(d) && Consistent(src, a)
    ensures Received(src, d, a).0.store.cap == d.store.cap
  {
    hide Processed;
    ProcessExtends(d, WireSequence(src, a), a.flags, WirePayload(src, a));
  }

  lemma OneMoreArrival(src: Source, base: nat, cap: nat, before: seq<Arrival>, d: Direction, next: nat,
                       held: seq<Arrival>, a: Arrival)
      returns (next': nat, held': seq<Arrival>)
    requires AllTaken(src, base, cap, before, d, next, held) && Reachable(base, cap, before + [a])
    requires Consistent(src, a) && InWindow(base, cap, a)
    requires base <= |src.bytes| && forall x <- before :: x.End() <= |src.bytes|
    ensures Bounded(d)
    ensures var (r, result) := Received(src, d, a);
            && (result == Dropped <==> !FindsSlot(src, base, cap, before, a))
            && (result != Dropped ==> AllTaken(src, base, cap, before + [a], r, next', held'))
  {
    hide Received, HeldAs, Beyond, Wrap, IsCovered;
    assert Bounded(d) && Tracks(src, base, next, d, held) && forall h <- held :: h in before;
    forall h | h in held + [a]
      ensures h.End() <= base + cap
    {
      assert h in before + [a];
    }
    hide Tracks, Progress;
    ExpectsFirstUncovered(src, base, cap, before, d, next, held);
    ArrivalIsTaken(src, base, next, d, held, a);
    CapStays(src, d, a);
    next', held' := ProgressExtends(src, base, cap, before, false, d, next, held, a);
  }

  lemma FirstArrival(src: Source, cap: nat, a: Arrival)
    requires Consistent(src, a)
    ensures var d := Initialized(cap).(known := true, next := Wrap(src.isn + a.offset));
            AllTaken(src, a.offset, cap, [], d, a.offset, []) && Bounded(d)
            && Received(src, d, a) == Received(src, Initialized(cap), a)
  {
    FirstBaseline(src, cap, a);
  }

  lemma ReachablePrefix(base: nat, cap: nat, before: seq<Arrival>, a: Arrival)
    requires Reachable(base, cap, before + [a])
    ensures Reachable(base, cap, before)
  {
    assert forall x <- before :: x in before + [a];
  }

  lemma {:induction false} TakenExactly(src: Source, cap: nat, arrivals: seq<Arrival>)
      returns (next: nat, held: seq<Arrival>)
    requires arrivals != [] && Plausible(src, cap, arrivals) && Reachable(Base(arrivals), cap, arrivals)
    ensures Base(arrivals) <= |src.bytes|
    ensures NothingDropped(src, cap, arrivals) <==> EnoughRoom(src, Base(arrivals), cap, arrivals)
    ensures NothingDropped(src, cap, arrivals) ==>
              AllTaken(src, Base(arrivals), cap, arrivals, After(src, cap, arrivals), next, held)
    decreases |arrivals|
  {
    hide Received, AllTaken, Reachable, FindsSlot, Wrap;
    var before, a := arrivals[..|arrivals| - 1], arrivals[|arrivals| - 1];
    assert arrivals == before + [a] && a in arrivals && arrivals[0] in arrivals;
    ReachablePrefix(Base(arrivals), cap, before, a);
    var d := After(src, cap, before);
    if before == [] {
      FirstArrival(src, cap, a);
      d := Initialized(cap).(known := true, next := Wrap(src.isn + a.offset));
      next, held := OneMoreArrival(src, a.offset, cap, [], d, a.offset, [], a);
    } else {
      assert forall x <- before :: x in arrivals;
      next, held := TakenExactly(src, cap, before);
      if NothingDropped(src, cap, before) {
        next, held := OneMoreArrival(src, Base(arrivals), cap, before, d, next, held, a);
      }
    }
  }

  /** For segments that end within the buffer, nothing is dropped if and only if each of them finds a slot: at most
      eight wait at a time, together within the byte cap. Then the stream is the source up to the first offset that no
      segment covers, and the pending store is what lies beyond it, in order of arrival. */
  lemma NothingIsDroppedExactly(src: Source, cap: nat, arrivals: seq<Arrival>)
    requires arrivals != [] && Plausible(src, cap, arrivals) && Reachable(Base(arrivals), cap, arrivals)
    ensures Base(arrivals) <= |src.bytes|
    ensures NothingDropped(src, cap, arrivals) <==> EnoughRoom(src, Base(arrivals), cap, arrivals)
    ensures EnoughRoom(src, Base(arrivals), cap, arrivals) ==>
              var d := After(src, cap, arrivals);
              && !d.unusable && WaitsFor(src, Base(arrivals), arrivals, d)
              && d.stream.unread == Slice(src, Base(arrivals), FirstUncovered(src, arrivals, Base(arrivals)))
  {
    hide After, NothingDropped, EnoughRoom, Progress, WaitsFor;
    var next, held := TakenExactly(src, cap, arrivals);
    if EnoughRoom(src, Base(arrivals), cap, arrivals) {
      ExpectsFirstUncovered(src, Base(arrivals), cap, arrivals, After(src, cap, arrivals), next, held);
    }
  }
}
