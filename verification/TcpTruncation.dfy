/** Segments that run past the buffer: what of them is kept, and that it is not reported as lost. */
module TcpTruncation {
  import opened Bytes
  import opened SerialNumbers
  import opened StreamBuffers
  import opened TcpReassembly
  import opened TcpStream
  import opened TcpOffsets
  import opened TcpRoom

  /** The arrival has nothing to deliver, or starts no later than the first offset not covered and may run past the
      buffer, or waits, with a slot and the bytes free beside the earlier arrivals that wait, and ends inside it. */
  ghost predicate FindsPlace(src: Source, base: nat, cap: nat, before: seq<Arrival>, a: Arrival)
    requires base <= |src.bytes| && forall x <- before :: x.End() <= |src.bytes|
  {
    var m := FirstUncovered(src, before, base);
    var waiting := Beyond(before, m);
    a.length == 0 || a.offset <= m ||
    (|waiting| < 8 && SentBytes(waiting) + a.length <= cap && a.End() <= base + cap)
  }

  ghost predicate EnoughPlace(src: Source, base: nat, cap: nat, arrivals: seq<Arrival>)
    requires base <= |src.bytes| && forall x <- arrivals :: x.End() <= |src.bytes|
  {
    arrivals == [] ||
    var before := arrivals[..|arrivals| - 1];
    EnoughPlace(src, base, cap, before) && FindsPlace(src, base, cap, before, arrivals[|arrivals| - 1])
  }

  /** Segments that end inside the buffer need no more than a slot each. */
  lemma {:induction false} RoomIsPlace(src: Source, base: nat, cap: nat, arrivals: seq<Arrival>)
    requires base <= |src.bytes| && forall x <- arrivals :: x.End() <= |src.bytes|
    requires EnoughRoom(src, base, cap, arrivals) && Reachable(base, cap, arrivals)
    ensures EnoughPlace(src, base, cap, arrivals)
    decreases |arrivals|
  {
    if arrivals != [] {
      assert arrivals == arrivals[..|arrivals| - 1] + [arrivals[|arrivals| - 1]];
      RoomIsPlace(src, base, cap, arrivals[..|arrivals| - 1]);
    }
  }

  /** The buffer is full, with what was sent, all of it covered. */
  ghost predicate Full(src: Source, base: nat, cap: nat, arrivals: seq<Arrival>, d: Direction) {
    && d.unusable && base + cap <= |src.bytes| && d.stream.unread == src.bytes[base..base + cap]
    && CoveredBy(arrivals, base, base + cap)
  }

  ghost predicate Filling(src: Source, base: nat, cap: nat, arrivals: seq<Arrival>, d: Direction, next: nat,
                          held: seq<Arrival>) {
    AllTaken(src, base, cap, arrivals, d, next, held) && Reachable(base, cap, held)
  }

  /** An arrival that reaches the expected byte and runs past the buffer. */
  lemma PastTheBuffer(src: Source, base: nat, cap: nat, before: seq<Arrival>, d: Direction, next: nat,
                      held: seq<Arrival>, a: Arrival)
    requires Filling(src, base, cap, before, d, next, held) && Consistent(src, a) && InWindow(base, cap, a)
    requires a.length > 0 && base + cap < a.End() && a.offset <= next
    ensures Bounded(d)
    ensures var (r, result) := Received(src, d, a);
            && Full(src, base, cap, before + [a], r)
            && (result == Dropped <==> |d.stream.unread| == cap)
  {
    hide Received, HeldAs, Beyond, Wrap, IsCovered, Flush;
    assert Bounded(d) && OnStream(src, base, next, d);
    assert CoveredBy(before, base, Min(next, |src.bytes|));
    hide Progress;
    ArrivalInOffsets(src, base, next, d, a);
    forall k | base <= k < base + cap
      ensures IsCovered(before + [a], k)
    {
      if k < next {
        AlsoCovered(before, a, k);
      } else {
        LastCovers(before, a, k);
      }
    }
  }

  lemma AlsoCovered(before: seq<Arrival>, a: Arrival, k: int)
    requires IsCovered(before, k)
    ensures IsCovered(before + [a], k)
  {
  }

  lemma LastCovers(before: seq<Arrival>, a: Arrival, k: int)
    requires Covers(a, k)
    ensures IsCovered(before + [a], k)
  {
    assert a in before + [a];
  }

  lemma WaitingIsReachable(base: nat, cap: nat, held: seq<Arrival>, a: Arrival, held': seq<Arrival>)
    requires Reachable(base, cap, held) && (forall h <- held' :: h in held + [a])
    requires a.End() <= base + cap || forall h <- held' :: h.length > a.length
    ensures Reachable(base, cap, held')
  {
  }

  /** Any other arrival is taken, and what waits still ends inside the buffer. */
  lemma WithinTheBuffer(src: Source, base: nat, cap: nat, before: seq<Arrival>, d: Direction, next: nat,
                        held: seq<Arrival>, a: Arrival)
      returns (next': nat, held': seq<Arrival>)
    requires Filling(src, base, cap, before, d, next, held) && Consistent(src, a) && InWindow(base, cap, a)
    requires base <= |src.bytes| && forall x <- before :: x.End() <= |src.bytes|
    requires FindsPlace(src, base, cap, before, a) && (a.length == 0 || a.End() <= base + cap)
    ensures Bounded(d)
    ensures var (r, result) := Received(src, d, a);
            result != Dropped && Filling(src, base, cap, before + [a], r, next', held')
  {
    hide Received, HeldAs, Beyond, Wrap, IsCovered, Tracks, FirstUncovered;
    assert Bounded(d) && Tracks(src, base, next, d, held) by { FillingTracks(src, base, cap, before, d, next, held); }
    TakenInside(src, base, cap, before, d, next, held, a);
    CapStays(src, d, a);
    next', held' := ProgressExtends(src, base, cap, before, false, d, next, held, a);
    var r := Received(src, d, a).0;
    assert Tracks(src, base, next', r, held');
    HeldEndInsideTheSource(src, base, next', r, held');
    WaitingIsReachable(base, cap, held, a, held');
  }

  lemma FillingTracks(src: Source, base: nat, cap: nat, before: seq<Arrival>, d: Direction, next: nat,
                      held: seq<Arrival>)
    requires Filling(src, base, cap, before, d, next, held)
    ensures Tracks(src, base, next, d, held) && Bounded(d) && OnStream(src, base, next, d)
    ensures d.stream.capacity == cap
  {
  }

  lemma HeldEndInsideTheSource(src: Source, base: nat, next: nat, d: Direction, held: seq<Arrival>)
    requires Tracks(src, base, next, d, held)
    ensures forall h <- held :: h.length > 0
  {
    HeldHaveBytes(src, base, d, held);
  }

  lemma TakenInside(src: Source, base: nat, cap: nat, before: seq<Arrival>, d: Direction, next: nat,
                    held: seq<Arrival>, a: Arrival)
    requires Filling(src, base, cap, before, d, next, held) && Consistent(src, a) && InWindow(base, cap, a)
    requires base <= |src.bytes| && forall x <- before :: x.End() <= |src.bytes|
    requires FindsPlace(src, base, cap, before, a) && (a.length == 0 || a.End() <= base + cap)
    ensures Bounded(d) && !Received(src, d, a).0.unusable && Received(src, d, a).1 != Dropped
  {
    hide Received, HeldAs, Beyond, Wrap, IsCovered, Tracks, FirstUncovered;
    FillingTracks(src, base, cap, before, d, next, held);
    if a.length == 0 {
      ArrivalInOffsets(src, base, next, d, a);
    } else {
      ExpectsFirstUncovered(src, base, cap, before, d, next, held);
      ArrivalIsTaken(src, base, next, d, held, a);
    }
  }

  /** A run in which every arrival finds its place. */
  lemma {:induction false} FillsUp(src: Source, cap: nat, arrivals: seq<Arrival>)
      returns (next: nat, held: seq<Arrival>)
    requires arrivals != [] && Plausible(src, cap, arrivals) && Base(arrivals) <= |src.bytes|
    requires EnoughPlace(src, Base(arrivals), cap, arrivals)
    ensures var base, d := Base(arrivals), After(src, cap, arrivals);
            Full(src, base, cap, arrivals, d) || Filling(src, base, cap, arrivals, d, next, held)
    ensures var before, a := arrivals[..|arrivals| - 1], arrivals[|arrivals| - 1];
            Received(src, After(src, cap, before), a).1 == Dropped ==>
              After(src, cap, arrivals).stream == After(src, cap, before).stream
    decreases |arrivals|
  {
    hide Received, Full, Filling, FindsPlace, Wrap;
    var before, a := arrivals[..|arrivals| - 1], arrivals[|arrivals| - 1];
    assert arrivals == before + [a] && a in arrivals && arrivals[0] in arrivals;
    var d := After(src, cap, before);
    if before == [] {
      FirstArrival(src, cap, a);
      d := Initialized(cap).(known := true, next := Wrap(src.isn + a.offset));
      assert Filling(src, a.offset, cap, [], d, a.offset, []) by { NothingWaits(src, cap, a); }
      next, held := OneMoreFills(src, a.offset, cap, [], d, a.offset, [], a);
    } else {
      assert forall x <- before :: x in arrivals;
      next, held := FillsUp(src, cap, before);
      if Full(src, Base(arrivals), cap, before, d) {
        StaysFull(src, Base(arrivals), cap, before, d, a);
      } else {
        next, held := OneMoreFills(src, Base(arrivals), cap, before, d, next, held, a);
      }
    }
  }

  lemma NothingWaits(src: Source, cap: nat, a: Arrival)
    requires Consistent(src, a)
    ensures Filling(src, a.offset, cap, [], Initialized(cap).(known := true, next := Wrap(src.isn + a.offset)),
                    a.offset, [])
  {
    FirstArrival(src, cap, a);
  }

  lemma StaysFull(src: Source, base: nat, cap: nat, before: seq<Arrival>, d: Direction, a: Arrival)
    requires Full(src, base, cap, before, d) && Bounded(d) && Consistent(src, a)
    ensures Received(src, d, a) == (d, Dropped) && Full(src, base, cap, before + [a], d)
  {
    hide IsCovered;
    PoisonedStaysPut(src, d, a);
    forall k | base <= k < base + cap
      ensures IsCovered(before + [a], k)
    {
      AlsoCovered(before, a, k);
    }
  }

  lemma OneMoreFills(src: Source, base: nat, cap: nat, before: seq<Arrival>, d: Direction, next: nat,
                     held: seq<Arrival>, a: Arrival)
      returns (next': nat, held': seq<Arrival>)
    requires Filling(src, base, cap, before, d, next, held) && Consistent(src, a) && InWindow(base, cap, a)
    requires base <= |src.bytes| && forall x <- before :: x.End() <= |src.bytes|
    requires FindsPlace(src, base, cap, before, a)
    ensures Bounded(d)
    ensures var (r, result) := Received(src, d, a);
            && (Full(src, base, cap, before + [a], r) || Filling(src, base, cap, before + [a], r, next', held'))
            && (result == Dropped ==> r.stream == d.stream)
  {
    hide Received, Wrap, Beyond, Tracks, HeldAs, IsCovered;
    FillingTracks(src, base, cap, before, d, next, held);
    if a.length == 0 || a.End() <= base + cap {
      next', held' := WithinTheBuffer(src, base, cap, before, d, next, held, a);
    } else {
      next', held' := next, held;
      ExpectsFirstUncovered(src, base, cap, before, d, next, held);
      PastTheBuffer(src, base, cap, before, d, next, held, a);
      PrefixOfFull(src, base, cap, before, d, next, held, a);
    }
  }

  /** A full buffer is not changed by what is dropped. */
  lemma PrefixOfFull(src: Source, base: nat, cap: nat, before: seq<Arrival>, d: Direction, next: nat,
                     held: seq<Arrival>, a: Arrival)
    requires Filling(src, base, cap, before, d, next, held) && Consistent(src, a) && InWindow(base, cap, a)
    requires a.length > 0 && base + cap < a.End() && a.offset <= next
    ensures Bounded(d)
    ensures Received(src, d, a).1 == Dropped ==> Received(src, d, a).0.stream == d.stream
  {
    hide Received, HeldAs, Beyond, Wrap, IsCovered, Flush;
    FillingTracks(src, base, cap, before, d, next, held);
    ArrivalInOffsets(src, base, next, d, a);
  }

  // ----- main results -----

  /** When every arrival finds its place, the stream is what is covered: the source up to the first offset that no
      segment covers, cut off at the capacity. The segment that fills the buffer may run past it. */
  lemma StreamIsWhatIsCovered(src: Source, cap: nat, arrivals: seq<Arrival>)
    requires arrivals != [] && Plausible(src, cap, arrivals) && Base(arrivals) <= |src.bytes|
    requires EnoughPlace(src, Base(arrivals), cap, arrivals)
    ensures var base := Base(arrivals);
            After(src, cap, arrivals).stream.unread
            == src.bytes[base..Min(FirstUncovered(src, arrivals, base), base + cap)]
  {
    hide Received, Wrap, EnoughPlace, Progress, After, WaitsFor, IsCovered;
    var base, d := Base(arrivals), After(src, cap, arrivals);
    var next, held := FillsUp(src, cap, arrivals);
    if Full(src, base, cap, arrivals, d) {
      FirstUncoveredIsLeast(src, arrivals, base, base + cap);
    } else {
      FillingTracks(src, base, cap, arrivals, d, next, held);
      ExpectsFirstUncovered(src, base, cap, arrivals, d, next, held);
    }
  }

  /** And no segment that lengthens the stream is reported as dropped. */
  lemma GrowthIsNotDropped(src: Source, cap: nat, arrivals: seq<Arrival>)
    requires arrivals != [] && Plausible(src, cap, arrivals) && Base(arrivals) <= |src.bytes|
    requires EnoughPlace(src, Base(arrivals), cap, arrivals)
    ensures var before := After(src, cap, arrivals[..|arrivals| - 1]);
            |before.stream.unread| < |After(src, cap, arrivals).stream.unread| ==>
              Received(src, before, arrivals[|arrivals| - 1]).1 != Dropped
  {
    hide Received, After, EnoughPlace, Full, Filling;
    var next, held := FillsUp(src, cap, arrivals);
  }
}
