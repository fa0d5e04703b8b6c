/** Completeness: a stream that dropped nothing has all it can have. */
module TcpCoverage {
  import opened Bytes
  import opened SerialNumbers
  import opened StreamBuffers
  import opened TcpReassembly
  import opened TcpStream
  import opened TcpSplice

  /** The arrival covers a byte that the buffer can hold. */
  predicate Touches(base: nat, cap: nat, a: Arrival) {
    a.offset < base + cap && base < a.End()
  }

  /** Where the arrival matters, its wrapped comparisons are those of the real offsets. */
  predicate Comparable(base: nat, cap: nat, a: Arrival) {
    Touches(base, cap, a) ==> InWindow(base, cap, a)
  }

  /** Size alone makes an arrival comparable. */
  lemma ShortIsComparable(base: nat, cap: nat, a: Arrival)
    requires cap + a.length + 1 < HALF
    ensures Comparable(base, cap, a)
  {
  }

  predicate AllComparable(base: nat, cap: nat, arrivals: seq<Arrival>) {
    forall a <- arrivals :: Comparable(base, cap, a)
  }

  /** What is held of the arrivals that matter starts beyond the expected byte. */
  predicate Waits(base: nat, cap: nat, next: nat, held: seq<Arrival>) {
    forall h <- held :: Touches(base, cap, h) ==> next < h.offset
  }

  /** Each of `some` that matters is in the stream or in `held`. */
  predicate Accounted(base: nat, cap: nat, some: seq<Arrival>, next: nat, held: seq<Arrival>) {
    forall a <- some :: Touches(base, cap, a) ==> Settled(a, next) || a in held
  }

  // ----- flushing -----

  /** After a flush from `next` to `next'`. */
  ghost predicate CaughtUp(base: nat, cap: nat, held: seq<Arrival>, held': seq<Arrival>, next: nat, next': nat) {
    && next <= next' && (forall h <- held' :: h in held)
    && Accounted(base, cap, held, next', held') && Waits(base, cap, next', held') && CoveredBy(held, next, next')
  }

  lemma ReadyIsReached(src: Source, base: nat, next: nat, d: Direction, held: seq<Arrival>, i: nat)
    requires Sound(src, base, next, d, held) && i < |held| && Comparable(base, d.stream.capacity, held[i])
    requires Touches(base, d.stream.capacity, held[i])
    ensures |held| == |d.store.pending|
    ensures Ready(d.next, d.store.pending[i]) <==> held[i].offset <= next
    ensures BeforeOrEqual(SegmentEnd(d.store.pending[i]), d.next) <==> held[i].End() <= next
  {
    hide Wrap, BeforeOrEqual, TotalBytes;
    HeldOne(src, base, d, held, i);
    ComparisonsAreExact(src, base, next, d.stream.capacity, held[i]);
  }

  lemma NothingReadyWaits(src: Source, base: nat, next: nat, d: Direction, held: seq<Arrival>)
    requires Sound(src, base, next, d, held) && AllComparable(base, d.stream.capacity, held)
    requires FirstReady(d.next, d.store.pending, 0) == |d.store.pending|
    ensures Waits(base, d.stream.capacity, next, held)
  {
    hide Sound, Comparable, Touches, Ready;
    forall h | h in held && Touches(base, d.stream.capacity, h)
      ensures next < h.offset
    {
      var i :| 0 <= i < |held| && held[i] == h;
      assert Comparable(base, d.stream.capacity, held[i]);
      ReadyIsReached(src, base, next, d, held, i);
    }
  }

  lemma CaughtUpChains(base: nat, cap: nat, held: seq<Arrival>, i: nat, held': seq<Arrival>, next: nat, middle: nat,
                       next': nat)
    requires i < |held| && next <= middle && (forall k | next <= k < middle :: Covers(held[i], k))
    requires Touches(base, cap, held[i]) ==> Settled(held[i], middle)
    requires CaughtUp(base, cap, WithoutAt(held, i), held', middle, next')
    ensures CaughtUp(base, cap, held, held', next, next')
  {
    hide Touches, Covers, WithoutAt, Waits;
    MembersWithoutAt(held, i);
    CoverageChains(held, i, next, middle, next');
  }

  lemma {:induction false} FlushCovers(src: Source, base: nat, next: nat, d: Direction, held: seq<Arrival>)
      returns (next': nat, held': seq<Arrival>)
    requires Sound(src, base, next, d, held) && AllComparable(base, d.stream.capacity, held)
    ensures var (r, ok) := Flush(d);
            ok ==>
              && Sound(src, base, next', r, held') && r.stream.capacity == d.stream.capacity
              && CaughtUp(base, d.stream.capacity, held, held', next, next')
    decreases |held|
  {
    hide Wrap, PendingDelivered, TotalBytes, WithoutAt, HeldAs, InReach, Touches, Comparable, CaughtUp;
    next', held' := next, held;
    var i := FirstReady(d.next, d.store.pending, 0);
    if i == |held| {
      NothingReadyWaits(src, base, next, d, held);
      assert CaughtUp(base, d.stream.capacity, held, held, next, next) by {
        NothingCaught(base, d.stream.capacity, held, next);
      }
    } else {
      var middle := PendingStaysSound(src, base, next, d, held, i);
      var (delivered, ok) := PendingDelivered(d, i);
      if ok {
        SettledByDelivery(src, base, next, d, held, i, middle);
        assert |WithoutAt(held, i)| < |held| by { ShorterWithoutAt(held, i); }
        MembersWithoutAt(held, i);
        next', held' := FlushCovers(src, base, middle, delivered, WithoutAt(held, i));
        if Flush(delivered).1 {
          CaughtUpChains(base, d.stream.capacity, held, i, held', next, middle, next');
        }
      }
    }
  }

  lemma NothingCaught(base: nat, cap: nat, held: seq<Arrival>, next: nat)
    requires Waits(base, cap, next, held)
    ensures CaughtUp(base, cap, held, held, next, next)
  {
  }

  lemma SettledByDelivery(src: Source, base: nat, next: nat, d: Direction, held: seq<Arrival>, i: nat, middle: nat)
    requires Sound(src, base, next, d, held) && i < |held| && Comparable(base, d.stream.capacity, held[i])
    requires |held| == |d.store.pending|
    requires if BeforeOrEqual(SegmentEnd(d.store.pending[i]), d.next) then middle == next
             else held[i].offset <= next < held[i].End() == middle
    ensures next <= middle && (forall k | next <= k < middle :: Covers(held[i], k))
    ensures Touches(base, d.stream.capacity, held[i]) ==> Settled(held[i], middle)
  {
    hide Wrap, BeforeOrEqual, Touches, Comparable, Sound;
    if Touches(base, d.stream.capacity, held[i]) {
      ReadyIsReached(src, base, next, d, held, i);
    }
  }

  // ----- one arrival -----

  /** The state of a run that has dropped nothing: cut off at the capacity with all of it covered, or sound, with every
      arrival that matters in the stream or held, and every byte of the stream covered. */
  ghost predicate Covering(src: Source, base: nat, cap: nat, arrivals: seq<Arrival>, d: Direction, next: nat,
                           held: seq<Arrival>) {
    && d.stream.capacity == cap && IsPrefixAt(src, base, d.stream.unread)
    && (if d.unusable then |d.stream.unread| == cap && CoveredBy(arrivals, base, base + cap)
        else
          && Sound(src, base, next, d, held) && (forall h <- held :: h in arrivals)
          && Waits(base, cap, next, held) && Accounted(base, cap, arrivals, next, held)
          && CoveredBy(arrivals, base, Min(next, |src.bytes|)))
  }

  lemma MoreCovered(arrivals: seq<Arrival>, a: Arrival, lo: nat, hi: nat)
    requires CoveredBy(arrivals, lo, hi)
    ensures CoveredBy(arrivals + [a], lo, hi)
  {
    forall k | lo <= k < hi
      ensures IsCovered(arrivals + [a], k)
    {
      assert IsCovered(arrivals, k);
    }
  }

  lemma HeldEndInside(src: Source, base: nat, next: nat, d: Direction, held: seq<Arrival>)
    requires Sound(src, base, next, d, held)
    ensures forall h <- held :: h.length > 0 && h.End() <= |src.bytes|
  {
    hide InReach;
    forall h | h in held
      ensures h.length > 0 && h.End() <= |src.bytes|
    {
      var i :| 0 <= i < |held| && held[i] == h;
      assert HeldAs(src, held[i], d.store.pending[i]);
    }
  }

  lemma EmptyCovers(src: Source, base: nat, cap: nat, arrivals: seq<Arrival>, d: Direction, next: nat,
                    held: seq<Arrival>, a: Arrival)
      returns (next': nat)
    requires Covering(src, base, cap, arrivals, d, next, held) && !d.unusable
    requires Consistent(src, a) && InReach(base, cap, a) && a.length == 0
    ensures Bounded(d) && Covering(src, base, cap, arrivals + [a], Received(src, d, a).0, next', held)
  {
    assert Bounded(d);
    hide Bounded, OnStream, HeldInReach, Received, Covers, InReach;
    next' := EmptyStaysSound(src, base, next, d, held, a);
    MoreCovered(arrivals, a, base, Min(next, |src.bytes|));
    HeldEndInside(src, base, next, d, held);
  }

  lemma DeliveryCovers(src: Source, base: nat, cap: nat, arrivals: seq<Arrival>, d: Direction, next: nat,
                       held: seq<Arrival>, a: Arrival, d0: Direction)
      returns (next': nat, held': seq<Arrival>)
    requires Covering(src, base, cap, arrivals, d, next, held) && !d.unusable && d0 == d.(counters := d0.counters)
    requires Consistent(src, a) && a.offset <= next < a.End() && AllComparable(base, cap, held)
    ensures Bounded(d)
    ensures var (r, result) := Delivered(d0, d.next, FinFlag(a.flags), Slice(src, next, a.End()));
            result != Dropped ==> Covering(src, base, cap, arrivals + [a], r, next', held')
  {
    assert Bounded(d);
    next', held' := next, held;
    if Fits(d.stream, Slice(src, next, a.End())) {
      next', held' := FittingCovers(src, base, cap, arrivals, d, next, held, a, d0);
    } else {
      CutOffCovers(src, base, cap, arrivals, d, next, held, a, d0);
    }
  }

  lemma FittingCovers(src: Source, base: nat, cap: nat, arrivals: seq<Arrival>, d: Direction, next: nat,
                      held: seq<Arrival>, a: Arrival, d0: Direction)
      returns (next': nat, held': seq<Arrival>)
    requires Covering(src, base, cap, arrivals, d, next, held) && !d.unusable && d0 == d.(counters := d0.counters)
    requires Consistent(src, a) && a.offset <= next < a.End() && AllComparable(base, cap, held)
    requires Fits(d.stream, Slice(src, next, a.End()))
    ensures Bounded(d)
    ensures var (r, result) := Delivered(d0, d.next, FinFlag(a.flags), Slice(src, next, a.End()));
            result != Dropped ==> Covering(src, base, cap, arrivals + [a], r, next', held')
  {
    assert Bounded(d) && OnStream(src, base, next, d);
    hide Sound, Delivered, Flush, AllComparable, Bounded;
    GrowingIsSound(src, base, next, d, held, a, d0);
    next', held' := FlushCovers(src, base, Passed(a), Grown(src, next, d0, a), held);
    if Flush(Grown(src, next, d0, a)).1 {
      SoundIsUsable(src, base, next', Flush(Grown(src, next, d0, a)).0, held');
      CoverageGrows(src, base, cap, arrivals, next, held, a, next', held');
    }
  }

  lemma SoundIsUsable(src: Source, base: nat, next: nat, d: Direction, held: seq<Arrival>)
    requires Sound(src, base, next, d, held)
    ensures !d.unusable && IsPrefixAt(src, base, d.stream.unread)
  {
  }

  lemma CoverageGrows(src: Source, base: nat, cap: nat, arrivals: seq<Arrival>, next: nat, held: seq<Arrival>,
                      a: Arrival, next': nat, held': seq<Arrival>)
    requires (forall h <- held :: h in arrivals) && Accounted(base, cap, arrivals, next, held)
    requires CoveredBy(arrivals, base, Min(next, |src.bytes|)) && Consistent(src, a) && a.offset <= next < a.End()
    requires CaughtUp(base, cap, held, held', Passed(a), next')
    ensures (forall h <- held' :: h in arrivals + [a]) && Accounted(base, cap, arrivals + [a], next', held')
    ensures CoveredBy(arrivals + [a], base, Min(next', |src.bytes|))
  {
    hide Touches;
    forall k | base <= k < Min(next', |src.bytes|)
      ensures IsCovered(arrivals + [a], k)
    {
      if k < next {
        assert IsCovered(arrivals, k);
      } else if k < a.End() {
        assert a in arrivals + [a] && Covers(a, k);
      } else {
        assert IsCovered(held, k);
      }
    }
  }

  lemma CutOffCovers(src: Source, base: nat, cap: nat, arrivals: seq<Arrival>, d: Direction, next: nat,
                     held: seq<Arrival>, a: Arrival, d0: Direction)
    requires Covering(src, base, cap, arrivals, d, next, held) && !d.unusable && d0 == d.(counters := d0.counters)
    requires Consistent(src, a) && a.offset <= next < a.End() && !Fits(d.stream, Slice(src, next, a.End()))
    ensures Bounded(d)
    ensures var (r, result) := Delivered(d0, d.next, FinFlag(a.flags), Slice(src, next, a.End()));
            Covering(src, base, cap, arrivals + [a], r, next, held)
  {
    hide HeldInReach, StoreBounded, Covers, Accounted, Waits, Wrap;
    var room := Room(d.stream);
    SlicePrefix(src, next, a.End(), room);
    AppendSlice(src, base, d.stream.unread, next + room);
    forall k | base <= k < base + cap
      ensures IsCovered(arrivals + [a], k)
    {
      if k < next {
        assert IsCovered(arrivals, k);
      } else {
        assert a in arrivals + [a] && Covers(a, k) by { assert a.offset <= k < a.End(); CoversInside(a, k); }
      }
    }
  }

  lemma CoversInside(a: Arrival, k: nat)
    requires a.offset <= k < a.End()
    ensures Covers(a, k)
  {
  }

  lemma DataCovers(src: Source, base: nat, cap: nat, arrivals: seq<Arrival>, d: Direction, next: nat,
                   held: seq<Arrival>, a: Arrival)
      returns (next': nat, held': seq<Arrival>)
    requires Covering(src, base, cap, arrivals, d, next, held) && !d.unusable
    requires Consistent(src, a) && InReach(base, cap, a) && Comparable(base, cap, a) && a.length > 0
    requires AllComparable(base, cap, arrivals)
    ensures Bounded(d)
    ensures var start := Wrap(src.isn + a.offset);
            var (r, result) := Placed(d, start, FinFlag(a.flags), Slice(src, a.offset, a.End()));
            result != Dropped ==> Covering(src, base, cap, arrivals + [a], r, next', held')
  {
    assert Bounded(d) && OnStream(src, base, next, d);
    next', held' := next, held;
    var start, bytes := Wrap(src.isn + a.offset), Slice(src, a.offset, a.End());
    PlacedInReach(src, base, next, d, a);
    if Touches(base, cap, a) {
      ComparisonsAreExact(src, base, next, cap, a);
    }
    if BeforeOrEqual(Wrap(start + a.length), d.next) {
      IgnoredCovers(src, base, cap, arrivals, d, next, held, a);
    } else if Before(d.next, start) {
      if CanStore(d.store, bytes) {
        held' := held + [a];
        StoredCovers(src, base, cap, arrivals, d, next, held, a);
      }
    } else {
      assert AllComparable(base, cap, held);
      next', held' := DeliveryCovers(src, base, cap, arrivals, d, next, held, a,
                                     if a.offset < next then CountOverlap(d) else d);
    }
  }

  lemma IgnoredCovers(src: Source, base: nat, cap: nat, arrivals: seq<Arrival>, d: Direction, next: nat,
                      held: seq<Arrival>, a: Arrival)
    requires Covering(src, base, cap, arrivals, d, next, held) && !d.unusable
    requires Touches(base, cap, a) ==> a.End() <= next
    ensures Covering(src, base, cap, arrivals + [a], CountRetransmission(d), next, held)
  {
    hide InReach, Wrap, Touches, Covers, TotalBytes;
    MoreCovered(arrivals, a, base, Min(next, |src.bytes|));
  }

  lemma StoredCovers(src: Source, base: nat, cap: nat, arrivals: seq<Arrival>, d: Direction, next: nat,
                     held: seq<Arrival>, a: Arrival)
    requires Covering(src, base, cap, arrivals, d, next, held) && !d.unusable && Consistent(src, a)
             && InReach(base, cap, a)
    requires (Touches(base, cap, a) ==> next < a.offset) && CanStore(d.store, Slice(src, a.offset, a.End()))
    ensures var r := CountGap(d).(store := Stored(d.store, Wrap(src.isn + a.offset), Slice(src, a.offset, a.End())));
            Covering(src, base, cap, arrivals + [a], r, next, held + [a])
  {
    hide InReach, Wrap, Touches, Covers, TotalBytes;
    MoreCovered(arrivals, a, base, Min(next, |src.bytes|));
    TotalWithLast(d.store.pending, Segment(Wrap(src.isn + a.offset), Slice(src, a.offset, a.End())));
  }

  lemma ArrivalCovers(src: Source, base: nat, cap: nat, arrivals: seq<Arrival>, d: Direction, next: nat,
                      held: seq<Arrival>, a: Arrival)
      returns (next': nat, held': seq<Arrival>)
    requires Covering(src, base, cap, arrivals, d, next, held) && !d.unusable
    requires Consistent(src, a) && InReach(base, cap, a) && Comparable(base, cap, a)
             && AllComparable(base, cap, arrivals)
    ensures Bounded(d)
    ensures var (r, result) := Received(src, d, a);
            result != Dropped ==> Covering(src, base, cap, arrivals + [a], r, next', held')
  {
    assert Bounded(d) && d.known;
    next', held' := next, held;
    if a.length == 0 {
      next' := EmptyCovers(src, base, cap, arrivals, d, next, held, a);
    } else {
      WireStart(src, a);
      FlagsDoNotCover(src, base, cap, arrivals, d, next, held, a.flags);
      next', held' := DataCovers(src, base, cap, arrivals, TrackedFlags(d, a.flags), next, held, a);
      ReceivedData(src, d, a);
    }
  }

  lemma ReceivedData(src: Source, d: Direction, a: Arrival)
    requires Bounded(d) && d.known && !d.unusable && Consistent(src, a) && a.length > 0
    ensures Received(src, d, a) == Placed(TrackedFlags(d, a.flags), Wrap(src.isn + a.offset), FinFlag(a.flags),
                                          Slice(src, a.offset, a.End()))
  {
    hide Wrap, Placed;
    WireStart(src, a);
  }

  lemma FlagsDoNotCover(src: Source, base: nat, cap: nat, arrivals: seq<Arrival>, d: Direction, next: nat,
                        held: seq<Arrival>, flags: byte)
    requires Covering(src, base, cap, arrivals, d, next, held)
    ensures Covering(src, base, cap, arrivals, TrackedFlags(d, flags), next, held)
  {
    hide Wrap, TotalBytes, InReach, Touches, Covers;
  }

  // ----- whole runs -----

  lemma {:induction false} RunCovers(src: Source, cap: nat, arrivals: seq<Arrival>)
      returns (next: nat, held: seq<Arrival>)
    requires arrivals != [] && (forall a <- arrivals :: Consistent(src, a)) && Unambiguous(src, cap, arrivals)
    requires AllComparable(Base(arrivals), cap, arrivals) && NothingDropped(src, cap, arrivals)
    ensures Covering(src, Base(arrivals), cap, arrivals, After(src, cap, arrivals), next, held)
    decreases |arrivals|
  {
    hide Received, Covering, InReach, Comparable, Wrap;
    var before, a := arrivals[..|arrivals| - 1], arrivals[|arrivals| - 1];
    assert arrivals == before + [a] && a in arrivals;
    var d := After(src, cap, before);
    if before == [] {
      FirstBaseline(src, cap, a);
      FirstCovers(src, cap, a);
      d := Initialized(cap).(known := true, next := Wrap(src.isn + a.offset));
      next, held := ArrivalCovers(src, a.offset, cap, [], d, a.offset, [], a);
    } else {
      assert forall x <- before :: x in arrivals;
      next, held := RunCovers(src, cap, before);
      if d.unusable {
        PoisonedStaysPut(src, d, a);
        assert false;
      }
      next, held := ArrivalCovers(src, Base(arrivals), cap, before, d, next, held, a);
    }
  }

  lemma FirstCovers(src: Source, cap: nat, a: Arrival)
    requires Consistent(src, a)
    ensures var d := Initialized(cap).(known := true, next := Wrap(src.isn + a.offset));
            Covering(src, a.offset, cap, [], d, a.offset, []) && !d.unusable
  {
    hide Wrap;
    FirstIsSound(src, cap, a);
  }

  // ----- main results -----

  /** Maximal contiguous coverage: when nothing was dropped, the stream is the source from the first arrival up to the
      first byte that no arrival covered, or up to what the buffer holds. Arrivals have to be unambiguous in the whole
      number space, and comparable only where they cover a byte that the buffer can hold. */
  lemma MaximalContiguousCoverage(src: Source, cap: nat, arrivals: seq<Arrival>)
    requires arrivals != [] && (forall a <- arrivals :: Consistent(src, a)) && Unambiguous(src, cap, arrivals)
    requires AllComparable(Base(arrivals), cap, arrivals) && NothingDropped(src, cap, arrivals)
    ensures var base := Base(arrivals);
            && base <= |src.bytes|
            && var m := FirstUncovered(src, arrivals, base);
               After(src, cap, arrivals).stream.unread == Slice(src, base, Min(m, base + cap))
  {
    hide Received, After, NothingDropped, Unambiguous;
    var next, held := RunCovers(src, cap, arrivals);
    var base, d := Base(arrivals), After(src, cap, arrivals);
    var end := base + |d.stream.unread|;
    FirstUncoveredIsLeast(src, arrivals, base, end);
    forall a | a in arrivals && !d.unusable && end < base + cap
      ensures !Covers(a, end)
    {
      assert Touches(base, cap, a) ==> Settled(a, next) || a in held;
    }
  }

  /** Order independence: two arrival orders of the same segments, with the same first offset and nothing dropped, build
      the same stream; repetitions do not matter. */
  lemma ArrivalOrderDoesNotMatter(src: Source, cap: nat, one: seq<Arrival>, two: seq<Arrival>)
    requires one != [] && (forall a <- one :: Consistent(src, a)) && Unambiguous(src, cap, one)
    requires two != [] && (forall a <- two :: Consistent(src, a)) && Unambiguous(src, cap, two)
    requires AllComparable(Base(one), cap, one) && NothingDropped(src, cap, one) && NothingDropped(src, cap, two)
    requires Base(one) == Base(two) && forall a :: a in one <==> a in two
    ensures After(src, cap, one).stream.unread == After(src, cap, two).stream.unread
  {
    hide Received, After, NothingDropped, Unambiguous, Comparable;
    MaximalContiguousCoverage(src, cap, one);
    MaximalContiguousCoverage(src, cap, two);
    var base := Base(one);
    var m := FirstUncovered(src, one, base);
    forall k
      ensures IsCovered(one, k) <==> IsCovered(two, k)
    {
    }
    FirstUncoveredIsLeast(src, two, base, m);
  }
}
