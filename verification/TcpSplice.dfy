/** When reassembly can splice: what the wrapped comparisons let through, in unbounded offsets. */
module TcpSplice {
  import opened Bytes
  import opened SerialNumbers
  import opened StreamBuffers
  import opened TcpReassembly
  import opened TcpStream

  // ----- the whole number space is sound -----

  /** No byte of the arrival shares a sequence number with another offset that the direction may come to expect. */
  predicate InReach(base: nat, cap: nat, a: Arrival) {
    a.End() < base + MODULUS && base + cap + 1 < a.offset + MODULUS
  }

  /** Every arrival that meets a usable direction is in reach; what a poisoned direction refuses may lie anywhere. */
  predicate Unambiguous(src: Source, cap: nat, arrivals: seq<Arrival>)
    requires forall a <- arrivals :: Consistent(src, a)
  {
    arrivals == [] ||
    var before := arrivals[..|arrivals| - 1];
    && Unambiguous(src, cap, before)
    && (After(src, cap, before).unusable || InReach(Base(arrivals), cap, arrivals[|arrivals| - 1]))
  }

  /** The wrapped distance from the start of an arrival to the expected byte is the real one, if it falls inside. */
  lemma DistanceIsExact(src: Source, base: nat, next: nat, cap: nat, a: Arrival)
    requires base <= next <= base + cap + 1 && InReach(base, cap, a)
    ensures var distance := Wrap(Wrap(src.isn + next) - Wrap(src.isn + a.offset));
            distance <= a.length ==> a.offset + distance == next
  {
    WrapOfDifference(src.isn + next, src.isn + a.offset);
    var distance := Wrap(next - a.offset);
    var k := (next - a.offset) / MODULUS;
    assert next - a.offset == k * MODULUS + distance;
  }

  ghost predicate HeldInReach(src: Source, base: nat, d: Direction, held: seq<Arrival>) {
    && |held| == |d.store.pending|
    && forall i | 0 <= i < |held| ::
         HeldAs(src, held[i], d.store.pending[i]) && InReach(base, d.stream.capacity, held[i])
  }

  /** The stream is a piece of the source, and so is every held segment. */
  ghost predicate Sound(src: Source, base: nat, next: nat, d: Direction, held: seq<Arrival>) {
    Bounded(d) && OnStream(src, base, next, d) && HeldInReach(src, base, d, held)
  }

  /** What a run has come to: poisoned with a piece of the source, or sound. */
  ghost predicate SoundSoFar(src: Source, base: nat, cap: nat, d: Direction, next: nat, held: seq<Arrival>) {
    && IsPrefixAt(src, base, d.stream.unread) && d.stream.capacity == cap
    && (d.unusable || Sound(src, base, next, d, held))
  }

  lemma HeldWithoutAt(src: Source, base: nat, d: Direction, held: seq<Arrival>, i: nat, r: Direction)
    requires HeldInReach(src, base, d, held) && i < |held|
    requires r.store.pending == WithoutAt(d.store.pending, i) && r.stream.capacity == d.stream.capacity
    ensures HeldInReach(src, base, r, WithoutAt(held, i))
  {
    hide HeldAs;
  }

  /** What delivering a held segment computes: nothing new, or exactly the source from the expected byte on. */
  lemma PendingInReach(src: Source, base: nat, next: nat, d: Direction, h: Arrival, i: nat)
    requires Sized(d.store.pending) && i < |d.store.pending| && Ready(d.next, d.store.pending[i])
    requires HeldAs(src, h, d.store.pending[i]) && InReach(base, d.stream.capacity, h)
    requires d.next == Wrap(src.isn + next) && base <= next <= base + d.stream.capacity + 1
    requires !BeforeOrEqual(SegmentEnd(d.store.pending[i]), d.next)
    ensures h.offset <= next < h.End()
    ensures var counted, tail := (if h.offset < next then CountOverlap(d) else d), Slice(src, next, h.End());
            PendingDelivered(d, i) ==
            if Fits(d.stream, tail) then
              (counted.(stream := Appended(d.stream, tail), next := Wrap(src.isn + h.End()),
                        store := Removed(d.store, i)),
               true)
            else (counted.(unusable := true), false)
  {
    hide Wrap, TotalBytes, Removed, Fits, Before;
    var p := d.store.pending[i];
    TrimIsShorterThanSegment(p.sequence, |p.data|, d.next);
    DistanceIsExact(src, base, next, d.stream.capacity, h);
    WrapOfSum(src.isn + h.offset, h.length);
    assert p.data[next - h.offset..] == Slice(src, next, h.End());
  }

  lemma PendingStaysSound(src: Source, base: nat, next: nat, d: Direction, held: seq<Arrival>, i: nat)
      returns (next': nat)
    requires Sound(src, base, next, d, held) && i < |held| && Ready(d.next, d.store.pending[i])
    ensures var (r, ok) := PendingDelivered(d, i);
            && (ok ==> Sound(src, base, next', r, WithoutAt(held, i)) && r.stream.capacity == d.stream.capacity)
            && (!ok ==> r.unusable && r.stream == d.stream)
    ensures |held| == |d.store.pending|
    ensures if BeforeOrEqual(SegmentEnd(d.store.pending[i]), d.next) then next' == next
            else held[i].offset <= next < held[i].End() && (PendingDelivered(d, i).1 ==> next' == held[i].End())
  {
    hide Wrap, TotalBytes, BeforeOrEqual, WithoutAt, HeldInReach, StoreBounded, Sized;
    HeldOne(src, base, d, held, i);
    assert Bounded(d) && Sized(d.store.pending) by { SoundIsSized(src, base, next, d, held); }
    DeliveryKeepsBounds(d, i);
    var h := held[i];
    next' := next;
    if !BeforeOrEqual(SegmentEnd(d.store.pending[i]), d.next) {
      PendingInReach(src, base, next, d, h, i);
      if PendingDelivered(d, i).1 {
        next' := h.End();
        AppendSlice(src, base, d.stream.unread, h.End());
      }
    }
    if PendingDelivered(d, i).1 {
      HeldWithoutAt(src, base, d, held, i, PendingDelivered(d, i).0);
    }
  }

  lemma SoundIsSized(src: Source, base: nat, next: nat, d: Direction, held: seq<Arrival>)
    requires Sound(src, base, next, d, held)
    ensures Bounded(d) && Sized(d.store.pending)
  {
  }

  lemma HeldOne(src: Source, base: nat, d: Direction, held: seq<Arrival>, i: nat)
    requires HeldInReach(src, base, d, held) && i < |held|
    ensures |held| == |d.store.pending|
    ensures HeldAs(src, held[i], d.store.pending[i]) && InReach(base, d.stream.capacity, held[i])
  {
  }

  lemma {:induction false} FlushStaysSound(src: Source, base: nat, next: nat, d: Direction, held: seq<Arrival>)
      returns (next': nat, held': seq<Arrival>)
    requires Sound(src, base, next, d, held)
    ensures SoundSoFar(src, base, d.stream.capacity, Flush(d).0, next', held')
    decreases |held|
  {
    hide PendingDelivered, WithoutAt, HeldAs, TotalBytes, Wrap;
    next', held' := next, held;
    var i := FirstReady(d.next, d.store.pending, 0);
    if i < |held| {
      var middle := PendingStaysSound(src, base, next, d, held, i);
      var (delivered, ok) := PendingDelivered(d, i);
      if ok {
        assert |WithoutAt(held, i)| < |held| by { ShorterWithoutAt(held, i); }
        next', held' := FlushStaysSound(src, base, middle, delivered, WithoutAt(held, i));
      }
    }
  }

  lemma ShorterWithoutAt(held: seq<Arrival>, i: nat)
    requires i < |held|
    ensures |WithoutAt(held, i)| == |held| - 1
  {
  }

  /** In-order bytes that fit extend the stream; what follows is the flush. */
  function Grown(src: Source, next: nat, d: Direction, a: Arrival): Direction
    requires a.End() <= |src.bytes| && next <= a.End()
  {
    d.(stream := Appended(d.stream, Slice(src, next, a.End())), next := Wrap(src.isn + Passed(a)))
  }

  /** The offset after the arrival and its FIN. */
  function Passed(a: Arrival): nat {
    a.End() + if FinFlag(a.flags) then 1 else 0
  }

  lemma GrowingIsSound(src: Source, base: nat, next: nat, d: Direction, held: seq<Arrival>, a: Arrival, d0: Direction)
    requires Sound(src, base, next, d, held) && Consistent(src, a) && d0 == d.(counters := d0.counters)
    requires a.offset <= next < a.End() && Fits(d.stream, Slice(src, next, a.End()))
    ensures Sound(src, base, Passed(a), Grown(src, next, d0, a), held)
    ensures var (flushed, ok) := Flush(Grown(src, next, d0, a));
            Delivered(d0, d.next, FinFlag(a.flags), Slice(src, next, a.End()))
            == (flushed, if ok then Accepted else Dropped)
  {
    hide Wrap, TotalBytes, Flush, HeldAs, InReach;
    var tail, fin := Slice(src, next, a.End()), FinFlag(a.flags);
    AppendSlice(src, base, d.stream.unread, a.End());
    WrapOfSum(src.isn + next, |tail|);
    FinMovesOn(src.isn + a.End(), fin);
  }

  lemma SlicePrefix(src: Source, lo: nat, hi: nat, k: nat)
    requires lo + k <= hi <= |src.bytes|
    ensures Slice(src, lo, hi)[..k] == Slice(src, lo, lo + k)
  {
  }

  lemma DeliveryStaysSound(src: Source, base: nat, next: nat, d: Direction, held: seq<Arrival>, a: Arrival,
                           d0: Direction)
      returns (next': nat, held': seq<Arrival>)
    requires Sound(src, base, next, d, held) && Consistent(src, a) && d0 == d.(counters := d0.counters)
    requires a.offset <= next < a.End()
    ensures SoundSoFar(src, base, d.stream.capacity,
                       Delivered(d0, d.next, FinFlag(a.flags), Slice(src, next, a.End())).0, next', held')
  {
    hide Wrap, TotalBytes, Flush, HeldInReach, StoreBounded;
    next', held' := next, held;
    if Fits(d.stream, Slice(src, next, a.End())) {
      GrowingIsSound(src, base, next, d, held, a, d0);
      next', held' := FlushStaysSound(src, base, Passed(a), Grown(src, next, d0, a), held);
    } else {
      var room := Room(d.stream);
      SlicePrefix(src, next, a.End(), room);
      AppendSlice(src, base, d.stream.unread, next + room);
    }
  }

  /** What placing a segment computes: a retransmission, a stored segment, or exactly the source from the expected byte
      on. */
  lemma PlacedInReach(src: Source, base: nat, next: nat, d: Direction, a: Arrival)
    requires Bounded(d) && d.next == Wrap(src.isn + next) && base <= next <= base + d.stream.capacity + 1
    requires Consistent(src, a) && InReach(base, d.stream.capacity, a) && a.length > 0
    ensures var start, bytes := Wrap(src.isn + a.offset), Slice(src, a.offset, a.End());
            var placed := Placed(d, start, FinFlag(a.flags), bytes);
            if BeforeOrEqual(Wrap(start + a.length), d.next) then placed == (CountRetransmission(d), Ignored)
            else if Before(d.next, start) then
              placed == (CountGap(d).(store := Stored(d.store, start, bytes)),
                         if CanStore(d.store, bytes) then Buffered else Dropped)
            else
              && a.offset <= next < a.End()
              && placed == Delivered(if a.offset < next then CountOverlap(d) else d, d.next, FinFlag(a.flags),
                                     Slice(src, next, a.End()))
  {
    hide Wrap, TotalBytes, Delivered, Before;
    var start, bytes := Wrap(src.isn + a.offset), Slice(src, a.offset, a.End());
    if !BeforeOrEqual(Wrap(start + |bytes|), d.next) && !Before(d.next, start) {
      NotAheadIsReached(start, d.next);
      TrimIsShorterThanSegment(start, |bytes|, d.next);
      DistanceIsExact(src, base, next, d.stream.capacity, a);
      assert bytes[next - a.offset..] == Slice(src, next, a.End());
      WrapOfDifference(src.isn + next, src.isn + a.offset);
      WrapOfSmall(0);
      if a.offset < next {
        assert Before(start, d.next);
      }
    }
  }

  lemma PlacingStaysSound(src: Source, base: nat, next: nat, d: Direction, held: seq<Arrival>, a: Arrival)
      returns (next': nat, held': seq<Arrival>)
    requires Sound(src, base, next, d, held) && Consistent(src, a) && InReach(base, d.stream.capacity, a)
             && a.length > 0
    ensures SoundSoFar(src, base, d.stream.capacity,
                       Placed(d, Wrap(src.isn + a.offset), FinFlag(a.flags), Slice(src, a.offset, a.End())).0,
                       next', held')
  {
    hide Wrap, TotalBytes, Delivered, Before, BeforeOrEqual, Placed, Sized;
    var start, bytes := Wrap(src.isn + a.offset), Slice(src, a.offset, a.End());
    PlaceKeepsBounds(d, start, FinFlag(a.flags), bytes);
    PlacedInReach(src, base, next, d, a);
    next', held' := next, held;
    if BeforeOrEqual(Wrap(start + a.length), d.next) {
    } else if Before(d.next, start) {
      if CanStore(d.store, bytes) {
        held' := held + [a];
      }
    } else {
      next', held' := DeliveryStaysSound(src, base, next, d, held, a, if a.offset < next then CountOverlap(d) else d);
    }
  }

  lemma NotAheadIsReached(start: uint32, next: uint32)
    requires !Before(next, start)
    ensures BeforeOrEqual(start, next)
  {
    assert Wrap(next - start) == if next >= start then next - start else next - start + MODULUS;
    assert Wrap(start - next) == if start >= next then start - next else start - next + MODULUS;
  }

  lemma EmptyStaysSound(src: Source, base: nat, next: nat, d: Direction, held: seq<Arrival>, a: Arrival)
      returns (next': nat)
    requires Sound(src, base, next, d, held) && Consistent(src, a) && InReach(base, d.stream.capacity, a)
             && a.length == 0
    ensures SoundSoFar(src, base, d.stream.capacity, Received(src, d, a).0, next', held)
    ensures !Received(src, d, a).0.unusable && Received(src, d, a).0.stream == d.stream
    ensures next' == next || next' == next + 1 == |src.bytes| + 1
  {
    hide Wrap, TotalBytes, HeldAs, Flush;
    WireStart(src, a);
    DistanceIsExact(src, base, next, d.stream.capacity, a);
    next' := next;
    if FinFlag(a.flags) && d.next == Wrap(src.isn + a.offset) {
      assert Wrap(d.next - Wrap(src.isn + a.offset)) == 0 by { WrapOfSmall(0); }
      WrapOfSum(src.isn + next, 1);
      next' := next + 1;
    }
  }

  lemma ArrivalStaysSound(src: Source, base: nat, next: nat, d: Direction, held: seq<Arrival>, a: Arrival)
      returns (next': nat, held': seq<Arrival>)
    requires Sound(src, base, next, d, held) && Consistent(src, a) && InReach(base, d.stream.capacity, a)
    ensures SoundSoFar(src, base, d.stream.capacity, Received(src, d, a).0, next', held')
  {
    hide Wrap, TotalBytes, Placed, HeldAs, InReach;
    if a.length == 0 {
      next' := EmptyStaysSound(src, base, next, d, held, a);
      held' := held;
    } else {
      WireStart(src, a);
      next', held' := PlacingStaysSound(src, base, next, TrackedFlags(d, a.flags), held, a);
    }
  }

  lemma {:induction false} RunStaysSound(src: Source, cap: nat, arrivals: seq<Arrival>)
      returns (next: nat, held: seq<Arrival>)
    requires arrivals != [] && (forall a <- arrivals :: Consistent(src, a)) && Unambiguous(src, cap, arrivals)
    ensures SoundSoFar(src, Base(arrivals), cap, After(src, cap, arrivals), next, held)
    decreases |arrivals|
  {
    hide Received, Sound, InReach, Wrap;
    var before, a := arrivals[..|arrivals| - 1], arrivals[|arrivals| - 1];
    assert arrivals == before + [a] && a in arrivals;
    var d := After(src, cap, before);
    if before == [] {
      FirstBaseline(src, cap, a);
      FirstIsSound(src, cap, a);
      d := Initialized(cap).(known := true, next := Wrap(src.isn + a.offset));
      next, held := ArrivalStaysSound(src, a.offset, a.offset, d, [], a);
    } else {
      assert forall x <- before :: x in arrivals;
      next, held := RunStaysSound(src, cap, before);
      if d.unusable {
        PoisonedStaysPut(src, d, a);
      } else {
        next, held := ArrivalStaysSound(src, Base(arrivals), next, d, held, a);
      }
    }
  }

  lemma FirstIsSound(src: Source, cap: nat, a: Arrival)
    requires Consistent(src, a)
    ensures Sound(src, a.offset, a.offset, Initialized(cap).(known := true, next := Wrap(src.isn + a.offset)), [])
  {
    hide Wrap;
  }

  /** No splice: in every run, drops, full stores, truncation and poisoning included, the stream is a contiguous piece
      of the source that starts at the first arrival and fits the buffer. Only arrivals that meet a usable direction
      have to be in reach, and reach is the whole number space, not half of it. */
  lemma NoSplice(src: Source, cap: nat, arrivals: seq<Arrival>)
    requires arrivals != [] && (forall a <- arrivals :: Consistent(src, a)) && Unambiguous(src, cap, arrivals)
    ensures var stream := After(src, cap, arrivals).stream.unread;
            IsPrefixAt(src, Base(arrivals), stream) && |stream| <= cap
  {
    hide Received;
    var next, held := RunStaysSound(src, cap, arrivals);
  }

  // ----- where splicing begins -----

  /** Another offset with the sequence number of the expected byte lies inside the arrival, at a distance that the
      comparisons take for an overlap. */
  predicate Aliases(next: nat, a: Arrival, k: int) {
    var alias := next + k * MODULUS;
    && k != 0 && a.offset <= alias < a.End()
    && alias - a.offset < HALF && a.End() - alias < HALF
  }

  /** A direction with nothing pending and room for more bytes, on a source, that is spliced by the arrival. */
  ghost predicate Splices(src: Source, base: nat, next: nat, cap: nat, d: Direction, a: Arrival) {
    && Consistent(src, a) && Bounded(d) && OnStream(src, base, next, d) && next == base + |d.stream.unread|
    && d.store.pending == [] && d.stream.capacity == cap
    && !IsPrefixAt(src, base, Received(src, d, a).0.stream.unread)
  }

  /** What the wrapped comparisons let through: with nothing pending, the bytes from the expected number on are
      appended, as far as they fit, exactly when both parts of the segment are shorter than half the number space. */
  lemma AppendedByDistance(d: Direction, start: uint32, fin: bool, bytes: seq<byte>)
    requires Bounded(d) && d.store.pending == [] && d.stream.live && 0 < |bytes| < MODULUS
    ensures var distance := Wrap(d.next - start);
            Placed(d, start, fin, bytes).0.stream.unread ==
            if distance < |bytes| && distance < HALF && |bytes| - distance < HALF then
              d.stream.unread + bytes[distance..][..Min(|bytes| - distance, Room(d.stream))]
            else d.stream.unread
  {
    hide Wrap, TotalBytes;
    var distance := Wrap(d.next - start);
    ComparisonsByDistance(start, |bytes|, d.next);
    if distance < |bytes| && distance < HALF && |bytes| - distance < HALF {
      assert bytes[0..] == bytes;
      var tail := bytes[distance..];
      assert tail[..|tail|] == tail;
      NothingToFlush((if Before(start, d.next) then CountOverlap(d) else d).(
                     stream := Appended(d.stream, tail), next := EndSequence(Wrap(d.next + |tail|), fin)));
      WrapOfSum(d.next - start, start + |tail|);
    }
  }

  lemma NothingToFlush(d: Direction)
    requires d.store.pending == []
    ensures Flush(d) == (d, true)
  {
  }

  lemma ComparisonsByDistance(start: uint32, length: nat, next: uint32)
    requires 0 < length < MODULUS
    ensures var distance := Wrap(next - start);
            && (Before(next, start) <==> distance >= HALF)
            && (distance < length && distance < HALF ==>
                  && (!BeforeOrEqual(Wrap(start + length), next) <==> length - distance < HALF)
                  && (Before(start, next) <==> distance > 0)
                  && Wrap(start + length) == Wrap(next + (length - distance)))
            && (distance >= length && distance < HALF ==> BeforeOrEqual(Wrap(start + length), next))
  {
  }

  lemma DataOnIdleDirection(src: Source, base: nat, next: nat, d: Direction, a: Arrival)
    requires Consistent(src, a) && Bounded(d) && OnStream(src, base, next, d) && d.store.pending == [] && a.length > 0
    ensures var distance := Wrap(next - a.offset);
            Received(src, d, a).0.stream.unread ==
            if distance < a.length && distance < HALF && a.length - distance < HALF then
              d.stream.unread + Slice(src, a.offset + distance, a.End())[..Min(a.length - distance, Room(d.stream))]
            else d.stream.unread
  {
    hide Wrap, TotalBytes, Placed;
    WireStart(src, a);
    WrapOfDifference(src.isn + next, src.isn + a.offset);
    var distance, bytes := Wrap(next - a.offset), Slice(src, a.offset, a.End());
    AppendedByDistance(TrackedFlags(d, a.flags), Wrap(src.isn + a.offset), FinFlag(a.flags), bytes);
    if distance < a.length {
      assert bytes[distance..] == Slice(src, a.offset + distance, a.End());
    }
  }

  lemma SplicedMeansAliased(src: Source, base: nat, next: nat, cap: nat, d: Direction, a: Arrival) returns (k: int)
    requires Splices(src, base, next, cap, d, a)
    ensures Aliases(next, a, k)
  {
    hide Received, StoreBounded, OnStream;
    SpliceHasData(src, base, next, cap, d, a);
    DataOnIdleDirection(src, base, next, d, a);
    var distance := Wrap(next - a.offset);
    k := -((next - a.offset) / MODULUS);
    assert next + k * MODULUS == a.offset + distance;
    if k == 0 {
      OwnBytesFit(src, base, next, d, a);
    }
  }

  lemma SpliceHasData(src: Source, base: nat, next: nat, cap: nat, d: Direction, a: Arrival)
    requires Splices(src, base, next, cap, d, a)
    ensures a.length > 0 && IsPrefixAt(src, base, d.stream.unread)
  {
    hide Processed;
    if a.length == 0 {
      EmptyAddsNothing(src, d, a);
      assert false;
    }
  }

  lemma OwnBytesFit(src: Source, base: nat, next: nat, d: Direction, a: Arrival)
    requires Bounded(d) && IsPrefixAt(src, base, d.stream.unread) && next == base + |d.stream.unread|
    requires a.offset <= next < a.End() <= |src.bytes|
    ensures IsPrefixAt(src, base, d.stream.unread + Slice(src, next, a.End())[..Min(a.End() - next, Room(d.stream))])
  {
    hide StoreBounded;
    var take := Min(a.End() - next, Room(d.stream));
    SlicePrefix(src, next, a.End(), take);
    AppendSlice(src, base, d.stream.unread, next + take);
  }

  lemma EmptyAddsNothing(src: Source, d: Direction, a: Arrival)
    requires Bounded(d) && Consistent(src, a) && a.length == 0
    ensures Received(src, d, a).0.stream == d.stream
  {
  }

  /** A source whose byte at `next` differs from all others. */
  function Marked(isn: nat, size: nat, next: nat): (src: Source)
    ensures |src.bytes| == size && src.isn == isn
    ensures forall i | 0 <= i < size :: src.bytes[i] == if i == next then 1 else 0
  {
    Source(seq(size, i => if i == next then 1 else 0), isn)
  }

  /** A direction that has the source up to `next` and nothing else. */
  function Idle(src: Source, base: nat, next: nat, cap: nat): Direction
    requires base <= next <= |src.bytes|
  {
    Initialized(cap).(known := true, next := Wrap(src.isn + next), stream := Stream(true, cap, Slice(src, base, next)))
  }

  lemma IdleIsOnStream(src: Source, base: nat, next: nat, cap: nat)
    requires base <= next <= |src.bytes| && next <= base + cap
    ensures var d := Idle(src, base, next, cap);
            Bounded(d) && OnStream(src, base, next, d) && d.store.pending == [] && d.stream.capacity == cap
  {
    hide Wrap;
  }

  lemma AliasedCanSplice(isn: nat, size: nat, base: nat, next: nat, cap: nat, a: Arrival, k: int)
      returns (src: Source, d: Direction)
    requires a.length < MODULUS && a.End() <= size && (FinFlag(a.flags) ==> a.End() == size)
    requires base <= next <= size && next < base + cap && Aliases(next, a, k)
    ensures |src.bytes| == size && src.isn == isn && Splices(src, base, next, cap, d, a)
  {
    hide Received, Wrap, Bounded, OnStream;
    src := Marked(isn, size, next);
    d := Idle(src, base, next, cap);
    IdleIsOnStream(src, base, next, cap);
    DataOnIdleDirection(src, base, next, d, a);
    var alias := next + k * MODULUS;
    WrapShift(alias - a.offset, -k);
    WrapOfSmall(alias - a.offset);
    var foreign := Slice(src, alias, a.End());
    ForeignByte(src, base, next, Received(src, d, a).0.stream.unread, foreign[..Min(|foreign|, Room(d.stream))]);
  }

  lemma ForeignByte(src: Source, base: nat, next: nat, unread: seq<byte>, foreign: seq<byte>)
    requires base <= next <= |src.bytes| && unread == Slice(src, base, next) + foreign && foreign != []
             && foreign[0] == 0
    requires next < |src.bytes| ==> src.bytes[next] == 1
    ensures !IsPrefixAt(src, base, unread)
  {
    assert unread[next - base] == 0;
    if next < |src.bytes| && base + |unread| <= |src.bytes| {
      assert Slice(src, base, base + |unread|)[next - base] == 1;
    }
  }

  /** Where splicing begins, exactly: on a direction with nothing pending and room to spare, an arrival can bring in
      foreign bytes, for some content of the source, if and only if an offset one or more whole number spaces away from
      the expected one lies inside it. Inside the window of `NoSplice` there is none. */
  lemma SplicesExactlyWhereNumbersAlias(isn: nat, size: nat, base: nat, next: nat, cap: nat, a: Arrival)
    requires a.length < MODULUS && a.End() <= size && (FinFlag(a.flags) ==> a.End() == size)
    requires base <= next <= size && next < base + cap
    ensures (exists src: Source, d: Direction ::
               |src.bytes| == size && src.isn == isn && Splices(src, base, next, cap, d, a))
       <==> exists k :: Aliases(next, a, k)
    ensures InReach(base, cap, a) ==> forall k :: !Aliases(next, a, k)
  {
    if src: Source, d: Direction :| |src.bytes| == size && src.isn == isn && Splices(src, base, next, cap, d, a) {
      var k := SplicedMeansAliased(src, base, next, cap, d, a);
    }
    if k :| Aliases(next, a, k) {
      var src, d := AliasedCanSplice(isn, size, base, next, cap, a, k);
    }
  }

  // ----- outside the windows -----

  /** A segment at the expected sequence number that fits, with nothing pending, just extends the stream. */
  lemma ExpectedDataExtends(src: Source, d: Direction, a: Arrival)
    requires Bounded(d) && Consistent(src, a) && 0 < a.length < HALF && a.flags == 0
    requires !d.unusable && d.store.pending == [] && d.stream.live && |d.stream.unread| + a.length <= d.stream.capacity
    requires d.known ==> d.next == Wrap(src.isn + a.offset)
    ensures Received(src, d, a) ==
            (d.(known := true, next := Wrap(src.isn + a.End()),
                stream := d.stream.(unread := d.stream.unread + Slice(src, a.offset, a.End()))), Accepted)
  {
    hide Wrap, Before;
    WireStart(src, a);
    WrapOfSum(src.isn + a.offset, a.length);
    SerialOrderIsExact(src.isn + a.offset, src.isn + a.offset);
    SerialOrderIsExact(src.isn + a.End(), src.isn + a.offset);
  }

  /** A run that splices: the first byte, then the byte 2^32 after the next one. */
  lemma SpliceOutsideTheWindow(src: Source, cap: nat)
    requires |src.bytes| > MODULUS + 2 && cap >= 2 && src.bytes[1] != src.bytes[MODULUS + 1]
    ensures var arrivals := [Arrival(0, 1, 0), Arrival(MODULUS + 1, 1, 0)];
            && (forall a <- arrivals :: Consistent(src, a))
            && !IsPrefixAt(src, 0, After(src, cap, arrivals).stream.unread)
  {
    hide Wrap, Received;
    var first, far := Arrival(0, 1, 0), Arrival(MODULUS + 1, 1, 0);
    assert [first, far][..1] == [first] && [first][..0] == [];
    WrapShift(src.isn + 1, 1);
    ExpectedDataExtends(src, After(src, cap, []), first);
    ExpectedDataExtends(src, After(src, cap, [first]), far);
    assert After(src, cap, [first, far]).stream.unread[1] == src.bytes[MODULUS + 1];
  }

  /** A byte more than half the number space ahead is taken for an old one. */
  lemma FarAheadIsIgnored(src: Source, d: Direction, a: Arrival)
    requires Bounded(d) && Consistent(src, a) && a.length == 1 && a.flags == 0 && !d.unusable && d.known
    requires d.next == Wrap(src.isn + a.offset - HALF - 1)
    ensures Received(src, d, a) == (CountRetransmission(d), Ignored)
  {
    hide Wrap;
    WireStart(src, a);
    WrapOfSum(src.isn + a.offset, 1);
    WrapOfDifference(src.isn + a.offset + 1, src.isn + a.offset - HALF - 1);
    WrapOfSmall(HALF + 2);
  }

  lemma NothingBefore(src: Source, cap: nat)
    ensures After(src, cap, []) == Initialized(cap) && NothingDropped(src, cap, [])
  {
  }

  lemma OneMore(src: Source, cap: nat, arrivals: seq<Arrival>, a: Arrival)
    requires (forall x <- arrivals :: Consistent(src, x)) && Consistent(src, a)
    ensures forall x <- arrivals + [a] :: Consistent(src, x)
    ensures var (r, result) := Received(src, After(src, cap, arrivals), a);
            && After(src, cap, arrivals + [a]) == r
            && (NothingDropped(src, cap, arrivals + [a]) <==> NothingDropped(src, cap, arrivals) && result != Dropped)
  {
    hide Received;
    assert (arrivals + [a])[..|arrivals|] == arrivals;
  }

  /** Completeness needs half the number space: a run that drops nothing and covers all of 2147483651 bytes, but whose
      second segment, ignored as an old one, never reaches the stream. */
  lemma MissedOutsideTheWindow(src: Source, cap: nat)
    requires |src.bytes| > HALF + 3 && cap > HALF + 3
    ensures var arrivals := [Arrival(0, 1, 0), Arrival(HALF + 2, 1, 0), Arrival(1, HALF - 1, 0), Arrival(HALF, 2, 0)];
            && (forall a <- arrivals :: Consistent(src, a))
            && NothingDropped(src, cap, arrivals) && CoveredBy(arrivals, 0, HALF + 3)
            && |After(src, cap, arrivals).stream.unread| == HALF + 2
  {
    hide Wrap, Received, After, NothingDropped;
    var a0, a1, a2, a3 := Arrival(0, 1, 0), Arrival(HALF + 2, 1, 0), Arrival(1, HALF - 1, 0), Arrival(HALF, 2, 0);
    var arrivals := [a0, a1, a2, a3];
    assert [] + [a0] == [a0] && [a0] + [a1] == [a0, a1] && [a0, a1] + [a2] == [a0, a1, a2];
    assert [a0, a1, a2] + [a3] == arrivals;
    NothingBefore(src, cap);
    OneMore(src, cap, [], a0);
    ExpectedDataExtends(src, After(src, cap, []), a0);
    OneMore(src, cap, [a0], a1);
    FarAheadIsIgnored(src, After(src, cap, [a0]), a1);
    OneMore(src, cap, [a0, a1], a2);
    ExpectedDataExtends(src, After(src, cap, [a0, a1]), a2);
    OneMore(src, cap, [a0, a1, a2], a3);
    ExpectedDataExtends(src, After(src, cap, [a0, a1, a2]), a3);
    forall k | 0 <= k < HALF + 3
      ensures IsCovered(arrivals, k)
    {
      var i := if k == 0 then 0 else if k < HALF then 2 else if k < HALF + 2 then 3 else 1;
      assert arrivals[i] in arrivals && Covers(arrivals[i], k);
    }
  }
}
