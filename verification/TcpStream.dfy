/** What reassembly guarantees about the stream, over every arrival order of slices of one source. */
module TcpStream {
  import opened Bytes
  import opened SerialNumbers
  import opened StreamBuffers
  import opened TcpReassembly

  /** The bytes one endpoint sent; `bytes[k]` carries sequence number `isn + k`, wrapped. */
  datatype Source = Source(bytes: seq<byte>, isn: nat)

  /** A segment on the wire, by the unbounded offset of its payload in the source. */
  datatype Arrival = Arrival(offset: nat, length: nat, flags: byte) {
    function End(): nat { offset + length }
  }

  predicate Covers(a: Arrival, k: int) {
    a.offset <= k < a.End()
  }

  /** The payload is a slice of the source, and a FIN is sent only at its end. */
  predicate Consistent(src: Source, a: Arrival) {
    a.End() <= |src.bytes| && a.length < MODULUS && (a.flags % 2 == 1 ==> a.End() == |src.bytes|)
  }

  /** Offsets that 32-bit serial numbers cannot confuse while the stream grows from `base` by at
      most `cap` bytes and a FIN. */
  predicate InWindow(base: nat, cap: nat, a: Arrival) {
    base + cap + 1 < a.offset + HALF && a.End() < base + HALF
  }

  function Slice(src: Source, lo: nat, hi: nat): seq<byte>
    requires lo <= hi <= |src.bytes|
  {
    src.bytes[lo..hi]
  }

  function WireSequence(src: Source, a: Arrival): uint32 {
    Wrap(src.isn + a.offset - if a.flags / 2 % 2 == 1 then 1 else 0)
  }

  function WirePayload(src: Source, a: Arrival): Payload
    requires Consistent(src, a)
  {
    Data(Slice(src, a.offset, a.End()))
  }

  function Received(src: Source, d: Direction, a: Arrival): (Direction, Result)
    requires Bounded(d) && Consistent(src, a)
  {
    Processed(d, WireSequence(src, a), a.flags, WirePayload(src, a))
  }

  lemma WireStart(src: Source, a: Arrival)
    ensures PayloadSequence(WireSequence(src, a), a.flags) == Wrap(src.isn + a.offset)
  {
    if SynFlag(a.flags) {
      WrapOfSum(src.isn + a.offset - 1, 1);
    }
  }

  /** The direction after a run that starts freshly initialised. */
  function After(src: Source, cap: nat, arrivals: seq<Arrival>): (d: Direction)
    requires forall a <- arrivals :: Consistent(src, a)
    ensures Bounded(d)
  {
    if arrivals == [] then Initialized(cap)
    else
      var before := After(src, cap, arrivals[..|arrivals| - 1]);
      var a := arrivals[|arrivals| - 1];
      ProcessKeepsBounds(before, WireSequence(src, a), a.flags, WirePayload(src, a));
      Received(src, before, a).0
  }

  predicate NothingDropped(src: Source, cap: nat, arrivals: seq<Arrival>)
    requires forall a <- arrivals :: Consistent(src, a)
  {
    arrivals == [] ||
    var before := arrivals[..|arrivals| - 1];
    NothingDropped(src, cap, before) && Received(src, After(src, cap, before), arrivals[|arrivals| - 1]).1 != Dropped
  }

  // ----- the correspondence between wrapped state and unbounded offsets -----

  ghost predicate IsPrefixAt(src: Source, base: nat, bytes: seq<byte>) {
    base + |bytes| <= |src.bytes| && bytes == Slice(src, base, base + |bytes|)
  }

  /** `next` is the unbounded offset of the expected byte: the end of the stream, or one past it
      when the FIN has been consumed at the end of the source. */
  ghost predicate OnStream(src: Source, base: nat, next: nat, d: Direction) {
    && d.known && !d.unusable && d.stream.live
    && IsPrefixAt(src, base, d.stream.unread)
    && d.next == Wrap(src.isn + next)
    && (next == base + |d.stream.unread| || (next == base + |d.stream.unread| + 1 == |src.bytes| + 1))
  }

  ghost predicate HeldAs(src: Source, h: Arrival, p: Segment) {
    h.length > 0 && h.End() <= |src.bytes| && p == Segment(Wrap(src.isn + h.offset), Slice(src, h.offset, h.End()))
  }

  /** `held` are the arrivals that the pending store keeps, in order. */
  ghost predicate Holds(src: Source, base: nat, d: Direction, held: seq<Arrival>) {
    && |held| == |d.store.pending|
    && forall i | 0 <= i < |held| ::
         HeldAs(src, held[i], d.store.pending[i]) && InWindow(base, d.stream.capacity, held[i])
  }

  ghost predicate Tracks(src: Source, base: nat, next: nat, d: Direction, held: seq<Arrival>) {
    && Bounded(d)
    && OnStream(src, base, next, d)
    && Holds(src, base, d, held)
    && forall i | 0 <= i < |held| :: next < held[i].offset
  }

  predicate Settled(a: Arrival, next: nat) {
    a.length == 0 || a.End() <= next
  }

  ghost predicate IsCovered(arrivals: seq<Arrival>, k: int) {
    exists a <- arrivals :: Covers(a, k)
  }

  ghost predicate CoveredBy(arrivals: seq<Arrival>, lo: nat, hi: nat) {
    forall k | lo <= k < hi :: IsCovered(arrivals, k)
  }

  /** The arrivals with bytes that start beyond `n`, in order. */
  function Beyond(arrivals: seq<Arrival>, n: nat): seq<Arrival> {
    if arrivals == [] then []
    else
      var last := arrivals[|arrivals| - 1];
      Beyond(arrivals[..|arrivals| - 1], n) + if last.length > 0 && last.offset > n then [last] else []
  }

  lemma BeyondWithLast(arrivals: seq<Arrival>, a: Arrival, n: nat)
    ensures Beyond(arrivals + [a], n) == Beyond(arrivals, n) + if a.length > 0 && a.offset > n then [a] else []
  {
    assert (arrivals + [a])[..|arrivals|] == arrivals;
  }

  lemma {:induction false} BeyondTwice(arrivals: seq<Arrival>, n: nat, m: nat)
    requires n <= m
    ensures Beyond(Beyond(arrivals, n), m) == Beyond(arrivals, m)
    decreases |arrivals|
  {
    if arrivals != [] {
      var init, last := arrivals[..|arrivals| - 1], arrivals[|arrivals| - 1];
      BeyondTwice(init, n, m);
      if last.length > 0 && last.offset > n {
        BeyondWithLast(Beyond(init, n), last, m);
      } else {
        assert Beyond(init, n) + [] == Beyond(init, n);
      }
    }
  }

  lemma {:induction false} AllBeyond(arrivals: seq<Arrival>, n: nat)
    requires forall i | 0 <= i < |arrivals| :: arrivals[i].length > 0 && arrivals[i].offset > n
    ensures Beyond(arrivals, n) == arrivals
    decreases |arrivals|
  {
    if arrivals != [] {
      AllBeyond(arrivals[..|arrivals| - 1], n);
    }
  }

  lemma {:induction false} BeyondWithoutAt(arrivals: seq<Arrival>, i: nat, n: nat)
    requires i < |arrivals| && arrivals[i].offset <= n
    ensures Beyond(WithoutAt(arrivals, i), n) == Beyond(arrivals, n)
    decreases |arrivals|
  {
    var last := |arrivals| - 1;
    if i == last {
      assert WithoutAt(arrivals, i) == arrivals[..last];
    } else {
      BeyondWithoutAt(arrivals[..last], i, n);
      assert WithoutAt(arrivals, i) == WithoutAt(arrivals[..last], i) + [arrivals[last]];
      BeyondWithLast(WithoutAt(arrivals[..last], i), arrivals[last], n);
    }
  }

  lemma ComparisonsAreExact(src: Source, base: nat, next: nat, cap: nat, a: Arrival)
    requires base <= next <= base + cap + 1 && InWindow(base, cap, a)
    ensures var at, expected := Wrap(src.isn + a.offset), Wrap(src.isn + next);
            var end := Wrap(at + a.length);
            && (BeforeOrEqual(end, expected) <==> a.End() <= next)
            && (BeforeOrEqual(at, expected) <==> a.offset <= next)
            && (Before(expected, at) <==> next < a.offset)
            && (Before(at, expected) <==> a.offset < next)
            && (at == expected <==> a.offset == next)
            && end == Wrap(src.isn + a.End())
            && (a.offset <= next < a.End() ==> Wrap(expected - at) == next - a.offset)
  {
    hide Wrap, Before;
    WrapOfSum(src.isn + a.offset, a.length);
    SerialOrderIsExact(src.isn + a.End(), src.isn + next);
    SerialOrderIsExact(src.isn + a.offset, src.isn + next);
    SerialOrderIsExact(src.isn + next, src.isn + a.offset);
    WrapOfDifference(src.isn + next, src.isn + a.offset);
    if a.offset <= next < a.End() {
      WrapOfSmall(next - a.offset);
    }
  }

  lemma AppendSlice(src: Source, base: nat, bytes: seq<byte>, end: nat)
    requires IsPrefixAt(src, base, bytes) && base + |bytes| <= end <= |src.bytes|
    ensures bytes + Slice(src, base + |bytes|, end) == Slice(src, base, end)
  {
  }

  lemma ReadyMeansReached(src: Source, base: nat, next: nat, d: Direction, held: seq<Arrival>)
    requires Bounded(d) && OnStream(src, base, next, d) && Holds(src, base, d, held)
    ensures forall j | 0 <= j < |held| :: Ready(d.next, d.store.pending[j]) <==> held[j].offset <= next
  {
    hide Wrap;
    forall j | 0 <= j < |held|
      ensures Ready(d.next, d.store.pending[j]) <==> held[j].offset <= next
    {
      assert HeldAs(src, held[j], d.store.pending[j]);
      ComparisonsAreExact(src, base, next, d.stream.capacity, held[j]);
    }
  }

  lemma HeldAt(src: Source, base: nat, d: Direction, held: seq<Arrival>, i: nat)
    requires Holds(src, base, d, held) && i < |held|
    ensures |held| == |d.store.pending|
    ensures HeldAs(src, held[i], d.store.pending[i]) && InWindow(base, d.stream.capacity, held[i])
  {
  }

  lemma HoldsWithoutAt(src: Source, base: nat, d: Direction, held: seq<Arrival>, i: nat, r: Direction)
    requires Holds(src, base, d, held) && i < |held|
    requires r.store.pending == WithoutAt(d.store.pending, i) && r.stream.capacity == d.stream.capacity
    ensures Holds(src, base, r, WithoutAt(held, i))
  {
    hide HeldAs;
  }

  /** What delivering a held segment computes, with the wrapped comparisons resolved. */
  lemma DeliveryInOffsets(src: Source, base: nat, next: nat, d: Direction, h: Arrival, i: nat)
    requires Sized(d.store.pending) && i < |d.store.pending| && Ready(d.next, d.store.pending[i])
    requires HeldAs(src, h, d.store.pending[i]) && InWindow(base, d.stream.capacity, h)
    requires d.next == Wrap(src.isn + next) && base <= next <= base + d.stream.capacity + 1 && h.offset <= next
    ensures PendingDelivered(d, i) ==
            if h.End() <= next then (CountRetransmission(d).(store := Removed(d.store, i)), true)
            else
              var counted := if h.offset < next then CountOverlap(d) else d;
              var tail := Slice(src, next, h.End());
              if Fits(d.stream, tail) then
                (counted.(stream := Appended(d.stream, tail), next := Wrap(src.isn + h.End()),
                          store := Removed(d.store, i)),
                 true)
              else (counted.(unusable := true), false)
  {
    hide Wrap, TotalBytes, Removed, Fits, Before, BeforeOrEqual;
    var p := d.store.pending[i];
    ComparisonsAreExact(src, base, next, d.stream.capacity, h);
    if h.End() > next {
      assert p.data[next - h.offset..] == Slice(src, next, h.End());
    }
  }

  /** One pending delivery, in unbounded offsets. */
  lemma DeliveryTracks(src: Source, base: nat, next: nat, d: Direction, held: seq<Arrival>, i: nat)
      returns (next': nat)
    requires Bounded(d) && OnStream(src, base, next, d) && Holds(src, base, d, held)
    requires i < |held| && held[i].offset <= next && Ready(d.next, d.store.pending[i])
    ensures var (r, ok) := PendingDelivered(d, i);
            && ok == !r.unusable
            && IsPrefixAt(src, base, r.stream.unread) && r.stream.capacity == d.stream.capacity
            && (ok ==> Bounded(r) && OnStream(src, base, next', r) && Holds(src, base, r, WithoutAt(held, i)))
    ensures next <= next' && held[i].End() <= next'
    ensures forall k | next <= k < next' :: Covers(held[i], k)
  {
    hide Wrap, Holds, HeldAs, WithoutAt, TotalBytes;
    HeldAt(src, base, d, held, i);
    var h := held[i];
    assert base <= next <= base + d.stream.capacity + 1;
    DeliveryInOffsets(src, base, next, d, h, i);
    DeliveryKeepsBounds(d, i);
    next' := if h.End() <= next then next else h.End();
    var (r, ok) := PendingDelivered(d, i);
    hide PendingDelivered, Bounded;
    if h.End() > next {
      AppendSlice(src, base, d.stream.unread, h.End());
    }
    if ok {
      HoldsWithoutAt(src, base, d, held, i, r);
    }
  }

  lemma MembersWithoutAt<T>(s: seq<T>, i: nat)
    requires i < |s|
    ensures forall x :: x in s <==> x == s[i] || x in WithoutAt(s, i)
  {
    assert s == s[..i] + [s[i]] + s[i + 1..];
  }

  lemma CoverageChains(held: seq<Arrival>, i: nat, lo: nat, middle: nat, hi: nat)
    requires i < |held|
    requires forall k | lo <= k < middle :: Covers(held[i], k)
    requires CoveredBy(WithoutAt(held, i), middle, hi)
    ensures CoveredBy(held, lo, hi)
  {
    MembersWithoutAt(held, i);
    forall k | lo <= k < hi
      ensures IsCovered(held, k)
    {
      if k < middle {
        assert held[i] in held && Covers(held[i], k);
      } else {
        assert IsCovered(WithoutAt(held, i), k);
      }
    }
  }

  /** After a flush: what was kept lies beyond the expected byte, what was not kept is in the
      stream, and every byte gained was covered. */
  ghost predicate Caught(held: seq<Arrival>, held': seq<Arrival>, next: nat, next': nat) {
    && next <= next'
    && (forall h <- held' :: h in held)
    && (forall h <- held :: Settled(h, next') || h in held')
    && CoveredBy(held, next, next')
    && held' == Beyond(held, next')
  }

  lemma CaughtChains(held: seq<Arrival>, i: nat, held': seq<Arrival>, next: nat, middle: nat, next': nat)
    requires i < |held| && next <= middle && held[i].End() <= middle
    requires forall k | next <= k < middle :: Covers(held[i], k)
    requires Caught(WithoutAt(held, i), held', middle, next')
    ensures Caught(held, held', next, next')
  {
    hide Beyond;
    BeyondWithoutAt(held, i, next');
    MembersWithoutAt(held, i);
    CoverageChains(held, i, next, middle, next');
  }

  lemma {:induction false} FlushTracks(src: Source, base: nat, next: nat, d: Direction, held: seq<Arrival>)
      returns (next': nat, held': seq<Arrival>)
    requires Bounded(d) && OnStream(src, base, next, d) && Holds(src, base, d, held)
    ensures var (r, ok) := Flush(d);
            && ok == !r.unusable
            && IsPrefixAt(src, base, r.stream.unread) && r.stream.capacity == d.stream.capacity
            && (ok ==> Tracks(src, base, next', r, held') && Caught(held, held', next, next'))
    decreases |held|
  {
    hide Wrap, PendingDelivered, TotalBytes, IsPrefixAt, Caught;
    var i := FirstReady(d.next, d.store.pending, 0);
    ReadyMeansReached(src, base, next, d, held);
    if i == |held| {
      next', held' := next, held;
      assert Caught(held, held, next, next) by {
        HeldHaveBytes(src, base, d, held);
        NothingToCatch(held, next);
      }
    } else {
      var middle := DeliveryTracks(src, base, next, d, held, i);
      var (delivered, ok) := PendingDelivered(d, i);
      next', held' := middle, [];
      if ok {
        next', held' := FlushTracks(src, base, middle, delivered, WithoutAt(held, i));
        if Flush(delivered).1 {
          CaughtChains(held, i, held', next, middle, next');
        }
      }
    }
  }

  lemma HeldHaveBytes(src: Source, base: nat, d: Direction, held: seq<Arrival>)
    requires Holds(src, base, d, held)
    ensures forall i | 0 <= i < |held| :: held[i].length > 0 && held[i].offset < |src.bytes|
  {
    forall i | 0 <= i < |held|
      ensures held[i].length > 0 && held[i].offset < |src.bytes|
    {
      assert HeldAs(src, held[i], d.store.pending[i]);
    }
  }

  lemma NothingToCatch(held: seq<Arrival>, next: nat)
    requires forall i | 0 <= i < |held| :: held[i].length > 0 && held[i].offset > next
    ensures Caught(held, held, next, next)
  {
    AllBeyond(held, next);
  }

  lemma TracksBeyond(src: Source, base: nat, next: nat, d: Direction, held: seq<Arrival>)
    requires Tracks(src, base, next, d, held)
    ensures Beyond(held, next) == held
  {
    HeldHaveBytes(src, base, d, held);
    AllBeyond(held, next);
  }

  // ----- one arrival -----

  /** The outcome of one arrival on a direction that was tracking the source at `next`. */
  ghost predicate Advanced(src: Source, base: nat, next: nat, cap: nat, held: seq<Arrival>, a: Arrival,
                           r: Direction, result: Result, next': nat, held': seq<Arrival>) {
    && IsPrefixAt(src, base, r.stream.unread) && r.stream.capacity == cap
    && (if r.unusable then
          result != Dropped ==> |r.stream.unread| == cap && CoveredBy([a], next, base + cap)
        else
          && Tracks(src, base, next', r, held') && next <= next'
          && (forall h <- held' :: h in held + [a])
          && (result == Dropped ==> next' == next && held' == held)
          && (result != Dropped ==>
                && (forall h <- held + [a] :: Settled(h, next') || h in held')
                && held' == Beyond(held + [a], next')
                && CoveredBy(held + [a], next, Min(next', |src.bytes|))))
  }

  lemma NothingHeldAtTheEnd(src: Source, base: nat, next: nat, d: Direction, held: seq<Arrival>)
    requires Tracks(src, base, next, d, held) && next >= |src.bytes|
    ensures held == []
  {
    HeldHaveBytes(src, base, d, held);
  }

  lemma EmptyArrivalTracks(src: Source, base: nat, next: nat, d: Direction, held: seq<Arrival>, a: Arrival)
      returns (next': nat)
    requires Tracks(src, base, next, d, held) && Consistent(src, a) && InWindow(base, d.stream.capacity, a)
    requires a.length == 0
    ensures var (r, result) := Received(src, d, a);
            Advanced(src, base, next, d.stream.capacity, held, a, r, result, next', held)
  {
    hide Wrap, TotalBytes, Flush, Beyond;
    WireStart(src, a);
    ComparisonsAreExact(src, base, next, d.stream.capacity, a);
    next' := if FinFlag(a.flags) && next == a.offset then next + 1 else next;
    WrapOfSum(src.isn + next, 1);
    TracksBeyond(src, base, next, d, held);
    BeyondWithLast(held, a, next');
    if next' > next {
      NothingHeldAtTheEnd(src, base, next, d, held);
      AllBeyond(held, next');
    }
  }

  lemma AdvanceAfterFlush(src: Source, base: nat, next: nat, cap: nat, held: seq<Arrival>, a: Arrival,
                          middle: nat, d': Direction)
      returns (next': nat, held': seq<Arrival>)
    requires Bounded(d') && OnStream(src, base, middle, d') && Holds(src, base, d', held)
    requires d'.stream.capacity == cap
    requires a.offset <= next < a.End() <= middle && Min(middle, |src.bytes|) == a.End()
    ensures var (r, ok) := Flush(d');
            Advanced(src, base, next, cap, held, a, r, if ok then Accepted else Dropped, next', held')
  {
    hide Wrap, TotalBytes, Flush, Tracks, IsPrefixAt, Beyond, Holds;
    next', held' := FlushTracks(src, base, middle, d', held);
    BeyondWithLast(held, a, next');
    assert Beyond(held, next') + [] == Beyond(held, next');
    if Flush(d').1 {
      assert Caught(held, held', middle, next');
      forall k | next <= k < Min(next', |src.bytes|)
        ensures IsCovered(held + [a], k)
      {
        if k < a.End() {
          assert a in held + [a] && Covers(a, k);
        } else {
          assert IsCovered(held, k);
        }
      }
    }
  }

  lemma WholeArrivalTracks(src: Source, base: nat, next: nat, d: Direction, held: seq<Arrival>, a: Arrival,
                           d0: Direction)
      returns (next': nat, held': seq<Arrival>)
    requires Tracks(src, base, next, d, held) && Consistent(src, a) && InWindow(base, d.stream.capacity, a)
    requires a.offset <= next < a.End() && d0 == d.(counters := d0.counters)
    requires Fits(d.stream, Slice(src, next, a.End()))
    ensures var (r, result) := Delivered(d0, d.next, FinFlag(a.flags), Slice(src, next, a.End()));
            Advanced(src, base, next, d.stream.capacity, held, a, r, result, next', held')
  {
    hide Wrap, TotalBytes, Flush, Advanced, HeldAs, InWindow;
    var bytes, fin := Slice(src, next, a.End()), FinFlag(a.flags);
    AppendSlice(src, base, d.stream.unread, a.End());
    WrapOfSum(src.isn + next, |bytes|);
    WrapOfSum(src.isn + a.End(), 1);
    var grown := d0.(stream := Appended(d.stream, bytes), next := EndSequence(Wrap(d.next + |bytes|), fin));
    var middle := a.End() + if fin then 1 else 0;
    assert grown.next == Wrap(src.isn + middle) by { FinMovesOn(src.isn + a.End(), fin); }
    next', held' := AdvanceAfterFlush(src, base, next, d.stream.capacity, held, a, middle, grown);
  }

  lemma FinMovesOn(end: nat, fin: bool)
    ensures EndSequence(Wrap(end), fin) == Wrap(end + if fin then 1 else 0)
  {
    WrapOfSum(end, 1);
  }

  lemma TruncatedArrivalTracks(src: Source, base: nat, next: nat, d: Direction, held: seq<Arrival>, a: Arrival,
                               d0: Direction)
    requires Tracks(src, base, next, d, held) && Consistent(src, a)
    requires a.offset <= next < a.End() && d0 == d.(counters := d0.counters)
    requires !Fits(d.stream, Slice(src, next, a.End()))
    ensures var (r, result) := Delivered(d0, d.next, FinFlag(a.flags), Slice(src, next, a.End()));
            Advanced(src, base, next, d.stream.capacity, held, a, r, result, next, held)
  {
    hide Wrap, TotalBytes, Flush, Tracks, Holds;
    assert Bounded(d) && OnStream(src, base, next, d) by { TracksParts(src, base, next, d, held); }
    var bytes, end := Slice(src, next, a.End()), base + d.stream.capacity;
    assert bytes[..Room(d.stream)] == Slice(src, next, end);
    AppendSlice(src, base, d.stream.unread, end);
    forall k | next <= k < end
      ensures IsCovered([a], k)
    {
      assert a in [a] && Covers(a, k);
    }
  }

  lemma TracksParts(src: Source, base: nat, next: nat, d: Direction, held: seq<Arrival>)
    requires Tracks(src, base, next, d, held)
    ensures Bounded(d) && OnStream(src, base, next, d)
  {
  }

  lemma DeliveredArrivalTracks(src: Source, base: nat, next: nat, d: Direction, held: seq<Arrival>, a: Arrival,
                               d0: Direction)
      returns (next': nat, held': seq<Arrival>)
    requires Tracks(src, base, next, d, held) && Consistent(src, a) && InWindow(base, d.stream.capacity, a)
    requires a.offset <= next < a.End() && d0 == d.(counters := d0.counters)
    ensures var (r, result) := Delivered(d0, d.next, FinFlag(a.flags), Slice(src, next, a.End()));
            Advanced(src, base, next, d.stream.capacity, held, a, r, result, next', held')
  {
    hide Delivered, Advanced, Tracks;
    if Fits(d.stream, Slice(src, next, a.End())) {
      next', held' := WholeArrivalTracks(src, base, next, d, held, a, d0);
    } else {
      TruncatedArrivalTracks(src, base, next, d, held, a, d0);
      next', held' := next, held;
    }
  }

  lemma DataArrivalTracks(src: Source, base: nat, next: nat, d: Direction, held: seq<Arrival>, a: Arrival)
      returns (next': nat, held': seq<Arrival>)
    requires Tracks(src, base, next, d, held) && Consistent(src, a) && InWindow(base, d.stream.capacity, a)
    requires a.length > 0
    ensures var (r, result) := Placed(d, Wrap(src.isn + a.offset), FinFlag(a.flags), Slice(src, a.offset, a.End()));
            Advanced(src, base, next, d.stream.capacity, held, a, r, result, next', held')
  {
    hide Wrap, TotalBytes, Flush, Delivered, Beyond;
    next', held' := next, held;
    TracksBeyond(src, base, next, d, held);
    BeyondWithLast(held, a, next);
    var bytes := Slice(src, a.offset, a.End());
    ComparisonsAreExact(src, base, next, d.stream.capacity, a);
    PlaceKeepsBounds(d, Wrap(src.isn + a.offset), FinFlag(a.flags), bytes);
    if a.End() <= next {
    } else if next < a.offset {
      if CanStore(d.store, bytes) {
        held' := held + [a];
      }
    } else if a.offset < next {
      assert bytes[next - a.offset..] == Slice(src, next, a.End());
      next', held' := DeliveredArrivalTracks(src, base, next, d, held, a, CountOverlap(d));
    } else {
      next', held' := DeliveredArrivalTracks(src, base, next, d, held, a, d);
    }
  }

  lemma ArrivalTracks(src: Source, base: nat, next: nat, d: Direction, held: seq<Arrival>, a: Arrival)
      returns (next': nat, held': seq<Arrival>)
    requires Tracks(src, base, next, d, held) && Consistent(src, a) && InWindow(base, d.stream.capacity, a)
    ensures var (r, result) := Received(src, d, a);
            Advanced(src, base, next, d.stream.capacity, held, a, r, result, next', held')
  {
    hide Wrap, TotalBytes, Placed, Advanced;
    if a.length == 0 {
      next' := EmptyArrivalTracks(src, base, next, d, held, a);
      held' := held;
    } else {
      WireStart(src, a);
      next', held' := DataArrivalTracks(src, base, next, TrackedFlags(d, a.flags), held, a);
    }
  }

  // ----- whole runs -----

  /** The run starts at the offset of its first arrival. */
  function Base(arrivals: seq<Arrival>): nat
    requires arrivals != []
  {
    arrivals[0].offset
  }

  /** Slices of one source, near enough to the first one for serial numbers. */
  predicate Plausible(src: Source, cap: nat, arrivals: seq<Arrival>) {
    && (forall a <- arrivals :: Consistent(src, a))
    && (forall a <- arrivals :: InWindow(Base(arrivals), cap, a))
  }

  /** What a run has achieved: the stream is a prefix from the base; and unless something was
      dropped, every arrival is in the stream or held, and every byte of the stream was covered. */
  ghost predicate Progress(src: Source, base: nat, cap: nat, arrivals: seq<Arrival>, dropped: bool, d: Direction,
                           next: nat, held: seq<Arrival>) {
    && IsPrefixAt(src, base, d.stream.unread) && d.stream.capacity == cap
    && (if d.unusable then
          !dropped ==> |d.stream.unread| == cap && CoveredBy(arrivals, base, base + cap)
        else
          && Tracks(src, base, next, d, held)
          && (forall h <- held :: h in arrivals)
          && (!dropped ==>
                && (forall a <- arrivals :: Settled(a, next) || a in held)
                && held == Beyond(arrivals, next)
                && CoveredBy(arrivals, base, Min(next, |src.bytes|))))
  }

  lemma FirstBaseline(src: Source, cap: nat, a: Arrival)
    requires Consistent(src, a)
    ensures var d := Initialized(cap).(known := true, next := Wrap(src.isn + a.offset));
            && Bounded(d) && Received(src, d, a) == Received(src, Initialized(cap), a)
            && Progress(src, a.offset, cap, [], false, d, a.offset, [])
  {
    hide Wrap, Placed;
    WireStart(src, a);
  }

  lemma BeyondStep(arrivals: seq<Arrival>, held: seq<Arrival>, a: Arrival, next: nat, next': nat)
    ensures held == Beyond(arrivals, next) && next <= next' ==>
              Beyond(held + [a], next') == Beyond(arrivals + [a], next')
  {
    hide Beyond;
    if held == Beyond(arrivals, next) && next <= next' {
      BeyondTwice(arrivals, next, next');
      BeyondWithLast(held, a, next');
      BeyondWithLast(arrivals, a, next');
    }
  }

  lemma ProgressExtends(src: Source, base: nat, cap: nat, arrivals: seq<Arrival>, dropped: bool, d: Direction,
                        next: nat, held: seq<Arrival>, a: Arrival)
      returns (next': nat, held': seq<Arrival>)
    requires Progress(src, base, cap, arrivals, dropped, d, next, held) && !d.unusable
    requires Consistent(src, a) && InWindow(base, cap, a)
    ensures var (r, result) := Received(src, d, a);
            && Progress(src, base, cap, arrivals + [a], dropped || result == Dropped, r, next', held')
            && (!r.unusable ==> forall h <- held' :: h in held + [a])
  {
    assert Bounded(d);
    hide Wrap, TotalBytes, Processed, Tracks, Covers, Beyond, Bounded, OnStream;
    next', held' := ArrivalTracks(src, base, next, d, held, a);
    BeyondStep(arrivals, held, a, next, next');
    var (r, result) := Received(src, d, a);
    if !dropped && result != Dropped {
      CoverageExtends(arrivals, held, a, base, Min(next, |src.bytes|),
                      if r.unusable then base + cap else Min(next', |src.bytes|), next);
    }
  }

  lemma CoverageExtends(arrivals: seq<Arrival>, held: seq<Arrival>, a: Arrival, lo: nat, middle: nat, hi: nat,
                        next: nat)
    requires CoveredBy(arrivals, lo, middle) && (forall h <- held :: h in arrivals) && middle <= next
    ensures CoveredBy(held + [a], middle, hi) || CoveredBy([a], middle, hi) ==> CoveredBy(arrivals + [a], lo, hi)
  {
    if CoveredBy(held + [a], middle, hi) || CoveredBy([a], middle, hi) {
      forall k | lo <= k < hi
        ensures IsCovered(arrivals + [a], k)
      {
        if k < middle {
          assert IsCovered(arrivals, k);
        } else {
          assert IsCovered(held + [a], k) || IsCovered([a], k);
        }
      }
    }
  }

  lemma {:induction false} RunProgress(src: Source, cap: nat, arrivals: seq<Arrival>)
      returns (next: nat, held: seq<Arrival>)
    requires arrivals != [] && Plausible(src, cap, arrivals)
    ensures Progress(src, Base(arrivals), cap, arrivals, !NothingDropped(src, cap, arrivals),
                     After(src, cap, arrivals), next, held)
    decreases |arrivals|
  {
    hide Received, Progress;
    var before, a := arrivals[..|arrivals| - 1], arrivals[|arrivals| - 1];
    assert arrivals == before + [a] && a in arrivals && Consistent(src, a);
    if before == [] {
      FirstBaseline(src, cap, a);
      var d := Initialized(cap).(known := true, next := Wrap(src.isn + a.offset));
      next, held := ProgressExtends(src, a.offset, cap, [], false, d, a.offset, [], a);
    } else {
      assert forall x <- before :: x in arrivals;
      next, held := RunProgress(src, cap, before);
      var d := After(src, cap, before);
      if d.unusable {
        assert Received(src, d, a) == (d, Dropped) by { PoisonedStaysPut(src, d, a); }
        assert Progress(src, Base(arrivals), cap, arrivals, true, d, next, held) by {
          ProgressPoisoned(src, Base(arrivals), cap, before, arrivals, d, next, held);
        }
      } else {
        var dropped := !NothingDropped(src, cap, before);
        next, held := ProgressExtends(src, Base(arrivals), cap, before, dropped, d, next, held, a);
      }
    }
  }

  lemma PoisonedStaysPut(src: Source, d: Direction, a: Arrival)
    requires Bounded(d) && Consistent(src, a) && d.unusable
    ensures Received(src, d, a) == (d, Dropped)
  {
  }

  lemma ProgressPoisoned(src: Source, base: nat, cap: nat, before: seq<Arrival>, arrivals: seq<Arrival>, d: Direction,
                         next: nat, held: seq<Arrival>)
    requires d.unusable && exists dropped :: Progress(src, base, cap, before, dropped, d, next, held)
    ensures Progress(src, base, cap, arrivals, true, d, next, held)
  {
  }

  // ----- main results -----

  /** A poisoned direction never changes again. */
  lemma {:induction false} PoisonIsForever(src: Source, cap: nat, arrivals: seq<Arrival>, more: seq<Arrival>)
    requires forall a <- arrivals + more :: Consistent(src, a)
    requires After(src, cap, arrivals).unusable
    ensures After(src, cap, arrivals + more) == After(src, cap, arrivals)
    decreases |more|
  {
    hide Received;
    if more == [] {
      assert arrivals + more == arrivals;
    } else {
      var last := |more| - 1;
      assert (arrivals + more)[..|arrivals| + last] == arrivals + more[..last];
      PoisonIsForever(src, cap, arrivals, more[..last]);
      PoisonedStaysPut(src, After(src, cap, arrivals), more[last]);
    }
  }

  /** The least offset from `k` on that no arrival covers. */
  ghost function FirstUncovered(src: Source, arrivals: seq<Arrival>, k: nat): (m: nat)
    requires forall a <- arrivals :: a.End() <= |src.bytes|
    requires k <= |src.bytes|
    ensures k <= m <= |src.bytes|
    ensures CoveredBy(arrivals, k, m) && !IsCovered(arrivals, m)
    decreases |src.bytes| - k
  {
    if IsCovered(arrivals, k) then FirstUncovered(src, arrivals, k + 1) else k
  }

  lemma FirstUncoveredIsLeast(src: Source, arrivals: seq<Arrival>, k: nat, m: nat)
    requires forall a <- arrivals :: a.End() <= |src.bytes|
    requires k <= m <= |src.bytes|
    requires CoveredBy(arrivals, k, m)
    ensures m <= FirstUncovered(src, arrivals, k)
    ensures !IsCovered(arrivals, m) ==> m == FirstUncovered(src, arrivals, k)
  {
    var least := FirstUncovered(src, arrivals, k);
    assert least < m ==> IsCovered(arrivals, least);
    assert m < least ==> IsCovered(arrivals, m);
  }
}
