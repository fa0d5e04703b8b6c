/** What one call of the segment processor does, in unbounded offsets: every field, every counter, every result. */
module TcpOffsets {
  import opened Bytes
  import opened SerialNumbers
  import opened StreamBuffers
  import opened TcpReassembly
  import opened TcpStream
  import opened TcpSplice
  import opened TcpCoverage

  /** The teardown flags of a segment, recorded. */
  function Flagged(d: Direction, flags: byte): Direction {
    d.(finSeen := d.finSeen || flags % 2 == 1, rstSeen := d.rstSeen || flags / 4 % 2 == 1)
  }

  /** The four counters raised by these amounts. */
  function Counted(d: Direction, retransmissions: nat, overlapping: nat, gaps: nat): Direction {
    d.(counters := Counters(d.counters.retransmissions + retransmissions, d.counters.outOfOrder + gaps,
                            d.counters.overlapping + overlapping, d.counters.gaps + gaps))
  }

  lemma EmptyInOffsets(src: Source, base: nat, next: nat, d: Direction, a: Arrival)
    requires Bounded(d) && OnStream(src, base, next, d) && Consistent(src, a)
             && InWindow(base, d.stream.capacity, a)
    requires a.length == 0
    ensures Received(src, d, a) ==
            (Flagged(d, a.flags).(next := if a.flags % 2 == 1 && a.offset == next then
                (src.isn + next + 1) % 0x1_0000_0000
                                          else d.next),
             Accepted)
  {
    hide TotalBytes, Flush;
    WireStart(src, a);
    ComparisonsAreExact(src, base, next, d.stream.capacity, a);
    WrapOfSum(src.isn + next, 1);
  }

  /** Where a segment that reaches the expected byte has been appended: the stream ends with it, or at the capacity. */
  function Lengthened(src: Source, base: nat, d: Direction, end: nat): Direction
    requires base <= end <= |src.bytes|
  {
    d.(stream := d.stream.(unread := src.bytes[base..end]))
  }

  lemma DeliveredInOffsets(src: Source, base: nat, next: nat, d: Direction, d0: Direction, a: Arrival)
    requires Bounded(d) && OnStream(src, base, next, d) && Consistent(src, a) && d0 == d.(counters := d0.counters)
    requires a.offset <= next < a.End()
    ensures var (r, result) := Delivered(d0, d.next, FinFlag(a.flags), Slice(src, next, a.End()));
            var end := base + d.stream.capacity;
            if end < a.End() then
              && r == Lengthened(src, base, d0, end).(unusable := true)
              && result == (if |d.stream.unread| < d.stream.capacity then Accepted else Dropped)
            else
              var passed := a.End() + a.flags % 2;
              var (flushed, ok) := Flush(Lengthened(src, base, d0,
                  a.End()).(next := (src.isn + passed) % 0x1_0000_0000));
              r == flushed && result == if ok then Accepted else Dropped
  {
    hide Flush, TotalBytes;
    AppendSlice(src, base, d.stream.unread, a.End());
    if base + d.stream.capacity < a.End() {
      SlicePrefix(src, next, a.End(), Room(d.stream));
      AppendSlice(src, base, d.stream.unread, base + d.stream.capacity);
    } else {
      WrapOfSum(src.isn + next, a.End() - next);
      FinMovesOn(src.isn + a.End(), FinFlag(a.flags));
    }
  }

  lemma PlacedInOffsets(src: Source, base: nat, next: nat, d: Direction, a: Arrival)
    requires Bounded(d) && OnStream(src, base, next, d) && Consistent(src, a)
             && InWindow(base, d.stream.capacity, a)
    requires a.length > 0
    ensures var (r, result) := Placed(d, Wrap(src.isn + a.offset), FinFlag(a.flags), Slice(src, a.offset, a.End()));
            var fits := |d.store.pending| < 8 && d.store.bytes + a.length <= d.store.cap;
            var bytes := src.bytes[a.offset..a.End()];
            var kept := d.store.pending + [TcpReassembly.Segment((src.isn + a.offset) % 0x1_0000_0000, bytes)];
            if a.End() <= next then
              r == Counted(d, 1, 0, 0) && result == Ignored
            else if next < a.offset then
              && r == Counted(d, 0, 0, 1).(store := if fits then Store(kept, d.store.bytes + a.length, d.store.cap)
                                                    else d.store)
              && result == if fits then Buffered else Dropped
            else
              (r, result) == Delivered(Counted(d, 0, if a.offset < next then 1 else 0, 0), d.next, FinFlag(a.flags),
                                       Slice(src, next, a.End()))
  {
    hide Delivered, TotalBytes, Wrap;
    PlacedInReach(src, base, next, d, a);
    ComparisonsAreExact(src, base, next, d.stream.capacity, a);
    assert Wrap(src.isn + a.offset) == (src.isn + a.offset) % 0x1_0000_0000 by { WrapWritten(src.isn + a.offset); }
  }

  lemma WrapWritten(x: int)
    ensures Wrap(x) == x % 0x1_0000_0000
  {
  }

  /** One arrival on a usable direction whose expected byte is at `next`: each field of the direction and the
      result, from the offsets alone. An old segment is one retransmission; one that has to wait is one out-of-order
      segment and one gap, and is held when a slot and the bytes are free; one that begins behind the expected byte
      and reaches it is one overlap; one that reaches it lengthens the stream, up to the capacity at most. When it
      does not fit, the direction is poisoned with a full buffer, and the segment counts as accepted unless the
      buffer was full already. */
  lemma ArrivalInOffsets(src: Source, base: nat, next: nat, d: Direction, a: Arrival)
    requires Bounded(d) && OnStream(src, base, next, d) && Consistent(src, a)
             && InWindow(base, d.stream.capacity, a)
    ensures var (r, result) := Received(src, d, a);
            var seen := Flagged(d, a.flags);
            var fits := |d.store.pending| < 8 && d.store.bytes + a.length <= d.store.cap;
            var bytes := src.bytes[a.offset..a.End()];
            var kept := d.store.pending + [TcpReassembly.Segment((src.isn + a.offset) % 0x1_0000_0000, bytes)];
            var end := base + d.stream.capacity;
            if a.length == 0 then
              var consumed := a.flags % 2 == 1 && a.offset == next;
              r == seen.(next := if consumed then (src.isn + next + 1) % 0x1_0000_0000 else d.next)
              && result == Accepted
            else if a.End() <= next then
              r == Counted(seen, 1, 0, 0) && result == Ignored
            else if next < a.offset then
              && r == Counted(seen, 0, 0, 1).(store := if fits then Store(kept, d.store.bytes + a.length, d.store.cap)
                                                       else d.store)
              && result == if fits then Buffered else Dropped
            else
              var counted := Counted(seen, 0, if a.offset < next then 1 else 0, 0);
              if end < a.End() then
                && r == counted.(unusable := true, stream := d.stream.(unread := src.bytes[base..end]))
                && result == if |d.stream.unread| < d.stream.capacity then Accepted else Dropped
              else
                var passed := (src.isn + a.End() + a.flags % 2) % 0x1_0000_0000;
                var stream := d.stream.(unread := src.bytes[base..a.End()]);
                var (flushed, ok) := Flush(counted.(next := passed, stream := stream));
                r == flushed && result == if ok then Accepted else Dropped
  {
    hide Flush, TotalBytes, Delivered, Placed, Wrap;
    if a.length == 0 {
      EmptyInOffsets(src, base, next, d, a);
    } else {
      ReceivedData(src, d, a);
      var seen := TrackedFlags(d, a.flags);
      assert seen == Flagged(d, a.flags);
      PlacedInOffsets(src, base, next, seen, a);
      if a.offset <= next < a.End() {
        DeliveredInOffsets(src, base, next, seen, Counted(seen, 0, if a.offset < next then 1 else 0, 0), a);
      }
    }
  }

  lemma RestIsRemoved(src: Source, base: nat, d: Direction, held: seq<Arrival>, i: nat, rest: Store)
    requires Bounded(d) && Holds(src, base, d, held) && i < |held|
    requires rest.pending == d.store.pending[..i] + d.store.pending[i + 1..] && rest.cap == d.store.cap
    requires rest.bytes + held[i].length == d.store.bytes
    ensures |held| == |d.store.pending| && rest == Removed(d.store, i) && Sized(rest.pending)
  {
    hide TotalBytes, Wrap;
    HeldAt(src, base, d, held, i);
    RemovalKeepsBounds(d.store, i);
  }

  lemma FirstReadyIs(next: uint32, pending: seq<Segment>, i: nat)
    requires i <= |pending| && (forall j | 0 <= j < i :: !Ready(next, pending[j]))
    requires i < |pending| ==> Ready(next, pending[i])
    ensures FirstReady(next, pending, 0) == i
  {
    hide Ready;
  }

  /** The flush, in offsets: the first held segment that begins at or behind the expected byte is a retransmission when
      it ends there, lengthens the stream when it fits, and poisons the direction otherwise; then the flush goes on
      with the rest. */
  lemma FlushInOffsets(src: Source, base: nat, next: nat, d: Direction, held: seq<Arrival>, i: nat, rest: Store)
    requires Bounded(d) && OnStream(src, base, next, d) && Holds(src, base, d, held)
    requires i < |held| && held[i].offset <= next && (forall j | 0 <= j < i :: next < held[j].offset)
    requires rest.pending == d.store.pending[..i] + d.store.pending[i + 1..] && rest.cap == d.store.cap
    requires rest.bytes + held[i].length == d.store.bytes
    ensures Sized(rest.pending)
    ensures var h := held[i];
            var counted := Counted(d, 0, if h.offset < next then 1 else 0, 0);
            Flush(d) == if h.End() <= next then Flush(Counted(d, 1, 0, 0).(store := rest))
                        else if base + d.stream.capacity < h.End() then (counted.(unusable := true), false)
                        else
                          var stream := d.stream.(unread := src.bytes[base..h.End()]);
                          Flush(counted.(store := rest, stream := stream,
                                         next := (src.isn + h.End()) % 0x1_0000_0000))
  {
    hide TotalBytes, Wrap, Ready, Holds, HeldAs;
    ReadyMeansReached(src, base, next, d, held);
    RestIsRemoved(src, base, d, held, i, rest);
    FirstReadyIs(d.next, d.store.pending, i);
    HeldAt(src, base, d, held, i);
    DeliveryInOffsets(src, base, next, d, held[i], i);
    WrapWritten(src.isn + held[i].End());
    if next < held[i].End() <= base + d.stream.capacity {
      AppendSlice(src, base, d.stream.unread, held[i].End());
    }
  }

  /** A flush with nothing to deliver changes nothing. */
  lemma NothingReachedNothingFlushed(src: Source, base: nat, next: nat, d: Direction, held: seq<Arrival>)
    requires Bounded(d) && OnStream(src, base, next, d) && Holds(src, base, d, held)
    requires forall h <- held :: next < h.offset
    ensures Flush(d) == (d, true)
  {
    hide TotalBytes, Wrap, Ready, HeldAs;
    ReadyMeansReached(src, base, next, d, held);
    FirstReadyIs(d.next, d.store.pending, |held|);
  }

  /** The first segment of a direction sets the baseline to its own payload. */
  lemma FirstSegmentIsTheBaseline(src: Source, d: Direction, a: Arrival)
    requires Bounded(d) && Consistent(src, a) && !d.known && !d.unusable
    ensures Received(src, d, a)
         == Received(src, d.(known := true, next := (src.isn + a.offset) % 0x1_0000_0000), a)
  {
    hide Placed;
    WireStart(src, a);
  }

  /** A missing payload with a length, or one of 2^32 bytes or more, poisons the direction and leaves its stream and its
      pending store alone. */
  lemma RefusedPayload(d: Direction, sequence: uint32, flags: byte, payload: Payload)
    requires Bounded(d) && !d.unusable && payload.Length() > 0
    requires payload.Null? || payload.Length() >= 0x1_0000_0000
    ensures var (r, result) := Processed(d, sequence, flags, payload);
            && r.unusable && result == Dropped && r.stream == d.stream && r.store == d.store && r.counters == d.counters
            && r.finSeen == (d.finSeen || flags % 2 == 1) && r.rstSeen == (d.rstSeen || flags / 4 % 2 == 1)
  {
    hide Placed, Wrap;
  }
}
