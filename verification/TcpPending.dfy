/** Where the held-back segments lie relative to the expected byte, for arbitrary 32-bit input. */
module TcpPending {
  import opened Bytes
  import opened SerialNumbers
  import opened StreamBuffers
  import opened TcpReassembly

  predicate AllFuture(d: Direction) {
    forall i | 0 <= i < |d.store.pending| :: Before(d.next, d.store.pending[i].sequence)
  }

  /** Nothing is pending before the baseline is known, and everything pending is in the future. */
  predicate Waiting(d: Direction) {
    (d.known || d.store.pending == []) && AllFuture(d)
  }

  lemma NotReadyIsFuture(next: uint32, p: Segment)
    requires !Ready(next, p)
    ensures Before(next, p.sequence)
  {
    var ahead := Wrap(p.sequence - next);
    assert ahead == if p.sequence >= next then p.sequence - next else p.sequence - next + MODULUS;
    assert Wrap(next - p.sequence) == MODULUS - ahead;
  }

  /** The restarting scan reaches a fixpoint: nothing it leaves behind could still be delivered. */
  lemma {:induction false} FlushReachesFixpoint(d: Direction)
    requires Bounded(d)
    ensures var (r, ok) := Flush(d);
            if ok then AllFuture(r) && r.known == d.known && FirstReady(r.next, r.store.pending, 0) == |r.store.pending|
            else r.unusable
    decreases |d.store.pending|
  {
    hide Wrap, TotalBytes, Before;
    var i := FirstReady(d.next, d.store.pending, 0);
    if i == |d.store.pending| {
      forall j | 0 <= j < |d.store.pending|
        ensures Before(d.next, d.store.pending[j].sequence)
      {
        NotReadyIsFuture(d.next, d.store.pending[j]);
      }
    } else {
      DeliveryKeepsBounds(d, i);
      var (delivered, ok) := PendingDelivered(d, i);
      if ok {
        FlushReachesFixpoint(delivered);
      }
    }
  }

  lemma FinStepLeavesFuture(next: uint32, sequence: uint32)
    requires Before(next, sequence)
    ensures Before(EndSequence(next, true), sequence) <==> sequence != EndSequence(next, true)
  {
    var ahead := Wrap(sequence - next);
    assert ahead == if sequence >= next then sequence - next else sequence - next + MODULUS;
    assert 0 < ahead <= HALF;
    var after := EndSequence(next, true);
    assert after == if next + 1 == MODULUS then 0 else next as int + 1;
    assert Wrap(after - sequence) == if ahead == 1 then 0 else MODULUS - ahead + 1;
  }

  /** A payload-free FIN exactly at the expected byte while a segment one byte later is held. */
  predicate FinLandsOnPending(d: Direction, sequence: uint32, flags: byte, payload: Payload) {
    && payload.Length() == 0 && FinFlag(flags)
    && d.known && d.next == PayloadSequence(sequence, flags)
    && exists i | 0 <= i < |d.store.pending| :: d.store.pending[i].sequence == EndSequence(d.next, true)
  }

  lemma DeliveredLeavesFuture(d: Direction, start: uint32, fin: bool, bytes: seq<byte>)
    requires Bounded(d) && d.known && |bytes| > 0
    ensures var r := Delivered(d, start, fin, bytes).0;
            !r.unusable ==> AllFuture(r) && r.known
  {
    hide Wrap, TotalBytes, Flush, Before;
    if Fits(d.stream, bytes) {
      FlushReachesFixpoint(d.(stream := Appended(d.stream, bytes), next := EndSequence(Wrap(start + |bytes|), fin)));
    }
  }

  lemma DataLeavesFuture(d: Direction, start: uint32, fin: bool, bytes: seq<byte>)
    requires Bounded(d) && AllFuture(d) && d.known && 0 < |bytes| < MODULUS
    ensures var r := Placed(d, start, fin, bytes).0;
            !r.unusable ==> AllFuture(r) && r.known
  {
    hide Wrap, TotalBytes, Delivered, Before;
    if !BeforeOrEqual(Wrap(start + |bytes|), d.next) && !Before(d.next, start) {
      if Before(start, d.next) {
        TrimIsShorterThanSegment(start, |bytes|, d.next);
        DeliveredLeavesFuture(CountOverlap(d), d.next, fin, bytes[Wrap(d.next - start)..]);
      } else {
        DeliveredLeavesFuture(d, start, fin, bytes);
      }
    }
  }

  /** After every call that does not poison the direction, all pending segments lie strictly in the
      future, unless a bare FIN landed on one: exactly then. */
  lemma PendingStaysInTheFuture(d: Direction, sequence: uint32, flags: byte, payload: Payload)
    requires Bounded(d) && Waiting(d)
    ensures var r := Processed(d, sequence, flags, payload).0;
            !r.unusable ==> (Waiting(r) <==> !FinLandsOnPending(d, sequence, flags, payload))
  {
    hide Wrap, TotalBytes, Before, Placed, EndSequence, PayloadSequence;
    var based := Baselined(TrackedFlags(d, flags), sequence, flags);
    if !d.unusable && payload.Length() == 0 {
      forall i | 0 <= i < |d.store.pending|
        ensures Before(EndSequence(d.next, true), d.store.pending[i].sequence)
           <==> d.store.pending[i].sequence != EndSequence(d.next, true)
      {
        FinStepLeavesFuture(d.next, d.store.pending[i].sequence);
      }
    } else if !d.unusable && payload.Data? && |payload.bytes| < MODULUS {
      DataLeavesFuture(based, PayloadSequence(sequence, flags), FinFlag(flags), payload.bytes);
    }
  }

  const AFTER_A := Direction(101, true, false, false, false, NO_COUNTS, Stream(true, 16, [65]), Store([], 0, 16))
  const AFTER_C := AFTER_A.(counters := Counters(0, 1, 0, 1), store := Store([Segment(102, [67])], 1, 16))

  /** The exception is reachable: "A" at 100, "C" held at 102, then a bare FIN at 101. */
  lemma BareFinOvertakesPending()
    ensures Processed(Initialized(16), 100, 0, Data([65])) == (AFTER_A, Accepted)
    ensures Bounded(AFTER_A) && Processed(AFTER_A, 102, 0, Data([67])) == (AFTER_C, Buffered)
    ensures Bounded(AFTER_C) && var (f, result) := Processed(AFTER_C, 101, 1, Data([]));
            Waiting(AFTER_C) && !f.unusable && result == Accepted && !AllFuture(f)
  {
    var based := Initialized(16).(known := true, next := 100);
    assert Delivered(based, 100, false, [65]) == (AFTER_A, Accepted) by {
      assert [] + [65] == [65];
      assert FirstReady(101, [], 0) == 0;
    }
    TotalWithLast([], Segment(102, [67]));
    assert [] + [Segment(102, [67])] == [Segment(102, [67])];
  }
}
