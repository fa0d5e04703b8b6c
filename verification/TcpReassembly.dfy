/** One direction of a TCP flow: a bounded stream rebuilt from segments (src/tcp_reassembly.c).
    The functions say what one call does to the observable state; the class does it in place. */
module TcpReassembly {
  import opened Bytes
  import opened SerialNumbers
  import opened StreamBuffers

  const MAX_PENDING_SEGMENTS := 8

  datatype Segment = Segment(sequence: uint32, data: seq<byte>)

  /** A payload pointer with its length. */
  datatype Payload = Null(size: nat) | Data(bytes: seq<byte>) {
    function Length(): nat {
      if Null? then size else |bytes|
    }
  }

  datatype Result = Accepted | Buffered | Ignored | Dropped

  datatype Counters = Counters(retransmissions: nat, outOfOrder: nat, overlapping: nat, gaps: nat)

  const NO_COUNTS := Counters(0, 0, 0, 0)

  /** The out-of-order segments held back, their accounted bytes, and the byte cap. */
  datatype Store = Store(pending: seq<Segment>, bytes: nat, cap: nat)

  datatype Direction = Direction(
    next: uint32, known: bool, finSeen: bool, rstSeen: bool, unusable: bool, counters: Counters,
    stream: Stream, store: Store)

  const ZEROED := Direction(0, false, false, false, false, NO_COUNTS, RELEASED, Store([], 0, 0))

  function Initialized(streamBytes: nat): Direction {
    ZEROED.(stream := Stream(true, streamBytes, []), store := Store([], 0, streamBytes))
  }

  function TotalBytes(pending: seq<Segment>): nat {
    if pending == [] then 0 else TotalBytes(pending[..|pending| - 1]) + |pending[|pending| - 1].data|
  }

  predicate Sized(pending: seq<Segment>) {
    forall i | 0 <= i < |pending| :: 0 < |pending[i].data| < MODULUS
  }

  predicate StoreBounded(s: Store) {
    && |s.pending| <= MAX_PENDING_SEGMENTS
    && Sized(s.pending)
    && s.bytes == TotalBytes(s.pending) <= s.cap
  }

  /** The memory bounds of the pending store and of the stream. */
  predicate Bounded(d: Direction) {
    && StoreBounded(d.store)
    && |d.stream.unread| <= d.stream.capacity
  }

  function Removed(s: Store, i: nat): Store
    requires i < |s.pending|
  {
    var length := |s.pending[i].data|;
    Store(WithoutAt(s.pending, i), if length <= s.bytes then s.bytes - length else 0, s.cap)
  }

  /** A FIN occupies one sequence number after the payload. */
  function EndSequence(end: uint32, fin: bool): uint32 {
    if fin then Wrap(end as int + 1) else end
  }

  function SegmentEnd(p: Segment): uint32 {
    Wrap(p.sequence + |p.data|)
  }

  /** A pending segment the flush acts on: already delivered, or reaching the expected byte. */
  predicate Ready(next: uint32, p: Segment) {
    BeforeOrEqual(SegmentEnd(p), next) || BeforeOrEqual(p.sequence, next)
  }

  function FirstReady(next: uint32, pending: seq<Segment>, i: nat): (r: nat)
    requires i <= |pending|
    ensures i <= r <= |pending|
    ensures forall j | i <= j < r :: !Ready(next, pending[j])
    ensures r < |pending| ==> Ready(next, pending[r])
    decreases |pending| - i
  {
    if i == |pending| || Ready(next, pending[i]) then i else FirstReady(next, pending, i + 1)
  }

  function CountRetransmission(d: Direction): Direction {
    d.(counters := d.counters.(retransmissions := d.counters.retransmissions + 1))
  }

  function CountOverlap(d: Direction): Direction {
    d.(counters := d.counters.(overlapping := d.counters.overlapping + 1))
  }

  /** One ready pending segment leaves the store: as a retransmission, or with its new tail
      appended; false when the tail does not fit. */
  function PendingDelivered(d: Direction, i: nat): (Direction, bool)
    requires Sized(d.store.pending) && i < |d.store.pending| && Ready(d.next, d.store.pending[i])
  {
    var p := d.store.pending[i];
    if BeforeOrEqual(SegmentEnd(p), d.next) then
      (CountRetransmission(d).(store := Removed(d.store, i)), true)
    else
      TrimIsShorterThanSegment(p.sequence, |p.data|, d.next);
      var trim := Wrap(d.next - p.sequence);
      var counted := if trim > 0 then CountOverlap(d) else d;
      if Fits(d.stream, p.data[trim..]) then
        (counted.(stream := Appended(d.stream, p.data[trim..]), next := SegmentEnd(p), store := Removed(d.store, i)),
         true)
      else
        (counted.(unusable := true), false)
  }

  /** Delivers the first ready pending segment and starts over, until none is ready or one
      does not fit. */
  function Flush(d: Direction): (Direction, bool)
    requires Sized(d.store.pending)
    decreases |d.store.pending|
  {
    var i := FirstReady(d.next, d.store.pending, 0);
    if i == |d.store.pending| then (d, true)
    else
      var (delivered, ok) := PendingDelivered(d, i);
      if ok then Flush(delivered) else (delivered, false)
  }

  function TrackedFlags(d: Direction, flags: byte): Direction {
    d.(rstSeen := d.rstSeen || RstFlag(flags), finSeen := d.finSeen || FinFlag(flags))
  }

  predicate CanStore(s: Store, bytes: seq<byte>) {
    |s.pending| < MAX_PENDING_SEGMENTS && 0 < |bytes| && s.bytes + |bytes| <= s.cap
  }

  function Stored(s: Store, sequence: uint32, bytes: seq<byte>): Store {
    if CanStore(s, bytes) then Store(s.pending + [Segment(sequence, bytes)], s.bytes + |bytes|, s.cap) else s
  }

  function CountGap(d: Direction): Direction {
    d.(counters := d.counters.(outOfOrder := d.counters.outOfOrder + 1, gaps := d.counters.gaps + 1))
  }

  function Room(s: Stream): int {
    s.capacity - |s.unread|
  }

  /** In-order bytes: keep what fits; a short fit poisons the direction. */
  function Delivered(d: Direction, sequence: uint32, fin: bool, bytes: seq<byte>): (Direction, Result)
    requires Sized(d.store.pending) && |bytes| > 0 && |d.stream.unread| <= d.stream.capacity
  {
    if !Fits(d.stream, bytes) then
      var take := if d.stream.live then Room(d.stream) else 0;
      (d.(unusable := true, stream := d.stream.(unread := d.stream.unread + bytes[..take])),
       if take > 0 then Accepted else Dropped)
    else
      var end := Wrap(sequence + |bytes|);
      var (flushed, ok) := Flush(d.(stream := Appended(d.stream, bytes),
                                    next := EndSequence(end, fin)));
      (flushed, if ok then Accepted else Dropped)
  }

  /** A segment with bytes, against an established baseline. */
  function Placed(d: Direction, start: uint32, fin: bool, bytes: seq<byte>): (Direction, Result)
    requires Sized(d.store.pending) && 0 < |bytes| < MODULUS && |d.stream.unread| <= d.stream.capacity
  {
    if BeforeOrEqual(Wrap(start + |bytes|), d.next) then (CountRetransmission(d), Ignored)
    else if Before(d.next, start) then
      (CountGap(d).(store := Stored(d.store, start, bytes)), if CanStore(d.store, bytes) then Buffered else Dropped)
    else if Before(start, d.next) then
      TrimIsShorterThanSegment(start, |bytes|, d.next);
      Delivered(CountOverlap(d), d.next, fin, bytes[Wrap(d.next - start)..])
    else
      Delivered(d, start, fin, bytes)
  }

  function Baselined(d: Direction, sequence: uint32, flags: byte): Direction {
    if d.known then d else d.(next := PayloadSequence(sequence, flags), known := true)
  }

  /** One call of the segment processor. */
  function Processed(d: Direction, sequence: uint32, flags: byte, payload: Payload): (Direction, Result)
    requires Bounded(d)
  {
    if d.unusable then (d, Dropped)
    else
      var based := Baselined(TrackedFlags(d, flags), sequence, flags);
      var start := PayloadSequence(sequence, flags);
      if payload.Length() == 0 then
        (if FinFlag(flags) && based.next == start then based.(next := EndSequence(based.next, true)) else based,
         Accepted)
      else if payload.Null? || payload.Length() >= MODULUS then
        (based.(unusable := true), Dropped)
      else
        Placed(based, start, FinFlag(flags), payload.bytes)
  }

  function ReleasedBuffers(d: Direction): Direction {
    d.(store := Store([], 0, d.store.cap), stream := RELEASED)
  }

  lemma {:induction false} TotalWithoutAt(pending: seq<Segment>, i: nat)
    requires i < |pending|
    ensures TotalBytes(WithoutAt(pending, i)) == TotalBytes(pending) - |pending[i].data|
    decreases |pending|
  {
    var last := |pending| - 1;
    if i == last {
      assert WithoutAt(pending, i) == pending[..last];
    } else {
      TotalWithoutAt(pending[..last], i);
      assert WithoutAt(pending, i) == WithoutAt(pending[..last], i) + [pending[last]];
      assert WithoutAt(pending, i)[..last - 1] == WithoutAt(pending[..last], i);
    }
  }

  lemma TotalWithLast(pending: seq<Segment>, p: Segment)
    ensures TotalBytes(pending + [p]) == TotalBytes(pending) + |p.data|
  {
    assert (pending + [p])[..|pending|] == pending;
  }

  lemma RemovalKeepsBounds(s: Store, i: nat)
    requires StoreBounded(s) && i < |s.pending|
    ensures StoreBounded(Removed(s, i)) && Removed(s, i).bytes == s.bytes - |s.pending[i].data|
  {
    TotalWithoutAt(s.pending, i);
  }

  lemma DeliveryKeepsBounds(d: Direction, i: nat)
    requires Bounded(d) && i < |d.store.pending| && Ready(d.next, d.store.pending[i])
    ensures Bounded(PendingDelivered(d, i).0)
  {
    hide Wrap;
    RemovalKeepsBounds(d.store, i);
  }

  lemma {:induction false} FlushKeepsBounds(d: Direction)
    requires Bounded(d)
    ensures Bounded(Flush(d).0)
    decreases |d.store.pending|
  {
    var i := FirstReady(d.next, d.store.pending, 0);
    if i < |d.store.pending| {
      DeliveryKeepsBounds(d, i);
      var (delivered, ok) := PendingDelivered(d, i);
      if ok {
        FlushKeepsBounds(delivered);
      }
    }
  }

  /** Nothing is taken back: same allocation, caps and flags, a longer stream, larger counters. */
  predicate Extends(d: Direction, r: Direction) {
    && r.stream.live == d.stream.live && r.stream.capacity == d.stream.capacity && d.stream.unread <= r.stream.unread
    && r.store.cap == d.store.cap
    && r.finSeen == d.finSeen && r.rstSeen == d.rstSeen
    && NoLess(d.counters, r.counters)
  }

  predicate NoLess(a: Counters, b: Counters) {
    && a.retransmissions <= b.retransmissions && a.outOfOrder <= b.outOfOrder
    && a.overlapping <= b.overlapping && a.gaps <= b.gaps
  }

  lemma DeliveryExtends(d: Direction, i: nat)
    requires Sized(d.store.pending) && i < |d.store.pending| && Ready(d.next, d.store.pending[i])
    ensures Extends(d, PendingDelivered(d, i).0)
  {
    hide Wrap, TotalBytes;
  }

  lemma {:induction false} FlushExtends(d: Direction)
    requires Sized(d.store.pending)
    ensures Extends(d, Flush(d).0)
    decreases |d.store.pending|
  {
    hide Wrap, TotalBytes, BeforeOrEqual, FirstReady;
    var i := FirstReady(d.next, d.store.pending, 0);
    if i < |d.store.pending| {
      var (delivered, ok) := PendingDelivered(d, i);
      DeliveryExtends(d, i);
      if ok {
        FlushExtends(delivered);
      }
    }
  }

  lemma DeliverExtends(d: Direction, start: uint32, fin: bool, bytes: seq<byte>)
    requires Bounded(d) && |bytes| > 0
    ensures Extends(d, Delivered(d, start, fin, bytes).0)
  {
    hide Wrap, Flush, TotalBytes;
    if Fits(d.stream, bytes) {
      FlushExtends(d.(stream := Appended(d.stream, bytes), next := EndSequence(Wrap(start + |bytes|), fin)));
    }
  }

  lemma PlaceExtends(d: Direction, start: uint32, fin: bool, bytes: seq<byte>)
    requires Bounded(d) && 0 < |bytes| < MODULUS
    ensures Extends(d, Placed(d, start, fin, bytes).0)
  {
    hide Wrap, Delivered, TotalBytes;
    if !BeforeOrEqual(Wrap(start + |bytes|), d.next) && !Before(d.next, start) {
      if Before(start, d.next) {
        TrimIsShorterThanSegment(start, |bytes|, d.next);
        DeliverExtends(CountOverlap(d), d.next, fin, bytes[Wrap(d.next - start)..]);
      } else {
        DeliverExtends(d, start, fin, bytes);
      }
    }
  }

  /** A call that is not refused records the segment's flags and otherwise only adds. */
  lemma ProcessExtends(d: Direction, sequence: uint32, flags: byte, payload: Payload)
    requires Bounded(d)
    ensures Extends(if d.unusable then d else TrackedFlags(d, flags), Processed(d, sequence, flags, payload).0)
  {
    hide Wrap, Placed, TotalBytes;
    var based := Baselined(TrackedFlags(d, flags), sequence, flags);
    if !d.unusable && payload.Data? && 0 < |payload.bytes| < MODULUS {
      PlaceExtends(based, PayloadSequence(sequence, flags), FinFlag(flags), payload.bytes);
    }
  }

  /** The pending store and the stream stay within their bounds for every input. */
  lemma ProcessKeepsBounds(d: Direction, sequence: uint32, flags: byte, payload: Payload)
    requires Bounded(d)
    ensures Bounded(Processed(d, sequence, flags, payload).0)
  {
    hide Wrap, Placed;
    var based := Baselined(TrackedFlags(d, flags), sequence, flags);
    if !d.unusable && payload.Data? && 0 < |payload.bytes| < MODULUS {
      PlaceKeepsBounds(based, PayloadSequence(sequence, flags), FinFlag(flags), payload.bytes);
    }
  }

  lemma PlaceKeepsBounds(d: Direction, start: uint32, fin: bool, bytes: seq<byte>)
    requires Bounded(d) && 0 < |bytes| < MODULUS
    ensures Bounded(Placed(d, start, fin, bytes).0)
  {
    hide Wrap, Flush, Delivered;
    if !BeforeOrEqual(Wrap(start + |bytes|), d.next) {
      if Before(d.next, start) {
        TotalWithLast(d.store.pending, Segment(start, bytes));
      } else if Before(start, d.next) {
        TrimIsShorterThanSegment(start, |bytes|, d.next);
        DeliverKeepsBounds(CountOverlap(d), d.next, fin, bytes[Wrap(d.next - start)..]);
      } else {
        DeliverKeepsBounds(d, start, fin, bytes);
      }
    }
  }

  lemma DeliverKeepsBounds(d: Direction, start: uint32, fin: bool, bytes: seq<byte>)
    requires Bounded(d) && |bytes| > 0
    ensures Bounded(Delivered(d, start, fin, bytes).0)
  {
    hide Wrap, Flush;
    if Fits(d.stream, bytes) {
      var end := Wrap(start + |bytes|);
      FlushKeepsBounds(d.(stream := Appended(d.stream, bytes), next := EndSequence(end, fin)));
    }
  }

  /** The fixed array of out-of-order segments, compact from the front. */
  class PendingStore {
    const segments: array<Segment>
    var count: nat
    var bytes: nat
    var cap: nat

    ghost predicate Shaped()
      reads this, segments
    {
      segments.Length == MAX_PENDING_SEGMENTS && count <= MAX_PENDING_SEGMENTS
    }

    ghost function View(): Store
      requires Shaped()
      reads this, segments
    {
      Store(segments[..count], bytes, cap)
    }

    constructor ()
      ensures Shaped() && View() == Store([], 0, 0)
      ensures fresh(segments)
    {
      segments := new Segment[MAX_PENDING_SEGMENTS](_ => Segment(0, []));
      count, bytes, cap := 0, 0, 0;
    }

    method Reset(newCap: nat)
      requires Shaped()
      modifies this
      ensures Shaped() && View() == Store([], 0, newCap)
    {
      count, bytes, cap := 0, 0, newCap;
    }

    /** `remove_pending_at`. */
    method RemoveAt(index: nat)
      requires Shaped() && StoreBounded(View()) && index < count
      modifies this, segments
      ensures Shaped() && View() == Removed(old(View()), index) && count == old(count) - 1
    {
      RemovalKeepsBounds(View(), index);
      assert segments[index] == View().pending[index];
      if |segments[index].data| <= bytes {
        bytes := bytes - |segments[index].data|;
      } else {
        assert false; // the saturating branch of the original is dead
      }
      forall i | index <= i < count - 1 {
        segments[i] := segments[i + 1];
      }
      count := count - 1;
      segments[count] := Segment(0, []);
      assert segments[..count] == WithoutAt(old(segments[..count]), index);
    }

    /** `store_out_of_order_segment`. */
    method Add(sequence: uint32, payload: seq<byte>) returns (ok: bool)
      requires Shaped() && bytes <= cap
      modifies this, segments
      ensures Shaped() && View() == Stored(old(View()), sequence, payload)
      ensures ok <==> CanStore(old(View()), payload)
    {
      if count >= MAX_PENDING_SEGMENTS || |payload| == 0 || |payload| > cap || |payload| > cap - bytes {
        return false;
      }
      segments[count] := Segment(sequence, payload);
      count := count + 1;
      bytes := bytes + |payload|;
      assert segments[..count] == old(segments[..count]) + [Segment(sequence, payload)];
      return true;
    }
  }

  class ReassemblyDirection {
    var nextSequence: uint32
    var initialSequenceKnown: bool
    var finSeen: bool
    var rstSeen: bool
    var unusable: bool
    var counters: Counters
    const stream: StreamBuffer
    const store: PendingStore

    ghost predicate Shaped()
      reads this, stream, stream.data, store, store.segments
    {
      stream.Valid() && store.Shaped()
    }

    ghost function State(): Direction
      requires Shaped()
      reads this, stream, stream.data, store, store.segments
    {
      Direction(nextSequence, initialSequenceKnown, finSeen, rstSeen, unusable, counters, stream.View(), store.View())
    }

    ghost predicate Valid()
      reads this, stream, stream.data, store, store.segments
    {
      Shaped() && Bounded(State())
    }

    constructor ()
      ensures Valid() && State() == ZEROED
      ensures fresh(stream) && fresh(store) && fresh(store.segments) && stream.data == null
    {
      nextSequence, initialSequenceKnown, finSeen, rstSeen, unusable := 0, false, false, false, false;
      counters := NO_COUNTS;
      stream := new StreamBuffer();
      store := new PendingStore();
    }

    /** `tcp_reassembly_direction_init`: everything is zeroed, flags and counters included. */
    method Init(streamBufferBytes: nat) returns (ok: bool)
      requires Valid()
      modifies this, stream, store
      ensures Valid() && ok == (streamBufferBytes > 0)
      ensures State() == if ok then Initialized(streamBufferBytes) else old(State())
      ensures stream.data == old(stream.data) || fresh(stream.data)
    {
      if streamBufferBytes == 0 {
        return false;
      }
      store.Reset(streamBufferBytes);
      ok := stream.Init(streamBufferBytes);
      nextSequence, initialSequenceKnown, finSeen, rstSeen, unusable := 0, false, false, false, false;
      counters := NO_COUNTS;
    }

    method TrackFlags(flags: byte)
      requires Shaped()
      modifies this`rstSeen, this`finSeen
      ensures Shaped() && State() == TrackedFlags(old(State()), flags)
    {
      if RstFlag(flags) {
        rstSeen := true;
      }
      if FinFlag(flags) {
        finSeen := true;
      }
    }

    method ReleaseBuffers()
      requires Valid()
      modifies stream, store
      ensures Valid() && State() == ReleasedBuffers(old(State()))
    {
      store.Reset(store.cap);
      stream.Cleanup();
    }

    /** Appends as much as fits and says how much that was. */
    method AppendBestEffort(bytes: seq<byte>) returns (taken: nat)
      requires stream.Valid()
      modifies stream`length, stream`consumed, stream.data
      ensures stream.Valid()
      ensures taken == if stream.data == null then 0 else Min(|bytes|, Room(old(stream.View())))
      ensures stream.View() == old(stream.View()).(unread := old(stream.View().unread) + bytes[..taken])
    {
      var room := stream.capacity - stream.Length();
      var take := if |bytes| < room then |bytes| else room;
      if take == 0 {
        assert stream.View().unread + bytes[..0] == stream.View().unread;
        return 0;
      }
      var ok := stream.Append(bytes[..take]);
      if !ok {
        assert false; // room > 0 means the buffer is allocated
      }
      return take;
    }

    /** One ready pending segment: drop it, or append its new tail. */
    method DeliverPending(index: nat) returns (ok: bool)
      requires Shaped() && Bounded(State()) && index < store.count
      requires Ready(nextSequence, store.View().pending[index])
      modifies this`nextSequence, this`counters, this`unusable, store, store.segments,
               stream`length, stream`consumed, stream.data
      ensures Shaped() && (State(), ok) == PendingDelivered(old(State()), index)
      ensures ok ==> store.count < old(store.count)
    {
      hide Wrap, WithoutAt;
      var segment := store.segments[index];
      assert segment == store.View().pending[index];
      var segmentEnd := Wrap(segment.sequence + |segment.data|);
      if BeforeOrEqual(segmentEnd, nextSequence) {
        counters := counters.(retransmissions := counters.retransmissions + 1);
        store.RemoveAt(index);
        return true;
      }
      TrimIsShorterThanSegment(segment.sequence, |segment.data|, nextSequence);
      var trim := Wrap(nextSequence - segment.sequence);
      if trim > 0 {
        counters := counters.(overlapping := counters.overlapping + 1);
      }
      var appended := stream.Append(segment.data[trim..]);
      if !appended {
        unusable := true;
        return false;
      }
      nextSequence := segmentEnd;
      store.RemoveAt(index);
      return true;
    }

    /** `flush_pending_segments`: restart the scan after every delivery. */
    method FlushPendingSegments() returns (ok: bool)
      requires Valid()
      modifies this`nextSequence, this`counters, this`unusable, store, store.segments,
               stream`length, stream`consumed, stream.data
      ensures Shaped() && (State(), ok) == Flush(old(State()))
    {
      var advanced := true;
      while advanced
        invariant Valid() && Flush(State()) == Flush(old(State()))
        invariant !advanced ==> FirstReady(nextSequence, store.View().pending, 0) == store.count
        decreases store.count, advanced
      {
        advanced := false;
        var i := 0;
        while i < store.count
          invariant 0 <= i <= store.count && !advanced
          invariant FirstReady(nextSequence, store.View().pending, 0)
                 == FirstReady(nextSequence, store.View().pending, i)
        {
          assert store.segments[i] == store.View().pending[i];
          if Ready(nextSequence, store.segments[i]) {
            DeliveryKeepsBounds(State(), i);
            var delivered := DeliverPending(i);
            if !delivered {
              return false;
            }
            advanced := true;
            break;
          }
          i := i + 1;
        }
      }
      return true;
    }

    /** In-order bytes with room for them, or a truncated head. */
    method Deliver(sequence: uint32, fin: bool, bytes: seq<byte>) returns (result: Result)
      requires Valid() && |bytes| > 0
      modifies this`nextSequence, this`counters, this`unusable, store, store.segments,
               stream`length, stream`consumed, stream.data
      ensures Shaped() && (State(), result) == Delivered(old(State()), sequence, fin, bytes)
    {
      hide Wrap, Flush, TotalBytes;
      var appended := AppendBestEffort(bytes);
      if appended < |bytes| {
        unusable := true;
        return if appended > 0 then Accepted else Dropped;
      }
      assert bytes[..appended] == bytes;
      nextSequence := EndSequence(Wrap(sequence + |bytes|), fin);
      var flushed := FlushPendingSegments();
      return if flushed then Accepted else Dropped;
    }

    method Place(start: uint32, fin: bool, payload: seq<byte>) returns (result: Result)
      requires Valid() && 0 < |payload| < MODULUS
      modifies this`nextSequence, this`counters, this`unusable, store, store.segments,
               stream`length, stream`consumed, stream.data
      ensures Shaped() && (State(), result) == Placed(old(State()), start, fin, payload)
    {
      hide Wrap, Flush;
      var bytes, dataSequence := payload, start;
      if BeforeOrEqual(Wrap(dataSequence + |bytes|), nextSequence) {
        counters := counters.(retransmissions := counters.retransmissions + 1);
        return Ignored;
      }
      if Before(nextSequence, dataSequence) {
        counters := counters.(outOfOrder := counters.outOfOrder + 1, gaps := counters.gaps + 1);
        var stored := store.Add(dataSequence, bytes);
        return if stored then Buffered else Dropped;
      }
      if Before(dataSequence, nextSequence) {
        TrimIsShorterThanSegment(dataSequence, |bytes|, nextSequence);
        var trim := Wrap(nextSequence - dataSequence);
        counters := counters.(overlapping := counters.overlapping + 1);
        if trim >= |bytes| {
          assert false; // the second retransmission count of the original is dead
        }
        bytes := bytes[trim..];
        dataSequence := nextSequence;
      }
      result := Deliver(dataSequence, fin, bytes);
    }

    method ProcessSegment(sequence: uint32, flags: byte, payload: Payload) returns (result: Result)
      requires Valid()
      modifies this, store, store.segments, stream`length, stream`consumed, stream.data
      ensures Valid() && (State(), result) == Processed(old(State()), sequence, flags, payload)
    {
      hide Wrap, Flush, TotalBytes, Placed;
      ProcessKeepsBounds(State(), sequence, flags, payload);
      if unusable {
        return Dropped;
      }
      TrackFlags(flags);
      if !initialSequenceKnown {
        nextSequence := PayloadSequence(sequence, flags);
        initialSequenceKnown := true;
      }
      if payload.Length() == 0 {
        if FinFlag(flags) && nextSequence == PayloadSequence(sequence, flags) {
          nextSequence := EndSequence(nextSequence, true);
        }
        return Accepted;
      }
      if payload.Null? || payload.Length() >= MODULUS {
        unusable := true;
        return Dropped;
      }
      result := Place(PayloadSequence(sequence, flags), FinFlag(flags), payload.bytes);
    }
  }
}
