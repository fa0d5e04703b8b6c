/** What every step of a flow keeps: memory, counters, classification and teardown flags. */
module FlowLifecycle {
  import opened Bytes
  import opened SerialNumbers
  import opened StreamBuffers
  import opened TcpReassembly
  import opened TcpPending
  import opened AppMetadata
  import opened AppDecoder
  import HttpDecoder
  import opened FlowDecode

  predicate Empty(d: Direction) {
    !d.stream.live && d.stream.capacity == 0 && d.store.pending == []
  }

  /** Allocated at the configured size, or empty; classified flows hold nothing; and an unclassified
      direction without a buffer has never counted anything. */
  predicate DirectionOk(d: Direction, streamBytes: nat, classified: bool) {
    && Bounded(d) && d.store.cap <= streamBytes
    && (d.stream.live ==> !classified && d.stream.capacity == streamBytes)
    && (!d.stream.live ==> Empty(d) && (!classified ==> d.counters == NO_COUNTS))
  }

  predicate ConversationOk(c: Conversation) {
    && c.streamBytes > 0
    && DirectionOk(c.aToB, c.streamBytes, c.app.Some?)
    && DirectionOk(c.bToA, c.streamBytes, c.app.Some?)
  }

  lemma ReleasingKeepsOk(d: Direction, streamBytes: nat, classified: bool)
    requires DirectionOk(d, streamBytes, classified)
    ensures DirectionOk(ReleasedBuffers(d), streamBytes, true)
  {
  }

  lemma ClassifyingKeepsOk(c: Conversation, info: AppInfo)
    requires ConversationOk(c)
    ensures ConversationOk(Classified(c, info))
  {
    hide DirectionOk, ReleasedBuffers;
    ReleasingKeepsOk(c.aToB, c.streamBytes, c.app.Some?);
    ReleasingKeepsOk(c.bToA, c.streamBytes, c.app.Some?);
  }

  lemma TrackingKeepsOk(d: Direction, streamBytes: nat, classified: bool, flags: byte)
    requires DirectionOk(d, streamBytes, classified)
    ensures DirectionOk(TrackedFlags(d, flags), streamBytes, classified)
  {
  }

  lemma ProcessingKeepsOk(c: Conversation, way: Way, p: TcpView)
    requires ConversationOk(c) && c.app.None?
    ensures Bounded(Prepared(c, way))
    ensures var d := Prepared(c, way);
            var r := Processed(d, p.sequence, p.flags, p.payload).0;
            DirectionOk(r, c.streamBytes, false) && r.stream.live && NoLess(c.At(way).counters, r.counters)
  {
    hide Processed, Sized;
    PreparedIsBounded(c, way);
    var d := Prepared(c, way);
    ProcessKeepsBounds(d, p.sequence, p.flags, p.payload);
    ProcessExtends(d, p.sequence, p.flags, p.payload);
  }

  /** One packet keeps the invariant and never lowers a counter of either direction. */
  lemma StepKeepsOk(c: Conversation, way: Way, p: TcpView)
    requires ConversationOk(c)
    ensures ConversationOk(Step(c, way, p).0)
    ensures forall w :: NoLess(c.At(w).counters, Step(c, way, p).0.At(w).counters)
  {
    hide Processed, DirectionOk, StreamDecoding, ReleasedBuffers, TrackedFlags;
    assert WellBounded(c) by { OkIsBounded(c); }
    if p.hasSequence {
      if OnlyTracks(c, p) {
        TrackingKeepsOk(c.At(way), c.streamBytes, c.app.Some?, p.flags);
        TrackingKeepsCounters(c.At(way), p.flags);
      } else {
        ProcessingKeepsOk(c, way, p);
        var (d, result) := Processed(Prepared(c, way), p.sequence, p.flags, p.payload);
        var processed := c.With(way, d);
        if Concluded(c, way, p, d, result).0 != processed {
          ClassifyingKeepsOk(processed, Concluded(c, way, p, d, result).0.app.value);
          ReleasingKeepsCounters(processed.aToB);
          ReleasingKeepsCounters(processed.bToA);
        }
      }
    }
  }

  lemma OkIsBounded(c: Conversation)
    requires ConversationOk(c)
    ensures WellBounded(c)
  {
  }

  lemma TrackingKeepsCounters(d: Direction, flags: byte)
    ensures TrackedFlags(d, flags).counters == d.counters
  {
  }

  lemma ReleasingKeepsCounters(d: Direction)
    ensures ReleasedBuffers(d).counters == d.counters
  {
  }

  // ----- memory -----

  function Memory(d: Direction): nat {
    d.stream.capacity + d.store.bytes
  }

  /** A direction never holds more than one stream buffer and as much again of pending bytes. */
  lemma MemoryIsBounded(d: Direction, streamBytes: nat, classified: bool)
    requires DirectionOk(d, streamBytes, classified)
    ensures Memory(d) <= 2 * streamBytes
    ensures classified ==> Memory(d) == 0
    ensures d.stream.capacity == if d.stream.live then streamBytes else 0
  {
  }

  // ----- classification -----

  datatype Event = Segment(way: Way, p: TcpView) | PacketDecoded(info: AppInfo)

  /** A packet of the flow, or the packet-local decode that may classify it. */
  function Lived(c: Conversation, e: Event): Conversation
    requires WellBounded(c)
  {
    match e
    case Segment(way, p) => Step(c, way, p).0
    case PacketDecoded(info) => if c.app.None? then Classified(c, info) else c
  }

  function LivedAll(c: Conversation, events: seq<Event>): (r: Conversation)
    requires ConversationOk(c)
    ensures ConversationOk(r)
  {
    if events == [] then c
    else
      var before, e := LivedAll(c, events[..|events| - 1]), events[|events| - 1];
      OkIsBounded(before);
      EventKeepsOk(before, e);
      Lived(before, e)
  }

  lemma EventKeepsOk(c: Conversation, e: Event)
    requires ConversationOk(c)
    ensures WellBounded(c) && ConversationOk(Lived(c, e))
  {
    hide Step, Classified, ConversationOk, WellBounded;
    OkIsBounded(c);
    match e
    case Segment(way, p) => StepKeepsOk(c, way, p);
    case PacketDecoded(info) =>
      if c.app.None? {
        ClassifyingKeepsOk(c, info);
      }
  }

  lemma EventKeepsClassification(c: Conversation, e: Event)
    requires ConversationOk(c) && WellBounded(c) && c.app.Some?
    ensures Lived(c, e).app == c.app
  {
    hide Processed, DirectionOk, TrackedFlags;
  }

  /** Once classified, in every continuation: the metadata never changes, and the flow never again holds
      stream or pending memory. */
  lemma {:induction false} ClassifiedForGood(c: Conversation, events: seq<Event>)
    requires ConversationOk(c) && c.app.Some?
    ensures var r := LivedAll(c, events);
            r.app == c.app && Memory(r.aToB) == 0 && Memory(r.bToA) == 0 && Empty(r.aToB) && Empty(r.bToA)
    decreases |events|
  {
    hide Lived;
    if events != [] {
      var before, e := LivedAll(c, events[..|events| - 1]), events[|events| - 1];
      ClassifiedForGood(c, events[..|events| - 1]);
      OkIsBounded(before);
      EventKeepsClassification(before, e);
    }
    var r := LivedAll(c, events);
    MemoryIsBounded(r.aToB, r.streamBytes, true);
    MemoryIsBounded(r.bToA, r.streamBytes, true);
  }

  /** The direction that a payload meets: the one at hand, or one zeroed and given an empty buffer. */
  function MetBy(c: Conversation, way: Way): Direction {
    var d := if way == AToB then c.aToB else c.bToA;
    if d.stream.live then d
    else Direction(0, false, false, false, false, Counters(0, 0, 0, 0), Stream(true, c.streamBytes, []),
                   Store([], 0, c.streamBytes))
  }

  /** Nothing buffered and nothing pending in either direction. */
  predicate HoldsNothing(c: Conversation) {
    && !c.aToB.stream.live && c.aToB.stream.unread == [] && c.aToB.store.pending == [] && c.aToB.store.bytes == 0
    && !c.bToA.stream.live && c.bToA.stream.unread == [] && c.bToA.store.pending == [] && c.bToA.store.bytes == 0
  }

  /** What the status of a step says. Decoded: this packet classified the flow, as the bytes of its direction's stream
      do, and all memory was released. Truncated: the segment was dropped, or more bytes are needed than the packet had
      room for. Otherwise the verdict on the stream, which is asked for whenever the segment was not dropped. */
  lemma StatusMeans(c: Conversation, way: Way, p: TcpView)
    requires WellBounded(c) && HasBytes(p) && c.app.None? && c.streamBytes > 0
    ensures Bounded(MetBy(c, way))
    ensures var (r, status) := Step(c, way, p);
            var (d, result) := Processed(MetBy(c, way), p.sequence, p.flags, p.payload);
            var verdict := StreamDecoding(p.ports, d.stream.unread);
            && (status.StatusDecoded? <==> result != Dropped && verdict.Decoded?)
            && (status.StatusDecoded? <==> r.app.Some?)
            && (r.app.Some? ==> r.app.value == verdict.info && HoldsNothing(r))
            && (r.app.None? ==> r == c.With(way, d))
            && (status.StatusTruncated? <==> result == Dropped || (verdict.NeedMore? && p.windowed))
            && (status.StatusNeedMore? <==> result != Dropped && verdict.NeedMore? && !p.windowed)
            && (status.StatusMalformed? <==> result != Dropped && verdict.Malformed?)
            && (status.StatusNoMatch? <==> result != Dropped && verdict.NoMatch?)
  {
    hide Processed, StreamDecoding;
    PreparedIsBounded(c, way);
  }

  /** Without bytes, or once the flow is classified, only the teardown flags of the packet's direction are recorded, and
      nothing at all without a sequence number. */
  lemma NothingToDecode(c: Conversation, way: Way, p: TcpView)
    requires WellBounded(c) && !(HasBytes(p) && c.app.None?)
    ensures Step(c, way, p).1.StatusNoMatch?
    ensures var (d, r) := (c.At(way), Step(c, way, p).0);
            if !p.hasSequence then r == c
            else
              && r.At(way) == d.(finSeen := d.finSeen || p.flags % 2 == 1, rstSeen := d.rstSeen || p.flags / 4 % 2 == 1)
              && r.app == c.app && r.streamBytes == c.streamBytes && forall w | w != way :: r.At(w) == c.At(w)
  {
    hide Processed, StreamDecoding;
  }

  /** A packet that decodes by itself classifies an unclassified flow and releases its memory; it never reclassifies. */
  lemma PacketLocalDecodeClassifies(c: Conversation, info: AppInfo)
    requires WellBounded(c)
    ensures var r := Lived(c, PacketDecoded(info));
            if c.app.Some? then r == c
            else
              && r.app == Some(info) && HoldsNothing(r)
              && forall w :: r.At(w) == c.At(w).(stream := r.At(w).stream, store := r.At(w).store)
  {
  }

  // ----- pending segments -----

  /** Poisoned for good, or nothing is held that could be delivered. */
  predicate Orderly(d: Direction) {
    d.unusable || Waiting(d)
  }

  predicate BothOrderly(c: Conversation) {
    Orderly(c.aToB) && Orderly(c.bToA)
  }

  lemma TrackingKeepsOrder(d: Direction, flags: byte)
    requires Orderly(d)
    ensures Orderly(TrackedFlags(d, flags)) && Orderly(ReleasedBuffers(d))
  {
  }

  lemma InitializedIsOrderly(streamBytes: nat)
    ensures Orderly(Initialized(streamBytes)) && Orderly(ZEROED)
  {
  }

  lemma ProcessingKeepsOrder(c: Conversation, way: Way, p: TcpView)
    requires WellBounded(c) && BothOrderly(c) && TakesPayload(c, p)
    ensures Bounded(Prepared(c, way))
    ensures Orderly(Processed(Prepared(c, way), p.sequence, p.flags, p.payload).0)
  {
    hide Processed, Bounded, Waiting;
    PreparedIsBounded(c, way);
    InitializedIsOrderly(c.streamBytes);
    var d := Prepared(c, way);
    if d.unusable {
      UnusableStays(d, p);
    } else {
      PendingStaysInTheFuture(d, p.sequence, p.flags, p.payload);
    }
  }

  lemma UnusableStays(d: Direction, p: TcpView)
    requires Bounded(d) && d.unusable
    ensures Processed(d, p.sequence, p.flags, p.payload).0 == d
  {
  }

  lemma EventKeepsOrder(c: Conversation, e: Event)
    requires WellBounded(c) && BothOrderly(c)
    ensures BothOrderly(Lived(c, e))
  {
    hide Processed, Bounded, Orderly, StreamDecoding, ReleasedBuffers, TrackedFlags;
    TrackingKeepsOrder(c.aToB, 0);
    TrackingKeepsOrder(c.bToA, 0);
    if e.Segment? {
      TrackingKeepsOrder(c.At(e.way), e.p.flags);
      if TakesPayload(c, e.p) {
        ProcessingKeepsOrder(c, e.way, e.p);
        TrackingKeepsOrder(Processed(Prepared(c, e.way), e.p.sequence, e.p.flags, e.p.payload).0, 0);
      }
    }
  }

  /** In every run of a flow, whatever its packets carry, each direction is poisoned for good or holds only segments
      strictly in the future of the expected byte: a bare FIN never reaches the segment processor. */
  lemma {:induction false} PendingStaysInTheFutureOverRuns(streamBytes: nat, events: seq<Event>)
    requires streamBytes > 0
    ensures ConversationOk(NewConversation(streamBytes))
    ensures BothOrderly(LivedAll(NewConversation(streamBytes), events))
    decreases |events|
  {
    hide Lived, Orderly, ConversationOk, WellBounded;
    NewIsOk(streamBytes);
    InitializedIsOrderly(streamBytes);
    if events != [] {
      PendingStaysInTheFutureOverRuns(streamBytes, events[..|events| - 1]);
      var before := LivedAll(NewConversation(streamBytes), events[..|events| - 1]);
      OkIsBounded(before);
      EventKeepsOrder(before, events[|events| - 1]);
    }
  }

  function NewConversation(streamBytes: nat): Conversation {
    Conversation(None, streamBytes, ZEROED, ZEROED)
  }

  lemma NewIsOk(streamBytes: nat)
    requires streamBytes > 0
    ensures ConversationOk(NewConversation(streamBytes))
  {
  }

  // ----- teardown flags -----

  predicate HasBytes(p: TcpView) {
    p.hasSequence && p.hasPayload && match p.payload case Null(size) => size > 0 case Data(bytes) => bytes != []
  }

  /** A payload that reassembly takes up, as opposed to a packet whose flags alone are tracked. */
  predicate TakesPayload(c: Conversation, p: TcpView) {
    HasBytes(p) && c.app.None?
  }

  /** The payload meets a direction without a buffer: everything recorded there is zeroed first. */
  predicate Reinitialises(c: Conversation, way: Way, p: TcpView) {
    TakesPayload(c, p) && !c.At(way).stream.live
  }

  /** The payload meets a poisoned direction: the segment is refused before its flags are looked at. */
  predicate RefusedByPoison(c: Conversation, way: Way, p: TcpView) {
    TakesPayload(c, p) && c.At(way).stream.live && c.At(way).unusable
  }

  lemma ProcessedFlags(d: Direction, p: TcpView)
    requires Bounded(d)
    ensures var r := Processed(d, p.sequence, p.flags, p.payload).0;
            && r.finSeen == (d.finSeen || (!d.unusable && p.flags % 2 == 1))
            && r.rstSeen == (d.rstSeen || (!d.unusable && p.flags / 4 % 2 == 1))
  {
    hide Processed;
    ProcessExtends(d, p.sequence, p.flags, p.payload);
  }

  /** FIN and RST after one packet, exactly: a flag seen earlier is lost only when the direction is
      re-initialised, and the packet's own flag is missed only when a poisoned direction refuses it. */
  lemma FlagsAfterStep(c: Conversation, way: Way, p: TcpView)
    requires ConversationOk(c) && WellBounded(c) && p.hasSequence
    ensures var d, r := c.At(way), Step(c, way, p).0.At(way);
            && r.finSeen == ((d.finSeen && !Reinitialises(c, way, p))
                 || (p.flags % 2 == 1 && !RefusedByPoison(c, way, p)))
            && r.rstSeen == ((d.rstSeen && !Reinitialises(c, way, p))
                 || (p.flags / 4 % 2 == 1 && !RefusedByPoison(c, way, p)))
    ensures forall w | w != way ::
              Step(c, way, p).0.At(w).finSeen == c.At(w).finSeen && Step(c, way, p).0.At(w).rstSeen == c.At(w).rstSeen
  {
    hide Processed, StreamDecoding, Bounded;
    if !OnlyTracks(c, p) {
      PreparedIsBounded(c, way);
      ProcessedFlags(Prepared(c, way), p);
    }
  }

  const BARE_FIN := TcpView(true, 100, 1, false, false, Data([]), Ports(true, 5000, 80))
  const FIRST_BYTE := TcpView(true, 101, 0, true, false, Data([71]), Ports(true, 5000, 80))

  /** The loss happens: a bare FIN before the first payload of its direction is forgotten. */
  lemma FinBeforePayloadIsForgotten()
    ensures var c := Conversation(None, 16, ZEROED, ZEROED);
            ConversationOk(c) && WellBounded(c) &&
            var one := Step(c, AToB, BARE_FIN).0;
            one.aToB.finSeen && ConversationOk(one) && WellBounded(one) &&
            !Step(one, AToB, FIRST_BYTE).0.aToB.finSeen
  {
    hide Processed;
    var c := Conversation(None, 16, ZEROED, ZEROED);
    var one := Step(c, AToB, BARE_FIN).0;
    FlagsAfterStep(c, AToB, BARE_FIN);
    FlagsAfterStep(one, AToB, FIRST_BYTE);
  }

  const TWO_BYTES := TcpView(true, 100, 0, true, false, Data([71, 88]), Ports(true, 5000, 80))
  const RESET_WITH_BYTE := TcpView(true, 102, 4, true, false, Data([88]), Ports(true, 5000, 80))

  /** The refusal happens: once two bytes have overfilled a one-byte buffer, a reset that carries a byte
      goes unrecorded. */
  lemma PoisonHidesReset()
    ensures var c := Conversation(None, 1, ZEROED, ZEROED);
            ConversationOk(c) && WellBounded(c) &&
            var one := Step(c, AToB, TWO_BYTES).0;
            one.app.None? && one.aToB.unusable && ConversationOk(one) && WellBounded(one) &&
            !Step(one, AToB, RESET_WITH_BYTE).0.aToB.rstSeen
  {
    var c := Conversation(None, 1, ZEROED, ZEROED);
    OverfullStep(c);
    var one := Step(c, AToB, TWO_BYTES).0;
    StepKeepsOk(c, AToB, TWO_BYTES);
    OkIsBounded(one);
    FlagsAfterStep(c, AToB, TWO_BYTES);
    FlagsAfterStep(one, AToB, RESET_WITH_BYTE);
  }

  lemma OverfullStep(c: Conversation)
    requires c == Conversation(None, 1, ZEROED, ZEROED)
    ensures WellBounded(c)
    ensures var one := Step(c, AToB, TWO_BYTES).0;
            one.app.None? && one.aToB.unusable && one.aToB.stream.live
  {
    hide Flush;
    var d := Initialized(1);
    var r := Processed(d, 100, 0, Data([71, 88])).0;
    assert r.unusable && r.stream.unread == [71];
    var decoding := StreamDecoding(TWO_BYTES.ports, [71]);
    assert decoding.NeedMore? by {
      assert HttpDecoder.MaybeMethod([71], HttpDecoder.METHODS[0]);
      assert HttpDecoder.FindHeaderEnd([71], 0).None?;
    }
  }
}
