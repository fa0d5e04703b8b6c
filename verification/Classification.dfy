/** What a flow is classified as does not depend on how its two streams were cut, ordered and interleaved. */
module Classification {
  import opened Bytes
  import opened SerialNumbers
  import opened StreamBuffers
  import opened TcpReassembly
  import opened TcpStream
  import opened TcpSplice
  import opened TcpCoverage
  import opened TcpRoom
  import opened TcpTruncation
  import opened AppMetadata
  import opened AppDecoder
  import opened FlowDecode
  import opened FlowLifecycle

  // ----- one direction of a flow -----

  /** A new flow after these events. */
  function FlowAfter(cap: nat, events: seq<Event>): (c: Conversation)
    requires cap > 0
    ensures ConversationOk(c) && WellBounded(c)
  {
    NewIsOk(cap);
    OkIsBounded(LivedAll(NewConversation(cap), events));
    LivedAll(NewConversation(cap), events)
  }

  lemma FlowAfterLast(cap: nat, events: seq<Event>)
    requires cap > 0
    ensures FlowAfter(cap, []) == NewConversation(cap)
    ensures events != [] ==>
              FlowAfter(cap, events) == Lived(FlowAfter(cap, events[..|events| - 1]), events[|events| - 1])
  {
    hide Lived;
  }

  /** The packets of one direction whose payloads reassembly looked at, in a run of a new flow: those with payload
      that arrived before the flow was classified. */
  function LookedAt(cap: nat, events: seq<Event>, way: Way): seq<TcpView>
    requires cap > 0
  {
    if events == [] then []
    else
      var init, e := events[..|events| - 1], events[|events| - 1];
      var looked := e.Segment? && e.way == way && HasBytes(e.p) && FlowAfter(cap, init).app.None?;
      LookedAt(cap, init, way) + if looked then [e.p] else []
  }

  /** A fresh direction after these packets. */
  function Fed(cap: nat, views: seq<TcpView>): (d: Direction)
    ensures Bounded(d)
  {
    if views == [] then Initialized(cap)
    else
      var before, p := Fed(cap, views[..|views| - 1]), views[|views| - 1];
      ProcessKeepsBounds(before, p.sequence, p.flags, p.payload);
      Processed(before, p.sequence, p.flags, p.payload).0
  }

  predicate SameButFlags(d: Direction, e: Direction) {
    d == e.(finSeen := d.finSeen, rstSeen := d.rstSeen)
  }

  lemma {:induction false} FlushIgnoresFlags(d: Direction, e: Direction)
    requires SameButFlags(d, e) && Sized(d.store.pending)
    ensures SameButFlags(Flush(d).0, Flush(e).0) && Flush(d).1 == Flush(e).1
    decreases |d.store.pending|
  {
    hide Wrap, BeforeOrEqual, FirstReady, TotalBytes, PendingDelivered;
    var i := FirstReady(d.next, d.store.pending, 0);
    if i < |d.store.pending| {
      PendingIgnoresFlags(d, e, i);
      if PendingDelivered(d, i).1 {
        FlushIgnoresFlags(PendingDelivered(d, i).0, PendingDelivered(e, i).0);
      }
    }
  }

  lemma PendingIgnoresFlags(d: Direction, e: Direction, i: nat)
    requires SameButFlags(d, e) && Sized(d.store.pending) && i < |d.store.pending|
    requires Ready(d.next, d.store.pending[i])
    ensures SameButFlags(PendingDelivered(d, i).0, PendingDelivered(e, i).0)
    ensures PendingDelivered(d, i).1 == PendingDelivered(e, i).1
    ensures PendingDelivered(d, i).1 ==>
              && |PendingDelivered(d, i).0.store.pending| < |d.store.pending|
              && Sized(PendingDelivered(d, i).0.store.pending)
  {
    hide Wrap, BeforeOrEqual, TotalBytes;
  }

  lemma DeliveryIgnoresFlags(d: Direction, e: Direction, start: uint32, fin: bool, bytes: seq<byte>)
    requires SameButFlags(d, e) && Bounded(d) && |bytes| > 0
    ensures SameButFlags(Delivered(d, start, fin, bytes).0, Delivered(e, start, fin, bytes).0)
    ensures Delivered(d, start, fin, bytes).1 == Delivered(e, start, fin, bytes).1
  {
    hide Wrap, Flush, TotalBytes;
    if Fits(d.stream, bytes) {
      var next := EndSequence(Wrap(start + |bytes|), fin);
      FlushIgnoresFlags(d.(stream := Appended(d.stream, bytes), next := next),
                        e.(stream := Appended(e.stream, bytes), next := next));
    }
  }

  lemma PlacingIgnoresFlags(d: Direction, e: Direction, start: uint32, fin: bool, bytes: seq<byte>)
    requires SameButFlags(d, e) && Bounded(d) && 0 < |bytes| < MODULUS
    ensures SameButFlags(Placed(d, start, fin, bytes).0, Placed(e, start, fin, bytes).0)
    ensures Placed(d, start, fin, bytes).1 == Placed(e, start, fin, bytes).1
  {
    hide Wrap, Delivered, TotalBytes;
    if !BeforeOrEqual(Wrap(start + |bytes|), d.next) && !Before(d.next, start) {
      if Before(start, d.next) {
        TrimIsShorterThanSegment(start, |bytes|, d.next);
        DeliveryIgnoresFlags(CountOverlap(d), CountOverlap(e), d.next, fin, bytes[Wrap(d.next - start)..]);
      } else {
        DeliveryIgnoresFlags(d, e, start, fin, bytes);
      }
    }
  }

  /** The recorded teardown flags influence nothing else. */
  lemma ProcessingIgnoresFlags(d: Direction, e: Direction, p: TcpView)
    requires SameButFlags(d, e) && Bounded(d) && Bounded(e)
    ensures SameButFlags(Processed(d, p.sequence, p.flags, p.payload).0, Processed(e, p.sequence, p.flags, p.payload).0)
    ensures Processed(d, p.sequence, p.flags, p.payload).1 == Processed(e, p.sequence, p.flags, p.payload).1
  {
    hide Wrap, Placed, TotalBytes;
    if !d.unusable && p.payload.Data? && 0 < |p.payload.bytes| < MODULUS {
      PlacingIgnoresFlags(Baselined(TrackedFlags(d, p.flags), p.sequence, p.flags),
                          Baselined(TrackedFlags(e, p.flags), p.sequence, p.flags),
                          PayloadSequence(p.sequence, p.flags), FinFlag(p.flags), p.payload.bytes);
    }
  }

  /** An unclassified flow keeps its directions apart: each is, but for its flags, what its own payloads make of it. */
  ghost predicate Separate(cap: nat, events: seq<Event>, way: Way)
    requires cap > 0
  {
    var c, views := FlowAfter(cap, events), LookedAt(cap, events, way);
    c.app.None? ==>
      && c.streamBytes == cap
      && if views == [] then !c.At(way).stream.live
         else c.At(way).stream.live && SameButFlags(c.At(way), Fed(cap, views))
  }

  lemma FedWithLast(cap: nat, views: seq<TcpView>, p: TcpView)
    ensures Fed(cap, views + [p]) == Processed(Fed(cap, views), p.sequence, p.flags, p.payload).0
  {
    assert (views + [p])[..|views|] == views;
  }

  /** The direction a payload is processed on is what the earlier payloads made of it. */
  lemma PreparedIsFed(cap: nat, c: Conversation, way: Way, views: seq<TcpView>)
    requires c.streamBytes == cap
    requires if views == [] then !c.At(way).stream.live
             else c.At(way).stream.live && SameButFlags(c.At(way), Fed(cap, views))
    ensures SameButFlags(Prepared(c, way), Fed(cap, views))
  {
  }

  lemma PayloadKeepsSeparate(cap: nat, c: Conversation, way: Way, views: seq<TcpView>, p: TcpView)
    requires WellBounded(c) && cap > 0 && c.streamBytes == cap && TakesPayload(c, p)
    requires if views == [] then !c.At(way).stream.live
             else c.At(way).stream.live && SameButFlags(c.At(way), Fed(cap, views))
    ensures var (c', _) := Step(c, way, p);
            var result := Processed(Fed(cap, views), p.sequence, p.flags, p.payload).1;
            var verdict := StreamDecoding(p.ports, Fed(cap, views + [p]).stream.unread);
            && c'.streamBytes == cap
            && (c'.app == if result != Dropped && verdict.Decoded? then Some(verdict.info) else None)
            && (c'.app.None? ==> c'.At(way).stream.live && SameButFlags(c'.At(way), Fed(cap, views + [p])))
            && (c'.app.None? ==> forall w | w != way :: c'.At(w) == c.At(w))
  {
    hide Processed, StreamDecoding, Bounded, TrackedFlags;
    PreparedIsBounded(c, way);
    PreparedIsFed(cap, c, way, views);
    FedWithLast(cap, views, p);
    ProcessingIgnoresFlags(Prepared(c, way), Fed(cap, views), p);
    StreamStaysLive(Prepared(c, way), p);
  }

  lemma StreamStaysLive(d: Direction, p: TcpView)
    requires Bounded(d)
    ensures Processed(d, p.sequence, p.flags, p.payload).0.stream.live == d.stream.live
  {
    hide Processed;
    ProcessExtends(d, p.sequence, p.flags, p.payload);
  }

  /** A packet without a payload to look at only touches flags. */
  lemma OtherStepTouchesFlags(c: Conversation, way: Way, p: TcpView)
    requires WellBounded(c) && c.app.None? && !TakesPayload(c, p)
    ensures var (c', _) := Step(c, way, p);
            && c'.app == c.app && c'.streamBytes == c.streamBytes
            && forall w :: SameButFlags(c'.At(w), c.At(w)) && c'.At(w).stream == c.At(w).stream
  {
    hide Processed, StreamDecoding;
  }

  lemma {:induction false} DirectionIsFed(cap: nat, events: seq<Event>, way: Way)
    requires cap > 0
    ensures Separate(cap, events, way)
    decreases |events|
  {
    hide Step, Lived, Fed, SameButFlags, WellBounded, Bounded, FlowAfter;
    FlowAfterLast(cap, events);
    if events != [] {
      var init, e := events[..|events| - 1], events[|events| - 1];
      var c := FlowAfter(cap, init);
      DirectionIsFed(cap, init, way);
      var views := LookedAt(cap, init, way);
      if c.app.Some? {
        EventKeepsClassification(c, e);
      } else {
        EventKeepsSeparate(cap, c, e, way, views);
        assert views + [] == views;
      }
    }
  }

  lemma EventKeepsSeparate(cap: nat, c: Conversation, e: Event, way: Way, views: seq<TcpView>)
    requires WellBounded(c) && cap > 0 && c.streamBytes == cap && c.app.None?
    requires if views == [] then !c.At(way).stream.live
             else c.At(way).stream.live && SameButFlags(c.At(way), Fed(cap, views))
    ensures var c' := Lived(c, e);
            var looked := e.Segment? && e.way == way && TakesPayload(c, e.p);
            var views' := if looked then views + [e.p] else views;
            c'.app.None? ==>
              && c'.streamBytes == cap
              && if views' == [] then !c'.At(way).stream.live
                 else c'.At(way).stream.live && SameButFlags(c'.At(way), Fed(cap, views'))
  {
    hide Step, Fed, WellBounded, StreamDecoding;
    if e.Segment? {
      if !TakesPayload(c, e.p) {
        OtherStepTouchesFlags(c, e.way, e.p);
      } else if e.way == way {
        PayloadKeepsSeparate(cap, c, way, views, e.p);
      } else {
        OtherWayStays(c, e.way, e.p);
      }
    }
  }

  lemma OtherWayStays(c: Conversation, way: Way, p: TcpView)
    requires WellBounded(c) && TakesPayload(c, p)
    ensures var (c', _) := Step(c, way, p);
            c'.app.None? ==> c'.streamBytes == c.streamBytes && forall w | w != way :: c'.At(w) == c.At(w)
  {
    hide Processed, StreamDecoding, Bounded;
    PreparedIsBounded(c, way);
  }

  // ----- the packet that classified the flow -----

  /** The packet whose stream decoding classified the flow, if that is how it was classified. */
  function ClassifiedBy(cap: nat, events: seq<Event>): Option<(Way, TcpView)>
    requires cap > 0
  {
    if events == [] then None
    else
      var init, e := events[..|events| - 1], events[|events| - 1];
      var before := FlowAfter(cap, init);
      if before.app.Some? then ClassifiedBy(cap, init)
      else if e.Segment? && Lived(before, e).app.Some? then Some((e.way, e.p))
      else None
  }

  /** The last of these packets was taken, and the stream it left decodes to this, or it did not classify. */
  ghost predicate Decides(cap: nat, views: seq<TcpView>, app: Option<AppInfo>) {
    views != [] &&
    var before, p := Fed(cap, views[..|views| - 1]), views[|views| - 1];
    var taken := Processed(before, p.sequence, p.flags, p.payload).1 != Dropped;
    var verdict := StreamDecoding(p.ports, Fed(cap, views).stream.unread);
    app == if taken && verdict.Decoded? then Some(verdict.info) else None
  }

  lemma PayloadDecides(cap: nat, c: Conversation, way: Way, views: seq<TcpView>, p: TcpView)
    requires WellBounded(c) && cap > 0 && c.streamBytes == cap && TakesPayload(c, p)
    requires if views == [] then !c.At(way).stream.live
             else c.At(way).stream.live && SameButFlags(c.At(way), Fed(cap, views))
    ensures Decides(cap, views + [p], Step(c, way, p).0.app)
  {
    hide Processed, StreamDecoding, Fed, Step, WellBounded;
    PayloadKeepsSeparate(cap, c, way, views, p);
    assert (views + [p])[..|views|] == views;
  }

  /** The classifying packet was looked at last in its direction, and its stream decodes to the flow's metadata. */
  lemma {:induction false} ClassifierDecodes(cap: nat, events: seq<Event>)
    requires cap > 0 && ClassifiedBy(cap, events).Some?
    ensures var (way, p) := ClassifiedBy(cap, events).value;
            var views := LookedAt(cap, events, way);
            var app := FlowAfter(cap, events).app;
            app.Some? && Decides(cap, views, app) && views[|views| - 1] == p
    decreases |events|
  {
    hide Step, Fed, SameButFlags, WellBounded, Decides;
    var init, e := events[..|events| - 1], events[|events| - 1];
    var c := FlowAfter(cap, init);
    if c.app.Some? {
      ClassifierDecodes(cap, init);
      EventKeepsClassification(c, e);
      var (way, p) := ClassifiedBy(cap, init).value;
      var views := LookedAt(cap, init, way);
      assert views + [] == views;
    } else {
      ClassifyingTakesPayload(c, e);
      DirectionIsFed(cap, init, e.way);
      PayloadDecides(cap, c, e.way, LookedAt(cap, init, e.way), e.p);
    }
  }

  lemma ClassifyingTakesPayload(c: Conversation, e: Event)
    requires WellBounded(c) && c.app.None? && e.Segment? && Lived(c, e).app.Some?
    ensures TakesPayload(c, e.p)
  {
    hide Processed, StreamDecoding;
  }

  /** While a flow is unclassified, the last packet looked at in a direction did not decide it. */
  lemma {:induction false} UndecidedSoFar(cap: nat, events: seq<Event>, way: Way)
    requires cap > 0
    ensures var views := LookedAt(cap, events, way);
            FlowAfter(cap, events).app.None? && views != [] ==> Decides(cap, views, None)
    decreases |events|
  {
    hide Step, Fed, SameButFlags, WellBounded, Decides;
    if events != [] {
      var init, e := events[..|events| - 1], events[|events| - 1];
      var c := FlowAfter(cap, init);
      UndecidedSoFar(cap, init, way);
      var views := LookedAt(cap, init, way);
      assert views + [] == views;
      if c.app.Some? {
        EventKeepsClassification(c, e);
      } else if e.Segment? && e.way == way && TakesPayload(c, e.p) {
        DirectionIsFed(cap, init, way);
        PayloadDecides(cap, c, way, views, e.p);
      }
    }
  }

  /** Nor did any earlier one. */
  lemma {:induction false} UndecidedAllAlong(cap: nat, events: seq<Event>, way: Way, j: nat)
    requires cap > 0 && FlowAfter(cap, events).app.None? && 0 < j <= |LookedAt(cap, events, way)|
    ensures Decides(cap, LookedAt(cap, events, way)[..j], None)
    decreases |events|
  {
    hide Step, Fed, SameButFlags, WellBounded, Decides, FlowAfter;
    FlowAfterLast(cap, events);
    var views := LookedAt(cap, events, way);
    if j == |views| {
      UndecidedSoFar(cap, events, way);
      assert views[..j] == views;
    } else {
      var init, e := events[..|events| - 1], events[|events| - 1];
      if FlowAfter(cap, init).app.Some? {
        EventKeepsClassification(FlowAfter(cap, init), e);
      }
      UndecidedAllAlong(cap, init, way, j);
      assert LookedAt(cap, init, way)[..j] == views[..j];
    }
  }

  /** Without packet-local decodes, a classified flow was classified by a packet's stream. */
  lemma {:induction false} ClassifiedByAStream(cap: nat, events: seq<Event>)
    requires cap > 0 && forall e <- events :: e.Segment?
    ensures FlowAfter(cap, events).app.Some? <==> ClassifiedBy(cap, events).Some?
    decreases |events|
  {
    hide Step, WellBounded;
    if events != [] {
      var init, e := events[..|events| - 1], events[|events| - 1];
      assert forall x <- init :: x in events;
      assert e in events;
      ClassifiedByAStream(cap, init);
      var c := FlowAfter(cap, init);
      if c.app.Some? {
        EventKeepsClassification(c, e);
      }
    }
  }

  // ----- packets that carry slices of a source -----

  /** Each packet carries the slice of the source that its arrival says. */
  predicate Carries(src: Source, views: seq<TcpView>, arrivals: seq<Arrival>) {
    && |views| == |arrivals|
    && forall i | 0 <= i < |arrivals| ::
         && Consistent(src, arrivals[i])
         && views[i].sequence == WireSequence(src, arrivals[i]) && views[i].flags == arrivals[i].flags
         && views[i].payload == WirePayload(src, arrivals[i])
  }

  lemma CarriesConsistently(src: Source, views: seq<TcpView>, arrivals: seq<Arrival>)
    requires Carries(src, views, arrivals)
    ensures |views| == |arrivals| && forall a <- arrivals :: Consistent(src, a)
  {
  }

  lemma {:induction false} FedIsAfter(src: Source, cap: nat, views: seq<TcpView>, arrivals: seq<Arrival>)
    requires Carries(src, views, arrivals) && forall a <- arrivals :: Consistent(src, a)
    ensures Fed(cap, views) == After(src, cap, arrivals)
    decreases |views|
  {
    hide Processed, Wrap;
    if views != [] {
      FedIsAfter(src, cap, views[..|views| - 1], arrivals[..|views| - 1]);
    }
  }

  function Reversed(p: Ports): Ports {
    Ports(p.known, p.destination, p.source)
  }

  /** All packets of the flow have its ports, in either order. */
  predicate OnPorts(ports: Ports, events: seq<Event>) {
    forall e <- events :: e.Segment? ==> e.p.ports == ports || e.p.ports == Reversed(ports)
  }

  lemma DecodingIgnoresTheWay(ports: Ports, data: seq<byte>)
    ensures StreamDecoding(Reversed(ports), data) == StreamDecoding(ports, data)
  {
    hide Sniffed;
  }

  lemma {:induction false} LookedAtOnPorts(cap: nat, ports: Ports, events: seq<Event>, way: Way)
    requires cap > 0 && OnPorts(ports, events)
    ensures forall p <- LookedAt(cap, events, way) :: p.ports == ports || p.ports == Reversed(ports)
    decreases |events|
  {
    if events != [] {
      assert forall x <- events[..|events| - 1] :: x in events;
      assert events[|events| - 1] in events;
      LookedAtOnPorts(cap, ports, events[..|events| - 1], way);
    }
  }

  /** The bytes from `base` on. */
  function Remainder(src: Source, base: nat): seq<byte>
    requires base <= |src.bytes|
  {
    src.bytes[base..]
  }

  lemma PrefixDecodesAlike(src: Source, ports: Ports, base: nat, stream: seq<byte>)
    requires IsPrefixAt(src, base, stream) && StreamDecoding(ports, stream).Decoded?
    ensures StreamDecoding(ports, Remainder(src, base)) == StreamDecoding(ports, stream)
  {
    hide StreamDecoding;
    var more := src.bytes[base + |stream|..];
    assert Remainder(src, base) == stream + more;
    SuccessIsFinal(ports, stream, more);
  }

  // ----- main results -----

  /** Whatever a flow is classified as by one of its streams, it is what decoding the whole source of that direction
      from its first payload byte on yields; no run can be led to anything else by interleaving, order, overlap, loss
      or truncation. Only segments that met a usable, unclassified direction have to be unambiguous. */
  lemma ClassifiedAsTheWholeStream(src: Source, cap: nat, events: seq<Event>, arrivals: seq<Arrival>)
    requires cap > 0 && ClassifiedBy(cap, events).Some?
    requires Carries(src, LookedAt(cap, events, ClassifiedBy(cap, events).value.0), arrivals)
    requires (forall a <- arrivals :: Consistent(src, a)) && Unambiguous(src, cap, arrivals)
    ensures arrivals != [] && Base(arrivals) <= |src.bytes|
    ensures var (_, p) := ClassifiedBy(cap, events).value;
            var app := FlowAfter(cap, events).app;
            app.Some? && StreamDecoding(p.ports, Remainder(src, Base(arrivals))) == Decoded(app.value)
  {
    hide LookedAt, ClassifiedBy, FlowAfter, StreamDecoding, Fed, Unambiguous;
    ClassifierDecodes(cap, events);
    var (way, p) := ClassifiedBy(cap, events).value;
    var views := LookedAt(cap, events, way);
    FedIsAfter(src, cap, views, arrivals);
    NoSplice(src, cap, arrivals);
    PrefixDecodesAlike(src, p.ports, Base(arrivals), After(src, cap, arrivals).stream.unread);
  }

  /** Segmentation independence: two flows classified by streams of the same source, from the same first payload byte
      and on the same ports, agree on the metadata, however they were segmented, interleaved and buffered. */
  lemma SegmentationDoesNotMatter(src: Source, cap1: nat, cap2: nat, one: seq<Event>, two: seq<Event>,
                                  arrivals1: seq<Arrival>, arrivals2: seq<Arrival>)
    requires cap1 > 0 && ClassifiedBy(cap1, one).Some?
    requires cap2 > 0 && ClassifiedBy(cap2, two).Some?
    requires Carries(src, LookedAt(cap1, one, ClassifiedBy(cap1, one).value.0), arrivals1)
    requires Carries(src, LookedAt(cap2, two, ClassifiedBy(cap2, two).value.0), arrivals2)
    requires (forall a <- arrivals1 :: Consistent(src, a)) && Unambiguous(src, cap1, arrivals1)
    requires (forall a <- arrivals2 :: Consistent(src, a)) && Unambiguous(src, cap2, arrivals2)
    requires arrivals1 != [] && arrivals2 != [] && Base(arrivals1) == Base(arrivals2)
    requires var p, q := ClassifiedBy(cap1, one).value.1, ClassifiedBy(cap2, two).value.1;
             q.ports == p.ports || q.ports == Reversed(p.ports)
    ensures FlowAfter(cap1, one).app == FlowAfter(cap2, two).app
  {
    hide LookedAt, ClassifiedBy, FlowAfter, StreamDecoding, Unambiguous, Carries;
    ClassifiedAsTheWholeStream(src, cap1, one, arrivals1);
    ClassifiedAsTheWholeStream(src, cap2, two, arrivals2);
    DecodingIgnoresTheWay(ClassifiedBy(cap1, one).value.1.ports, Remainder(src, Base(arrivals1)));
  }

  lemma PlausibleIsUnambiguous(src: Source, cap: nat, arrivals: seq<Arrival>)
    requires Plausible(src, cap, arrivals) || arrivals == []
    ensures forall a <- arrivals :: Consistent(src, a)
    ensures Unambiguous(src, cap, arrivals) && (arrivals != [] ==> AllComparable(Base(arrivals), cap, arrivals))
    decreases |arrivals|
  {
    if arrivals != [] {
      var before, a := arrivals[..|arrivals| - 1], arrivals[|arrivals| - 1];
      assert a in arrivals && forall x <- before :: x in arrivals;
      PlausibleIsUnambiguous(src, cap, before);
    }
  }

  /** Promptness: when `k` bytes of the source decode, the buffer can hold them, nothing was dropped, and the segments
      looked at cover them without a gap, the flow is classified by now; and if it was by this direction, then as those
      bytes say. */
  lemma ClassifiedOnceCovered(src: Source, ports: Ports, cap: nat, events: seq<Event>, way: Way, arrivals: seq<Arrival>,
                              k: nat)
    requires cap > 0 && OnPorts(ports, events)
    requires Carries(src, LookedAt(cap, events, way), arrivals) && arrivals != []
    requires (forall a <- arrivals :: Consistent(src, a)) && Unambiguous(src, cap, arrivals)
    requires AllComparable(Base(arrivals), cap, arrivals) && NothingDropped(src, cap, arrivals)
    requires Base(arrivals) + k <= |src.bytes| && 0 < k <= cap
    requires StreamDecoding(ports, Slice(src, Base(arrivals), Base(arrivals) + k)).Decoded?
    requires CoveredBy(arrivals, Base(arrivals), Base(arrivals) + k)
    ensures FlowAfter(cap, events).app.Some?
    ensures var decider := ClassifiedBy(cap, events);
            decider.Some? && decider.value.0 == way ==>
              FlowAfter(cap, events).app
              == Some(StreamDecoding(ports, Slice(src, Base(arrivals), Base(arrivals) + k)).info)
  {
    hide LookedAt, ClassifiedBy, FlowAfter, StreamDecoding, Fed, Unambiguous, OnPorts, CoveredBy, AllComparable,
      NothingDropped;
    var base, views := Base(arrivals), LookedAt(cap, events, way);
    var prefix := Slice(src, base, base + k);
    LookedAtOnPorts(cap, ports, events, way);
    PrefixDecodesAlike(src, ports, base, prefix);
    DecodingIgnoresTheWay(ports, Remainder(src, base));
    if FlowAfter(cap, events).app.None? {
      UndecidedSoFar(cap, events, way);
      CoveredDecides(src, ports, cap, views, arrivals, k);
      assert false;
    }
    var decider := ClassifiedBy(cap, events);
    if decider.Some? && decider.value.0 == way {
      ClassifierDecodes(cap, events);
      ClassifiedAsTheWholeStream(src, cap, events, arrivals);
    }
  }

  lemma CoveredDecides(src: Source, ports: Ports, cap: nat, views: seq<TcpView>, arrivals: seq<Arrival>, k: nat)
    requires Carries(src, views, arrivals) && arrivals != []
    requires (forall a <- arrivals :: Consistent(src, a)) && Unambiguous(src, cap, arrivals)
    requires AllComparable(Base(arrivals), cap, arrivals) && NothingDropped(src, cap, arrivals)
    requires forall p <- views :: p.ports == ports || p.ports == Reversed(ports)
    requires Base(arrivals) + k <= |src.bytes| && 0 < k <= cap
    requires StreamDecoding(ports, Slice(src, Base(arrivals), Base(arrivals) + k)).Decoded?
    requires CoveredBy(arrivals, Base(arrivals), Base(arrivals) + k)
    ensures !Decides(cap, views, None)
  {
    hide StreamDecoding, Fed, CoveredBy, Received, After, Carries, AllComparable, Unambiguous, NothingDropped;
    CarriesConsistently(src, views, arrivals);
    LastIsNotDropped(src, cap, arrivals);
    CoveredDecodes(src, ports, cap, arrivals, k);
    FedIsAfter(src, cap, views, arrivals);
    ResultIsReceived(src, cap, views, arrivals);
    assert views[|views| - 1] in views;
    DecodingIgnoresTheWay(ports, After(src, cap, arrivals).stream.unread);
  }

  lemma LastIsNotDropped(src: Source, cap: nat, arrivals: seq<Arrival>)
    requires arrivals != [] && (forall a <- arrivals :: Consistent(src, a)) && NothingDropped(src, cap, arrivals)
    ensures var n := |arrivals| - 1;
            Received(src, After(src, cap, arrivals[..n]), arrivals[n]).1 != Dropped
  {
    hide Received, After;
  }

  lemma CoveredDecodes(src: Source, ports: Ports, cap: nat, arrivals: seq<Arrival>, k: nat)
    requires arrivals != [] && (forall a <- arrivals :: Consistent(src, a)) && Unambiguous(src, cap, arrivals)
    requires AllComparable(Base(arrivals), cap, arrivals) && NothingDropped(src, cap, arrivals)
    requires Base(arrivals) + k <= |src.bytes| && 0 < k <= cap
    requires StreamDecoding(ports, Slice(src, Base(arrivals), Base(arrivals) + k)).Decoded?
    requires CoveredBy(arrivals, Base(arrivals), Base(arrivals) + k)
    ensures StreamDecoding(ports, After(src, cap, arrivals).stream.unread).Decoded?
  {
    hide StreamDecoding, CoveredBy, After, NothingDropped, Unambiguous, AllComparable;
    var base := Base(arrivals);
    MaximalContiguousCoverage(src, cap, arrivals);
    FirstUncoveredIsLeast(src, arrivals, base, base + k);
    var stream := After(src, cap, arrivals).stream.unread;
    var more := stream[k..];
    assert stream == Slice(src, base, base + k) + more;
    SuccessIsFinal(ports, Slice(src, base, base + k), more);
  }

  lemma ResultIsReceived(src: Source, cap: nat, views: seq<TcpView>, arrivals: seq<Arrival>)
    requires Carries(src, views, arrivals) && arrivals != [] && (forall a <- arrivals :: Consistent(src, a))
    ensures var n := |views| - 1;
            Processed(Fed(cap, views[..n]), views[n].sequence, views[n].flags, views[n].payload)
            == Received(src, After(src, cap, arrivals[..n]), arrivals[n])
  {
    hide Processed, Wrap;
    FedIsAfter(src, cap, views[..|views| - 1], arrivals[..|views| - 1]);
  }

  lemma {:induction false} PlacePrefix(src: Source, base: nat, cap: nat, arrivals: seq<Arrival>, j: nat)
    requires base <= |src.bytes| && forall x <- arrivals :: x.End() <= |src.bytes|
    requires EnoughPlace(src, base, cap, arrivals) && j <= |arrivals|
    ensures (forall x <- arrivals[..j] :: x.End() <= |src.bytes|) && EnoughPlace(src, base, cap, arrivals[..j])
    decreases |arrivals|
  {
    hide FindsPlace;
    if j == |arrivals| {
      assert arrivals[..j] == arrivals;
    } else {
      PlacePrefix(src, base, cap, arrivals[..|arrivals| - 1], j);
      assert arrivals[..|arrivals| - 1][..j] == arrivals[..j];
    }
  }

  lemma PlausiblePrefix(src: Source, cap: nat, arrivals: seq<Arrival>, j: nat)
    requires arrivals != [] && Plausible(src, cap, arrivals) && 0 < j <= |arrivals|
    ensures Plausible(src, cap, arrivals[..j]) && Base(arrivals[..j]) == Base(arrivals)
  {
    hide InWindow, Consistent;
    assert forall a <- arrivals[..j] :: a in arrivals;
  }

  /** The arrival with which the stream first has `k` bytes. */
  lemma {:induction false} ReachesFirst(src: Source, cap: nat, arrivals: seq<Arrival>, k: nat) returns (j: nat)
    requires forall a <- arrivals :: Consistent(src, a)
    requires 0 < k <= |After(src, cap, arrivals).stream.unread|
    ensures 0 < j <= |arrivals|
    ensures |After(src, cap, arrivals[..j - 1]).stream.unread| < k <= |After(src, cap, arrivals[..j]).stream.unread|
    decreases |arrivals|
  {
    hide Received, Consistent;
    var before := arrivals[..|arrivals| - 1];
    assert arrivals[..|arrivals|] == arrivals;
    j := |arrivals|;
    if |After(src, cap, before).stream.unread| >= k {
      j := ReachesFirst(src, cap, before, k);
      assert before[..j] == arrivals[..j] && before[..j - 1] == arrivals[..j - 1];
    }
  }

  lemma DecidedWhenReached(src: Source, ports: Ports, cap: nat, views: seq<TcpView>, arrivals: seq<Arrival>, k: nat)
    requires Carries(src, views, arrivals) && arrivals != [] && Plausible(src, cap, arrivals)
    requires Base(arrivals) <= |src.bytes| && EnoughPlace(src, Base(arrivals), cap, arrivals)
    requires forall p <- views :: p.ports == ports || p.ports == Reversed(ports)
    requires |After(src, cap, arrivals[..|arrivals| - 1]).stream.unread| < k <= |After(src, cap,
             arrivals).stream.unread|
    requires Base(arrivals) + k <= |src.bytes|
    requires StreamDecoding(ports, Slice(src, Base(arrivals), Base(arrivals) + k)).Decoded?
    ensures !Decides(cap, views, None)
  {
    hide StreamDecoding, Fed, Received, After, Carries, EnoughPlace, InWindow;
    CarriesConsistently(src, views, arrivals);
    GrowthIsNotDropped(src, cap, arrivals);
    FedIsAfter(src, cap, views, arrivals);
    ResultIsReceived(src, cap, views, arrivals);
    PlausibleIsUnambiguous(src, cap, arrivals);
    NoSplice(src, cap, arrivals);
    var base, stream := Base(arrivals), After(src, cap, arrivals).stream.unread;
    var more := stream[k..];
    assert stream == Slice(src, base, base + k) + more;
    SuccessIsFinal(ports, Slice(src, base, base + k), more);
    assert views[|views| - 1] in views;
    DecodingIgnoresTheWay(ports, stream);
  }

  lemma CarriesPrefix(src: Source, views: seq<TcpView>, arrivals: seq<Arrival>, j: nat)
    requires Carries(src, views, arrivals) && j <= |arrivals|
    ensures Carries(src, views[..j], arrivals[..j])
  {
    hide WirePayload, WireSequence;
  }

  /** The same with a condition on the segments alone, and for streams longer than the buffer: each segment has nothing
      to deliver, or starts no later than the first byte not covered so far, or finds one of eight slots and ends inside
      the buffer. The segment that completes the `k` bytes may run past the buffer; it is decoded all the same. */
  lemma ClassifiedWhenCovered(src: Source, ports: Ports, cap: nat, events: seq<Event>, way: Way, arrivals: seq<Arrival>,
                              k: nat)
    requires cap > 0 && OnPorts(ports, events)
    requires Carries(src, LookedAt(cap, events, way), arrivals) && arrivals != [] && Plausible(src, cap, arrivals)
    requires Base(arrivals) + k <= |src.bytes| && EnoughPlace(src, Base(arrivals), cap, arrivals)
    requires 0 < k <= cap && StreamDecoding(ports, Slice(src, Base(arrivals), Base(arrivals) + k)).Decoded?
    requires CoveredBy(arrivals, Base(arrivals), Base(arrivals) + k)
    ensures FlowAfter(cap, events).app.Some?
    ensures var decider := ClassifiedBy(cap, events);
            decider.Some? && decider.value.0 == way ==>
              FlowAfter(cap, events).app
              == Some(StreamDecoding(ports, Slice(src, Base(arrivals), Base(arrivals) + k)).info)
  {
    hide LookedAt, ClassifiedBy, FlowAfter, StreamDecoding, OnPorts, CoveredBy, Carries, EnoughPlace, After, InWindow,
      Decides;
    var base, views := Base(arrivals), LookedAt(cap, events, way);
    LookedAtOnPorts(cap, ports, events, way);
    CarriesConsistently(src, views, arrivals);
    if FlowAfter(cap, events).app.None? {
      StreamIsWhatIsCovered(src, cap, arrivals);
      FirstUncoveredIsLeast(src, arrivals, base, base + k);
      var j := ReachesFirst(src, cap, arrivals, k);
      UndecidedAllAlong(cap, events, way, j);
      PlausiblePrefix(src, cap, arrivals, j);
      PlacePrefix(src, base, cap, arrivals, j);
      CarriesPrefix(src, views, arrivals, j);
      assert arrivals[..j][..j - 1] == arrivals[..j - 1] && forall p <- views[..j] :: p in views;
      DecidedWhenReached(src, ports, cap, views[..j], arrivals[..j], k);
      assert false;
    }
    var decider := ClassifiedBy(cap, events);
    if decider.Some? && decider.value.0 == way {
      ClassifierDecodes(cap, events);
      PlausibleIsUnambiguous(src, cap, arrivals);
      ClassifiedAsTheWholeStream(src, cap, events, arrivals);
      PrefixDecodesAlike(src, ports, base, Slice(src, base, base + k));
      DecodingIgnoresTheWay(ports, Remainder(src, base));
    }
  }
}
