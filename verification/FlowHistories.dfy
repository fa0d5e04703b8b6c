/** What a flow in the table has become, over whole captures: its own packets since it was created, and nothing else. */
module FlowHistories {
  import opened Bytes
  import opened SerialNumbers
  import opened TcpReassembly
  import opened TcpStream
  import opened TcpSplice
  import opened TcpCoverage
  import opened TcpTruncation
  import opened AppMetadata
  import opened AppDecoder
  import opened FlowDecode
  import opened FlowKeys
  import opened FlowTables
  import opened FlowLifecycle
  import opened FlowTableTheorems
  import opened Classification

  // ----- one packet -----

  lemma UpdatedLookup(flows: seq<FlowInfo>, i: nat, g: FlowInfo, key: FlowKey)
    requires KeysDistinct(flows) && i < |flows| && g.key == flows[i].key
    ensures Lookup(flows[i := g], key) == if key == g.key then Some(g) else Lookup(flows, key)
  {
    var updated := flows[i := g];
    assert forall j | 0 <= j < |flows| :: updated[j].key == flows[j].key;
    var one, two := KeyIndex(flows, key, 0), KeyIndex(updated, key, 0);
    assert one == two by {
      assert one < |flows| ==> updated[one].key == key;
      assert two < |flows| ==> flows[two].key == key;
    }
  }

  /** The flow that a packet of the key meets: the surviving one, or a new one. */
  function Met(t: Table, key: FlowKey, now: nat): FlowInfo {
    match Surviving(t, key, now)
    case Some(f) => f
    case None => NewFlow(key, now, t.streamBytes)
  }

  /** One packet is handled by the flow of its key; every other flow stays as it was or leaves. */
  lemma CapturedLookup(t: Table, p: Packet, now: nat, packetInfo: Option<AppInfo>, key: FlowKey)
    requires TableOk(t) && IsTcpFlow(p)
    ensures TableBounded(t) && WellBounded(Met(t, IdentityOf(p).value.key, now).talk)
    ensures var (r, id) := (Captured(t, p, now, packetInfo), IdentityOf(p).value);
            if key == id.key then
              Lookup(r.flows, key) == Some(Handled(Met(t, key, now), p, id.way, now, packetInfo))
            else
              var victim := Victim(t, id.key, now);
              Lookup(r.flows, key)
              == if victim.Some? && victim.value.key == key then None else Surviving(t, key, now)
  {
    hide Located, Handled, Surviving, KeyIndex, Lookup, KeysDistinct, FlowsOk, Victim, WellBounded, SnapshotOf, FlowOk;
    OkTableIsBounded(t);
    var id := IdentityOf(p).value;
    var (located, i) := Located(t, id.key, now);
    LocatingIsConservative(t, id.key, now);
    assert FlowOk(located.flows[i], located.streamBytes) by { FlowAt(located, i); }
    HandlingKeepsOk(located.flows[i], p, id.way, now, packetInfo, located.streamBytes);
    UpdatedLookup(located.flows, i, Handled(located.flows[i], p, id.way, now, packetInfo), key);
    LocatedFlow(t, id.key, now);
    if key != id.key {
      LocatingRefinesAMap(t, id.key, now, key);
    }
  }

  lemma LocatedFlow(t: Table, key: FlowKey, now: nat)
    requires TableOk(t)
    ensures var (r, i) := Located(t, key, now); r.flows[i] == Met(t, key, now)
  {
    hide Located, Surviving, NewFlow, FlowsOk, KeysDistinct, SnapshotOf, BothSweeps, Victim;
    LocatedMembers(t, key, now);
  }

  // ----- teardown flags in the table -----

  lemma FlagsStay(c: Conversation, way: Way, p: TcpView, packetInfo: Option<AppInfo>, w: Way)
    requires ConversationOk(c) && WellBounded(c)
    ensures var r := PacketClassified(Step(c, way, p).0, packetInfo);
            && (c.At(w).rstSeen && !r.At(w).rstSeen ==> w == way && Reinitialises(c, way, p))
            && (c.At(w).finSeen && !r.At(w).finSeen ==> w == way && Reinitialises(c, way, p))
  {
    hide Processed, StreamDecoding, Bounded;
    if p.hasSequence {
      FlagsAfterStep(c, way, p);
    }
  }

  /** FIN of a flow that stays in the table is lost only by the initialisation of a direction that had no buffer. */
  lemma FinIsLostOnlyByInitialisation(t: Table, p: Packet, now: nat, packetInfo: Option<AppInfo>, key: FlowKey,
                                      way: Way)
    requires TableOk(t) && Surviving(t, key, now).Some?
    ensures TableBounded(t)
    ensures var r := Captured(t, p, now, packetInfo);
            Lookup(r.flows, key).Some? ==>
              var before, after := Surviving(t, key, now).value.talk, Lookup(r.flows, key).value.talk;
              before.At(way).finSeen && !after.At(way).finSeen ==>
                IsTcpFlow(p) && IdentityOf(p).value == Identity(key, way) && Reinitialises(before, way, p.tcp)
  {
    hide Located, Step, KeyIndex, FlowsOk, SnapshotOf, Reinitialises, ConversationOk, WellBounded;
    OkTableIsBounded(t);
    if IsTcpFlow(p) {
      CapturedLookup(t, p, now, packetInfo, key);
      var id := IdentityOf(p).value;
      if key == id.key {
        FoundIsOk(t, key);
        var f := Surviving(t, key, now).value;
        OkIsBounded(f.talk);
        FlagsStay(f.talk, id.way, p.tcp, packetInfo, way);
      }
    }
  }

  /** A flow that has seen RST meets no further packet: the next lookup of any key finds it gone. */
  lemma ResetFlowMeetsNoPacket(t: Table, key: FlowKey, now: nat)
    requires TableOk(t)
    ensures var c := Met(t, key, now).talk; !c.aToB.rstSeen && !c.bToA.rstSeen
    ensures Surviving(t, key, now).Some? ==>
              var c := Surviving(t, key, now).value.talk; !c.aToB.rstSeen && !c.bToA.rstSeen
  {
    hide KeyIndex;
  }

  /** Nor does one that has seen FIN both ways. */
  lemma FinishedFlowMeetsNoPacket(t: Table, p: Packet, now: nat, packetInfo: Option<AppInfo>)
    requires TableOk(t) && IsTcpFlow(p)
    ensures TableBounded(t)
    ensures var key := IdentityOf(p).value.key;
            var c := Met(t, key, now).talk;
            && !(c.aToB.finSeen && c.bToA.finSeen) && WellBounded(c)
            && Lookup(Captured(t, p, now, packetInfo).flows, key)
               == Some(Handled(Met(t, key, now), p, IdentityOf(p).value.way, now, packetInfo))
  {
    hide KeyIndex, TableOk, WellBounded, Handled, Captured;
    CapturedLookup(t, p, now, packetInfo, IdentityOf(p).value.key);
  }

  lemma FoundIsOk(t: Table, key: FlowKey)
    requires TableOk(t) && Lookup(t.flows, key).Some?
    ensures FlowOk(Lookup(t.flows, key).value, t.streamBytes) && ConversationOk(Lookup(t.flows, key).value.talk)
    ensures Lookup(t.flows, key).value.key == key
  {
    hide ConversationOk;
    FlowAt(t, KeyIndex(t.flows, key, 0));
  }

  // ----- whole captures -----

  function PacketEvents(way: Way, p: TcpView, packetInfo: Option<AppInfo>): seq<Event> {
    [Event.Segment(way, p)] + match packetInfo case None => [] case Some(info) => [PacketDecoded(info)]
  }

  /** What a capture holds for the flow of a key: the packets of the key since its flow was last created. */
  function History(t: Table, events: seq<CaptureEvent>, key: FlowKey): seq<Event>
    requires TableOk(t)
  {
    if events == [] then []
    else
      var init := events[..|events| - 1];
      match events[|events| - 1]
      case FinalSweep => History(t, init, key)
      case Arrives(p, now, packetInfo) =>
        if !IsTcpFlow(p) || IdentityOf(p).value.key != key then History(t, init, key)
        else
          (if Surviving(Run(t, init), key, now).Some? then History(t, init, key) else [])
          + PacketEvents(IdentityOf(p).value.way, p.tcp, packetInfo)
  }

  lemma OneMorePacket(cap: nat, events: seq<Event>, way: Way, p: TcpView, packetInfo: Option<AppInfo>)
    requires cap > 0
    ensures FlowAfter(cap, events + PacketEvents(way, p, packetInfo))
         == PacketClassified(Step(FlowAfter(cap, events), way, p).0, packetInfo)
  {
    hide Step, FlowAfter, Classified;
    var one := events + [Event.Segment(way, p)];
    assert one[..|events|] == events;
    FlowAfterLast(cap, one);
    match packetInfo
    case None =>
      assert events + PacketEvents(way, p, packetInfo) == one;
    case Some(info) =>
      var two := events + PacketEvents(way, p, packetInfo);
      assert two[..|one|] == one && two[|one|] == PacketDecoded(info);
      FlowAfterLast(cap, two);
  }

  /** The buffer size of a flow is the table's, over every run. */
  lemma {:induction false} RunKeepsStreamBytes(t: Table, events: seq<CaptureEvent>)
    requires TableOk(t)
    ensures Run(t, events).streamBytes == t.streamBytes
    decreases |events|
  {
    hide TableOk, Located, SnapshotOf, Handled;
    if events != [] {
      var before := Run(t, events[..|events| - 1]);
      RunKeepsStreamBytes(t, events[..|events| - 1]);
      if events[|events| - 1].Arrives? {
        var e := events[|events| - 1];
        OkTableIsBounded(before);
        if IsTcpFlow(e.p) {
          LocatingIsConservative(before, IdentityOf(e.p).value.key, e.now);
        }
      }
    }
  }

  lemma SweepKeepsSurvivor(t: Table, key: FlowKey)
    requires TableOk(t)
    ensures Lookup(Swept(t, Closed).flows, key) == None || Lookup(Swept(t, Closed).flows, key) == Lookup(t.flows, key)
  {
    hide KeyIndex, Kept, FlowsOk, Credits;
    SweptLookup(t, Closed, key);
  }

  /** What each flow in the table is, however its packets were mixed with those of others and whatever was evicted in
      between: a new flow after the packets of its own key since it was created. */
  lemma {:induction false} FlowIsItsHistory(t: Table, events: seq<CaptureEvent>, key: FlowKey)
    requires TableOk(t) && t.flows == []
    ensures Lookup(Run(t, events).flows, key).Some? ==>
              Lookup(Run(t, events).flows, key).value.talk == FlowAfter(t.streamBytes, History(t, events, key))
    decreases |events|
  {
    hide TableOk, Lookup, FlowAfter, Captured, Surviving, Step, Swept, PacketEvents;
    if events == [] {
      NothingFound(t, key);
    } else {
      var init := events[..|events| - 1];
      var before := Run(t, init);
      FlowIsItsHistory(t, init, key);
      RunKeepsStreamBytes(t, init);
      match events[|events| - 1]
      case FinalSweep => SweepKeepsSurvivor(before, key);
      case Arrives(p, now, packetInfo) =>
        OkHasBuffers(before);
        PacketExtendsHistory(before, p, now, packetInfo, key, History(t, init, key));
    }
  }

  lemma OkHasBuffers(t: Table)
    requires TableOk(t)
    ensures t.streamBytes > 0 && TableBounded(t)
  {
    OkTableIsBounded(t);
  }

  lemma NothingFound(t: Table, key: FlowKey)
    requires t.flows == []
    ensures Lookup(t.flows, key).None?
  {
  }

  lemma PacketExtendsHistory(t: Table, p: Packet, now: nat, packetInfo: Option<AppInfo>, key: FlowKey,
                             events: seq<Event>)
    requires TableOk(t) && t.streamBytes > 0 && TableBounded(t)
    requires Lookup(t.flows, key).Some? ==> Lookup(t.flows, key).value.talk == FlowAfter(t.streamBytes, events)
    ensures var r := Captured(t, p, now, packetInfo);
            var events' := if !IsTcpFlow(p) || IdentityOf(p).value.key != key then events
                           else (if Surviving(t, key, now).Some? then events else [])
                                + PacketEvents(IdentityOf(p).value.way, p.tcp, packetInfo);
            Lookup(r.flows, key).Some? ==> Lookup(r.flows, key).value.talk == FlowAfter(t.streamBytes, events')
  {
    hide TableOk, KeyIndex, Located, Step, PacketEvents, Classified, WellBounded, SnapshotOf, FlowAfter;
    if IsTcpFlow(p) {
      CapturedLookup(t, p, now, packetInfo, key);
      var id := IdentityOf(p).value;
      if key == id.key {
        var start := if Surviving(t, key, now).Some? then events else [];
        FlowAfterLast(t.streamBytes, []);
        OneMorePacket(t.streamBytes, start, id.way, p.tcp, packetInfo);
      }
    }
  }

  // ----- what a history consists of -----

  /** The ports of a key's packets, in the order of the key. */
  function PortsOf(key: FlowKey): Ports {
    Ports(true, key.a.port, key.b.port)
  }

  lemma PortsAreTheKeys(p: Packet)
    requires IsTcpFlow(p)
    ensures var id := IdentityOf(p).value;
            p.tcp.ports == PortsOf(id.key) || p.tcp.ports == Reversed(PortsOf(id.key))
  {
    IdentityNamesTheSender(p);
  }

  predicate NoLocalDecodes(events: seq<CaptureEvent>) {
    forall e <- events :: e.Arrives? ==> e.packetInfo.None?
  }

  lemma {:induction false} HistoryIsOnPorts(t: Table, events: seq<CaptureEvent>, key: FlowKey)
    requires TableOk(t)
    ensures OnPorts(PortsOf(key), History(t, events, key))
    ensures NoLocalDecodes(events) ==> forall e <- History(t, events, key) :: e.Segment?
    decreases |events|
  {
    hide TableOk, Surviving, IdentityOf;
    if events != [] {
      var init, e := events[..|events| - 1], events[|events| - 1];
      HistoryIsOnPorts(t, init, key);
      assert e in events && forall x <- init :: x in events;
      if e.Arrives? && IsTcpFlow(e.p) {
        PortsAreTheKeys(e.p);
      }
    }
  }

  // ----- main results -----

  /** Classification in a flow table, with whatever other flows around: a flow that no packet-local decode classified
      carries what decoding the source of one of its two directions yields, from the first payload byte of that
      direction since the flow was created. */
  lemma ClassifiedInTheTable(t: Table, events: seq<CaptureEvent>, key: FlowKey, src: Source, arrivals: seq<Arrival>)
    requires TableOk(t) && t.flows == [] && t.streamBytes > 0 && NoLocalDecodes(events)
    requires Lookup(Run(t, events).flows, key).Some? && Lookup(Run(t, events).flows, key).value.talk.app.Some?
    requires var history := History(t, events, key);
             var decider := ClassifiedBy(t.streamBytes, history);
             decider.Some? ==> Carries(src, LookedAt(t.streamBytes, history, decider.value.0), arrivals)
    requires (forall a <- arrivals :: Consistent(src, a)) && Unambiguous(src, t.streamBytes, arrivals)
    ensures ClassifiedBy(t.streamBytes, History(t, events, key)).Some?
    ensures arrivals != [] && Base(arrivals) <= |src.bytes|
    ensures StreamDecoding(PortsOf(key), Remainder(src, Base(arrivals)))
         == Decoded(Lookup(Run(t, events).flows, key).value.talk.app.value)
  {
    hide TableOk, Lookup, Run, History, LookedAt, ClassifiedBy, StreamDecoding, Unambiguous, Carries, FlowAfter;
    var history := History(t, events, key);
    FlowIsItsHistory(t, events, key);
    HistoryIsOnPorts(t, events, key);
    ClassifiedByAStream(t.streamBytes, history);
    ClassifiedAsTheWholeStream(src, t.streamBytes, history, arrivals);
    var (way, p) := ClassifiedBy(t.streamBytes, history).value;
    ClassifierDecodes(t.streamBytes, history);
    LookedAtOnPorts(t.streamBytes, PortsOf(key), history, way);
    var views := LookedAt(t.streamBytes, history, way);
    assert views != [] && views[|views| - 1] in views;
    DecodingIgnoresTheWay(PortsOf(key), Remainder(src, Base(arrivals)));
  }

  const MAX_PAYLOAD := 65535

  /** At the buffer sizes a table accepts and the payload sizes a 16-bit total length allows, every segment is
      comparable. */
  lemma ProgramSizesAreComparable(maxFlows: nat, streamBytes: nat, base: nat, arrivals: seq<Arrival>)
    requires InitAccepts(maxFlows, streamBytes) && forall a <- arrivals :: a.length <= MAX_PAYLOAD
    ensures AllComparable(base, streamBytes, arrivals)
  {
    forall a | a in arrivals
      ensures Comparable(base, streamBytes, a)
    {
      ShortIsComparable(base, streamBytes, a);
    }
  }

  /** Promptness in a flow table: when `k` bytes of a direction's source decode, nothing of it was dropped, and the
      segments looked at since the flow was created cover them without a gap, the flow in the table is classified. */
  lemma ClassifiedInTheTableOnceCovered(maxFlows: nat, streamBytes: nat, timeout: nat, events: seq<CaptureEvent>,
                                        key: FlowKey, src: Source, way: Way, arrivals: seq<Arrival>, k: nat)
    requires InitAccepts(maxFlows, streamBytes) && TableOk(FreshTable(maxFlows, streamBytes, timeout))
    requires Lookup(Run(FreshTable(maxFlows, streamBytes, timeout), events).flows, key).Some?
    requires Carries(src, LookedAt(streamBytes, History(FreshTable(maxFlows, streamBytes, timeout), events, key), way),
                     arrivals)
    requires arrivals != [] && (forall a <- arrivals :: Consistent(src, a) && a.length <= MAX_PAYLOAD)
    requires Unambiguous(src, streamBytes, arrivals) && NothingDropped(src, streamBytes, arrivals)
    requires Base(arrivals) + k <= |src.bytes| && 0 < k <= streamBytes
    requires StreamDecoding(PortsOf(key), Slice(src, Base(arrivals), Base(arrivals) + k)).Decoded?
    requires CoveredBy(arrivals, Base(arrivals), Base(arrivals) + k)
    ensures Lookup(Run(FreshTable(maxFlows, streamBytes, timeout), events).flows, key).value.talk.app.Some?
  {
    hide TableOk, Lookup, Run, History, LookedAt, StreamDecoding, Unambiguous, NothingDropped, Carries, FlowAfter,
      AllComparable, CoveredBy, OnPorts;
    var t := FreshTable(maxFlows, streamBytes, timeout);
    FlowIsItsHistory(t, events, key);
    HistoryIsOnPorts(t, events, key);
    ProgramSizesAreComparable(maxFlows, streamBytes, Base(arrivals), arrivals);
    ClassifiedOnceCovered(src, PortsOf(key), streamBytes, History(t, events, key), way, arrivals, k);
  }

  /** The same with a condition on the segments alone: each finds its place, and the last may run past the buffer. */
  lemma ClassifiedInTheTableWhenCovered(maxFlows: nat, streamBytes: nat, timeout: nat, events: seq<CaptureEvent>,
                                        key: FlowKey, src: Source, way: Way, arrivals: seq<Arrival>, k: nat)
    requires InitAccepts(maxFlows, streamBytes) && TableOk(FreshTable(maxFlows, streamBytes, timeout))
    requires Lookup(Run(FreshTable(maxFlows, streamBytes, timeout), events).flows, key).Some?
    requires Carries(src, LookedAt(streamBytes, History(FreshTable(maxFlows, streamBytes, timeout), events, key), way),
                     arrivals)
    requires arrivals != [] && Plausible(src, streamBytes, arrivals)
    requires Base(arrivals) + k <= |src.bytes| && EnoughPlace(src, Base(arrivals), streamBytes, arrivals)
    requires 0 < k <= streamBytes
    requires StreamDecoding(PortsOf(key), Slice(src, Base(arrivals), Base(arrivals) + k)).Decoded?
    requires CoveredBy(arrivals, Base(arrivals), Base(arrivals) + k)
    ensures Lookup(Run(FreshTable(maxFlows, streamBytes, timeout), events).flows, key).value.talk.app.Some?
  {
    hide TableOk, Lookup, Run, History, LookedAt, StreamDecoding, Carries, FlowAfter, CoveredBy, OnPorts, InWindow,
      EnoughPlace;
    var t := FreshTable(maxFlows, streamBytes, timeout);
    FlowIsItsHistory(t, events, key);
    HistoryIsOnPorts(t, events, key);
    ClassifiedWhenCovered(src, PortsOf(key), streamBytes, History(t, events, key), way, arrivals, k);
  }

  /** RST of a direction, over the history: recorded by a packet that is not refused. */
  predicate ResetRecorded(cap: nat, events: seq<Event>, way: Way)
    requires cap > 0
  {
    events != [] &&
    var init, e := events[..|events| - 1], events[|events| - 1];
    ResetRecorded(cap, init, way) ||
    (e.Segment? && e.way == way && e.p.hasSequence && e.p.flags / 4 % 2 == 1
     && !RefusedByPoison(FlowAfter(cap, init), way, e.p))
  }

  /** RST is never lost in a flow table: a flow's direction has seen RST if and only if one of its packets since the
      flow was created carried it, other than one that a poisoned direction refused. */
  lemma {:induction false} ResetIsNeverLost(t: Table, events: seq<CaptureEvent>, key: FlowKey, way: Way)
    requires TableOk(t) && t.flows == [] && t.streamBytes > 0 && Lookup(Run(t, events).flows, key).Some?
    ensures Lookup(Run(t, events).flows, key).value.talk.At(way).rstSeen
       <==> ResetRecorded(t.streamBytes, History(t, events, key), way)
    decreases |events|
  {
    hide TableOk, Lookup, FlowAfter, Captured, Surviving, Swept, PacketEvents, ResetRecorded, IdentityOf;
    if events == [] {
      NothingFound(t, key);
    } else {
      var init := events[..|events| - 1];
      var before := Run(t, init);
      RunKeepsStreamBytes(t, init);
      FlowIsItsHistory(t, init, key);
      if Lookup(before.flows, key).Some? {
        ResetIsNeverLost(t, init, key, way);
      }
      match events[|events| - 1]
      case FinalSweep => SweepKeepsSurvivor(before, key);
      case Arrives(p, now, packetInfo) =>
        OkHasBuffers(before);
        PacketRecordsReset(before, p, now, packetInfo, key, History(t, init, key), way);
    }
  }

  lemma PacketRecordsReset(t: Table, p: Packet, now: nat, packetInfo: Option<AppInfo>, key: FlowKey, events: seq<Event>,
                           way: Way)
    requires TableOk(t) && t.streamBytes > 0 && TableBounded(t)
    requires Lookup(t.flows, key).Some? ==>
               var c := Lookup(t.flows, key).value.talk;
               c == FlowAfter(t.streamBytes, events)
                   && (c.At(way).rstSeen <==> ResetRecorded(t.streamBytes, events, way))
    ensures var r := Captured(t, p, now, packetInfo);
            var events' := if !IsTcpFlow(p) || IdentityOf(p).value.key != key then events
                           else (if Surviving(t, key, now).Some? then events else [])
                                + PacketEvents(IdentityOf(p).value.way, p.tcp, packetInfo);
            Lookup(r.flows, key).Some? ==>
              (Lookup(r.flows, key).value.talk.At(way).rstSeen <==> ResetRecorded(t.streamBytes, events', way))
  {
    hide TableOk, KeyIndex, Located, Step, PacketEvents, Classified, WellBounded, SnapshotOf, FlowAfter, ResetRecorded;
    if IsTcpFlow(p) {
      CapturedLookup(t, p, now, packetInfo, key);
      var id := IdentityOf(p).value;
      if key == id.key {
        ResetFlowMeetsNoPacket(t, key, now);
        var start := if Surviving(t, key, now).Some? then events else [];
        FlowAfterLast(t.streamBytes, []);
        if start == [] {
          NothingRecorded(t.streamBytes, way);
        }
        OneMoreRecorded(t.streamBytes, start, id.way, p.tcp, packetInfo, way);
      }
    }
  }

  lemma NothingRecorded(cap: nat, way: Way)
    requires cap > 0
    ensures !ResetRecorded(cap, [], way) && !FlowAfter(cap, []).At(way).rstSeen
  {
  }

  /** A direction that has not seen RST sees it with this packet exactly when the packet records it. */
  lemma OneMoreRecorded(cap: nat, events: seq<Event>, w: Way, p: TcpView, packetInfo: Option<AppInfo>, way: Way)
    requires cap > 0 && !ResetRecorded(cap, events, way) && !FlowAfter(cap, events).At(way).rstSeen
    ensures PacketClassified(Step(FlowAfter(cap, events), w, p).0, packetInfo).At(way).rstSeen
       <==> ResetRecorded(cap, events + PacketEvents(w, p, packetInfo), way)
  {
    hide Step, FlowAfter, ReleasedBuffers;
    var c, one := FlowAfter(cap, events), events + [Event.Segment(w, p)];
    assert one[..|events|] == events;
    if p.hasSequence {
      FlagsAfterStep(c, w, p);
    } else {
      NothingWithoutSequence(c, w, p);
    }
    ClassifyingKeepsFlags(Step(c, w, p).0, packetInfo, way);
    assert ResetRecorded(cap, one, way) <==> Step(c, w, p).0.At(way).rstSeen;
    match packetInfo
    case None =>
      assert events + PacketEvents(w, p, packetInfo) == one;
    case Some(info) =>
      var two := events + PacketEvents(w, p, packetInfo);
      assert two[..|one|] == one && two[|one|] == PacketDecoded(info);
  }

  lemma NothingWithoutSequence(c: Conversation, way: Way, p: TcpView)
    requires WellBounded(c) && !p.hasSequence
    ensures Step(c, way, p).0 == c
  {
  }

  lemma ClassifyingKeepsFlags(c: Conversation, packetInfo: Option<AppInfo>, way: Way)
    ensures PacketClassified(c, packetInfo).At(way).rstSeen == c.At(way).rstSeen
  {
  }

  /** FIN of a direction, over the history: recorded by a packet that is not refused, forgotten by the initialisation of
      a direction that had no buffer. */
  predicate FinRecorded(cap: nat, events: seq<Event>, way: Way)
    requires cap > 0
  {
    events != [] &&
    var init, e := events[..|events| - 1], events[|events| - 1];
    if e.Segment? && e.way == way && e.p.hasSequence then
      || (FinRecorded(cap, init, way) && !Reinitialises(FlowAfter(cap, init), way, e.p))
      || (e.p.flags % 2 == 1 && !RefusedByPoison(FlowAfter(cap, init), way, e.p))
    else FinRecorded(cap, init, way)
  }

  lemma {:induction false} FinIsRecorded(cap: nat, events: seq<Event>, way: Way)
    requires cap > 0
    ensures FlowAfter(cap, events).At(way).finSeen <==> FinRecorded(cap, events, way)
    decreases |events|
  {
    hide Step, FlowAfter, Classified, ConversationOk, WellBounded, Reinitialises, RefusedByPoison;
    FlowAfterLast(cap, events);
    if events != [] {
      var init, e := events[..|events| - 1], events[|events| - 1];
      FinIsRecorded(cap, init, way);
      var c := FlowAfter(cap, init);
      match e
      case Segment(w, p) =>
        if p.hasSequence {
          FlagsAfterStep(c, w, p);
        } else {
          NothingWithoutSequence(c, w, p);
        }
      case PacketDecoded(info) => ClassifyingKeepsFin(c, info, way);
    }
  }

  lemma ClassifyingKeepsFin(c: Conversation, info: AppInfo, way: Way)
    ensures Classified(c, info).At(way).finSeen == c.At(way).finSeen
  {
  }

  /** FIN in a flow table, over every capture: a flow's direction has seen FIN if and only if one of its packets since
      the flow was created recorded it and no later payload initialised the direction. */
  lemma FinIsForgottenOnlyByInitialisation(t: Table, events: seq<CaptureEvent>, key: FlowKey, way: Way)
    requires TableOk(t) && t.flows == [] && t.streamBytes > 0 && Lookup(Run(t, events).flows, key).Some?
    ensures Lookup(Run(t, events).flows, key).value.talk.At(way).finSeen
       <==> FinRecorded(t.streamBytes, History(t, events, key), way)
  {
    hide TableOk, Lookup, Run, History, FlowAfter, FinRecorded;
    FlowIsItsHistory(t, events, key);
    FinIsRecorded(t.streamBytes, History(t, events, key), way);
  }
}
