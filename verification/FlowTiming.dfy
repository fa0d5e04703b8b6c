/** Times and traffic of the flows in the table, over whole captures, and which flows stay. */
module FlowTiming {
  import opened Bytes
  import opened AppMetadata
  import opened FlowDecode
  import opened FlowKeys
  import opened FlowTables
  import opened FlowLifecycle
  import opened FlowTableTheorems
  import opened FlowHistories

  /** A packet of the flow: which way it went, its size, and when it came. */
  datatype Sighting = Sighting(way: Way, size: nat, now: nat)

  predicate IsOfKey(e: CaptureEvent, key: FlowKey) {
    e.Arrives? && IsTcpFlow(e.p) && IdentityOf(e.p).value.key == key
  }

  /** When the last packet of the key came, if any did. */
  function LastArrival(events: seq<CaptureEvent>, key: FlowKey): Option<nat> {
    if events == [] then None
    else if IsOfKey(events[|events| - 1], key) then Some(events[|events| - 1].now)
    else LastArrival(events[..|events| - 1], key)
  }

  /** The packets of the key since its flow was last created. */
  function Sightings(t: Table, events: seq<CaptureEvent>, key: FlowKey): seq<Sighting>
    requires TableOk(t)
  {
    if events == [] then []
    else
      var init, e := events[..|events| - 1], events[|events| - 1];
      if !IsOfKey(e, key) then Sightings(t, init, key)
      else
        (if Surviving(Run(t, init), key, e.now).Some? then Sightings(t, init, key) else [])
        + [Sighting(IdentityOf(e.p).value.way, e.p.size, e.now)]
  }

  function Sizes(sightings: seq<Sighting>): nat {
    if sightings == [] then 0 else Sizes(sightings[..|sightings| - 1]) + sightings[|sightings| - 1].size
  }

  function OneWay(sightings: seq<Sighting>, way: Way): seq<Sighting> {
    if sightings == [] then []
    else
      var last := sightings[|sightings| - 1];
      OneWay(sightings[..|sightings| - 1], way) + if last.way == way then [last] else []
  }

  predicate Adds(traffic: Traffic, sightings: seq<Sighting>) {
    traffic.packets == |sightings| && traffic.bytes == Sizes(sightings)
  }

  /** Created by the first of these packets, seen last at the last one, and counting each of them once. */
  predicate Records(f: FlowInfo, sightings: seq<Sighting>) {
    && sightings != [] && f.created == sightings[0].now && f.lastSeen == sightings[|sightings| - 1].now
    && Adds(f.total, sightings) && Adds(f.aToB, OneWay(sightings, AToB)) && Adds(f.bToA, OneWay(sightings, BToA))
  }

  lemma OneMoreSize(sightings: seq<Sighting>, s: Sighting)
    ensures Sizes(sightings + [s]) == Sizes(sightings) + s.size
    ensures forall way :: OneWay(sightings + [s], way) == OneWay(sightings, way) + if s.way == way then [s] else []
  {
    assert (sightings + [s])[..|sightings|] == sightings;
  }

  /** What one packet does to the times and counts of its flow. */
  lemma HandledIsRecorded(f: FlowInfo, p: Packet, way: Way, now: nat, packetInfo: Option<AppInfo>,
                          sightings: seq<Sighting>)
    requires WellBounded(f.talk)
    requires if sightings == [] then f == NewFlow(f.key, now, f.talk.streamBytes) else Records(f, sightings)
    ensures Records(Handled(f, p, way, now, packetInfo), sightings + [Sighting(way, p.size, now)])
  {
    hide Step, PacketClassified, Sizes, OneWay;
    var s := Sighting(way, p.size, now);
    OneMoreSize(sightings, s);
    OneMoreSize(OneWay(sightings, AToB), s);
    OneMoreSize(OneWay(sightings, BToA), s);
    NothingSighted();
    assert OneWay(sightings, AToB) + [] == OneWay(sightings, AToB);
    assert OneWay(sightings, BToA) + [] == OneWay(sightings, BToA);
  }

  lemma NothingSighted()
    ensures Sizes([]) == 0 && OneWay([], AToB) == [] && OneWay([], BToA) == []
  {
  }

  lemma PacketIsRecorded(t: Table, p: Packet, now: nat, packetInfo: Option<AppInfo>, key: FlowKey,
                         sightings: seq<Sighting>)
    requires TableOk(t) && TableBounded(t)
    requires Lookup(t.flows, key).Some? ==> Records(Lookup(t.flows, key).value, sightings)
    ensures var r := Captured(t, p, now, packetInfo);
            var kept := if Surviving(t, key, now).Some? then sightings else [];
            var sightings' := if IsOfKey(Arrives(p, now, packetInfo), key)
                              then kept + [Sighting(IdentityOf(p).value.way, p.size, now)] else sightings;
            Lookup(r.flows, key).Some? ==> Records(Lookup(r.flows, key).value, sightings')
  {
    hide TableOk, KeyIndex, Located, Handled, WellBounded, SnapshotOf, IdentityOf, Records, Lookup;
    if IsTcpFlow(p) {
      CapturedLookup(t, p, now, packetInfo, key);
      var id := IdentityOf(p).value;
      if key == id.key {
        var f := Met(t, key, now);
        if Surviving(t, key, now).Some? {
          RecordsSomething(f, sightings);
          HandledIsRecorded(f, p, id.way, now, packetInfo, sightings);
        } else {
          NewFlowIs(key, now, t.streamBytes);
          HandledIsRecorded(f, p, id.way, now, packetInfo, []);
        }
      }
    }
  }

  lemma NewFlowIs(key: FlowKey, now: nat, streamBytes: nat)
    ensures NewFlow(key, now, streamBytes).key == key && NewFlow(key, now, streamBytes).talk.streamBytes == streamBytes
  {
  }

  lemma RecordsSomething(f: FlowInfo, sightings: seq<Sighting>)
    requires Records(f, sightings)
    ensures sightings != []
  {
  }

  lemma {:induction false} LastSightingIsLastArrival(t: Table, events: seq<CaptureEvent>, key: FlowKey)
    requires TableOk(t) && t.flows == []
    ensures var sightings := Sightings(t, events, key);
            LastArrival(events, key) == if sightings == [] then None else Some(sightings[|sightings| - 1].now)
    decreases |events|
  {
    hide TableOk, Surviving, IsOfKey;
    if events != [] {
      LastSightingIsLastArrival(t, events[..|events| - 1], key);
    }
  }

  // ----- main results -----

  /** Over every capture a flow in the table was created by the first packet of its history and last seen with the last
      packet of its key, and its packet and byte counts, in all and each way, are those of its history. */
  lemma {:induction false} FlowRecordsItsPackets(t: Table, events: seq<CaptureEvent>, key: FlowKey)
    requires TableOk(t) && t.flows == []
    ensures Lookup(Run(t, events).flows, key).Some? ==>
              var f := Lookup(Run(t, events).flows, key).value;
              Records(f, Sightings(t, events, key)) && LastArrival(events, key) == Some(f.lastSeen)
    decreases |events|
  {
    hide TableOk, Lookup, Captured, Surviving, Swept, Records, IsOfKey;
    if events == [] {
      NothingFound(t, key);
    } else {
      var init, e := events[..|events| - 1], events[|events| - 1];
      var before := Run(t, init);
      FlowRecordsItsPackets(t, init, key);
      match e {
        case FinalSweep =>
          SweepKeepsSurvivor(before, key);
          assert !IsOfKey(e, key) by { SweepIsOfNoKey(key); }
        case Arrives(p, now, packetInfo) =>
          OkHasBuffers(before);
          PacketIsRecorded(before, p, now, packetInfo, key, Sightings(t, init, key));
      }
      LastSightingIsLastArrival(t, events, key);
      if Lookup(Run(t, events).flows, key).Some? {
        LastIsLastSeen(Lookup(Run(t, events).flows, key).value, Sightings(t, events, key));
      }
    }
  }

  lemma SweepIsOfNoKey(key: FlowKey)
    ensures !IsOfKey(FinalSweep, key)
  {
  }

  lemma LastIsLastSeen(f: FlowInfo, sightings: seq<Sighting>)
    requires Records(f, sightings)
    ensures sightings != [] && sightings[|sightings| - 1].now == f.lastSeen
  {
  }

  // ----- who stays -----

  /** How many of these flows are alive at this time. */
  function AliveCount(flows: seq<FlowInfo>, now: nat, timeout: nat): nat {
    if flows == [] then 0
    else AliveCount(flows[..|flows| - 1], now, timeout) + if IsAlive(flows[|flows| - 1], now, timeout) then 1 else 0
  }

  lemma {:induction false} AliveAreKept(flows: seq<FlowInfo>, now: nat, timeout: nat)
    ensures |Kept(Kept(flows, Idle(now, timeout)), Closed)| == AliveCount(flows, now, timeout)
    decreases |flows|
  {
    hide Hit, IsAlive, Kept;
    if flows == [] {
      KeptOfNothing(Idle(now, timeout));
      KeptOfNothing(Closed);
    } else {
      var init, last := flows[..|flows| - 1], flows[|flows| - 1];
      AliveAreKept(init, now, timeout);
      KeptUnrolls(flows, Idle(now, timeout));
      var once := Kept(init, Idle(now, timeout));
      AliveIsNotHit(last, now, timeout);
      if Hit(Idle(now, timeout), last) {
        assert once + [] == once;
      } else {
        assert (once + [last])[..|once|] == once;
        KeptUnrolls(once + [last], Closed);
      }
    }
  }

  /** A flow is given up for a new key only when as many flows as the table holds are alive, and it is alive itself. */
  lemma VictimMeansFull(t: Table, key: FlowKey, now: nat)
    requires TableOk(t) && Victim(t, key, now).Some?
    ensures Surviving(t, key, now).None? && AliveCount(t.flows, now, t.timeout) >= t.maxFlows
    ensures IsAlive(Victim(t, key, now).value, now, t.timeout) && Victim(t, key, now).value in t.flows
    ensures forall f <- t.flows :: IsAlive(f, now, t.timeout) ==> Victim(t, key, now).value.lastSeen <= f.lastSeen
  {
    hide FlowsOk, SnapshotOf, KeyIndex, Surviving, Credits, IsAlive, Hit, Kept;
    var idle := Idle(now, t.timeout);
    AliveAreKept(t.flows, now, t.timeout);
    KeptMembers(t.flows, idle);
    KeptMembers(Kept(t.flows, idle), Closed);
    forall f | f in t.flows
      ensures IsAlive(f, now, t.timeout) <==> f in BothSweeps(t, now).flows
    {
      AliveIsNotHit(f, now, t.timeout);
    }
  }

  lemma VictimIsTheOne(t: Table, key: FlowKey, now: nat, other: FlowKey)
    requires TableOk(t) && Victim(t, key, now).Some? && Victim(t, key, now).value.key == other
    ensures Lookup(t.flows, other) == Some(Victim(t, key, now).value)
  {
    hide FlowsOk, SnapshotOf, KeyIndex, Surviving, Lookup, Victim;
    VictimMeansFull(t, key, now);
    LookupIsMembership(t.flows, other);
  }

  lemma LocatingKeepsLimits(t: Table, key: FlowKey, now: nat)
    requires TableOk(t)
    ensures var r := Located(t, key, now).0; r.maxFlows == t.maxFlows && r.timeout == t.timeout
  {
    hide FlowsOk, SnapshotOf, KeyIndex, Kept, Credits;
  }

  lemma {:induction false} RunKeepsLimits(t: Table, events: seq<CaptureEvent>)
    requires TableOk(t)
    ensures Run(t, events).maxFlows == t.maxFlows && Run(t, events).timeout == t.timeout
    ensures Run(t, events).streamBytes == t.streamBytes
    decreases |events|
  {
    hide TableOk, Located, Handled, Kept, Credits;
    RunKeepsStreamBytes(t, events);
    if events != [] {
      var before, e := Run(t, events[..|events| - 1]), events[|events| - 1];
      RunKeepsLimits(t, events[..|events| - 1]);
      if e.Arrives? && IsTcpFlow(e.p) {
        OkTableIsBounded(before);
        LocatingKeepsLimits(before, IdentityOf(e.p).value.key, e.now);
      }
    }
  }

  /** Over every capture: a flow whose last packet is less than the timeout ago, with no RST in either direction and FIN
      in one at most, is still there after the next packet: as it was, or, when the packet is its own, continued by it.
      Only a full table of such flows can give it up for a new one, and then no other was seen less recently. */
  lemma LiveFlowStays(t: Table, events: seq<CaptureEvent>, p: Packet, now: nat, packetInfo: Option<AppInfo>,
                      key: FlowKey, f: FlowInfo)
    requires TableOk(t) && t.flows == [] && IsTcpFlow(p) && Lookup(Run(t, events).flows, key) == Some(f)
    requires t.timeout == 0 || forall last :: LastArrival(events, key) == Some(last) ==> now < last + t.timeout
    requires !f.talk.aToB.rstSeen && !f.talk.bToA.rstSeen && !(f.talk.aToB.finSeen && f.talk.bToA.finSeen)
    ensures WellBounded(f.talk)
    ensures var before, after := Run(t, events), Run(t, events + [Arrives(p, now, packetInfo)]);
            var id := IdentityOf(p).value;
            if key == id.key then
              && Lookup(after.flows, key).Some?
              && var g := Lookup(after.flows, key).value;
                 && g.created == f.created && g.lastSeen == now
                 && g.total == Traffic(f.total.packets + 1, f.total.bytes + p.size)
                 && g.talk == PacketClassified(Step(f.talk, id.way, p.tcp).0, packetInfo)
            else
              Lookup(after.flows, key) == Some(f) ||
              (&& Lookup(after.flows, key).None?
               && Surviving(before, id.key, now).None? && AliveCount(before.flows, now, t.timeout) >= t.maxFlows
               && forall g <- before.flows :: IsAlive(g, now, t.timeout) ==> f.lastSeen <= g.lastSeen)
  {
    hide TableOk, Captured, Lookup, Step, AliveCount, WellBounded, Victim, PacketClassified;
    var before := Run(t, events);
    assert (events + [Arrives(p, now, packetInfo)])[..|events|] == events;
    FlowRecordsItsPackets(t, events, key);
    RunKeepsLimits(t, events);
    var id := IdentityOf(p).value;
    assert Surviving(before, key, now) == Some(f);
    FoundIsOk(before, key);
    OkIsBounded(f.talk);
    CapturedLookup(before, p, now, packetInfo, id.key);
    CapturedLookup(before, p, now, packetInfo, key);
    if key != id.key {
      if Victim(before, id.key, now).Some? && Victim(before, id.key, now).value.key == key {
        VictimMeansFull(before, id.key, now);
        VictimIsTheOne(before, id.key, now, key);
      }
    }
  }

  /** And any other flow is gone after the next packet, replaced by a new one when the packet is its own. */
  lemma DeadFlowLeaves(t: Table, events: seq<CaptureEvent>, p: Packet, now: nat, packetInfo: Option<AppInfo>,
                       key: FlowKey, f: FlowInfo)
    requires TableOk(t) && t.flows == [] && IsTcpFlow(p) && Lookup(Run(t, events).flows, key) == Some(f)
    requires (t.timeout != 0 && exists last | LastArrival(events, key) == Some(last) :: now >= last + t.timeout)
          || f.talk.aToB.rstSeen || f.talk.bToA.rstSeen || (f.talk.aToB.finSeen && f.talk.bToA.finSeen)
    ensures WellBounded(NewConversation(t.streamBytes))
    ensures var after, id := Run(t, events + [Arrives(p, now, packetInfo)]), IdentityOf(p).value;
            if key == id.key then
              && Lookup(after.flows, key).Some?
              && var g := Lookup(after.flows, key).value;
                 && g.created == now && g.lastSeen == now && g.total == Traffic(1, p.size)
                 && g.talk == PacketClassified(Step(NewConversation(t.streamBytes), id.way, p.tcp).0, packetInfo)
            else Lookup(after.flows, key).None?
  {
    hide TableOk, Captured, Lookup, Step, AliveCount, WellBounded, Victim, PacketClassified;
    var before := Run(t, events);
    assert (events + [Arrives(p, now, packetInfo)])[..|events|] == events;
    FlowRecordsItsPackets(t, events, key);
    RunKeepsLimits(t, events);
    assert Surviving(before, key, now) == None;
    CapturedLookup(before, p, now, packetInfo, IdentityOf(p).value.key);
    CapturedLookup(before, p, now, packetInfo, key);
    OkHasBuffers(t);
    NewIsBounded(t.streamBytes);
  }

  lemma NewIsBounded(streamBytes: nat)
    requires streamBytes > 0
    ensures WellBounded(NewConversation(streamBytes))
  {
    NewIsOk(streamBytes);
    OkIsBounded(NewConversation(streamBytes));
  }

  /** The sweep at the end of a capture takes the flows that have closed and leaves every other as it is. */
  lemma FinalSweepTakesTheClosed(t: Table, key: FlowKey)
    requires TableOk(t)
    ensures Lookup(Swept(t, Closed).flows, key) ==
            match Lookup(t.flows, key)
            case None => None
            case Some(f) =>
              if f.talk.aToB.rstSeen || f.talk.bToA.rstSeen || (f.talk.aToB.finSeen && f.talk.bToA.finSeen) then None
              else Some(f)
  {
    hide KeyIndex, Kept, FlowsOk, Credits;
    SweptLookup(t, Closed, key);
  }
}
