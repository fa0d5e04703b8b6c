/** What the flow table counts, over whole captures: creations, departures by reason, and the reassembly totals. */
module FlowTallies {
  import opened Bytes
  import opened TcpReassembly
  import opened AppMetadata
  import opened FlowDecode
  import opened FlowKeys
  import opened FlowTables
  import opened FlowLifecycle
  import opened FlowTableTheorems
  import opened FlowHistories
  import opened FlowTiming

  /** Why a flow leaves by itself; an idle one is idle whatever flags it has seen, and a reset one reset. */
  datatype Reason = TimedOut | Reset | Finished

  predicate LeavesBy(f: FlowInfo, reason: Reason, now: nat, timeout: nat) {
    var late := timeout != 0 && now >= f.lastSeen + timeout;
    var reset := f.talk.aToB.rstSeen || f.talk.bToA.rstSeen;
    match reason
    case TimedOut => late
    case Reset => !late && reset
    case Finished => !late && !reset && f.talk.aToB.finSeen && f.talk.bToA.finSeen
  }

  function Leaving(flows: seq<FlowInfo>, reason: Reason, now: nat, timeout: nat): nat {
    if flows == [] then 0
    else
      var last := flows[|flows| - 1];
      Leaving(flows[..|flows| - 1], reason, now, timeout) + if LeavesBy(last, reason, now, timeout) then 1 else 0
  }

  /** The counts of a lifetime raised by these departures. */
  predicate Raised(life: Lifetime, flows: seq<FlowInfo>, now: nat, timeout: nat, r: Lifetime) {
    && r.evictedIdle == life.evictedIdle + Leaving(flows, TimedOut, now, timeout)
    && r.closedRst == life.closedRst + Leaving(flows, Reset, now, timeout)
    && r.closedFin == life.closedFin + Leaving(flows, Finished, now, timeout)
    && r.evictedCapacity == life.evictedCapacity && r.created == life.created
  }

  lemma CreditCounts(life: Lifetime, f: FlowInfo, now: nat, timeout: nat)
    ensures var idle := Credited(life, Idle(now, timeout), f);
            idle == life.(evictedIdle := life.evictedIdle + 1, totals := idle.totals)
    ensures var closed := Credited(life, Closed, f);
            closed == if f.talk.aToB.rstSeen || f.talk.bToA.rstSeen
                      then life.(closedRst := life.closedRst + 1, totals := closed.totals)
                      else life.(closedFin := life.closedFin + 1, totals := closed.totals)
  {
    hide FlowCounters, Sum;
  }

  lemma HitIs(f: FlowInfo, now: nat, timeout: nat)
    ensures Hit(Idle(now, timeout), f) <==> LeavesBy(f, TimedOut, now, timeout)
    ensures !Hit(Idle(now, timeout), f) ==>
              (Hit(Closed, f) <==> LeavesBy(f, Reset, now, timeout) || LeavesBy(f, Finished, now, timeout))
    ensures LeavesBy(f, Reset, now, timeout) ==> !LeavesBy(f, Finished, now, timeout) && !Hit(Idle(now, timeout), f)
    ensures LeavesBy(f, Finished, now, timeout) ==> !Hit(Idle(now, timeout), f)
    ensures LeavesBy(f, Reset, now, timeout) ==> f.talk.aToB.rstSeen || f.talk.bToA.rstSeen
    ensures LeavesBy(f, Finished, now, timeout) ==> !f.talk.aToB.rstSeen && !f.talk.bToA.rstSeen
  {
  }

  lemma {:induction false} IdleCredits(life: Lifetime, flows: seq<FlowInfo>, now: nat, timeout: nat)
    ensures var r := Credits(life, flows, Idle(now, timeout));
            r == life.(evictedIdle := life.evictedIdle + Leaving(flows, TimedOut, now, timeout), totals := r.totals)
    decreases |flows|
  {
    hide Hit, Credited, LeavesBy;
    if flows != [] {
      var init, last := flows[..|flows| - 1], flows[|flows| - 1];
      IdleCredits(life, init, now, timeout);
      CreditCounts(Credits(life, init, Idle(now, timeout)), last, now, timeout);
      HitIs(last, now, timeout);
    }
  }

  lemma {:induction false} ClosedCredits(life: Lifetime, flows: seq<FlowInfo>, now: nat, timeout: nat)
    ensures var r := Credits(life, Kept(flows, Idle(now, timeout)), Closed);
            r == life.(closedRst := life.closedRst + Leaving(flows, Reset, now, timeout),
                       closedFin := life.closedFin + Leaving(flows, Finished, now, timeout), totals := r.totals)
    decreases |flows|
  {
    hide Hit, Credited, LeavesBy, Kept, Credits;
    var idle := Idle(now, timeout);
    if flows == [] {
      KeptOfNothing(idle);
      CreditsOfNothing(life);
    } else {
      var init, last := flows[..|flows| - 1], flows[|flows| - 1];
      var once := Kept(init, idle);
      ClosedCredits(life, init, now, timeout);
      KeptUnrolls(flows, idle);
      HitIs(last, now, timeout);
      if Hit(idle, last) {
        assert once + [] == once;
      } else {
        CreditsUnroll(life, once, last);
        CreditCounts(Credits(life, once, Closed), last, now, timeout);
      }
    }
  }

  lemma CreditsOfNothing(life: Lifetime)
    ensures Credits(life, [], Closed) == life
  {
  }

  lemma CreditsUnroll(life: Lifetime, flows: seq<FlowInfo>, last: FlowInfo)
    ensures var before := Credits(life, flows, Closed);
            Credits(life, flows + [last], Closed) == if Hit(Closed, last) then Credited(before, Closed, last)
                else before
  {
    hide Hit, Credited;
    assert (flows + [last])[..|flows|] == flows;
  }

  lemma SweepsCount(t: Table, now: nat)
    ensures Raised(t.life, t.flows, now, t.timeout, BothSweeps(t, now).life)
  {
    hide Kept, Credits, LeavesBy;
    IdleCredits(t.life, t.flows, now, t.timeout);
    ClosedCredits(Swept(t, Idle(now, t.timeout)).life, t.flows, now, t.timeout);
  }

  /** What one packet adds to the five counts. */
  lemma PacketCounts(t: Table, p: Packet, now: nat, packetInfo: Option<AppInfo>)
    requires TableOk(t) && IsTcpFlow(p)
    ensures TableBounded(t)
    ensures var life, key := Captured(t, p, now, packetInfo).life, IdentityOf(p).value.key;
            var isNew := !exists f <- t.flows :: f.key == key && IsAlive(f, now, t.timeout);
            var full := AliveCount(t.flows, now, t.timeout) == t.maxFlows;
            && life.created == t.life.created + (if isNew then 1 else 0)
            && life.evictedIdle == t.life.evictedIdle + Leaving(t.flows, TimedOut, now, t.timeout)
            && life.closedRst == t.life.closedRst + Leaving(t.flows, Reset, now, t.timeout)
            && life.closedFin == t.life.closedFin + Leaving(t.flows, Finished, now, t.timeout)
            && life.evictedCapacity == t.life.evictedCapacity + (if isNew && full then 1 else 0)
  {
    hide FlowsOk, KeysDistinct, Kept, Credits, Handled, IsAlive, LeavesBy, KeyIndex, SnapshotOf, FlowCounters;
    OkTableIsBounded(t);
    SweepsCount(t, now);
    AliveAreKept(t.flows, now, t.timeout);
    SweptKeepsSurvivors(t, IdentityOf(p).value.key, now);
    SurvivingIsAlive(t, IdentityOf(p).value.key, now);
  }

  lemma SurvivingIsAlive(t: Table, key: FlowKey, now: nat)
    requires TableOk(t)
    ensures Surviving(t, key, now).Some? <==> exists f <- t.flows :: f.key == key && IsAlive(f, now, t.timeout)
  {
    hide IsAlive, KeyIndex, FlowsOk;
    LookupIsMembership(t.flows, key);
    if Surviving(t, key, now).Some? {
      assert Lookup(t.flows, key) == Some(Surviving(t, key, now).value);
    }
  }

  lemma {:induction false} NothingTimesOut(flows: seq<FlowInfo>)
    ensures Kept(flows, Idle(0, 0)) == flows
    decreases |flows|
  {
    hide Kept;
    if flows == [] {
      KeptOfNothing(Idle(0, 0));
    } else {
      NothingTimesOut(flows[..|flows| - 1]);
      KeptUnrolls(flows, Idle(0, 0));
    }
  }

  /** What the sweep at the end of a capture adds to them. */
  lemma FinalSweepCounts(t: Table)
    ensures var life := Swept(t, Closed).life;
            && life.closedRst == t.life.closedRst + Leaving(t.flows, Reset, 0, 0)
            && life.closedFin == t.life.closedFin + Leaving(t.flows, Finished, 0, 0)
            && life.created == t.life.created && life.evictedIdle == t.life.evictedIdle
            && life.evictedCapacity == t.life.evictedCapacity
  {
    hide Kept, Credits, LeavesBy;
    NothingTimesOut(t.flows);
    ClosedCredits(t.life, t.flows, 0, 0);
  }

  // ----- whole captures -----

  /** How many flows left for this reason. */
  function Departures(t: Table, events: seq<CaptureEvent>, reason: Reason): nat
    requires TableOk(t)
  {
    if events == [] then 0
    else
      var init := events[..|events| - 1];
      Departures(t, init, reason) +
      match events[|events| - 1]
      case FinalSweep => if reason == TimedOut then 0 else Leaving(Run(t, init).flows, reason, 0, 0)
      case Arrives(p, now, _) => if IsTcpFlow(p) then Leaving(Run(t, init).flows, reason, now, t.timeout) else 0
  }

  /** The packet finds no flow of its key that is alive. */
  predicate IsNew(t: Table, e: CaptureEvent) {
    e.Arrives? && IsTcpFlow(e.p) &&
    !exists f <- t.flows :: f.key == IdentityOf(e.p).value.key && IsAlive(f, e.now, t.timeout)
  }

  function Creations(t: Table, events: seq<CaptureEvent>): nat
    requires TableOk(t)
  {
    if events == [] then 0
    else
      var init := events[..|events| - 1];
      Creations(t, init) + if IsNew(Run(t, init), events[|events| - 1]) then 1 else 0
  }

  /** How many of them found a table full of flows that were alive. */
  function GivenUp(t: Table, events: seq<CaptureEvent>): nat
    requires TableOk(t)
  {
    if events == [] then 0
    else
      var init, e := events[..|events| - 1], events[|events| - 1];
      var before := Run(t, init);
      GivenUp(t, init)
      + if IsNew(before, e) && AliveCount(before.flows, e.now, t.timeout) == t.maxFlows then 1 else 0
  }

  lemma {:induction false} RunCounts(t: Table, events: seq<CaptureEvent>)
    requires TableOk(t) && t.life == Lifetime(0, 0, 0, 0, 0, NO_COUNTS)
    ensures var life := Run(t, events).life;
            && life.created == Creations(t, events) && life.evictedCapacity == GivenUp(t, events)
            && life.evictedIdle == Departures(t, events, TimedOut)
            && life.closedRst == Departures(t, events, Reset) && life.closedFin == Departures(t, events, Finished)
    decreases |events|
  {
    hide TableOk, Captured, Swept, Leaving, AliveCount;
    if events != [] {
      var init, e := events[..|events| - 1], events[|events| - 1];
      var before := Run(t, init);
      RunCounts(t, init);
      RunKeepsLimits(t, init);
      if e.FinalSweep? {
        FinalSweepCounts(before);
      } else {
        OkHasBuffers(before);
        if IsTcpFlow(e.p) {
          PacketCounts(before, e.p, e.now, e.packetInfo);
        } else {
          OthersPassBy(before, e.p, e.now, e.packetInfo);
        }
      }
    }
  }

  lemma OthersPassBy(t: Table, p: Packet, now: nat, packetInfo: Option<AppInfo>)
    requires TableOk(t) && !IsTcpFlow(p)
    ensures TableBounded(t) && Captured(t, p, now, packetInfo) == t
  {
    OkTableIsBounded(t);
  }

  /** Over every capture each reported count is the number of times its reason occurred: a packet that found no flow of
      its key alive; a flow whose last packet was the timeout ago; one with RST; one with FIN both ways and no RST; and
      a new flow in a table full of flows that are alive. */
  lemma CountsAreExact(maxFlows: nat, streamBytes: nat, timeout: nat, events: seq<CaptureEvent>)
    requires InitAccepts(maxFlows, streamBytes)
    ensures TableOk(FreshTable(maxFlows, streamBytes, timeout))
    ensures var t := FreshTable(maxFlows, streamBytes, timeout);
            var s := SnapshotOf(Run(t, events));
            && s.created == Creations(t, events) && s.active == |Run(t, events).flows|
            && s.closedFin == Departures(t, events, Finished) && s.closedRst == Departures(t, events, Reset)
            && s.evictedIdle == Departures(t, events, TimedOut) && s.evictedCapacity == GivenUp(t, events)
            && s.configuredMax == 2 * maxFlows * streamBytes
  {
    hide Run, TableOk, Creations, Departures, GivenUp, LiveDirections, Folded, Sum;
    InitIsOk(maxFlows, streamBytes, timeout);
    RunCounts(FreshTable(maxFlows, streamBytes, timeout), events);
    RunKeepsLimits(FreshTable(maxFlows, streamBytes, timeout), events);
  }

  // ----- the reassembly totals -----

  lemma {:induction false} FoldedUpdate(flows: seq<FlowInfo>, i: nat, g: FlowInfo)
    requires i < |flows|
    ensures Sum(Folded(flows[i := g]), FlowCounters(flows[i])) == Sum(Folded(flows), FlowCounters(g))
    decreases |flows|
  {
    hide FlowCounters;
    var n := |flows| - 1;
    if i < n {
      FoldedUpdate(flows[..n], i, g);
      assert flows[i := g][..n] == flows[..n][i := g];
    } else {
      assert flows[i := g][..n] == flows[..n];
    }
  }

  /** Each reported total grows by what the packet's flow gains, whatever leaves the table at the same time. */
  lemma TotalsAreExact(t: Table, p: Packet, now: nat, packetInfo: Option<AppInfo>)
    requires TableOk(t) && IsTcpFlow(p)
    ensures TableBounded(t)
    ensures var r, key := Captured(t, p, now, packetInfo), IdentityOf(p).value.key;
            && Lookup(r.flows, key).Some?
            && var (f, g) := (Met(t, key, now).talk, Lookup(r.flows, key).value.talk);
               var (before, after) := (SnapshotOf(t).totals, SnapshotOf(r).totals);
               && after.retransmissions + f.aToB.counters.retransmissions + f.bToA.counters.retransmissions
                  == before.retransmissions + g.aToB.counters.retransmissions + g.bToA.counters.retransmissions
               && after.outOfOrder + f.aToB.counters.outOfOrder + f.bToA.counters.outOfOrder
                  == before.outOfOrder + g.aToB.counters.outOfOrder + g.bToA.counters.outOfOrder
               && after.overlapping + f.aToB.counters.overlapping + f.bToA.counters.overlapping
                  == before.overlapping + g.aToB.counters.overlapping + g.bToA.counters.overlapping
               && after.gaps + f.aToB.counters.gaps + f.bToA.counters.gaps
                  == before.gaps + g.aToB.counters.gaps + g.bToA.counters.gaps
  {
    hide TableOk, Located, Handled, Folded, LiveDirections, WellBounded, KeyIndex, Met, Lookup;
    OkTableIsBounded(t);
    var id := IdentityOf(p).value;
    CapturedLookup(t, p, now, packetInfo, id.key);
    LocatedFlow(t, id.key, now);
    LocatingIsConservative(t, id.key, now);
    var (located, i) := Located(t, id.key, now);
    FoldedUpdate(located.flows, i, Handled(located.flows[i], p, id.way, now, packetInfo));
  }
}
