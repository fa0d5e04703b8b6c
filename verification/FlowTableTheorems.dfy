/** The flow table over whole capture runs: distinct keys, conservation, memory, and the map it refines. */
module FlowTableTheorems {
  import opened Bytes
  import opened TcpReassembly
  import opened AppMetadata
  import opened FlowDecode
  import opened FlowKeys
  import opened FlowTables
  import opened FlowLifecycle

  predicate FlowOk(f: FlowInfo, streamBytes: nat) {
    ConversationOk(f.talk) && f.talk.streamBytes == streamBytes
  }

  predicate FlowsOk(flows: seq<FlowInfo>, streamBytes: nat) {
    forall f <- flows :: FlowOk(f, streamBytes)
  }

  predicate KeysDistinct(flows: seq<FlowInfo>) {
    forall i, j | 0 <= i < j < |flows| :: flows[i].key != flows[j].key
  }

  function Gone(life: Lifetime): nat {
    life.closedFin + life.closedRst + life.evictedIdle + life.evictedCapacity
  }

  predicate TableOk(t: Table) {
    && t.maxFlows > 0 && t.streamBytes > 0 && 4 * (t.maxFlows * t.streamBytes) <= MAX_TOTAL_REASSEMBLY_BYTES
    && |t.flows| <= t.maxFlows
    && FlowsOk(t.flows, t.streamBytes)
    && KeysDistinct(t.flows)
    && t.life.created == |t.flows| + Gone(t.life)
  }

  lemma InitIsOk(maxFlows: nat, streamBytes: nat, timeout: nat)
    requires InitAccepts(maxFlows, streamBytes)
    ensures TableOk(FreshTable(maxFlows, streamBytes, timeout))
  {
    InitAcceptsWhatFits(maxFlows, streamBytes);
  }

  // ----- counters -----

  lemma SumLaws(a: Counters, b: Counters, c: Counters)
    ensures Sum(a, Sum(b, c)) == Sum(Sum(a, b), c) && Sum(a, b) == Sum(b, a) && Sum(a, NO_COUNTS) == a
  {
  }

  lemma {:induction false} FoldedWithoutAt(flows: seq<FlowInfo>, i: nat)
    requires i < |flows|
    ensures Sum(Folded(WithoutAt(flows, i)), FlowCounters(flows[i])) == Folded(flows)
    decreases |flows|
  {
    hide FlowCounters;
    var n := |flows| - 1;
    var last := flows[n];
    if i == n {
      assert WithoutAt(flows, i) == flows[..n];
    } else {
      FoldedWithoutAt(flows[..n], i);
      assert WithoutAt(flows, i) == WithoutAt(flows[..n], i) + [last];
      assert WithoutAt(flows, i)[..n - 1] == WithoutAt(flows[..n], i);
    }
  }

  /** A flow that leaves takes nothing out of the reported totals. */
  lemma CreditKeepsTotals(life: Lifetime, policy: Policy, f: FlowInfo, rest: Counters)
    ensures Sum(Credited(life, policy, f).totals, rest) == Sum(life.totals, Sum(rest, FlowCounters(f)))
    ensures Gone(Credited(life, policy, f)) == Gone(life) + 1 && Credited(life, policy, f).created == life.created
  {
    hide FlowCounters;
  }

  lemma {:induction false} CreditsShift(life: Lifetime, flows: seq<FlowInfo>, policy: Policy)
    ensures Sum(Credits(life, flows, policy).totals, Folded(Kept(flows, policy))) == Sum(life.totals, Folded(flows))
    ensures Gone(Credits(life, flows, policy)) + |Kept(flows, policy)| == Gone(life) + |flows|
    ensures Credits(life, flows, policy).created == life.created
    decreases |flows|
  {
    hide FlowCounters, Credited, Hit, Gone;
    if flows != [] {
      var init, last := flows[..|flows| - 1], flows[|flows| - 1];
      CreditsShift(life, init, policy);
      var before, kept := Credits(life, init, policy), Kept(init, policy);
      if Hit(policy, last) {
        assert kept + [] == kept;
        CreditKeepsTotals(before, policy, last, Folded(kept));
      } else {
        assert (kept + [last])[..|kept|] == kept;
      }
      SumLaws(before.totals, Folded(kept), FlowCounters(last));
      SumLaws(life.totals, Folded(init), FlowCounters(last));
    }
  }

  // ----- sweeps -----

  lemma {:induction false} KeptIsDistinct(flows: seq<FlowInfo>, policy: Policy)
    requires KeysDistinct(flows)
    ensures KeysDistinct(Kept(flows, policy)) && |Kept(flows, policy)| <= |flows|
    decreases |flows|
  {
    hide Hit;
    if flows != [] {
      var init := flows[..|flows| - 1];
      KeptIsDistinct(init, policy);
      KeptMembers(init, policy);
      assert forall f <- Kept(init, policy) :: f.key != flows[|flows| - 1].key;
    }
  }

  /** A sweep keeps the invariant and leaves the reported totals as they were. */
  lemma SweepIsConservative(t: Table, policy: Policy)
    requires TableOk(t)
    ensures TableOk(Swept(t, policy)) && SnapshotOf(Swept(t, policy)).totals == SnapshotOf(t).totals
  {
    hide Credits, Hit, FlowOk, Folded, Sum, LiveDirections;
    KeptIsDistinct(t.flows, policy);
    KeptMembers(t.flows, policy);
    CreditsShift(t.life, t.flows, policy);
  }

  lemma RemovalKeepsDistinct(flows: seq<FlowInfo>, i: nat)
    requires KeysDistinct(flows) && i < |flows|
    ensures KeysDistinct(WithoutAt(flows, i))
    ensures forall f <- WithoutAt(flows, i) :: f in flows && f.key != flows[i].key
    ensures forall f <- flows :: f == flows[i] || f in WithoutAt(flows, i)
  {
    var rest := WithoutAt(flows, i);
    forall a, b | 0 <= a < b < |rest|
      ensures rest[a].key != rest[b].key
    {
      assert rest[a] == flows[if a < i then a else a + 1] && rest[b] == flows[if b < i then b else b + 1];
    }
    forall f | f in rest
      ensures f in flows && f.key != flows[i].key
    {
      var a :| 0 <= a < |rest| && rest[a] == f;
      assert rest[a] == flows[if a < i then a else a + 1];
    }
    assert flows == flows[..i] + [flows[i]] + flows[i + 1..];
  }

  /** Capacity eviction keeps the invariant and the totals, and removes a least recently seen flow. */
  lemma OldestIsConservative(t: Table)
    requires TableOk(t) && t.flows != []
    ensures TableOk(WithoutOldest(t)) && SnapshotOf(WithoutOldest(t)).totals == SnapshotOf(t).totals
    ensures |WithoutOldest(t).flows| == |t.flows| - 1
    ensures var victim := t.flows[OldestIndex(t.flows, |t.flows|)];
            forall f <- t.flows :: victim.lastSeen <= f.lastSeen
  {
    hide FlowCounters, FlowOk, Folded, LiveDirections;
    var i := OldestIndex(t.flows, |t.flows|);
    RemovalKeepsDistinct(t.flows, i);
    FoldedWithoutAt(t.flows, i);
    CreditKeepsTotals(t.life, Oldest, t.flows[i], Folded(WithoutAt(t.flows, i)));
  }

  // ----- lookup -----

  function Lookup(flows: seq<FlowInfo>, key: FlowKey): Option<FlowInfo> {
    var i := KeyIndex(flows, key, 0);
    if i < |flows| then Some(flows[i]) else None
  }

  lemma LookupIsMembership(flows: seq<FlowInfo>, key: FlowKey)
    requires KeysDistinct(flows)
    ensures forall f :: Lookup(flows, key) == Some(f) <==> f in flows && f.key == key
  {
    forall f | f in flows && f.key == key
      ensures Lookup(flows, key) == Some(f)
    {
      var j :| 0 <= j < |flows| && flows[j] == f;
      var i := KeyIndex(flows, key, 0);
      assert i <= j && flows[i].key == flows[j].key;
    }
  }

  /** A packet ago less than the timeout, no RST in either direction, and FIN in one at most. */
  predicate IsAlive(f: FlowInfo, now: nat, timeout: nat) {
    && (timeout == 0 || now < f.lastSeen + timeout)
    && !f.talk.aToB.rstSeen && !f.talk.bToA.rstSeen && !(f.talk.aToB.finSeen && f.talk.bToA.finSeen)
  }

  /** The flow of a key, unless idleness or teardown ends it now. */
  function Surviving(t: Table, key: FlowKey, now: nat): Option<FlowInfo> {
    match Lookup(t.flows, key)
    case None => None
    case Some(f) => if IsAlive(f, now, t.timeout) then Some(f) else None
  }

  lemma AliveIsNotHit(f: FlowInfo, now: nat, timeout: nat)
    ensures IsAlive(f, now, timeout) <==> !Hit(Idle(now, timeout), f) && !Hit(Closed, f)
  {
  }

  lemma SweptLookup(t: Table, policy: Policy, key: FlowKey)
    requires KeysDistinct(t.flows)
    ensures Lookup(Swept(t, policy).flows, key) ==
            match Lookup(t.flows, key) case None => None case Some(f) => if Hit(policy, f) then None else Some(f)
  {
    hide Hit, Credits, KeyIndex;
    var kept := Kept(t.flows, policy);
    KeptIsDistinct(t.flows, policy);
    KeptMembers(t.flows, policy);
    LookupIsMembership(t.flows, key);
    LookupIsMembership(kept, key);
    if Lookup(kept, key).Some? {
      assert Lookup(t.flows, key) == Some(Lookup(kept, key).value);
    }
  }

  lemma SweptKeepsSurvivors(t: Table, key: FlowKey, now: nat)
    requires TableOk(t)
    ensures TableOk(BothSweeps(t, now)) && SnapshotOf(BothSweeps(t, now)).totals == SnapshotOf(t).totals
    ensures Lookup(BothSweeps(t, now).flows, key) == Surviving(t, key, now)
    ensures BothSweeps(t, now).maxFlows == t.maxFlows && BothSweeps(t, now).timeout == t.timeout
    ensures BothSweeps(t, now).streamBytes == t.streamBytes
    ensures forall f <- BothSweeps(t, now).flows :: !IsClosed(f)
  {
    hide Kept, Credits, IsClosed, IsIdle, IsAlive, KeyIndex, FlowsOk, SnapshotOf;
    var once := Swept(t, Idle(now, t.timeout));
    SweepIsConservative(t, Idle(now, t.timeout));
    SweepIsConservative(once, Closed);
    SweptLookup(t, Idle(now, t.timeout), key);
    SweptLookup(once, Closed, key);
    if Lookup(t.flows, key).Some? {
      AliveIsNotHit(Lookup(t.flows, key).value, now, t.timeout);
    }
    KeptIsDistinct(once.flows, Closed);
    KeptMembers(once.flows, Closed);
  }

  /** The flow that makes room for a new one: none while the key survives or a slot is free. */
  function Victim(t: Table, key: FlowKey, now: nat): Option<FlowInfo> {
    var swept := BothSweeps(t, now);
    if Surviving(t, key, now).Some? || |swept.flows| < t.maxFlows || swept.flows == [] then None
    else Some(swept.flows[OldestIndex(swept.flows, |swept.flows|)])
  }

  lemma AddingKeepsDistinct(flows: seq<FlowInfo>, f: FlowInfo)
    requires KeysDistinct(flows) && forall g <- flows :: g.key != f.key
    ensures KeysDistinct(flows + [f])
  {
  }

  lemma NewFlowIsOk(key: FlowKey, now: nat, streamBytes: nat)
    requires streamBytes > 0
    ensures FlowOk(NewFlow(key, now, streamBytes), streamBytes) && !IsClosed(NewFlow(key, now, streamBytes))
    ensures FlowCounters(NewFlow(key, now, streamBytes)) == NO_COUNTS
  {
  }

  lemma FoldedWithNew(flows: seq<FlowInfo>, f: FlowInfo)
    requires FlowCounters(f) == NO_COUNTS
    ensures Folded(flows + [f]) == Folded(flows)
  {
    hide FlowCounters, Sum;
    var longer := flows + [f];
    assert longer[..|longer| - 1] == flows && longer[|longer| - 1] == f;
    assert Folded(longer) == Sum(Folded(flows), FlowCounters(f));
    SumLaws(Folded(flows), NO_COUNTS, NO_COUNTS);
  }

  lemma CreationIsConservative(room: Table, key: FlowKey, now: nat, r: Table)
    requires TableOk(room) && |room.flows| < room.maxFlows && forall f <- room.flows :: f.key != key
    requires r == room.(flows := room.flows + [NewFlow(key, now, room.streamBytes)],
                        life := room.life.(created := room.life.created + 1))
    ensures TableOk(r) && SnapshotOf(r).totals == SnapshotOf(room).totals
  {
    hide FlowCounters, FlowOk, NewFlow, LiveDirections, Folded, Sum, KeysDistinct;
    var f := NewFlow(key, now, room.streamBytes);
    NewFlowIsOk(key, now, room.streamBytes);
    NewFlowKey(key, now, room.streamBytes);
    AddingKeepsDistinct(room.flows, f);
    FoldedWithNew(room.flows, f);
    assert FlowsOk(r.flows, r.streamBytes) by {
      assert forall g <- r.flows :: g == f || g in room.flows;
    }
  }

  lemma NewFlowKey(key: FlowKey, now: nat, streamBytes: nat)
    ensures NewFlow(key, now, streamBytes).key == key
  {
  }

  /** Look-up or creation, with everything the table promises about it. */
  lemma LocatingIsConservative(t: Table, key: FlowKey, now: nat)
    requires TableOk(t)
    ensures TableOk(Located(t, key, now).0) && SnapshotOf(Located(t, key, now).0).totals == SnapshotOf(t).totals
    ensures Located(t, key, now).0.streamBytes == t.streamBytes
  {
    hide BothSweeps, SnapshotOf, WithoutOldest, NewFlow;
    SweptKeepsSurvivors(t, key, now);
    var swept := BothSweeps(t, now);
    if KeyIndex(swept.flows, key, 0) == |swept.flows| {
      var room := swept;
      if |swept.flows| >= t.maxFlows {
        OldestIsConservative(swept);
        room := WithoutOldest(swept);
        OldestKeepsLimits(swept);
      }
      CreationIsConservative(room, key, now, Located(t, key, now).0);
    }
  }

  lemma OldestKeepsLimits(t: Table)
    requires TableOk(t) && t.flows != []
    ensures var r := WithoutOldest(t);
            r.maxFlows == t.maxFlows && r.streamBytes == t.streamBytes && r.timeout == t.timeout
                && forall f <- r.flows :: f in t.flows
  {
    RemovalKeepsDistinct(t.flows, OldestIndex(t.flows, |t.flows|));
  }

  /** A survivor is found where it is; a new key is appended, after the victim has left. */
  lemma LocatedMembers(t: Table, key: FlowKey, now: nat)
    requires TableOk(t)
    ensures var ((r, i), swept, victim) := (Located(t, key, now), BothSweeps(t, now), Victim(t, key, now));
            match Surviving(t, key, now)
            case Some(f) => r.flows == swept.flows && r.flows[i] == f && victim.None?
            case None =>
              && r.flows[i] == NewFlow(key, now, t.streamBytes)
              && (forall f :: f in r.flows <==>
                                f == r.flows[i] || (f in swept.flows && !(victim.Some? && f == victim.value)))
              && (victim.Some? ==>
                    victim.value in swept.flows && forall f <- swept.flows :: victim.value.lastSeen <= f.lastSeen)
  {
    hide BothSweeps, NewFlow, FlowsOk, Surviving, SnapshotOf;
    SweptKeepsSurvivors(t, key, now);
    var swept := BothSweeps(t, now);
    if Surviving(t, key, now).None? && |swept.flows| >= t.maxFlows {
      OldestIsConservative(swept);
      RemovalKeepsDistinct(swept.flows, OldestIndex(swept.flows, |swept.flows|));
    }
  }

  /** The table refines a map from keys to flows. Looking a key up yields its surviving flow or a new
      one, never a closed one; every other key keeps exactly its surviving flow, except that a full table
      gives up one flow for a new key. */
  lemma LocatingRefinesAMap(t: Table, key: FlowKey, now: nat, other: FlowKey)
    requires TableOk(t) && other != key
    ensures var (r, i) := Located(t, key, now);
            && !IsClosed(r.flows[i])
            && r.flows[i] == (match Surviving(t, key, now)
                              case Some(f) => f
                              case None => NewFlow(key, now, t.streamBytes))
            && Lookup(r.flows, key) == Some(r.flows[i])
            && Lookup(r.flows, other) ==
               (var victim := Victim(t, key, now);
                if victim.Some? && victim.value.key == other then None else Surviving(t, other, now))
  {
    hide BothSweeps, NewFlow, IsClosed, FlowsOk, KeyIndex, Lookup, Surviving, Located, Victim, KeysDistinct, SnapshotOf;
    SweptKeepsSurvivors(t, key, now);
    SweptKeepsSurvivors(t, other, now);
    LocatingIsConservative(t, key, now);
    NewFlowIsOk(key, now, t.streamBytes);
    NewFlowKey(key, now, t.streamBytes);
    LocatedMembers(t, key, now);
    var (swept, r, i) := (BothSweeps(t, now), Located(t, key, now).0, Located(t, key, now).1);
    LookupIsMembership(swept.flows, key);
    LookupIsMembership(r.flows, key);
    OtherKeyLookup(swept.flows, r.flows, r.flows[i], Victim(t, key, now), other);
  }

  lemma OtherKeyLookup(swept: seq<FlowInfo>, flows: seq<FlowInfo>, at: FlowInfo, victim: Option<FlowInfo>,
                       other: FlowKey)
    requires KeysDistinct(swept) && KeysDistinct(flows) && at.key != other
    requires victim.Some? ==> victim.value in swept
    requires (flows == swept && victim.None?) ||
             forall f :: f in flows <==> f == at || (f in swept && !(victim.Some? && f == victim.value))
    ensures Lookup(flows, other) == if victim.Some? && victim.value.key == other then None else Lookup(swept, other)
  {
    hide KeyIndex, Lookup, KeysDistinct;
    LookupIsMembership(swept, other);
    LookupIsMembership(flows, other);
    if Lookup(flows, other).Some? {
      var f := Lookup(flows, other).value;
      assert Lookup(flows, other) == Some(f);
      assert Lookup(swept, other) == Some(f);
    }
    if Lookup(swept, other).Some? {
      var f := Lookup(swept, other).value;
      assert Lookup(swept, other) == Some(f);
    }
    if victim.Some? && victim.value.key == other {
      assert Lookup(swept, other) == Some(victim.value);
    }
  }

  /** The flow given up is a least recently seen one among the survivors. */
  lemma VictimIsLeastRecentlySeen(t: Table, key: FlowKey, now: nat, other: FlowKey)
    requires TableOk(t) && Victim(t, key, now).Some? && Surviving(t, other, now).Some?
    ensures Victim(t, key, now).value.lastSeen <= Surviving(t, other, now).value.lastSeen
  {
    hide BothSweeps, FlowsOk, KeyIndex, Lookup, Located, SnapshotOf;
    LocatedMembers(t, key, now);
    SweptKeepsSurvivors(t, other, now);
    LookupIsMembership(BothSweeps(t, now).flows, other);
    var f := Surviving(t, other, now).value;
    assert Lookup(BothSweeps(t, now).flows, other) == Some(f);
  }

  // ----- one packet -----

  lemma {:induction false} FoldedGrows(flows: seq<FlowInfo>, i: nat, g: FlowInfo)
    requires i < |flows| && NoLess(FlowCounters(flows[i]), FlowCounters(g))
    ensures NoLess(Folded(flows), Folded(flows[i := g]))
    decreases |flows|
  {
    hide FlowCounters;
    var n := |flows| - 1;
    if i < n {
      FoldedGrows(flows[..n], i, g);
      assert flows[i := g][..n] == flows[..n][i := g];
    } else {
      assert flows[i := g][..n] == flows[..n];
    }
  }

  lemma HandlingKeepsOk(f: FlowInfo, p: Packet, way: Way, now: nat, packetInfo: Option<AppInfo>, streamBytes: nat)
    requires FlowOk(f, streamBytes)
    ensures WellBounded(f.talk)
    ensures var g := Handled(f, p, way, now, packetInfo);
            FlowOk(g, streamBytes) && g.key == f.key && NoLess(FlowCounters(f), FlowCounters(g))
  {
    hide Step, ConversationOk, ReleasedBuffers;
    OkIsBounded(f.talk);
    StepKeepsOk(f.talk, way, p.tcp);
    StepKeepsBuffers(f.talk, way, p.tcp);
    var c := Step(f.talk, way, p.tcp).0;
    assert NoLess(f.talk.At(AToB).counters, c.At(AToB).counters)
        && NoLess(f.talk.At(BToA).counters, c.At(BToA).counters);
    if packetInfo.Some? && c.app.None? {
      ClassifyingKeepsOk(c, packetInfo.value);
      ReleasingKeepsCounters(c.aToB);
      ReleasingKeepsCounters(c.bToA);
    }
  }

  lemma StepKeepsBuffers(c: Conversation, way: Way, p: TcpView)
    requires WellBounded(c)
    ensures Step(c, way, p).0.streamBytes == c.streamBytes
  {
    hide Processed;
  }

  lemma UpdateKeepsOk(t: Table, i: nat, g: FlowInfo)
    requires TableOk(t) && i < |t.flows| && FlowOk(g, t.streamBytes) && g.key == t.flows[i].key
    requires NoLess(FlowCounters(t.flows[i]), FlowCounters(g))
    ensures var r := t.(flows := t.flows[i := g]);
            TableOk(r) && NoLess(SnapshotOf(t).totals, SnapshotOf(r).totals)
  {
    hide FlowOk, FlowCounters, LiveDirections;
    FoldedGrows(t.flows, i, g);
    var flows := t.flows[i := g];
    forall f | f in flows
      ensures FlowOk(f, t.streamBytes)
    {
      var j :| 0 <= j < |flows| && flows[j] == f;
      assert f == g || f == t.flows[j];
    }
  }

  /** One packet of the capture loop keeps the invariant and never lowers a reported total. */
  lemma CaptureKeepsOk(t: Table, p: Packet, now: nat, packetInfo: Option<AppInfo>)
    requires TableOk(t)
    ensures TableBounded(t)
    ensures var r := Captured(t, p, now, packetInfo);
            TableOk(r) && NoLess(SnapshotOf(t).totals, SnapshotOf(r).totals)
  {
    hide Located, Handled, SnapshotOf, TableOk, FlowOk;
    OkTableIsBounded(t);
    if IsTcpFlow(p) {
      var id := IdentityOf(p).value;
      LocatingIsConservative(t, id.key, now);
      var (located, i) := Located(t, id.key, now);
      assert FlowOk(located.flows[i], located.streamBytes) by { FlowAt(located, i); }
      HandlingKeepsOk(located.flows[i], p, id.way, now, packetInfo, located.streamBytes);
      UpdateKeepsOk(located, i, Handled(located.flows[i], p, id.way, now, packetInfo));
    }
  }

  lemma FlowAt(t: Table, i: nat)
    requires TableOk(t) && i < |t.flows|
    ensures FlowOk(t.flows[i], t.streamBytes)
  {
  }

  lemma OkTableIsBounded(t: Table)
    requires TableOk(t)
    ensures t.maxFlows > 0 && TableBounded(t)
  {
    hide ConversationOk, WellBounded;
    forall i | 0 <= i < |t.flows|
      ensures WellBounded(t.flows[i].talk)
    {
      FlowAt(t, i);
      OkIsBounded(t.flows[i].talk);
    }
  }

  // ----- whole runs -----

  datatype CaptureEvent = Arrives(p: Packet, now: nat, packetInfo: Option<AppInfo>) | FinalSweep

  function Run(t: Table, events: seq<CaptureEvent>): (r: Table)
    requires TableOk(t)
    ensures TableOk(r)
  {
    if events == [] then t
    else
      var before := Run(t, events[..|events| - 1]);
      match events[|events| - 1]
      case Arrives(p, now, packetInfo) =>
        CaptureKeepsOk(before, p, now, packetInfo);
        Captured(before, p, now, packetInfo)
      case FinalSweep => SweepIsConservative(before, Closed); Swept(before, Closed)
  }

  /** Conservation over every run from a fresh table: every flow ever created is active or was counted out
      under exactly one reason, keys stay distinct, and the table never exceeds its size. */
  lemma FlowsAreConserved(maxFlows: nat, streamBytes: nat, timeout: nat, events: seq<CaptureEvent>)
    requires InitAccepts(maxFlows, streamBytes)
    ensures TableOk(FreshTable(maxFlows, streamBytes, timeout))
    ensures var t := Run(FreshTable(maxFlows, streamBytes, timeout), events);
            var s := SnapshotOf(t);
            && s.created == s.active + s.closedFin + s.closedRst + s.evictedIdle + s.evictedCapacity
            && KeysDistinct(t.flows) && s.active <= t.maxFlows
  {
    hide Run, TableOk, SnapshotOf, KeysDistinct;
    InitIsOk(maxFlows, streamBytes, timeout);
    var t := Run(FreshTable(maxFlows, streamBytes, timeout), events);
    OkIsConserved(t);
  }

  lemma OkIsConserved(t: Table)
    requires TableOk(t)
    ensures var s := SnapshotOf(t);
            && s.created == s.active + s.closedFin + s.closedRst + s.evictedIdle + s.evictedCapacity
            && KeysDistinct(t.flows) && s.active <= t.maxFlows
  {
    hide KeysDistinct, FlowsOk, Folded, LiveDirections;
  }

  /** The reported retransmission, out-of-order, overlap and gap totals never decrease along a run. */
  lemma {:induction false} TotalsNeverDecrease(t: Table, events: seq<CaptureEvent>)
    requires TableOk(t)
    ensures NoLess(SnapshotOf(t).totals, SnapshotOf(Run(t, events)).totals)
    decreases |events|
  {
    hide TableOk, SnapshotOf, Captured, Swept;
    if events != [] {
      var before := Run(t, events[..|events| - 1]);
      TotalsNeverDecrease(t, events[..|events| - 1]);
      match events[|events| - 1]
      case Arrives(p, now, packetInfo) =>
        CaptureKeepsOk(before, p, now, packetInfo);
      case FinalSweep =>
        SweepIsConservative(before, Closed);
    }
  }

  // ----- memory -----

  function FlowMemory(f: FlowInfo): nat {
    Memory(f.talk.aToB) + Memory(f.talk.bToA)
  }

  function TotalMemory(flows: seq<FlowInfo>): nat {
    if flows == [] then 0 else TotalMemory(flows[..|flows| - 1]) + FlowMemory(flows[|flows| - 1])
  }

  function FlowCapacity(f: FlowInfo): nat {
    f.talk.aToB.stream.capacity + f.talk.bToA.stream.capacity
  }

  function TotalCapacity(flows: seq<FlowInfo>): nat {
    if flows == [] then 0 else TotalCapacity(flows[..|flows| - 1]) + FlowCapacity(flows[|flows| - 1])
  }

  lemma FlowMemoryIsBounded(f: FlowInfo, streamBytes: nat)
    requires FlowOk(f, streamBytes)
    ensures FlowMemory(f) <= 4 * streamBytes
    ensures FlowCapacity(f) == LiveCount(f) * streamBytes
  {
    hide DirectionOk;
    MemoryIsBounded(f.talk.aToB, streamBytes, f.talk.app.Some?);
    MemoryIsBounded(f.talk.bToA, streamBytes, f.talk.app.Some?);
  }

  lemma {:induction false} MemoryAddsUp(flows: seq<FlowInfo>, streamBytes: nat)
    requires FlowsOk(flows, streamBytes)
    ensures TotalMemory(flows) <= 4 * (|flows| * streamBytes)
    ensures TotalCapacity(flows) == LiveDirections(flows) * streamBytes
    decreases |flows|
  {
    hide FlowMemory, FlowCapacity, LiveCount, FlowOk;
    if flows != [] {
      var n := |flows| - 1;
      assert flows[n] in flows;
      assert forall f <- flows[..n] :: f in flows;
      MemoryAddsUp(flows[..n], streamBytes);
      FlowMemoryIsBounded(flows[n], streamBytes);
      Distributes(n, 1, streamBytes);
      Distributes(LiveDirections(flows[..n]), LiveCount(flows[n]), streamBytes);
    }
  }

  lemma Distributes(a: nat, b: nat, c: nat)
    ensures (a + b) * c == a * c + b * c
  {
  }

  lemma OkMemoryIsBounded(t: Table)
    requires TableOk(t)
    ensures TotalMemory(t.flows) <= MAX_TOTAL_REASSEMBLY_BYTES
    ensures SnapshotOf(t).inUse == TotalCapacity(t.flows)
  {
    hide FlowsOk, KeysDistinct, Folded, LiveDirections, TotalMemory, TotalCapacity;
    MemoryAddsUp(t.flows, t.streamBytes);
    ProductIsMonotone(|t.flows|, t.maxFlows, t.streamBytes);
  }

  /** At every point of every run, stream buffers and pending bytes of all flows together stay within
      134217728 bytes, and the reported bytes in use are exactly the allocated stream capacities. */
  lemma MemoryStaysBounded(maxFlows: nat, streamBytes: nat, timeout: nat, events: seq<CaptureEvent>)
    requires InitAccepts(maxFlows, streamBytes)
    ensures TableOk(FreshTable(maxFlows, streamBytes, timeout))
    ensures var t := Run(FreshTable(maxFlows, streamBytes, timeout), events);
            TotalMemory(t.flows) <= 134217728 && SnapshotOf(t).inUse == TotalCapacity(t.flows)
  {
    hide Run, TableOk, SnapshotOf, TotalMemory, TotalCapacity;
    InitIsOk(maxFlows, streamBytes, timeout);
    OkMemoryIsBounded(Run(FreshTable(maxFlows, streamBytes, timeout), events));
  }

  /** A sweep is a filter: it treats every flow by itself and keeps the order. */
  lemma {:induction false} SweepIsAFilter(one: seq<FlowInfo>, two: seq<FlowInfo>, policy: Policy)
    ensures Kept(one + two, policy) == Kept(one, policy) + Kept(two, policy)
    ensures |one| == 1 ==> Kept(one, policy) == if Hit(policy, one[0]) then [] else one
    decreases |two|
  {
    hide Hit, Kept;
    if two == [] {
      assert one + two == one;
      KeptOfNothing(policy);
    } else {
      var n := |two| - 1;
      SweepIsAFilter(one, two[..n], policy);
      KeptUnrolls(one + two, policy);
      KeptUnrolls(two, policy);
      assert (one + two)[..|one| + n] == one + two[..n];
    }
    if |one| == 1 {
      KeptUnrolls(one, policy);
      KeptOfNothing(policy);
      assert one[..0] == [] && one == [one[0]];
    }
  }

  lemma KeptOfNothing(policy: Policy)
    ensures Kept([], policy) == []
  {
  }

  lemma KeptUnrolls(flows: seq<FlowInfo>, policy: Policy)
    requires flows != []
    ensures var n := |flows| - 1;
            Kept(flows, policy) == Kept(flows[..n], policy) + if Hit(policy, flows[n]) then [] else [flows[n]]
  {
    hide Hit;
  }
}
