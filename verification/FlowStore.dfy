/** The flow table updated in place (src/flow.c), proved against the functions on values. */
module FlowStore {
  import opened Bytes
  import opened TcpReassembly
  import opened AppMetadata
  import opened FlowDecode
  import opened FlowKeys
  import opened FlowTables

  /** A flow with its identity, its traffic and its two directions. */
  class FlowEntry {
    const key: FlowKey
    const created: nat
    var lastSeen: nat
    var total: Traffic
    var aToB: Traffic
    var bToA: Traffic
    const flow: Flow
    ghost var Repr: set<object>

    ghost predicate Valid()
      reads this, Repr
    {
      && this in Repr && flow.aToB.stream in Repr && flow.bToA.stream in Repr
      && Repr == {this} + flow.Footprint() && flow.Valid()
    }

    ghost function View(): FlowInfo
      requires Valid()
      reads this, Repr
    {
      FlowInfo(key, created, lastSeen, total, aToB, bToA, flow.State())
    }

    constructor (k: FlowKey, now: nat, streamBytes: nat)
      ensures Valid() && View() == NewFlow(k, now, streamBytes) && fresh(Repr)
    {
      key, created, lastSeen := k, now, now;
      total, aToB, bToA := Traffic(0, 0), Traffic(0, 0), Traffic(0, 0);
      flow := new Flow(streamBytes);
      new;
      Repr := {this} + flow.Footprint();
    }

    /** `flow_update_packet`. */
    method Touch(size: nat, now: nat, way: Way)
      requires Valid()
      modifies this`lastSeen, this`total, this`aToB, this`bToA
      ensures Valid() && View() == Touched(old(View()), size, now, way)
    {
      lastSeen, total := now, Counted(total, size);
      if way == AToB {
        aToB := Counted(aToB, size);
      } else {
        bToA := Counted(bToA, size);
      }
    }

    /** Reassembly and decoding of a packet, then the classification its own decode may give the flow. */
    method Decode(way: Way, p: TcpView, packetInfo: Option<AppInfo>)
      requires flow.Valid()
      modifies flow.Footprint()
      ensures flow.Valid() && fresh(flow.Footprint() - old(flow.Footprint()))
      ensures WellBounded(old(flow.State()))
      ensures flow.State() == PacketClassified(Step(old(flow.State()), way, p).0, packetInfo)
    {
      hide Step, Classified, Bounded;
      var decoded, status := flow.DecodeStreamApp(way, p);
      if packetInfo.Some? && flow.app.None? {
        flow.Classify(packetInfo.value);
      }
    }

    /** What the capture loop does to the flow of a packet. */
    method Handle(p: Packet, way: Way, now: nat, packetInfo: Option<AppInfo>)
      requires Valid()
      modifies Repr
      ensures Valid() && WellBounded(old(View()).talk) && View() == Handled(old(View()), p, way, now, packetInfo)
      ensures fresh(Repr - old(Repr))
    {
      hide Step, PacketClassified, WellBounded, Flow.Valid, Flow.State;
      Touch(p.size, now, way);
      Decode(way, p.tcp, packetInfo);
      Repr := {this} + flow.Footprint();
    }
  }

  // ----- the entries of a table -----

  ghost function Footprint(entries: seq<FlowEntry>): set<object>
    reads entries
  {
    set e <- entries, o <- e.Repr :: o
  }

  /** Every entry is valid, and no two share an object. */
  ghost predicate WellFormed(entries: seq<FlowEntry>)
    reads entries, Footprint(entries)
  {
    && (forall i | 0 <= i < |entries| :: InFootprint(entries, i); entries[i].Valid())
    && (forall i, j | 0 <= i < j < |entries| :: entries[i].Repr !! entries[j].Repr)
  }

  ghost function Views(entries: seq<FlowEntry>): (v: seq<FlowInfo>)
    requires WellFormed(entries)
    reads entries, Footprint(entries)
    ensures |v| == |entries| && forall i | 0 <= i < |entries| :: v[i] == (InFootprint(entries, i); entries[i].View())
  {
    seq(|entries|, i requires 0 <= i < |entries| && WellFormed(entries) reads entries, Footprint(entries) =>
      InFootprint(entries, i);
      entries[i].View())
  }

  lemma InFootprint(entries: seq<FlowEntry>, i: nat)
    requires i < |entries|
    ensures entries[i].Repr <= Footprint(entries)
  {
  }

  lemma GapIsClosed<T>(before: seq<T>, after: seq<T>, index: nat)
    requires index < |before| && |after| == |before| - 1
    requires after[..index] == before[..index]
    requires forall i | index <= i < |after| :: after[i] == before[i + 1]
    ensures after == WithoutAt(before, index)
  {
    assert after[index..] == before[index + 1..];
    assert after == after[..index] + after[index..];
  }

  lemma ViewAt(entries: seq<FlowEntry>, i: nat)
    requires WellFormed(entries) && i < |entries|
    ensures entries[i].Valid() && Views(entries)[i] == entries[i].View()
    ensures entries[i].Repr <= Footprint(entries)
  {
    InFootprint(entries, i);
  }

  lemma ViewsWithoutAt(entries: seq<FlowEntry>, index: nat)
    requires WellFormed(entries) && index < |entries|
    ensures WellFormed(WithoutAt(entries, index))
    ensures Views(WithoutAt(entries, index)) == WithoutAt(Views(entries), index)
    ensures Footprint(WithoutAt(entries, index)) <= Footprint(entries)
  {
    hide FlowEntry.View, FlowEntry.Valid;
    var rest := WithoutAt(entries, index);
    assert forall j | 0 <= j < |rest| :: rest[j] == entries[if j < index then j else j + 1];
    FewerObjects(rest, entries);
    assert WellFormed(rest);
    assert Views(rest) == WithoutAt(Views(entries), index);
  }

  lemma FewerObjects(some: seq<FlowEntry>, all: seq<FlowEntry>)
    requires forall j | 0 <= j < |some| :: some[j] in all
    ensures Footprint(some) <= Footprint(all)
  {
  }

  lemma ViewsWithNew(entries: seq<FlowEntry>, e: FlowEntry)
    requires WellFormed(entries) && e.Valid() && e.Repr !! Footprint(entries)
    ensures WellFormed(entries + [e]) && Views(entries + [e]) == Views(entries) + [e.View()]
    ensures Footprint(entries + [e]) == Footprint(entries) + e.Repr
  {
    hide FlowEntry.View, FlowEntry.Valid;
    var all := entries + [e];
    forall i | 0 <= i < |entries|
      ensures all[i].Repr !! e.Repr
    {
      InFootprint(entries, i);
    }
    assert forall x :: x in all <==> x in entries || x == e;
  }

  class FlowTable {
    const flows: array<FlowEntry>
    var count: nat
    const maxFlows: nat
    const streamBufferBytes: nat
    const timeoutSeconds: nat
    var life: Lifetime

    ghost predicate Shaped()
      reads this, flows
    {
      flows.Length == maxFlows && count <= maxFlows && 0 < maxFlows
    }

    ghost function Entries(): seq<FlowEntry>
      reads this, flows
    {
      if Shaped() then flows[..count] else []
    }

    ghost function Objects(): set<object>
      reads this, flows, Entries()
    {
      Footprint(Entries())
    }

    ghost predicate Valid()
      reads this, flows, Entries(), Objects()
    {
      Shaped() && WellFormed(flows[..count])
    }

    ghost function View(): (t: Table)
      requires Valid()
      reads this, flows, Entries(), Objects()
      ensures |t.flows| == count <= t.maxFlows && t.maxFlows == maxFlows > 0
    {
      Table(Views(flows[..count]), maxFlows, streamBufferBytes, timeoutSeconds, life)
    }

    /** `flow_table_init` past its guard; unused slots hold a placeholder. */
    constructor (max: nat, streamBytes: nat, timeout: nat)
      requires InitAccepts(max, streamBytes)
      ensures Valid() && fresh(flows)
      ensures View() == FreshTable(max, streamBytes, timeout)
    {
      var origin := Endpoint(Address(0, [0, 0, 0, 0, 0, 0, 0, 0, 0, 0, 0, 0, 0, 0, 0, 0]), 0);
      var placeholder := new FlowEntry(FlowKey(origin, origin, 0), 0, 0);
      flows := new FlowEntry[max](_ => placeholder);
      count, maxFlows, streamBufferBytes, timeoutSeconds := 0, max, streamBytes, timeout;
      life := Lifetime(0, 0, 0, 0, 0, NO_COUNTS);
    }

    /** The later entries move up one slot. */
    method CloseGap(index: nat)
      requires Valid() && index < count
      modifies this`count, flows
      ensures Valid() && flows[..count] == WithoutAt(old(flows[..count]), index) && count == old(count) - 1
      ensures View() == old(View()).(flows := WithoutAt(old(View()).flows, index))
      ensures Objects() <= old(Objects())
    {
      hide WellFormed, Views, WithoutAt, Footprint, FlowEntry.View, FlowEntry.Valid;
      ghost var before := flows[..count];
      ViewsWithoutAt(before, index);
      NotAmongFlows(WithoutAt(before, index));
      forall i | index <= i < count - 1 {
        flows[i] := flows[i + 1];
      }
      count := count - 1;
      GapIsClosed(before, flows[..count], index);
    }

    /** `remove_flow_at`: fold the counters in and close the gap. */
    method RemoveFlowAt(index: nat)
      requires Valid() && index < count
      modifies this, flows
      ensures Valid() && flows[..count] == WithoutAt(old(flows[..count]), index) && count == old(count) - 1
      ensures View() == old(View()).(
                          flows := WithoutAt(old(View()).flows, index),
                          life := old(life).(totals := Sum(old(life).totals, FlowCounters(old(View()).flows[index]))))
      ensures Objects() <= old(Objects())
    {
      hide FlowCounters, Sum, WellFormed, Views, WithoutAt, Footprint, FlowEntry.View, FlowEntry.Valid;
      ViewAt(flows[..count], index);
      var counters := CountersOf(flows[index]);
      CloseGap(index);
      NotAmongFlows(flows[..count]);
      life := life.(totals := Sum(life.totals, counters));
    }

    /** Counts why a flow leaves and removes it. */
    method Retire(index: nat, policy: Policy)
      requires Valid() && index < count
      modifies this, flows
      ensures Valid() && count == old(count) - 1
      ensures View() == old(View()).(flows := WithoutAt(old(View()).flows, index),
                                                life := Credited(old(life), policy, old(View()).flows[index]))
      ensures Objects() <= old(Objects())
    {
      hide FlowCounters, Sum, WellFormed, Views, WithoutAt, Footprint, FlowEntry.View, FlowEntry.Valid;
      ViewAt(flows[..count], index);
      var reset := ResetIn(flows[index]);
      RemoveFlowAt(index);
      NotAmongFlows(flows[..count]);
      match policy {
        case Idle(_, _) => life := life.(evictedIdle := life.evictedIdle + 1);
        case Closed =>
          life := if reset then life.(closedRst := life.closedRst + 1) else life.(closedFin := life.closedFin + 1);
        case Oldest => life := life.(evictedCapacity := life.evictedCapacity + 1);
      }
    }

    /** The flow at `i` leaves or is passed over. */
    method Examine(policy: Policy, i: nat, ghost all: seq<FlowInfo>, ghost life0: Lifetime, ghost scanned: nat)
      returns (next: nat)
      requires Valid() && policy != Oldest && i < count
      requires Sweeping(all, life0, policy, scanned, View().flows, i, life)
      modifies this, flows
      ensures Valid() && View() == old(View()).(flows := View().flows, life := life)
      ensures scanned < |all| && next <= count
      ensures Sweeping(all, life0, policy, scanned + 1, View().flows, next, life)
      ensures Objects() <= old(Objects())
    {
      hide Hit, Credited, Sweeping, Kept, Credits, WithoutAt, WellFormed, Views, Footprint, FlowEntry.View,
        FlowEntry.Valid;
      SweepAdvances(all, life0, policy, scanned, View().flows, i, life);
      ViewAt(flows[..count], i);
      next := i;
      if HitBy(policy, flows[i]) {
        Retire(i, policy);
      } else {
        next := i + 1;
      }
    }

    /** One sweep: the same index is examined again after a removal, because entries shift left. */
    method Sweep(policy: Policy)
      requires Valid() && policy != Oldest
      modifies this, flows
      ensures Valid() && View() == Swept(old(View()), policy)
      ensures Objects() <= old(Objects())
    {
      hide Hit, Credited, Sweeping, Kept, Credits, WithoutAt, WellFormed, Views, Footprint, FlowEntry.View,
        FlowEntry.Valid;
      ghost var all, scanned := View().flows, 0;
      var i := 0;
      SweepStarts(all, life, policy);
      while i < count
        invariant Valid() && 0 <= i <= count && scanned <= |all|
        invariant View() == old(View()).(flows := View().flows, life := life)
        invariant Sweeping(all, old(life), policy, scanned, View().flows, i, life)
        invariant Objects() <= old(Objects())
        decreases |all| - scanned
      {
        i := Examine(policy, i, all, old(life), scanned);
        scanned := scanned + 1;
      }
      SweepEnds(all, old(life), policy, scanned, View().flows, i, life);
    }

    method EvictIdle(now: nat)
      requires Valid()
      modifies this, flows
      ensures Valid() && View() == Swept(old(View()), Idle(now, timeoutSeconds))
      ensures Objects() <= old(Objects())
    {
      Sweep(Idle(now, timeoutSeconds));
    }

    method EvictClosed()
      requires Valid()
      modifies this, flows
      ensures Valid() && View() == Swept(old(View()), Closed)
      ensures Objects() <= old(Objects())
    {
      Sweep(Closed);
    }

    /** The first of the least recently seen. */
    method FindOldest() returns (oldest: nat)
      requires Valid() && count > 0
      ensures Valid() && View() == old(View()) && oldest == OldestIndex(View().flows, count)
      ensures Objects() == old(Objects())
    {
      hide WellFormed, Views, Footprint, FlowEntry.View, FlowEntry.Valid, OldestIndex;
      oldest := 0;
      OldestOfOne(View().flows);
      for i := 1 to count
        invariant Valid() && View() == old(View()) && Objects() == old(Objects())
        invariant oldest < i && oldest == OldestIndex(View().flows, i)
      {
        OldestNext(flows[..count], i);
        if flows[i].lastSeen < flows[oldest].lastSeen {
          oldest := i;
        }
      }
    }

    method EvictOldestFlow()
      requires Valid() && count > 0
      modifies this, flows
      ensures Valid() && View() == WithoutOldest(old(View())) && count == old(count) - 1
      ensures Objects() <= old(Objects())
    {
      hide WellFormed, Views, WithoutAt, Footprint, FlowEntry.View, FlowEntry.Valid, Credited;
      var oldest := FindOldest();
      Retire(oldest, Oldest);
    }

    method FindFlow(key: FlowKey) returns (index: nat)
      requires Valid()
      ensures Valid() && View() == old(View()) && index == KeyIndex(View().flows, key, 0)
      ensures Objects() == old(Objects())
    {
      hide WellFormed, Views, Footprint, FlowEntry.View, FlowEntry.Valid, KeyIndex;
      index := 0;
      while index < count
        invariant Valid() && View() == old(View()) && Objects() == old(Objects())
        invariant index <= count && KeyIndex(View().flows, key, 0) == KeyIndex(View().flows, key, index)
      {
        KeyNext(flows[..count], key, index);
        if flows[index].key == key {
          return;
        }
        index := index + 1;
      }
      NoKeyLeft(View().flows, key);
    }

    method NewEntry(key: FlowKey, now: nat) returns (entry: FlowEntry)
      requires Valid()
      ensures Valid() && View() == old(View()) && Objects() == old(Objects())
      ensures entry.Valid() && entry.View() == NewFlow(key, now, streamBufferBytes) && fresh(entry.Repr)
      ensures entry.Repr !! Objects()
    {
      hide WellFormed, Views, FlowEntry.View, FlowEntry.Valid, NewFlow;
      NotAmongFlows(flows[..count]);
      entry := new FlowEntry(key, now, streamBufferBytes);
    }

    /** A new flow in the first free slot. */
    method Append(key: FlowKey, now: nat)
      requires Valid() && count < maxFlows
      modifies this`count, this`life, flows
      ensures Valid() && count == old(count) + 1
      ensures View() == old(View()).(flows := old(View()).flows + [NewFlow(key, now, streamBufferBytes)],
                                     life := old(life).(created := old(life).created + 1))
      ensures forall o <- Objects() :: o in old(Objects()) || fresh(o)
    {
      hide WellFormed, Views, Footprint, FlowEntry.View, FlowEntry.Valid, NewFlow;
      ghost var before := flows[..count];
      var entry := NewEntry(key, now);
      ViewsWithNew(before, entry);
      NotAmongFlows(before + [entry]);
      flows[count] := entry;
      count := count + 1;
      life := life.(created := life.created + 1);
      assert flows[..count] == before + [entry];
    }

    /** Evicts what is idle or closed and looks the key up; without a flow of the key, a slot is free afterwards. */
    method Locate(key: FlowKey, now: nat) returns (index: nat)
      requires Valid()
      modifies this, flows
      ensures Valid() && Objects() <= old(Objects())
      ensures var swept := BothSweeps(old(View()), now);
              var i := KeyIndex(swept.flows, key, 0);
              if i < |swept.flows| then index == i < count && View() == swept
              else
                && index == count < maxFlows
                && View() == if |swept.flows| >= maxFlows then WithoutOldest(swept) else swept
    {
      hide Swept, WithoutOldest, WellFormed, Views, Footprint, FlowEntry.View, FlowEntry.Valid, NewFlow, KeyIndex;
      EvictIdle(now);
      EvictClosed();
      assert View() == BothSweeps(old(View()), now);
      index := FindFlow(key);
      if index == count && count >= maxFlows {
        EvictOldestFlow();
        index := count;
      }
    }

    /** `flow_table_get_or_create`. */
    method GetOrCreate(key: FlowKey, now: nat) returns (index: nat)
      requires Valid()
      modifies this, flows
      ensures Valid() && index < count && (View(), index) == Located(old(View()), key, now)
      ensures forall o <- Objects() :: o in old(Objects()) || fresh(o)
    {
      hide BothSweeps, WithoutOldest, WellFormed, Views, Footprint, FlowEntry.View, FlowEntry.Valid, NewFlow, KeyIndex;
      index := Locate(key, now);
      if index == count {
        Append(key, now);
      }
    }

    method HandleAt(index: nat, p: Packet, way: Way, now: nat, packetInfo: Option<AppInfo>)
      requires Valid() && index < count
      modifies flows[index].Repr
      ensures Valid() && WellBounded(old(View()).flows[index].talk)
      ensures View() == old(View()).(
                          flows := old(View()).flows[
                                     index := Handled(old(View()).flows[index], p, way, now, packetInfo)])
    {
      hide WellFormed, Views, Handled, Footprint, FlowEntry.View, FlowEntry.Valid, WellBounded;
      ghost var entries, before := flows[..count], View().flows;
      NotAmongFlows(entries);
      EntriesApart(entries);
      InFootprint(entries, index);
      assert flows[index] == entries[index];
      flows[index].Handle(p, way, now, packetInfo);
      forall j | 0 <= j < |entries| && j != index
        ensures entries[j].Valid() && entries[j].View() == before[j] && entries[index].Repr !! entries[j].Repr
        ensures entries[j].Repr == old(entries[j].Repr)
      {
        assert old(entries[index].Repr) !! old(entries[j].Repr);
      }
      OneChanged(entries, before, index);
    }

    /** The part of the capture loop that concerns the flow of one packet: its flow is updated in place. */
    method CapturePacket(p: Packet, now: nat, packetInfo: Option<AppInfo>)
      requires Valid()
      modifies this, flows, Objects()
      ensures Valid() && TableBounded(old(View())) && View() == Captured(old(View()), p, now, packetInfo)
    {
      hide Located, Handled, TableBounded, WellFormed, Views, Footprint, FlowEntry.View, FlowEntry.Valid;
      ViewIsBounded();
      if !IsTcpFlow(p) {
        return;
      }
      var id := IdentityOf(p).value;
      LocatedIsBounded(View(), id.key, now);
      var index := GetOrCreate(id.key, now);
      InFootprint(flows[..count], index);
      HandleAt(index, p, id.way, now, packetInfo);
    }

    lemma ViewIsBounded()
      requires Valid()
      ensures TableBounded(View())
    {
      hide WellFormed, Views, Footprint, FlowEntry.View, FlowEntry.Valid;
      EntriesAreBounded(flows[..count]);
    }

    /** `flow_table_snapshot_stats`. */
    method SnapshotStats() returns (snapshot: Snapshot)
      requires Valid()
      ensures Valid() && View() == old(View()) && snapshot == SnapshotOf(View())
    {
      hide Sum, FlowCounters, LiveCount, WellFormed, Views, Footprint, FlowEntry.View, FlowEntry.Valid;
      var totals, live := NO_COUNTS, 0;
      for i := 0 to count
        invariant Valid() && View() == old(View())
        invariant totals == Folded(View().flows[..i]) && live == LiveDirections(View().flows[..i])
      {
        ViewAt(flows[..count], i);
        assert View().flows[..i + 1][..i] == View().flows[..i];
        totals := Sum(totals, CountersOf(flows[i]));
        live := live + LiveIn(flows[i]);
      }
      assert View().flows[..count] == View().flows;
      return Snapshot(life.created, count, life.closedFin, life.closedRst, life.evictedIdle, life.evictedCapacity,
                      Sum(life.totals, totals), live * streamBufferBytes, maxFlows * streamBufferBytes * 2);
    }

    /** A table and its array are no part of a flow. */
    lemma NotAmongFlows(entries: seq<FlowEntry>)
      requires WellFormed(entries)
      ensures this !in Footprint(entries) && flows !in Footprint(entries)
    {
      forall e | e in entries
        ensures this !in e.Repr && flows !in e.Repr
      {
        var j :| 0 <= j < |entries| && entries[j] == e;
        assert entries[j].Valid();
      }
    }
  }

  lemma EntriesApart(entries: seq<FlowEntry>)
    requires WellFormed(entries)
    ensures forall i | 0 <= i < |entries| ::
              entries[i].Valid() && entries[i] in entries[i].Repr && entries[i].View() == Views(entries)[i]
    ensures forall i, j | 0 <= i < |entries| && 0 <= j < |entries| && i != j :: entries[i].Repr !! entries[j].Repr
  {
    hide FlowEntry.View;
  }

  /** Where only the entry at `index` may have changed, its view is the only one that did. */
  lemma OneChanged(entries: seq<FlowEntry>, before: seq<FlowInfo>, index: nat)
    requires |before| == |entries| && index < |entries| && entries[index].Valid()
    requires forall j | 0 <= j < |entries| && j != index ::
               entries[j].Valid() && entries[j].View() == before[j] && entries[index].Repr !! entries[j].Repr
    requires forall i, j | 0 <= i < j < |entries| && i != index && j != index :: entries[i].Repr !! entries[j].Repr
    ensures WellFormed(entries) && Views(entries) == before[index := entries[index].View()]
  {
    hide FlowEntry.View, FlowEntry.Valid;
  }

  lemma KeyNext(entries: seq<FlowEntry>, key: FlowKey, i: nat)
    requires WellFormed(entries) && i < |entries|
    ensures KeyIndex(Views(entries), key, i)
         == if entries[i].key == key then i else KeyIndex(Views(entries), key, i + 1)
  {
    hide WellFormed, Views;
    ViewAt(entries, i);
  }

  lemma NoKeyLeft(flows: seq<FlowInfo>, key: FlowKey)
    ensures KeyIndex(flows, key, |flows|) == |flows|
  {
  }

  lemma EntriesAreBounded(entries: seq<FlowEntry>)
    requires WellFormed(entries)
    ensures forall i | 0 <= i < |entries| :: WellBounded(Views(entries)[i].talk)
  {
    hide WellFormed, Views;
    forall i | 0 <= i < |entries|
      ensures WellBounded(Views(entries)[i].talk)
    {
      ViewAt(entries, i);
    }
  }

  lemma OldestOfOne(flows: seq<FlowInfo>)
    requires flows != []
    ensures OldestIndex(flows, 1) == 0
  {
  }

  lemma OldestNext(entries: seq<FlowEntry>, i: nat)
    requires WellFormed(entries) && 0 < i < |entries|
    ensures var before := OldestIndex(Views(entries), i);
            OldestIndex(Views(entries), i + 1) == if entries[i].lastSeen < entries[before].lastSeen then i else before
  {
    hide WellFormed, Views;
    ViewAt(entries, i);
    ViewAt(entries, OldestIndex(Views(entries), i));
  }

  predicate ResetIn(e: FlowEntry)
    requires e.Valid()
    reads e, e.Repr
    ensures ResetIn(e) == ResetSeen(e.View())
  {
    e.flow.aToB.rstSeen || e.flow.bToA.rstSeen
  }

  predicate HitBy(policy: Policy, e: FlowEntry)
    requires e.Valid()
    reads e, e.Repr
    ensures HitBy(policy, e) == Hit(policy, e.View())
  {
    match policy
    case Idle(now, timeout) => timeout != 0 && now >= e.lastSeen && now - e.lastSeen >= timeout
    case Closed => ResetIn(e) || (e.flow.aToB.finSeen && e.flow.bToA.finSeen)
    case Oldest => false
  }

  function CountersOf(e: FlowEntry): Counters
    requires e.Valid()
    reads e, e.Repr
    ensures CountersOf(e) == FlowCounters(e.View())
  {
    Sum(e.flow.aToB.counters, e.flow.bToA.counters)
  }

  function LiveIn(e: FlowEntry): nat
    requires e.Valid()
    reads e, e.Repr
    ensures LiveIn(e) == LiveCount(e.View())
  {
    (if e.flow.aToB.stream.data != null then 1 else 0) + (if e.flow.bToA.stream.data != null then 1 else 0)
  }

  /** `flow_table_init`: a table exactly when the limits are within their maxima and keep four buffers for each flow
      within the total. */
  method InitFlowTable(max: nat, streamBytes: nat, timeout: nat) returns (table: FlowTable?)
    ensures table != null <==>
            0 < max <= 1024 && 0 < streamBytes <= 1048576 && 4 * (max * streamBytes) <= 134217728
    ensures table != null ==>
              && fresh(table) && fresh(table.flows) && table.Valid()
              && table.View() == FreshTable(max, streamBytes, timeout)
  {
    InitAcceptsWhatFits(max, streamBytes);
    if !InitAccepts(max, streamBytes) {
      return null;
    }
    table := new FlowTable(max, streamBytes, timeout);
  }
}
