/** The bounded table of TCP flows (src/flow.c) and the capture loop's use of it (src/capture.c). */
module FlowTables {
  import opened Bytes
  import opened TcpReassembly
  import opened StreamBuffers
  import opened AppMetadata
  import opened FlowDecode
  import opened FlowKeys

  const MAX_FLOWS := 1024
  const MAX_STREAM_BUFFER_BYTES := 1048576
  const MAX_TOTAL_REASSEMBLY_BYTES := 134217728

  /** The guard of `flow_table_init`, with its floor divisions. */
  predicate InitAccepts(maxFlows: nat, streamBytes: nat) {
    && 0 < maxFlows <= MAX_FLOWS && 0 < streamBytes <= MAX_STREAM_BUFFER_BYTES
    && maxFlows <= MAX_TOTAL_REASSEMBLY_BYTES / 4 / streamBytes
  }

  datatype Traffic = Traffic(packets: nat, bytes: nat)

  datatype FlowInfo = FlowInfo(key: FlowKey, created: nat, lastSeen: nat, total: Traffic, aToB: Traffic, bToA: Traffic,
                               talk: Conversation)

  /** Lifetime counters, including those of flows that have left the table. */
  datatype Lifetime = Lifetime(created: nat, closedFin: nat, closedRst: nat, evictedIdle: nat, evictedCapacity: nat,
                               totals: Counters)

  datatype Table = Table(flows: seq<FlowInfo>, maxFlows: nat, streamBytes: nat, timeout: nat, life: Lifetime)

  datatype Policy = Idle(now: nat, timeout: nat) | Closed | Oldest

  function Sum(a: Counters, b: Counters): Counters {
    Counters(a.retransmissions + b.retransmissions, a.outOfOrder + b.outOfOrder,
             a.overlapping + b.overlapping, a.gaps + b.gaps)
  }

  function FlowCounters(f: FlowInfo): Counters {
    Sum(f.talk.aToB.counters, f.talk.bToA.counters)
  }

  predicate ResetSeen(f: FlowInfo) {
    f.talk.aToB.rstSeen || f.talk.bToA.rstSeen
  }

  /** `flow_is_closed`. */
  predicate IsClosed(f: FlowInfo) {
    ResetSeen(f) || (f.talk.aToB.finSeen && f.talk.bToA.finSeen)
  }

  predicate IsIdle(f: FlowInfo, now: nat, timeout: nat) {
    timeout != 0 && now >= f.lastSeen && now - f.lastSeen >= timeout
  }

  /** The flows that a sweep removes; capacity eviction is not a sweep. */
  predicate Hit(policy: Policy, f: FlowInfo) {
    match policy
    case Idle(now, timeout) => IsIdle(f, now, timeout)
    case Closed => IsClosed(f)
    case Oldest => false
  }

  /** A flow leaves: its reason is counted and its counters are folded in. */
  function Credited(life: Lifetime, policy: Policy, f: FlowInfo): Lifetime {
    var folded := life.(totals := Sum(life.totals, FlowCounters(f)));
    match policy
    case Idle(_, _) => folded.(evictedIdle := life.evictedIdle + 1)
    case Closed =>
      if ResetSeen(f) then folded.(closedRst := life.closedRst + 1) else folded.(closedFin := life.closedFin + 1)
    case Oldest => folded.(evictedCapacity := life.evictedCapacity + 1)
  }

  /** The flows a sweep keeps, in their order. */
  function Kept(flows: seq<FlowInfo>, policy: Policy): seq<FlowInfo> {
    if flows == [] then []
    else
      var last := flows[|flows| - 1];
      Kept(flows[..|flows| - 1], policy) + if Hit(policy, last) then [] else [last]
  }

  function Credits(life: Lifetime, flows: seq<FlowInfo>, policy: Policy): Lifetime {
    if flows == [] then life
    else
      var before, last := Credits(life, flows[..|flows| - 1], policy), flows[|flows| - 1];
      if Hit(policy, last) then Credited(before, policy, last) else before
  }

  function Swept(t: Table, policy: Policy): Table {
    t.(flows := Kept(t.flows, policy), life := Credits(t.life, t.flows, policy))
  }

  function KeyIndex(flows: seq<FlowInfo>, key: FlowKey, i: nat): (r: nat)
    requires i <= |flows|
    ensures i <= r <= |flows| && (r < |flows| ==> flows[r].key == key)
    ensures forall j | i <= j < r :: flows[j].key != key
    decreases |flows| - i
  {
    if i == |flows| || flows[i].key == key then i else KeyIndex(flows, key, i + 1)
  }

  /** The first of the least recently seen among the first `n` flows. */
  function OldestIndex(flows: seq<FlowInfo>, n: nat): (r: nat)
    requires 0 < n <= |flows|
    ensures r < n
    ensures forall j | 0 <= j < n :: flows[r].lastSeen <= flows[j].lastSeen
    ensures forall j | 0 <= j < r :: flows[r].lastSeen < flows[j].lastSeen
  {
    if n == 1 then 0
    else
      var before := OldestIndex(flows, n - 1);
      if flows[n - 1].lastSeen < flows[before].lastSeen then n - 1 else before
  }

  function WithoutOldest(t: Table): Table
    requires t.flows != []
  {
    var i := OldestIndex(t.flows, |t.flows|);
    t.(flows := WithoutAt(t.flows, i), life := Credited(t.life, Oldest, t.flows[i]))
  }

  function NewFlow(key: FlowKey, now: nat, streamBytes: nat): FlowInfo {
    FlowInfo(key, now, now, Traffic(0, 0), Traffic(0, 0), Traffic(0, 0),
             Conversation(None, streamBytes, ZEROED, ZEROED))
  }

  function BothSweeps(t: Table, now: nat): Table {
    Swept(Swept(t, Idle(now, t.timeout)), Closed)
  }

  /** `flow_table_get_or_create`: the table afterwards and the index of the flow. */
  function Located(t: Table, key: FlowKey, now: nat): (r: (Table, nat))
    requires t.maxFlows > 0
    ensures r.1 < |r.0.flows| && r.0.flows[r.1].key == key
  {
    var swept := BothSweeps(t, now);
    var i := KeyIndex(swept.flows, key, 0);
    if i < |swept.flows| then (swept, i)
    else
      var room := if |swept.flows| >= t.maxFlows then WithoutOldest(swept) else swept;
      (room.(flows := room.flows + [NewFlow(key, now, t.streamBytes)],
             life := room.life.(created := room.life.created + 1)),
       |room.flows|)
  }

  function Counted(t: Traffic, size: nat): Traffic {
    Traffic(t.packets + 1, t.bytes + size)
  }

  /** `flow_update_packet`. */
  function Touched(f: FlowInfo, size: nat, now: nat, way: Way): FlowInfo {
    var g := f.(lastSeen := now, total := Counted(f.total, size));
    if way == AToB then g.(aToB := Counted(f.aToB, size)) else g.(bToA := Counted(f.bToA, size))
  }

  ghost predicate TableBounded(t: Table) {
    forall i | 0 <= i < |t.flows| :: WellBounded(t.flows[i].talk)
  }

  /** A packet that decodes on its own classifies a flow that is not classified yet. */
  function PacketClassified(c: Conversation, packetInfo: Option<AppInfo>): Conversation {
    if packetInfo.Some? && c.app.None? then Classified(c, packetInfo.value) else c
  }

  function FreshTable(maxFlows: nat, streamBytes: nat, timeout: nat): Table {
    Table([], maxFlows, streamBytes, timeout, Lifetime(0, 0, 0, 0, 0, NO_COUNTS))
  }

  /** What one packet does to its flow, once the flow is at hand. */
  function Handled(f: FlowInfo, p: Packet, way: Way, now: nat, packetInfo: Option<AppInfo>): FlowInfo
    requires WellBounded(f.talk)
  {
    Touched(f, p.size, now, way).(talk := PacketClassified(Step(f.talk, way, p.tcp).0, packetInfo))
  }

  lemma {:induction false} KeptMembers(flows: seq<FlowInfo>, policy: Policy)
    ensures forall f <- Kept(flows, policy) :: f in flows && !Hit(policy, f)
    ensures forall f <- flows :: Hit(policy, f) || f in Kept(flows, policy)
    decreases |flows|
  {
    hide Hit;
    if flows != [] {
      KeptMembers(flows[..|flows| - 1], policy);
    }
  }

  lemma LocatedFlows(t: Table, key: FlowKey, now: nat)
    requires t.maxFlows > 0
    ensures forall f <- Located(t, key, now).0.flows :: f in t.flows || f == NewFlow(key, now, t.streamBytes)
  {
    hide Credits, Hit;
    KeptMembers(t.flows, Idle(now, t.timeout));
    var once := Swept(t, Idle(now, t.timeout));
    KeptMembers(once.flows, Closed);
    var swept := BothSweeps(t, now);
    if swept.flows != [] {
      assert forall f <- WithoutOldest(swept).flows :: f in swept.flows;
    }
  }

  lemma LocatedIsBounded(t: Table, key: FlowKey, now: nat)
    requires t.maxFlows > 0 && TableBounded(t)
    ensures TableBounded(Located(t, key, now).0)
  {
    hide Located, WellBounded;
    LocatedFlows(t, key, now);
    assert WellBounded(NewFlow(key, now, t.streamBytes).talk) by { NewFlowIsBounded(key, now, t.streamBytes); }
    forall i | 0 <= i < |Located(t, key, now).0.flows|
      ensures WellBounded(Located(t, key, now).0.flows[i].talk)
    {
      var f := Located(t, key, now).0.flows[i];
      assert f in Located(t, key, now).0.flows;
    }
  }

  lemma NewFlowIsBounded(key: FlowKey, now: nat, streamBytes: nat)
    ensures WellBounded(NewFlow(key, now, streamBytes).talk)
  {
  }

  /** One packet of the capture loop: look the flow up, count the packet, reassemble and classify. */
  function Captured(t: Table, p: Packet, now: nat, packetInfo: Option<AppInfo>): Table
    requires t.maxFlows > 0 && TableBounded(t)
  {
    if !IsTcpFlow(p) then t
    else
      var id := IdentityOf(p).value;
      var (located, i) := Located(t, id.key, now);
      LocatedIsBounded(t, id.key, now);
      located.(flows := located.flows[i := Handled(located.flows[i], p, id.way, now, packetInfo)])
  }

  datatype Snapshot = Snapshot(created: nat, active: nat, closedFin: nat, closedRst: nat, evictedIdle: nat,
                               evictedCapacity: nat, totals: Counters, inUse: nat, configuredMax: nat)

  function Folded(flows: seq<FlowInfo>): Counters {
    if flows == [] then NO_COUNTS else Sum(Folded(flows[..|flows| - 1]), FlowCounters(flows[|flows| - 1]))
  }

  function LiveCount(f: FlowInfo): nat {
    (if f.talk.aToB.stream.live then 1 else 0) + (if f.talk.bToA.stream.live then 1 else 0)
  }

  function LiveDirections(flows: seq<FlowInfo>): nat {
    if flows == [] then 0 else LiveDirections(flows[..|flows| - 1]) + LiveCount(flows[|flows| - 1])
  }

  /** `flow_table_snapshot_stats`. */
  function SnapshotOf(t: Table): Snapshot {
    Snapshot(t.life.created, |t.flows|, t.life.closedFin, t.life.closedRst, t.life.evictedIdle, t.life.evictedCapacity,
             Sum(t.life.totals, Folded(t.flows)), LiveDirections(t.flows) * t.streamBytes,
             t.maxFlows * t.streamBytes * 2)
  }

  /** A sweep that has examined the first `scanned` of `all` flows and stands at index `i`. */
  ghost predicate Sweeping(all: seq<FlowInfo>, life0: Lifetime, policy: Policy, scanned: nat, current: seq<FlowInfo>,
                           i: nat, life: Lifetime) {
    && scanned <= |all|
    && i == |Kept(all[..scanned], policy)| && current == Kept(all[..scanned], policy) + all[scanned..]
    && life == Credits(life0, all[..scanned], policy)
  }

  lemma SweepStarts(all: seq<FlowInfo>, life: Lifetime, policy: Policy)
    ensures Sweeping(all, life, policy, 0, all, 0, life)
  {
    assert all[..0] == [] && [] + all[0..] == all;
  }

  lemma SweepAdvances(all: seq<FlowInfo>, life0: Lifetime, policy: Policy, scanned: nat, current: seq<FlowInfo>,
                      i: nat, life: Lifetime)
    requires Sweeping(all, life0, policy, scanned, current, i, life) && i < |current|
    ensures scanned < |all|
    ensures if Hit(policy, current[i]) then
            Sweeping(all, life0, policy, scanned + 1, WithoutAt(current, i), i, Credited(life, policy, current[i]))
            else Sweeping(all, life0, policy, scanned + 1, current, i + 1, life)
  {
    hide Hit, Credited;
    var kept := Kept(all[..scanned], policy);
    assert current[i] == all[scanned];
    assert all[..scanned + 1][..scanned] == all[..scanned];
    assert WithoutAt(current, i) == kept + all[scanned + 1..];
    assert current == kept + [all[scanned]] + all[scanned + 1..];
  }

  lemma SweepEnds(all: seq<FlowInfo>, life0: Lifetime, policy: Policy, scanned: nat, current: seq<FlowInfo>, i: nat,
                  life: Lifetime)
    requires Sweeping(all, life0, policy, scanned, current, i, life) && i == |current|
    ensures current == Kept(all, policy) && life == Credits(life0, all, policy)
  {
    assert all[..scanned] == all;
  }

  /** The guard's two floor divisions say exactly that four buffers for each flow fit the total. */
  lemma InitAcceptsWhatFits(maxFlows: nat, streamBytes: nat)
    ensures InitAccepts(maxFlows, streamBytes) <==>
            0 < maxFlows <= 1024 && 0 < streamBytes <= 1048576 && 4 * (maxFlows * streamBytes) <= 134217728
  {
    if streamBytes > 0 {
      var q, r := MAX_TOTAL_REASSEMBLY_BYTES / 4 / streamBytes, MAX_TOTAL_REASSEMBLY_BYTES / 4 % streamBytes;
      assert MAX_TOTAL_REASSEMBLY_BYTES / 4 == q * streamBytes + r;
      if maxFlows <= q {
        ProductIsMonotone(maxFlows, q, streamBytes);
      } else {
        ProductIsMonotone(q + 1, maxFlows, streamBytes);
        assert (q + 1) * streamBytes == q * streamBytes + streamBytes;
      }
    }
  }

  lemma ProductIsMonotone(a: nat, b: nat, c: nat)
    requires a <= b
    ensures a * c <= b * c
  {
  }
}
