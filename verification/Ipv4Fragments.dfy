/** Partial IPv4 datagrams and what a fragment does to them (section 3.2 of RFC 791, src/ipv4_frag.c). */
module Ipv4Fragments {
  import opened Bytes

  const MAX_TOTAL_LENGTH := 65535
  const MAX_HEADER := 60
  const MAX_RANGES := 64
  const MAX_FRAGMENT_DATAGRAMS := 1024
  const MAX_FRAGMENT_BYTES := 16777216

  datatype Key = Key(source: seq<byte>, destination: seq<byte>, protocol: byte, identification: uint16)

  /** The IPv4 part of a parsed packet; `header` is its first `headerLength` bytes. */
  datatype Fragment = Fragment(
    isFragment: bool, version: nat, key: Key, header: seq<byte>, offset: nat, more: bool, payload: Option<seq<byte>>) {
    function Length(): nat {
      if payload.Some? then |payload.value| else 0
    }

    function End(): nat {
      offset + Length()
    }
  }

  datatype Range = Range(start: nat, end: nat)

  datatype Datagram = Datagram(
    key: Key, lastSeen: nat, header: seq<byte>, data: seq<byte>, hasLast: bool, total: nat, ranges: seq<Range>)

  datatype Table = Table(datagrams: seq<Datagram>, maxDatagrams: nat, maxBytes: nat, usedBytes: nat, timeout: nat)

  datatype Outcome = Ignored | Queued | Reassembled(packet: seq<byte>) | Malformed | Dropped

  predicate IsMalformed(f: Fragment) {
    || !f.isFragment || f.version != 4 || |f.header| < 20 || |f.header| > MAX_HEADER || f.payload.None?
    || (f.more && f.Length() % 8 != 0)
    || f.Length() == 0
    || f.offset > MAX_TOTAL_LENGTH
    || f.End() + |f.header| > MAX_TOTAL_LENGTH
  }

  predicate Meets(r: Range, start: nat, end: nat) {
    start < r.end && end > r.start
  }

  predicate Overlaps(ranges: seq<Range>, start: nat, end: nat) {
    exists i | 0 <= i < |ranges| :: Meets(ranges[i], start, end)
  }

  /** Where insertion from the back stops: after the last range that does not start later. */
  function InsertIndex(ranges: seq<Range>, start: nat, n: nat): (r: nat)
    requires n <= |ranges|
    ensures r <= n
  {
    if n == 0 || ranges[n - 1].start <= start then n else InsertIndex(ranges, start, n - 1)
  }

  function Inserted(ranges: seq<Range>, r: Range): seq<Range> {
    var k := InsertIndex(ranges, r.start, |ranges|);
    ranges[..k] + [r] + ranges[k..]
  }

  /** The ranges from `i` on continue `covered` without a gap up to exactly `total`. */
  predicate CoversFrom(ranges: seq<Range>, i: nat, covered: nat, total: nat)
    decreases |ranges| - i
  {
    && i < |ranges| && ranges[i].start == covered
    && (ranges[i].end == total || (ranges[i].end < total && CoversFrom(ranges, i + 1, ranges[i].end, total)))
  }

  predicate IsComplete(d: Datagram) {
    d.hasLast && d.total != 0 && CoversFrom(d.ranges, 0, 0, d.total)
  }

  function Zeros(n: nat): (z: seq<byte>)
    ensures |z| == n && forall i | 0 <= i < n :: z[i] == 0
  {
    seq(n, _ => 0)
  }

  function Grown(data: seq<byte>, capacity: nat): seq<byte> {
    if capacity <= |data| then data else data + Zeros(capacity - |data|)
  }

  function Written(data: seq<byte>, start: nat, bytes: seq<byte>): seq<byte>
    requires start + |bytes| <= |data|
  {
    data[..start] + bytes + data[start + |bytes|..]
  }

  /** A datagram with the fragment's range, its bytes still missing. */
  function Ranged(d: Datagram, f: Fragment): Datagram {
    d.(ranges := Inserted(d.ranges, Range(f.offset, f.End())))
  }

  /** The payload copied in; the last fragment declares the total. */
  function Filled(d: Datagram, f: Fragment): Datagram
    requires f.payload.Some?
  {
    d.(data := Written(Grown(d.data, f.End()), f.offset, f.payload.value),
       hasLast := d.hasLast || !f.more,
       total := if f.more then d.total else f.End())
  }

  /** The datagram after a fragment that neither overlaps nor exceeds a bound. */
  function Accepted(d: Datagram, f: Fragment): Datagram
    requires f.payload.Some?
  {
    Filled(Ranged(d, f), f)
  }

  /** The header of the offset-0 fragment is adopted whenever it arrives. */
  function Headed(d: Datagram, f: Fragment, now: nat): Datagram {
    d.(lastSeen := now, header := if f.offset == 0 then f.header else d.header)
  }

  function NewDatagram(f: Fragment, now: nat): Datagram {
    Datagram(f.key, now, f.header, [], false, 0, [])
  }

  /** `build_packet`: lengths and flags rewritten, offset and more-fragments cleared, checksum zeroed. */
  function BuildPacket(d: Datagram): seq<byte>
    requires |d.header| >= 20 && d.total <= |d.data| && |d.header| + d.total <= MAX_TOTAL_LENGTH
  {
    var h := d.header;
    h[..2] + U16Bytes(|h| + d.total) + h[4..6] + [h[6] / 64 * 64, 0] + h[8..10] + [0, 0] + h[12..] + d.data[..d.total]
  }

  function Additional(d: Datagram, capacity: nat): nat {
    if capacity <= |d.data| then 0 else capacity - |d.data|
  }

  /** `ipv4_fragment_table_init` accepts the limits. */
  predicate InitAccepts(maxDatagrams: nat, maxBytes: nat) {
    0 < maxDatagrams <= MAX_FRAGMENT_DATAGRAMS && 0 < maxBytes <= MAX_FRAGMENT_BYTES
  }

  /** `ensure_capacity` grants the bytes. */
  predicate Affordable(t: Table, additional: nat) {
    additional == 0 || (additional <= t.maxBytes && t.usedBytes + additional <= t.maxBytes)
  }

  function RemovedAt(t: Table, i: nat): Table
    requires i < |t.datagrams|
  {
    var released := |t.datagrams[i].data|;
    t.(datagrams := WithoutAt(t.datagrams, i),
       usedBytes := if t.usedBytes >= released then t.usedBytes - released else 0)
  }

  predicate IsExpired(d: Datagram, now: nat, timeout: nat) {
    timeout != 0 && now >= d.lastSeen && now - d.lastSeen >= timeout
  }

  /** `ipv4_fragment_table_expire`, from index `i` on. */
  function ExpiredFrom(t: Table, now: nat, i: nat): Table
    requires i <= |t.datagrams|
    decreases |t.datagrams| - i
  {
    if i == |t.datagrams| then t
    else if IsExpired(t.datagrams[i], now, t.timeout) then ExpiredFrom(RemovedAt(t, i), now, i)
    else ExpiredFrom(t, now, i + 1)
  }

  function FindKey(datagrams: seq<Datagram>, key: Key, i: nat): (r: nat)
    requires i <= |datagrams|
    ensures i <= r <= |datagrams| && (r < |datagrams| ==> datagrams[r].key == key)
    ensures forall j | i <= j < r :: datagrams[j].key != key
    decreases |datagrams| - i
  {
    if i == |datagrams| || datagrams[i].key == key then i else FindKey(datagrams, key, i + 1)
  }

  predicate Refused(d: Datagram, f: Fragment) {
    Overlaps(d.ranges, f.offset, f.End()) || |d.ranges| >= MAX_RANGES
  }

  /** A usable header, and a declared total that the data covers. */
  predicate Shaped(d: Datagram) {
    20 <= |d.header| <= MAX_HEADER && d.total <= |d.data|
  }

  predicate AllShaped(t: Table) {
    forall i | 0 <= i < |t.datagrams| :: Shaped(t.datagrams[i])
  }

  lemma AcceptedIsShaped(d: Datagram, f: Fragment, now: nat)
    requires Shaped(d) && !IsMalformed(f)
    ensures Shaped(Headed(d, f, now)) && Shaped(Accepted(Headed(d, f, now), f))
    ensures |Accepted(Headed(d, f, now), f).data| == |d.data| + Additional(d, f.End())
  {
  }

  /** A datagram whose coverage is complete leaves the table, rebuilt if its total length allows. */
  function Concluded(t: Table, i: nat): (Table, Outcome)
    requires i < |t.datagrams| && Shaped(t.datagrams[i])
  {
    var d := t.datagrams[i];
    if !IsComplete(d) then (t, Queued)
    else if |d.header| + d.total > MAX_TOTAL_LENGTH then (RemovedAt(t, i), Dropped)
    else (RemovedAt(t, i), Reassembled(BuildPacket(d)))
  }

  /** What a well-formed fragment does to the datagram at index `i`. */
  function Placed(t: Table, i: nat, f: Fragment, now: nat): (Table, Outcome)
    requires i < |t.datagrams| && !IsMalformed(f) && Shaped(t.datagrams[i])
  {
    var d := Headed(t.datagrams[i], f, now);
    if Refused(d, f) then (RemovedAt(t, i), Malformed)
    else if !Affordable(t, Additional(d, f.End())) then (RemovedAt(t, i), Dropped)
    else
      AcceptedIsShaped(t.datagrams[i], f, now);
      var accepted := Accepted(d, f);
      var stored := t.(datagrams := t.datagrams[i := accepted], usedBytes := t.usedBytes + Additional(d, f.End()));
      Concluded(stored, i)
  }

  /** `ipv4_fragment_table_process`. */
  function Processed(t: Table, f: Fragment, now: nat): (Table, Outcome)
    requires AllShaped(t)
  {
    if !f.isFragment then (t, Ignored)
    else
      var live := ExpiredFrom(t, now, 0);
      if IsMalformed(f) then (live, Malformed)
      else
        ExpiryKeepsShape(t, now, 0);
        var i := FindKey(live.datagrams, f.key, 0);
        if i < |live.datagrams| then Placed(live, i, f, now)
        else if |live.datagrams| >= live.maxDatagrams then (live, Dropped)
        else Placed(live.(datagrams := live.datagrams + [NewDatagram(f, now)]), i, f, now)
  }

  lemma {:induction false} ExpiryKeepsShape(t: Table, now: nat, i: nat)
    requires i <= |t.datagrams| && AllShaped(t)
    ensures AllShaped(ExpiredFrom(t, now, i))
    decreases |t.datagrams| - i
  {
    if i < |t.datagrams| {
      if IsExpired(t.datagrams[i], now, t.timeout) {
        ExpiryKeepsShape(RemovedAt(t, i), now, i);
      } else {
        ExpiryKeepsShape(t, now, i + 1);
      }
    }
  }
}
