/** Whatever fragments arrive: what a partial datagram consists of, and the byte budget, over all runs. */
module Ipv4Provenance {
  import opened Bytes
  import opened Ipv4Fragments

  // ----- ranges -----

  /** Sorted, non-empty, pairwise disjoint, within the data. */
  predicate RangesOk(ranges: seq<Range>, limit: nat) {
    && (forall i | 0 <= i < |ranges| :: ranges[i].start < ranges[i].end <= limit)
    && (forall i, j | 0 <= i < j < |ranges| :: ranges[i].end <= ranges[j].start)
  }

  lemma {:induction false} InsertIndexSplits(ranges: seq<Range>, limit: nat, start: nat, n: nat)
    requires n <= |ranges| && RangesOk(ranges, limit)
    ensures var k := InsertIndex(ranges, start, n);
            && (forall j | 0 <= j < k :: ranges[j].start <= start)
            && (forall j | k <= j < n :: ranges[j].start > start)
    decreases n
  {
    if n != 0 && ranges[n - 1].start > start {
      InsertIndexSplits(ranges, limit, start, n - 1);
    }
  }

  lemma InsertionKeepsRanges(ranges: seq<Range>, r: Range, limit: nat)
    requires RangesOk(ranges, limit) && r.start < r.end <= limit && !Overlaps(ranges, r.start, r.end)
    ensures RangesOk(Inserted(ranges, r), limit)
  {
    hide InsertIndex;
    InsertIndexSplits(ranges, limit, r.start, |ranges|);
    var k := InsertIndex(ranges, r.start, |ranges|);
    var all := Inserted(ranges, r);
    assert forall j | 0 <= j < |ranges| :: !Meets(ranges[j], r.start, r.end);
    assert forall j | 0 <= j < |all| :: all[j] == if j < k then ranges[j] else if j == k then r else ranges[j - 1];
  }

  lemma RangesWiden(ranges: seq<Range>, limit: nat, wider: nat)
    requires RangesOk(ranges, limit) && limit <= wider
    ensures RangesOk(ranges, wider)
  {
  }

  // ----- pieces -----

  predicate DatagramOk(d: Datagram) {
    Shaped(d) && RangesOk(d.ranges, |d.data|) && |d.ranges| <= MAX_RANGES
  }

  /** The fragment covers exactly this range, and its bytes stand there. */
  predicate IsPiece(d: Datagram, r: Range, p: Fragment) {
    && p.payload.Some? && p.key == d.key && r == Range(p.offset, p.End())
    && r.start <= r.end <= |d.data| && d.data[r.start..r.end] == p.payload.value
  }

  /** One fragment for every range, in order; the header is that of the offset-0 one, if it is there. */
  ghost predicate Pieces(d: Datagram, pieces: seq<Fragment>) {
    && |pieces| == |d.ranges| && (forall i | 0 <= i < |pieces| :: IsPiece(d, d.ranges[i], pieces[i]))
    && forall i | 0 <= i < |pieces| :: pieces[i].offset == 0 ==> pieces[i].header == d.header
  }

  lemma WritingElsewhere(data: seq<byte>, start: nat, bytes: seq<byte>, capacity: nat, r: Range)
    requires r.start <= r.end <= |data| && start + |bytes| <= capacity && (r.end <= start || start + |bytes| <= r.start)
    ensures var written := Written(Grown(data, capacity), start, bytes);
            |written| >= |data| && written[r.start..r.end] == data[r.start..r.end]
  {
    var written := Written(Grown(data, capacity), start, bytes);
    forall i | r.start <= i < r.end
      ensures written[i] == data[i]
    {
    }
  }

  lemma WritingHere(data: seq<byte>, start: nat, bytes: seq<byte>, capacity: nat)
    requires start + |bytes| <= capacity
    ensures var written := Written(Grown(data, capacity), start, bytes);
            start + |bytes| <= |written| && written[start..start + |bytes|] == bytes
  {
  }

  /** An accepted fragment leaves the other pieces in place, byte for byte. */
  lemma PieceStays(d: Datagram, f: Fragment, now: nat, j: nat, p: Fragment)
    requires DatagramOk(d) && j < |d.ranges| && IsPiece(d, d.ranges[j], p) && !IsMalformed(f) && !Refused(d, f)
    ensures IsPiece(Accepted(Headed(d, f, now), f), d.ranges[j], p)
  {
    hide Written, Grown, Inserted, Meets, RangesOk, Shaped;
    assert RangesOk(d.ranges, |d.data|);
    ApartFrom(d.ranges, f.offset, f.End(), |d.data|, j);
    WritingElsewhere(d.data, f.offset, f.payload.value, f.End(), d.ranges[j]);
  }

  lemma NewPiece(d: Datagram, f: Fragment, now: nat)
    requires f.key == d.key && !IsMalformed(f)
    ensures IsPiece(Accepted(Headed(d, f, now), f), Range(f.offset, f.End()), f)
  {
    hide Written, Grown, Inserted;
    WritingHere(d.data, f.offset, f.payload.value, f.End());
  }

  /** An accepted fragment becomes one more piece. */
  lemma AcceptingAddsAPiece(d: Datagram, f: Fragment, now: nat, pieces: seq<Fragment>) returns (pieces': seq<Fragment>)
    requires DatagramOk(d) && Pieces(d, pieces) && f.key == d.key && !IsMalformed(f) && !Refused(d, f)
    ensures var accepted := Accepted(Headed(d, f, now), f);
            DatagramOk(accepted) && Pieces(accepted, pieces')
    ensures forall p <- pieces' :: p == f || p in pieces
  {
    hide InsertIndex, Written, Grown, Meets, RangesOk, IsPiece, DatagramOk, IsMalformed, Refused;
    AcceptedIsOk(d, f, now);
    AcceptedHasPayload(f);
    var accepted := Accepted(Headed(d, f, now), f);
    var k := InsertIndex(d.ranges, f.offset, |d.ranges|);
    pieces' := pieces[..k] + [f] + pieces[k..];
    HeaderStaysFirst(d, f, now, pieces);
    NewPiece(d, f, now);
    forall i | 0 <= i < |pieces'|
      ensures IsPiece(accepted, accepted.ranges[i], pieces'[i])
      ensures pieces'[i].offset == 0 ==> pieces'[i].header == accepted.header
    {
      if i != k {
        var j := if i < k then i else i - 1;
        assert accepted.ranges[i] == d.ranges[j] && pieces'[i] == pieces[j];
        PieceStays(d, f, now, j, pieces[j]);
      }
    }
  }

  /** An offset-0 fragment that is not refused is the only one; any other leaves the header alone. */
  lemma HeaderStaysFirst(d: Datagram, f: Fragment, now: nat, pieces: seq<Fragment>)
    requires DatagramOk(d) && Pieces(d, pieces) && !IsMalformed(f) && !Refused(d, f)
    ensures forall i | 0 <= i < |pieces| :: pieces[i].offset == 0 ==> pieces[i].header == Headed(d, f, now).header
  {
    hide Shaped;
    forall i | 0 <= i < |pieces| && pieces[i].offset == 0
      ensures f.offset != 0
    {
      assert IsPiece(d, d.ranges[i], pieces[i]) && !Meets(d.ranges[i], f.offset, f.End());
    }
  }

  lemma ApartFrom(ranges: seq<Range>, start: nat, end: nat, limit: nat, j: nat)
    requires RangesOk(ranges, limit) && !Overlaps(ranges, start, end) && start < end && j < |ranges|
    ensures ranges[j].end <= start || end <= ranges[j].start
  {
    assert !Meets(ranges[j], start, end);
  }

  // ----- the byte budget -----

  function DataBytes(datagrams: seq<Datagram>): nat {
    if datagrams == [] then 0 else DataBytes(datagrams[..|datagrams| - 1]) + |datagrams[|datagrams| - 1].data|
  }

  lemma {:induction false} BytesWithout(datagrams: seq<Datagram>, i: nat)
    requires i < |datagrams|
    ensures DataBytes(WithoutAt(datagrams, i)) + |datagrams[i].data| == DataBytes(datagrams)
    decreases |datagrams|
  {
    var n := |datagrams| - 1;
    if i == n {
      assert WithoutAt(datagrams, i) == datagrams[..n];
    } else {
      BytesWithout(datagrams[..n], i);
      assert WithoutAt(datagrams, i)[..n - 1] == WithoutAt(datagrams[..n], i);
    }
  }

  lemma {:induction false} BytesWithUpdate(datagrams: seq<Datagram>, i: nat, d: Datagram)
    requires i < |datagrams|
    ensures DataBytes(datagrams[i := d]) == DataBytes(datagrams) - |datagrams[i].data| + |d.data|
    decreases |datagrams|
  {
    var n := |datagrams| - 1;
    if i == n {
      assert datagrams[i := d][..n] == datagrams[..n];
    } else {
      BytesWithUpdate(datagrams[..n], i, d);
      assert datagrams[i := d][..n] == datagrams[..n][i := d];
    }
  }

  lemma BytesWithNew(datagrams: seq<Datagram>, d: Datagram)
    ensures DataBytes(datagrams + [d]) == DataBytes(datagrams) + |d.data|
  {
    assert (datagrams + [d])[..|datagrams|] == datagrams;
  }

  // ----- the table -----

  predicate KeysDistinct(datagrams: seq<Datagram>) {
    forall i, j | 0 <= i < j < |datagrams| :: datagrams[i].key != datagrams[j].key
  }

  predicate AllOk(datagrams: seq<Datagram>) {
    forall i | 0 <= i < |datagrams| :: DatagramOk(datagrams[i])
  }

  /** Every datagram is in order, keys are distinct, and the accounted bytes are exactly the allocated
      ones, within the budget. */
  predicate TableOk(t: Table) {
    && AllOk(t.datagrams) && KeysDistinct(t.datagrams) && |t.datagrams| <= t.maxDatagrams
    && t.usedBytes == DataBytes(t.datagrams) <= t.maxBytes
  }

  lemma OkIsShaped(t: Table)
    requires TableOk(t)
    ensures AllShaped(t)
  {
    hide RangesOk, Shaped;
    forall i | 0 <= i < |t.datagrams|
      ensures Shaped(t.datagrams[i])
    {
      assert DatagramOk(t.datagrams[i]);
    }
  }

  lemma MembersWithout(datagrams: seq<Datagram>, i: nat)
    requires KeysDistinct(datagrams) && i < |datagrams|
    ensures KeysDistinct(WithoutAt(datagrams, i))
    ensures forall j | 0 <= j < |datagrams| - 1 :: WithoutAt(datagrams, i)[j] == datagrams[if j < i then j else j + 1]
    ensures forall d <- WithoutAt(datagrams, i) :: d in datagrams && d.key != datagrams[i].key
    ensures forall d <- datagrams :: d == datagrams[i] || d in WithoutAt(datagrams, i)
  {
    hide WithoutAt;
    var rest := WithoutAt(datagrams, i);
    ElementsWithout(datagrams, i);
    forall d | d in rest
      ensures d in datagrams && d.key != datagrams[i].key
    {
      var j :| 0 <= j < |rest| && rest[j] == d;
      assert rest[j] == datagrams[if j < i then j else j + 1];
    }
    forall d | d in datagrams
      ensures d == datagrams[i] || d in rest
    {
      var j :| 0 <= j < |datagrams| && datagrams[j] == d;
      if j != i {
        assert rest[if j < i then j else j - 1] == d;
      }
    }
  }

  lemma ElementsWithout(datagrams: seq<Datagram>, i: nat)
    requires KeysDistinct(datagrams) && i < |datagrams|
    ensures var rest := WithoutAt(datagrams, i);
            && |rest| == |datagrams| - 1 && KeysDistinct(rest)
            && (forall j | 0 <= j < i :: rest[j] == datagrams[j])
            && (forall j | i <= j < |rest| :: rest[j] == datagrams[j + 1])
  {
  }

  lemma RemovalKeepsOk(t: Table, i: nat)
    requires TableOk(t) && i < |t.datagrams|
    ensures TableOk(RemovedAt(t, i)) && RemovedAt(t, i).usedBytes == t.usedBytes - |t.datagrams[i].data|
    ensures RemovedAt(t, i) == t.(datagrams := WithoutAt(t.datagrams, i),
                                  usedBytes := t.usedBytes - |t.datagrams[i].data|)
    ensures forall d <- RemovedAt(t, i).datagrams :: d in t.datagrams && d.key != t.datagrams[i].key
    ensures forall d <- t.datagrams :: d == t.datagrams[i] || d in RemovedAt(t, i).datagrams
  {
    hide DatagramOk, KeysDistinct;
    BytesWithout(t.datagrams, i);
    MembersWithout(t.datagrams, i);
  }

  lemma UpdateKeepsOk(t: Table, i: nat, d: Datagram)
    requires TableOk(t) && i < |t.datagrams| && DatagramOk(d) && d.key == t.datagrams[i].key
    requires |d.data| >= |t.datagrams[i].data| && t.usedBytes + |d.data| - |t.datagrams[i].data| <= t.maxBytes
    ensures TableOk(t.(datagrams := t.datagrams[i := d], usedBytes := t.usedBytes + |d.data| - |t.datagrams[i].data|))
  {
    hide DatagramOk;
    BytesWithUpdate(t.datagrams, i, d);
  }

  lemma AdditionKeepsOk(t: Table, d: Datagram)
    requires TableOk(t) && |t.datagrams| < t.maxDatagrams && DatagramOk(d) && d.data == []
    requires forall e <- t.datagrams :: e.key != d.key
    ensures TableOk(t.(datagrams := t.datagrams + [d]))
  {
    hide DatagramOk;
    BytesWithNew(t.datagrams, d);
  }

  lemma {:induction false} ExpiryKeepsOk(t: Table, now: nat, i: nat)
    requires TableOk(t) && i <= |t.datagrams|
    ensures var r := ExpiredFrom(t, now, i);
            && TableOk(r) && r.usedBytes <= t.usedBytes
            && r.maxDatagrams == t.maxDatagrams && r.maxBytes == t.maxBytes && r.timeout == t.timeout
            && |r.datagrams| <= |t.datagrams|
    ensures forall d <- ExpiredFrom(t, now, i).datagrams :: d in t.datagrams
    ensures forall d <- t.datagrams :: IsExpired(d, now, t.timeout) || d in ExpiredFrom(t, now, i).datagrams
    ensures i == 0 ==> forall d <- ExpiredFrom(t, now, 0).datagrams :: !IsExpired(d, now, t.timeout)
    decreases |t.datagrams| - i
  {
    hide TableOk, IsExpired;
    ExpiredSuffix(t, now, i);
    if i < |t.datagrams| {
      if IsExpired(t.datagrams[i], now, t.timeout) {
        RemovalKeepsOk(t, i);
        ExpiryKeepsOk(RemovedAt(t, i), now, i);
      } else {
        ExpiryKeepsOk(t, now, i + 1);
      }
    }
  }

  /** The scan keeps the first `i` datagrams and nothing expired after them. */
  lemma {:induction false} ExpiredSuffix(t: Table, now: nat, i: nat)
    requires i <= |t.datagrams|
    ensures var r := ExpiredFrom(t, now, i).datagrams;
            i <= |r| && r[..i] == t.datagrams[..i] && forall j | i <= j < |r| :: !IsExpired(r[j], now, t.timeout)
    decreases |t.datagrams| - i
  {
    hide IsExpired;
    if i < |t.datagrams| {
      if IsExpired(t.datagrams[i], now, t.timeout) {
        ExpiredSuffix(RemovedAt(t, i), now, i);
        assert RemovedAt(t, i).datagrams[..i] == t.datagrams[..i];
      } else {
        ExpiredSuffix(t, now, i + 1);
        var r := ExpiredFrom(t, now, i + 1).datagrams;
        assert r[..i] == r[..i + 1][..i] == t.datagrams[..i];
        assert r[i] == r[..i + 1][i] == t.datagrams[i];
      }
    }
  }

  // ----- one fragment -----

  /** Removing the datagram just stored leaves the others, and gives its bytes back. */
  lemma StoredThenRemoved(t: Table, i: nat, d: Datagram)
    requires TableOk(t) && i < |t.datagrams| && DatagramOk(d) && d.key == t.datagrams[i].key
    requires |d.data| >= |t.datagrams[i].data| && t.usedBytes + |d.data| - |t.datagrams[i].data| <= t.maxBytes
    ensures var stored := t.(datagrams := t.datagrams[i := d],
                             usedBytes := t.usedBytes + |d.data| - |t.datagrams[i].data|);
            RemovedAt(stored, i) == RemovedAt(t, i)
  {
    hide DatagramOk, KeysDistinct;
    var stored := t.(datagrams := t.datagrams[i := d], usedBytes := t.usedBytes + |d.data| - |t.datagrams[i].data|);
    UpdateKeepsOk(t, i, d);
    RemovalKeepsOk(stored, i);
    RemovalKeepsOk(t, i);
    assert WithoutAt(stored.datagrams, i) == WithoutAt(t.datagrams, i);
  }

  lemma AcceptedIsOk(d: Datagram, f: Fragment, now: nat)
    requires DatagramOk(d) && f.key == d.key && !IsMalformed(f) && !Refused(d, f)
    ensures DatagramOk(Accepted(Headed(d, f, now), f))
  {
    hide Written, Grown, Overlaps, InsertIndex;
    AcceptedIsShaped(d, f, now);
    var accepted := Accepted(Headed(d, f, now), f);
    RangesWiden(d.ranges, |d.data|, |accepted.data|);
    InsertionKeepsRanges(d.ranges, Range(f.offset, f.End()), |accepted.data|);
  }

  lemma PlacingKeepsOk(t: Table, i: nat, f: Fragment, now: nat)
    requires TableOk(t) && i < |t.datagrams| && !IsMalformed(f) && f.key == t.datagrams[i].key
    ensures Shaped(t.datagrams[i])
    ensures var (r, outcome) := Placed(t, i, f, now);
            && TableOk(r)
            && r.maxDatagrams == t.maxDatagrams && r.maxBytes == t.maxBytes && r.timeout == t.timeout
            && (if outcome.Queued? then
                  && !Refused(t.datagrams[i], f)
                  && r.datagrams == t.datagrams[i := Accepted(Headed(t.datagrams[i], f, now), f)]
                else r.datagrams == WithoutAt(t.datagrams, i))
            && !outcome.Ignored?
            && (outcome.Reassembled? ==>
                  && !Refused(t.datagrams[i], f)
                  && var accepted := Accepted(Headed(t.datagrams[i], f, now), f);
                     && Shaped(accepted) && |accepted.header| + accepted.total <= MAX_TOTAL_LENGTH
                          && IsComplete(accepted)
                     && outcome.packet == BuildPacket(accepted))
  {
    hide RangesOk, AllOk, KeysDistinct, DataBytes, Overlaps, IsComplete, BuildPacket, RemovedAt, Written, Grown,
      InsertIndex;
    assert DatagramOk(t.datagrams[i]) by { OkAt(t, i); }
    var d := t.datagrams[i];
    RemovalKeepsOk(t, i);
    if !Refused(d, f) && Affordable(t, Additional(d, f.End())) {
      AcceptedIsShaped(d, f, now);
      AcceptedIsOk(d, f, now);
      UpdateKeepsOk(t, i, Accepted(Headed(d, f, now), f));
      StoredThenRemoved(t, i, Accepted(Headed(d, f, now), f));
    }
  }

  lemma OkAt(t: Table, i: nat)
    requires TableOk(t) && i < |t.datagrams|
    ensures DatagramOk(t.datagrams[i])
  {
  }

  lemma NewIsOk(f: Fragment, now: nat)
    requires !IsMalformed(f)
    ensures DatagramOk(NewDatagram(f, now)) && !Refused(NewDatagram(f, now), f) && Pieces(NewDatagram(f, now), [])
  {
  }

  /** The table a well-formed fragment is placed into: expired datagrams gone, its own present. */
  function Prepared(t: Table, f: Fragment, now: nat): Table {
    var live := ExpiredFrom(t, now, 0);
    if FindKey(live.datagrams, f.key, 0) < |live.datagrams| then live
    else live.(datagrams := live.datagrams + [NewDatagram(f, now)])
  }

  predicate HasRoom(t: Table, f: Fragment, now: nat) {
    var live := ExpiredFrom(t, now, 0);
    FindKey(live.datagrams, f.key, 0) < |live.datagrams| || |live.datagrams| < live.maxDatagrams
  }

  lemma PreparedIsOk(t: Table, f: Fragment, now: nat)
    requires TableOk(t) && !IsMalformed(f) && HasRoom(t, f, now)
    ensures var r, i := Prepared(t, f, now), FindKey(ExpiredFrom(t, now, 0).datagrams, f.key, 0);
            && TableOk(r) && i < |r.datagrams| && r.datagrams[i].key == f.key
            && r.maxDatagrams == t.maxDatagrams && r.maxBytes == t.maxBytes && r.timeout == t.timeout
                 && r.usedBytes <= t.usedBytes
            && AllShaped(t) && Processed(t, f, now) == (AllShapedPlaced(r, i); Placed(r, i, f, now))
  {
    hide DatagramOk, KeysDistinct, DataBytes, Placed, FindKey, ExpiredFrom;
    OkIsShaped(t);
    ExpiryKeepsOk(t, now, 0);
    var live := ExpiredFrom(t, now, 0);
    if FindKey(live.datagrams, f.key, 0) == |live.datagrams| {
      NewIsOk(f, now);
      AdditionKeepsOk(live, NewDatagram(f, now));
    }
  }

  lemma AllShapedPlaced(t: Table, i: nat)
    requires TableOk(t) && i < |t.datagrams|
    ensures Shaped(t.datagrams[i])
  {
    OkAt(t, i);
  }

  /** Every fragment, in every order and however malformed, keeps the table in order and within budget;
      in particular the two saturating subtractions of the original never saturate. */
  lemma ProcessingKeepsOk(t: Table, f: Fragment, now: nat)
    requires TableOk(t)
    ensures AllShaped(t) && TableOk(Processed(t, f, now).0)
    ensures var r := Processed(t, f, now).0;
            r.maxDatagrams == t.maxDatagrams && r.maxBytes == t.maxBytes && r.timeout == t.timeout
  {
    hide TableOk, Placed, FindKey, IsMalformed;
    OkIsShaped(t);
    ExpiryKeepsOk(t, now, 0);
    if f.isFragment && !IsMalformed(f) && HasRoom(t, f, now) {
      PreparedIsOk(t, f, now);
      PlacingKeepsOk(Prepared(t, f, now), FindKey(ExpiredFrom(t, now, 0).datagrams, f.key, 0), f, now);
    }
  }

  // ----- whole runs -----

  datatype Arrival = Arrival(f: Fragment, now: nat)

  function Run(t: Table, arrivals: seq<Arrival>): (r: Table)
    requires TableOk(t)
    ensures TableOk(r)
  {
    if arrivals == [] then t
    else
      var before, last := Run(t, arrivals[..|arrivals| - 1]), arrivals[|arrivals| - 1];
      ProcessingKeepsOk(before, last.f, last.now);
      Processed(before, last.f, last.now).0
  }

  function Empty(maxDatagrams: nat, maxBytes: nat, timeout: nat): Table {
    Table([], maxDatagrams, maxBytes, 0, timeout)
  }

  /** Over every run from an initialised table, the allocated bytes are the accounted ones and stay within
      16 MiB, and there are at most 1024 datagrams, no two of one key. */
  lemma MemoryStaysBounded(maxDatagrams: nat, maxBytes: nat, timeout: nat, arrivals: seq<Arrival>)
    requires 0 < maxDatagrams <= 1024 && 0 < maxBytes <= 16777216
    ensures TableOk(Empty(maxDatagrams, maxBytes, timeout))
    ensures var t := Run(Empty(maxDatagrams, maxBytes, timeout), arrivals);
            && DataBytes(t.datagrams) == t.usedBytes <= maxBytes <= 16777216
            && |t.datagrams| <= maxDatagrams <= 1024 && KeysDistinct(t.datagrams)
  {
    hide AllOk, KeysDistinct, DataBytes;
    EmptyIsOk(maxDatagrams, maxBytes, timeout);
    RunKeepsLimits(Empty(maxDatagrams, maxBytes, timeout), arrivals);
  }

  lemma EmptyIsOk(maxDatagrams: nat, maxBytes: nat, timeout: nat)
    ensures TableOk(Empty(maxDatagrams, maxBytes, timeout))
  {
  }

  lemma {:induction false} RunKeepsLimits(t: Table, arrivals: seq<Arrival>)
    requires TableOk(t)
    ensures Run(t, arrivals).maxDatagrams == t.maxDatagrams && Run(t, arrivals).maxBytes == t.maxBytes
    decreases |arrivals|
  {
    hide TableOk, Processed;
    if arrivals != [] {
      RunKeepsLimits(t, arrivals[..|arrivals| - 1]);
      ProcessingKeepsOk(Run(t, arrivals[..|arrivals| - 1]), arrivals[|arrivals| - 1].f, arrivals[|arrivals| - 1].now);
    }
  }

  ghost predicate Arrived(f: Fragment, arrivals: seq<Arrival>) {
    exists a <- arrivals :: a.f == f
  }

  /** The datagram consists of fragments that arrived, one for each of its ranges. */
  ghost predicate Justified(d: Datagram, arrivals: seq<Arrival>) {
    exists pieces :: Pieces(d, pieces) && forall p <- pieces :: Arrived(p, arrivals)
  }

  ghost predicate AllJustified(datagrams: seq<Datagram>, arrivals: seq<Arrival>) {
    forall d <- datagrams :: Justified(d, arrivals)
  }

  lemma ArrivedStays(f: Fragment, arrivals: seq<Arrival>, last: Arrival)
    requires Arrived(f, arrivals) || f == last.f
    ensures Arrived(f, arrivals + [last])
  {
    if Arrived(f, arrivals) {
      var a :| a in arrivals && a.f == f;
      assert a in arrivals + [last];
    } else {
      assert last in arrivals + [last];
    }
  }

  lemma JustifiedStays(d: Datagram, arrivals: seq<Arrival>, last: Arrival)
    requires Justified(d, arrivals)
    ensures Justified(d, arrivals + [last])
  {
    hide Pieces, Arrived;
    var pieces :| Pieces(d, pieces) && forall p <- pieces :: Arrived(p, arrivals);
    forall p | p in pieces
      ensures Arrived(p, arrivals + [last])
    {
      ArrivedStays(p, arrivals, last);
    }
  }

  lemma AcceptedIsJustified(d: Datagram, arrivals: seq<Arrival>, last: Arrival)
    requires Justified(d, arrivals) && DatagramOk(d) && last.f.key == d.key && !IsMalformed(last.f)
             && !Refused(d, last.f)
    ensures Justified(Accepted(Headed(d, last.f, last.now), last.f), arrivals + [last])
  {
    hide Pieces, Arrived, DatagramOk, Refused, Accepted, IsMalformed;
    var pieces :| Pieces(d, pieces) && forall p <- pieces :: Arrived(p, arrivals);
    AcceptedHasPayload(last.f);
    var pieces' := AcceptingAddsAPiece(d, last.f, last.now, pieces);
    forall p | p in pieces'
      ensures Arrived(p, arrivals + [last])
    {
      ArrivedStays(p, arrivals, last);
    }
  }

  lemma AcceptedHasPayload(f: Fragment)
    requires !IsMalformed(f)
    ensures f.payload.Some?
  {
  }

  /** The table that a fragment is placed into is justified by what arrived before. */
  lemma PreparedIsJustified(t: Table, f: Fragment, now: nat, arrivals: seq<Arrival>)
    requires TableOk(t) && AllJustified(t.datagrams, arrivals) && !IsMalformed(f)
    ensures AllJustified(ExpiredFrom(t, now, 0).datagrams, arrivals)
            && AllJustified(Prepared(t, f, now).datagrams, arrivals)
  {
    hide Justified, TableOk, NewDatagram, IsMalformed, FindKey;
    ExpiryKeepsOk(t, now, 0);
    assert Justified(NewDatagram(f, now), arrivals) by { NewIsJustified(f, now, arrivals); }
  }

  lemma NewIsJustified(f: Fragment, now: nat, arrivals: seq<Arrival>)
    requires !IsMalformed(f)
    ensures Justified(NewDatagram(f, now), arrivals)
  {
    NewIsOk(f, now);
    assert Pieces(NewDatagram(f, now), []);
  }

  lemma StepKeepsJustified(t: Table, last: Arrival, arrivals: seq<Arrival>)
    requires TableOk(t) && AllJustified(t.datagrams, arrivals)
    ensures AllShaped(t) && AllJustified(Processed(t, last.f, last.now).0.datagrams, arrivals + [last])
  {
    hide Justified, TableOk, Placed, FindKey, IsMalformed, DatagramOk, Refused, Accepted, Headed, WithoutAt;
    var f, now := last.f, last.now;
    ProcessingKeepsOk(t, f, now);
    ExpiryKeepsOk(t, now, 0);
    var r := Processed(t, f, now).0;
    forall d | d in r.datagrams
      ensures Justified(d, arrivals + [last])
    {
      if f.isFragment && !IsMalformed(f) && HasRoom(t, f, now) {
        PreparedIsOk(t, f, now);
        PreparedIsJustified(t, f, now, arrivals);
        AllShapedPlaced(Prepared(t, f, now), FindKey(ExpiredFrom(t, now, 0).datagrams, f.key, 0));
        PlacedIsJustified(Prepared(t, f, now), FindKey(ExpiredFrom(t, now, 0).datagrams, f.key, 0), last, arrivals, d);
      } else {
        assert d in t.datagrams;
        JustifiedStays(d, arrivals, last);
      }
    }
  }

  lemma PlacedIsJustified(t: Table, i: nat, last: Arrival, arrivals: seq<Arrival>, d: Datagram)
    requires TableOk(t) && i < |t.datagrams| && !IsMalformed(last.f) && last.f.key == t.datagrams[i].key
             && Shaped(t.datagrams[i])
    requires AllJustified(t.datagrams, arrivals) && d in Placed(t, i, last.f, last.now).0.datagrams
    ensures Justified(d, arrivals + [last])
  {
    hide Justified, Placed, IsMalformed, DatagramOk, Refused, Accepted, Headed, WithoutAt;
    PlacingKeepsOk(t, i, last.f, last.now);
    OkAt(t, i);
    if d in t.datagrams {
      JustifiedStays(d, arrivals, last);
    } else {
      MembersWithout(t.datagrams, i);
      AcceptedHasPayload(last.f);
      var r := Placed(t, i, last.f, last.now).0.datagrams;
      var j :| 0 <= j < |r| && r[j] == d;
      assert j == i && d == Accepted(Headed(t.datagrams[i], last.f, last.now), last.f);
      AcceptedIsJustified(t.datagrams[i], arrivals, last);
    }
  }

  /** Provenance over every run: in every table that fragments can produce, each datagram's ranges are sorted,
      non-empty and disjoint, and for each range exactly one arrived fragment of the datagram's key covers it
      and supplies its bytes. */
  lemma {:induction false} EveryByteHasASource(t: Table, arrivals: seq<Arrival>)
    requires TableOk(t) && t.datagrams == []
    ensures TableOk(Run(t, arrivals)) && AllJustified(Run(t, arrivals).datagrams, arrivals)
    decreases |arrivals|
  {
    hide TableOk, Processed, Justified;
    if arrivals != [] {
      var before, last := arrivals[..|arrivals| - 1], arrivals[|arrivals| - 1];
      EveryByteHasASource(t, before);
      ProcessingKeepsOk(Run(t, before), last.f, last.now);
      StepKeepsJustified(Run(t, before), last, before);
      assert before + [last] == arrivals;
    }
  }

  // ----- reassembled payloads -----

  /** Fragments that adjoin one another from `from` up to `to`. */
  predicate Adjoining(pieces: seq<Fragment>, from: nat, to: nat) {
    if pieces == [] then from == to
    else pieces[0].offset == from && pieces[0].payload.Some? && Adjoining(pieces[1..], pieces[0].End(), to)
  }

  /** The first fragment carries this header. */
  predicate BeginsWith(pieces: seq<Fragment>, header: seq<byte>) {
    pieces != [] && pieces[0].header == header
  }

  function Payload(pieces: seq<Fragment>): seq<byte> {
    if pieces == [] then []
    else (if pieces[0].payload.Some? then pieces[0].payload.value else []) + Payload(pieces[1..])
  }

  lemma {:induction false} CoverageIsConcatenation(d: Datagram, pieces: seq<Fragment>, i: nat, covered: nat)
      returns (m: nat)
    requires DatagramOk(d) && Pieces(d, pieces) && CoversFrom(d.ranges, i, covered, d.total)
    ensures i <= m <= |pieces| && covered <= d.total
    ensures Adjoining(pieces[i..m], covered, d.total) && d.data[covered..d.total] == Payload(pieces[i..m])
    decreases |pieces| - i
  {
    hide RangesOk;
    var p, r := pieces[i], d.ranges[i];
    assert IsPiece(d, r, p);
    if r.end == d.total {
      m := i + 1;
      assert pieces[i..m][1..] == [];
      assert d.data[covered..d.total] == p.payload.value + [];
    } else {
      m := CoverageIsConcatenation(d, pieces, i + 1, r.end);
      assert pieces[i..m][1..] == pieces[i + 1..m];
      assert d.data[covered..d.total] == d.data[r.start..r.end] + d.data[r.end..d.total];
    }
  }

  /** The datagram a fragment meets: its own partial one, or a new one. */
  function Target(t: Table, f: Fragment, now: nat): Datagram
    requires HasRoom(t, f, now)
  {
    Prepared(t, f, now).datagrams[FindKey(ExpiredFrom(t, now, 0).datagrams, f.key, 0)]
  }

  lemma TargetIsPrepared(t: Table, f: Fragment, now: nat)
    requires HasRoom(t, f, now)
    ensures Target(t, f, now) in Prepared(t, f, now).datagrams
  {
  }

  /** The datagram with the fragment in it. */
  function Completed(t: Table, f: Fragment, now: nat): Datagram
    requires HasRoom(t, f, now) && f.payload.Some?
  {
    Accepted(Headed(Target(t, f, now), f, now), f)
  }

  lemma AcceptedKeepsKey(d: Datagram, f: Fragment, now: nat)
    requires f.payload.Some?
    ensures Accepted(Headed(d, f, now), f).key == d.key
  {
  }

  /** A packet is only ever built from the completed datagram. */
  lemma ReassembledIsCompleted(t: Table, f: Fragment, now: nat)
    requires TableOk(t) && AllShaped(t) && Processed(t, f, now).1.Reassembled?
    ensures !IsMalformed(f) && HasRoom(t, f, now) && f.payload.Some?
    ensures Target(t, f, now).key == f.key && DatagramOk(Target(t, f, now)) && !Refused(Target(t, f, now), f)
    ensures var d := Completed(t, f, now);
            && DatagramOk(d) && Shaped(d) && d.key == f.key && IsComplete(d) && |d.header| + d.total <= MAX_TOTAL_LENGTH
            && Processed(t, f, now).1.packet == BuildPacket(d)
  {
    hide TableOk, Placed, FindKey, IsMalformed, RangesOk, ExpiredFrom, IsComplete, Refused, Prepared, Accepted, Headed,
      BuildPacket, Shaped;
    PreparedIsOk(t, f, now);
    var placed, i := Prepared(t, f, now), FindKey(ExpiredFrom(t, now, 0).datagrams, f.key, 0);
    PlacingKeepsOk(placed, i, f, now);
    OkAt(placed, i);
    AcceptedHasPayload(f);
    AcceptedIsOk(placed.datagrams[i], f, now);
    AcceptedKeepsKey(placed.datagrams[i], f, now);
  }

  /** The payload of a reassembled datagram is that of adjoining fragments of one key that all arrived: every byte has
      a source, with no gap and no overlap; and its header is that of the offset-0 one among them. */
  lemma ReassembledFromAdjoiningFragments(t: Table, arrivals: seq<Arrival>, last: Arrival)
      returns (pieces: seq<Fragment>)
    requires TableOk(t) && t.datagrams == []
    requires AllShaped(Run(t, arrivals)) && Processed(Run(t, arrivals), last.f, last.now).1.Reassembled?
    ensures HasRoom(Run(t, arrivals), last.f, last.now) && last.f.payload.Some?
    ensures var d := Completed(Run(t, arrivals), last.f, last.now);
            && Shaped(d) && |d.header| + d.total <= MAX_TOTAL_LENGTH
            && Processed(Run(t, arrivals), last.f, last.now).1.packet == BuildPacket(d)
            && Adjoining(pieces, 0, d.total) && d.data[..d.total] == Payload(pieces)
            && BeginsWith(pieces, d.header)
    ensures forall p <- pieces :: Arrived(p, arrivals + [last]) && p.key == last.f.key
  {
    hide TableOk, Processed, FindKey, IsMalformed, RangesOk, Justified, ExpiredFrom, CoversFrom, Refused, Prepared,
      Run, Arrived, Accepted, HasRoom;
    EveryByteHasASource(t, arrivals);
    var before, f, now := Run(t, arrivals), last.f, last.now;
    ReassembledIsCompleted(before, f, now);
    PreparedIsJustified(before, f, now, arrivals);
    TargetIsPrepared(before, f, now);
    AcceptedIsJustified(Target(before, f, now), arrivals, last);
    pieces := CompletePayload(Completed(before, f, now), arrivals + [last]);
  }

  lemma CompletePayload(d: Datagram, arrivals: seq<Arrival>) returns (pieces: seq<Fragment>)
    requires DatagramOk(d) && Justified(d, arrivals) && IsComplete(d)
    ensures Adjoining(pieces, 0, d.total) && d.data[..d.total] == Payload(pieces)
    ensures BeginsWith(pieces, d.header)
    ensures forall p <- pieces :: Arrived(p, arrivals) && p.key == d.key
  {
    hide RangesOk, Arrived;
    var all :| Pieces(d, all) && forall p <- all :: Arrived(p, arrivals);
    var m := CoverageIsConcatenation(d, all, 0, 0);
    pieces := all[0..m];
    assert d.data[..d.total] == d.data[0..d.total];
    forall p | p in pieces
      ensures Arrived(p, arrivals) && p.key == d.key
    {
      var j :| 0 <= j < m && all[j] == p;
      assert IsPiece(d, d.ranges[j], all[j]);
    }
  }
}
