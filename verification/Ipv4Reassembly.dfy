/** The fragments of one datagram rebuild it, in whatever order they arrive. */
module Ipv4Reassembly {
  import opened Bytes
  import opened Ipv4Fragments
  import opened Ipv4Provenance

  // ----- coverage, byte by byte -----

  predicate Inside(r: Range, k: int) {
    r.start <= k < r.end
  }

  ghost predicate ByteCovered(ranges: seq<Range>, k: int) {
    exists r <- ranges :: Inside(r, k)
  }

  lemma {:induction false} CoverageFromMeansBytes(ranges: seq<Range>, i: nat, covered: nat, total: nat)
    requires RangesOk(ranges, total) && i <= |ranges| && covered < total
    requires forall j | i <= j < |ranges| :: covered <= ranges[j].start
    ensures CoversFrom(ranges, i, covered, total) <==> forall k | covered <= k < total :: ByteCovered(ranges[i..], k)
    decreases |ranges| - i
  {
    if i == |ranges| {
      assert !ByteCovered(ranges[i..], covered);
    } else {
      var r, rest := ranges[i], ranges[i + 1..];
      assert ranges[i..] == [r] + rest;
      assert forall j | 0 <= j < |rest| :: rest[j] == ranges[i + 1 + j] && r.end <= rest[j].start;
      if r.start != covered {
        assert !Inside(r, covered) && forall x <- rest :: !Inside(x, covered);
        assert !ByteCovered(ranges[i..], covered);
      } else {
        forall k | covered <= k < r.end
          ensures ByteCovered(ranges[i..], k)
        {
          assert r in ranges[i..] && Inside(r, k);
        }
        if r.end < total {
          CoverageFromMeansBytes(ranges, i + 1, r.end, total);
          forall k | r.end <= k < total
            ensures ByteCovered(ranges[i..], k) <==> ByteCovered(rest, k)
          {
            LaterBytes(r, rest, k);
          }
        }
      }
    }
  }

  lemma LaterBytes(r: Range, rest: seq<Range>, k: int)
    requires r.end <= k
    ensures ByteCovered([r] + rest, k) <==> ByteCovered(rest, k)
  {
    if ByteCovered(rest, k) {
      var x :| x in rest && Inside(x, k);
      assert x in [r] + rest;
    }
  }

  /** The scan over sorted ranges accepts exactly when every byte below the total is covered. */
  lemma CoverageMeansBytes(ranges: seq<Range>, total: nat)
    requires RangesOk(ranges, total) && total > 0
    ensures CoversFrom(ranges, 0, 0, total) <==> forall k | 0 <= k < total :: ByteCovered(ranges, k)
  {
    CoverageFromMeansBytes(ranges, 0, 0, total);
    assert ranges[0..] == ranges;
  }

  // ----- the fragments of one datagram -----

  /** A datagram cut into fragments in order: they adjoin, carry the payload's bytes and one key, only the
      last has no more-fragments flag, each is acceptable by itself, and the first carries the header. */
  ghost predicate Tiling(key: Key, header: seq<byte>, payload: seq<byte>, parts: seq<Fragment>) {
    && 0 < |parts| <= 64
    && (forall i | 0 <= i < |parts| :: !IsMalformed(parts[i]) && parts[i].key == key
         && parts[i].more == (i < |parts| - 1))
    && parts[0].offset == 0 && parts[0].header == header && parts[|parts| - 1].End() == |payload|
    && (forall i | 0 <= i < |parts| - 1 :: parts[i].End() == parts[i + 1].offset)
    && (forall i | 0 <= i < |parts| :: parts[i].End() <= |payload|
         && parts[i].payload == Some(payload[parts[i].offset..parts[i].End()]))
  }

  function RangeOf(f: Fragment): Range {
    Range(f.offset, f.End())
  }

  lemma {:induction false} TilesAreOrdered(key: Key, header: seq<byte>, payload: seq<byte>, parts: seq<Fragment>,
                                           i: nat, j: nat)
    requires Tiling(key, header, payload, parts) && i < j < |parts|
    ensures parts[i].End() <= parts[j].offset && parts[i].offset < parts[j].offset
    decreases j
  {
    assert !IsMalformed(parts[i]) && !IsMalformed(parts[j - 1]);
    if i < j - 1 {
      TilesAreOrdered(key, header, payload, parts, i, j - 1);
    }
  }

  lemma TilesAreDisjoint(key: Key, header: seq<byte>, payload: seq<byte>, parts: seq<Fragment>, i: nat, j: nat)
    requires Tiling(key, header, payload, parts) && i < |parts| && j < |parts| && i != j
    ensures !Meets(RangeOf(parts[i]), parts[j].offset, parts[j].End()) && RangeOf(parts[i]) != RangeOf(parts[j])
  {
    if i < j {
      TilesAreOrdered(key, header, payload, parts, i, j);
    } else {
      TilesAreOrdered(key, header, payload, parts, j, i);
    }
  }

  lemma {:induction false} SomeTileCovers(key: Key, header: seq<byte>, payload: seq<byte>, parts: seq<Fragment>,
                                          k: nat, n: nat) returns (i: nat)
    requires Tiling(key, header, payload, parts) && n < |parts| && k < parts[n].End()
    ensures i <= n && Inside(RangeOf(parts[i]), k)
    decreases n
  {
    if k >= parts[n].offset {
      i := n;
    } else {
      i := SomeTileCovers(key, header, payload, parts, k, n - 1);
    }
  }

  // ----- progress of one datagram -----

  /** The ranges are those of the parts in `have`, and of no others. */
  ghost predicate Matches(parts: seq<Fragment>, have: set<nat>, ranges: seq<Range>) {
    && |ranges| == |have|
    && (forall i <- have :: i < |parts| && RangeOf(parts[i]) in ranges)
    && (forall r <- ranges :: exists i <- have :: i < |parts| && r == RangeOf(parts[i]))
  }

  predicate SameBytes(data: seq<byte>, payload: seq<byte>, r: Range) {
    r.start <= r.end <= |data| && |data| <= |payload| && data[r.start..r.end] == payload[r.start..r.end]
  }

  /** The datagram holds exactly the parts in `have`. */
  ghost predicate Collected(header: seq<byte>, payload: seq<byte>, parts: seq<Fragment>, have: set<nat>, d: Datagram) {
    && DatagramOk(d) && |d.data| <= |payload|
    && Matches(parts, have, d.ranges)
    && (forall r <- d.ranges :: SameBytes(d.data, payload, r))
    && (d.hasLast <==> |parts| - 1 in have) && (d.hasLast ==> d.total == |payload|)
    && (0 in have ==> d.header == header)
  }

  lemma NotRefused(key: Key, header: seq<byte>, payload: seq<byte>, parts: seq<Fragment>, have: set<nat>, d: Datagram,
                   n: nat)
    requires Tiling(key, header, payload, parts) && Collected(header, payload, parts, have, d)
    requires n < |parts| && n !in have && |have| < |parts|
    ensures !Refused(d, parts[n])
  {
    hide Meets, DatagramOk;
    forall j | 0 <= j < |d.ranges|
      ensures !Meets(d.ranges[j], parts[n].offset, parts[n].End())
    {
      assert d.ranges[j] in d.ranges;
      var i :| i in have && i < |parts| && d.ranges[j] == RangeOf(parts[i]);
      TilesAreDisjoint(key, header, payload, parts, i, n);
    }
  }

  lemma InsertedMembers(ranges: seq<Range>, r: Range)
    ensures forall x :: x in Inserted(ranges, r) <==> x == r || x in ranges
    ensures |Inserted(ranges, r)| == |ranges| + 1
  {
    var k := InsertIndex(ranges, r.start, |ranges|);
    assert ranges == ranges[..k] + ranges[k..];
  }

  lemma MatchingOneMore(parts: seq<Fragment>, have: set<nat>, ranges: seq<Range>, n: nat)
    requires Matches(parts, have, ranges) && n < |parts| && n !in have
    ensures Matches(parts, have + {n}, Inserted(ranges, RangeOf(parts[n])))
  {
    hide Inserted;
    InsertedMembers(ranges, RangeOf(parts[n]));
    forall r | r in Inserted(ranges, RangeOf(parts[n]))
      ensures exists i <- have + {n} :: i < |parts| && r == RangeOf(parts[i])
    {
      if r == RangeOf(parts[n]) {
        assert n in have + {n};
      } else {
        var i :| i in have && i < |parts| && r == RangeOf(parts[i]);
        assert i in have + {n};
      }
    }
  }

  /** Writing a part keeps the bytes of the other parts and puts its own in place. */
  lemma BytesStayTrue(key: Key, header: seq<byte>, payload: seq<byte>, parts: seq<Fragment>, have: set<nat>,
                      d: Datagram, n: nat, r: Range)
    requires Tiling(key, header, payload, parts) && Collected(header, payload, parts, have, d)
    requires n < |parts| && n !in have && (r in d.ranges || r == RangeOf(parts[n]))
    ensures parts[n].payload.Some?
    ensures var data := Written(Grown(d.data, parts[n].End()), parts[n].offset, parts[n].payload.value);
            |data| == Max(|d.data|, parts[n].End()) && SameBytes(data, payload, r)
  {
    hide RangesOk, Shaped, Meets;
    var f := parts[n];
    assert f.payload == Some(payload[f.offset..f.End()]);
    if r == RangeOf(f) {
      WritingHere(d.data, f.offset, f.payload.value, f.End());
    } else {
      var i :| i in have && i < |parts| && r == RangeOf(parts[i]);
      assert SameBytes(d.data, payload, r);
      ApartTiles(key, header, payload, parts, i, n);
      WritingElsewhere(d.data, f.offset, f.payload.value, f.End(), r);
    }
  }

  function Max(a: nat, b: nat): nat {
    if a >= b then a else b
  }

  lemma ApartTiles(key: Key, header: seq<byte>, payload: seq<byte>, parts: seq<Fragment>, i: nat, j: nat)
    requires Tiling(key, header, payload, parts) && i < |parts| && j < |parts| && i != j
    ensures parts[i].End() <= parts[j].offset || parts[j].End() <= parts[i].offset
  {
    if i < j {
      TilesAreOrdered(key, header, payload, parts, i, j);
    } else {
      TilesAreOrdered(key, header, payload, parts, j, i);
    }
  }

  /** One more part. */
  lemma CollectingOneMore(key: Key, header: seq<byte>, payload: seq<byte>, parts: seq<Fragment>, have: set<nat>,
                          d: Datagram, n: nat, now: nat)
    requires Tiling(key, header, payload, parts) && Collected(header, payload, parts, have, d) && d.key == key
    requires n < |parts| && n !in have && |have| < |parts|
    ensures !Refused(d, parts[n]) && parts[n].payload.Some?
    ensures Collected(header, payload, parts, have + {n}, Accepted(Headed(d, parts[n], now), parts[n]))
  {
    hide Inserted, Written, Refused, Matches, DatagramOk, SameBytes;
    var f := parts[n];
    assert !IsMalformed(f) && f.key == key && f.more == (n < |parts| - 1);
    NotRefused(key, header, payload, parts, have, d, n);
    AcceptedIsOk(d, f, now);
    MatchingOneMore(parts, have, d.ranges, n);
    InsertedMembers(d.ranges, RangeOf(f));
    BytesStayTrue(key, header, payload, parts, have, d, n, RangeOf(f));
    if n > 0 {
      TilesAreOrdered(key, header, payload, parts, 0, n); // only part 0 has offset 0
    }
    forall r | r in Inserted(d.ranges, RangeOf(f))
      ensures SameBytes(Written(Grown(d.data, f.End()), f.offset, f.payload.value), payload, r)
    {
      BytesStayTrue(key, header, payload, parts, have, d, n, r);
    }
  }

  lemma AllPartsCoverAll(key: Key, header: seq<byte>, payload: seq<byte>, parts: seq<Fragment>, ranges: seq<Range>)
    requires Tiling(key, header, payload, parts) && forall i | 0 <= i < |parts| :: RangeOf(parts[i]) in ranges
    ensures forall k | 0 <= k < |payload| :: ByteCovered(ranges, k)
  {
    hide Inside;
    forall k | 0 <= k < |payload|
      ensures ByteCovered(ranges, k)
    {
      var i := SomeTileCovers(key, header, payload, parts, k, |parts| - 1);
      assert RangeOf(parts[i]) in ranges;
    }
  }

  lemma MissingPartLeavesGap(key: Key, header: seq<byte>, payload: seq<byte>, parts: seq<Fragment>, have: set<nat>,
                             ranges: seq<Range>, n: nat)
    requires Tiling(key, header, payload, parts) && Matches(parts, have, ranges) && n < |parts| && n !in have
    ensures parts[n].offset < |payload| && !ByteCovered(ranges, parts[n].offset)
  {
    assert !IsMalformed(parts[n]);
    forall r | r in ranges
      ensures !Inside(r, parts[n].offset)
    {
      var j :| j in have && j < |parts| && r == RangeOf(parts[j]);
      ApartTiles(key, header, payload, parts, j, n);
    }
  }

  /** The datagram is complete exactly when all parts are there; its data is then the payload. */
  lemma CompleteWhenAllCollected(key: Key, header: seq<byte>, payload: seq<byte>, parts: seq<Fragment>, have: set<nat>,
                                 d: Datagram)
    requires Tiling(key, header, payload, parts) && Collected(header, payload, parts, have, d)
    ensures IsComplete(d) <==> forall i | 0 <= i < |parts| :: i in have
  {
    hide CoversFrom, RangesOk, Shaped, ByteCovered, SameBytes, IsMalformed;
    assert |payload| > 0 by { assert !IsMalformed(parts[|parts| - 1]); PartIsNotEmpty(parts[|parts| - 1]); }
    if d.hasLast {
      WithinPayload(d, |payload|);
      CoverageMeansBytes(d.ranges, |payload|);
      if forall i | 0 <= i < |parts| :: i in have {
        AllPartsCoverAll(key, header, payload, parts, d.ranges);
      } else {
        var n :| 0 <= n < |parts| && n !in have;
        MissingPartLeavesGap(key, header, payload, parts, have, d.ranges, n);
      }
    } else {
      assert |parts| - 1 !in have;
    }
  }

  lemma PartIsNotEmpty(f: Fragment)
    requires !IsMalformed(f)
    ensures f.End() > 0
  {
  }

  lemma WithinPayload(d: Datagram, limit: nat)
    requires DatagramOk(d) && |d.data| <= limit
    ensures RangesOk(d.ranges, limit)
  {
    RangesWiden(d.ranges, |d.data|, limit);
  }

  lemma CollectedDataIsPayload(key: Key, header: seq<byte>, payload: seq<byte>, parts: seq<Fragment>, have: set<nat>,
                               d: Datagram)
    requires Tiling(key, header, payload, parts) && Collected(header, payload, parts, have, d)
    requires forall i | 0 <= i < |parts| :: i in have
    ensures d.header == header && d.total == |payload| && d.data == payload
  {
    hide RangesOk;
    var last := RangeOf(parts[|parts| - 1]);
    assert last in d.ranges && last.end == |payload|;
    forall k | 0 <= k < |payload|
      ensures d.data[k] == payload[k]
    {
      var i := SomeTileCovers(key, header, payload, parts, k, |parts| - 1);
      var r := RangeOf(parts[i]);
      assert r in d.ranges && SameBytes(d.data, payload, r);
      SameByteAt(d.data, payload, r, k);
    }
  }

  lemma SameByteAt(data: seq<byte>, payload: seq<byte>, r: Range, k: nat)
    requires SameBytes(data, payload, r) && r.start <= k < r.end
    ensures k < |data| && k < |payload| && data[k] == payload[k]
  {
    assert data[r.start..r.end][k - r.start] == payload[r.start..r.end][k - r.start];
  }

  // ----- the table while parts arrive -----

  /** The payload behind the header, with its total length written, only the two upper flag bits kept, the offset and
      the checksum zeroed, and nothing else changed. */
  function Rebuilt(header: seq<byte>, payload: seq<byte>): seq<byte>
    requires 20 <= |header| && |header| + |payload| <= 65535
  {
    var total := |header| + |payload|;
    header[..2] + [total / 256, total % 256] + header[4..6] + [header[6] / 64 * 64, 0] + header[8..10] + [0, 0]
    + header[12..] + payload
  }

  lemma BuiltIsRebuilt(d: Datagram)
    requires |d.header| >= 20 && d.total <= |d.data| && |d.header| + d.total <= MAX_TOTAL_LENGTH
    ensures BuildPacket(d) == Rebuilt(d.header, d.data[..d.total])
  {
  }

  /** What the last part to arrive yields: the whole packet, unless the first header makes it too long. */
  function Whole(header: seq<byte>, payload: seq<byte>): Outcome
    requires 20 <= |header|
  {
    if |header| + |payload| <= 65535 then Reassembled(Rebuilt(header, payload)) else Dropped
  }

  /** The table holds exactly the parts in `have`, last seen at `last`. */
  ghost predicate Awaiting(t: Table, key: Key, header: seq<byte>, payload: seq<byte>, parts: seq<Fragment>,
                           have: set<nat>, last: nat) {
    && TableOk(t)
    && (if have == {} then forall d <- t.datagrams :: d.key != key
        else exists d <- t.datagrams ::
               d.key == key && d.lastSeen == last && Collected(header, payload, parts, have, d))
  }

  /** The table has a datagram or a slot for the fragment, and the bytes that its data still needs. */
  predicate FitsIn(t: Table, f: Fragment, now: nat) {
    HasRoom(t, f, now) && Affordable(Prepared(t, f, now), Additional(Target(t, f, now), f.End()))
  }

  lemma SameKeySameDatagram(datagrams: seq<Datagram>, d: Datagram, i: nat)
    requires KeysDistinct(datagrams) && d in datagrams && i < |datagrams| && datagrams[i].key == d.key
    ensures datagrams[i] == d
  {
  }

  lemma NothingCollected(header: seq<byte>, payload: seq<byte>, parts: seq<Fragment>, f: Fragment, now: nat)
    requires !IsMalformed(f)
    ensures Collected(header, payload, parts, {}, NewDatagram(f, now))
  {
    NewIsOk(f, now);
  }

  /** Expiry and creation leave the datagram's progress in place, ready for the next part. */
  lemma PreparedAwaits(t: Table, key: Key, header: seq<byte>, payload: seq<byte>, parts: seq<Fragment>, have: set<nat>,
                       last: nat, f: Fragment, now: nat)
    requires Awaiting(t, key, header, payload, parts, have, last) && !IsMalformed(f) && f.key == key
    requires have != {} ==> (t.timeout == 0 || now < last + t.timeout)
    requires HasRoom(t, f, now)
    ensures var r, i := Prepared(t, f, now), FindKey(ExpiredFrom(t, now, 0).datagrams, f.key, 0);
            i < |r.datagrams| && Collected(header, payload, parts, have, r.datagrams[i])
  {
    hide Collected, DatagramOk, DataBytes, ExpiredFrom, FindKey, AllOk, IsMalformed, NewDatagram;
    ExpiryKeepsOk(t, now, 0);
    var live := ExpiredFrom(t, now, 0);
    var i := FindKey(live.datagrams, key, 0);
    if have == {} {
      assert i == |live.datagrams|;
      NothingCollected(header, payload, parts, f, now);
    } else {
      var d :| d in t.datagrams && d.key == key && d.lastSeen == last && Collected(header, payload, parts, have, d);
      assert d in live.datagrams;
      assert i < |live.datagrams|;
      SameKeySameDatagram(live.datagrams, d, i);
    }
  }

  lemma PlacingAffordable(t: Table, i: nat, f: Fragment, now: nat)
    requires TableOk(t) && i < |t.datagrams| && !IsMalformed(f) && f.key == t.datagrams[i].key
    requires !Refused(t.datagrams[i], f) && Affordable(t, Additional(t.datagrams[i], f.End()))
    ensures Shaped(t.datagrams[i])
    ensures var d := t.datagrams[i];
            var accepted := Accepted(Headed(d, f, now), f);
            var (r, outcome) := Placed(t, i, f, now);
            && Shaped(accepted) && |accepted.data| == |d.data| + Additional(d, f.End())
            && (!IsComplete(accepted) ==>
                  outcome == Queued && r == t.(datagrams := t.datagrams[i := accepted],
                                               usedBytes := t.usedBytes + Additional(d, f.End())))
            && (IsComplete(accepted) ==>
                  outcome == if |accepted.header| + accepted.total <= MAX_TOTAL_LENGTH then
                      Reassembled(BuildPacket(accepted))
                             else Dropped)
  {
    hide IsComplete, BuildPacket, RemovedAt, Written, Grown, Inserted, Overlaps, AllOk, KeysDistinct, DataBytes;
    OkAtShaped(t, i);
    AcceptedIsShaped(t.datagrams[i], f, now);
  }

  lemma OkAtShaped(t: Table, i: nat)
    requires TableOk(t) && i < |t.datagrams|
    ensures Shaped(t.datagrams[i])
  {
    OkAt(t, i);
  }

  /** One part arrives in time and finds room: queued while parts are missing, the whole packet with the last one. */
  lemma PartArrives(t: Table, key: Key, header: seq<byte>, payload: seq<byte>, parts: seq<Fragment>, have: set<nat>,
                    last: nat, n: nat, now: nat)
    requires Tiling(key, header, payload, parts) && Awaiting(t, key, header, payload, parts, have, last)
    requires n < |parts| && n !in have && |have| < |parts|
    requires have != {} ==> (t.timeout == 0 || now < last + t.timeout)
    requires FitsIn(t, parts[n], now)
    ensures AllShaped(t) && |header| >= 20
    ensures var (r, outcome) := Processed(t, parts[n], now);
            if forall i | 0 <= i < |parts| :: i in have + {n} then outcome == Whole(header, payload)
            else outcome == Queued && Awaiting(r, key, header, payload, parts, have + {n}, now)
  {
    hide Collected, DatagramOk, Placed, ExpiredFrom, FindKey, AllOk, TableOk, Accepted, Headed, IsMalformed, Refused,
      Prepared, HasRoom, IsComplete, Processed, Awaiting, Affordable, BuildPacket, Rebuilt;
    var f := parts[n];
    assert !IsMalformed(f) && !IsMalformed(parts[0]);
    AwaitingIsOk(t, key, header, payload, parts, have, last);
    HeaderIsUsable(parts[0]);
    PreparedAwaits(t, key, header, payload, parts, have, last, f, now);
    PreparedIsOk(t, f, now);
    var p, i := Prepared(t, f, now), FindKey(ExpiredFrom(t, now, 0).datagrams, f.key, 0);
    var d := p.datagrams[i];
    CollectingOneMore(key, header, payload, parts, have, d, n, now);
    PlacingAffordable(p, i, f, now);
    var accepted := Accepted(Headed(d, f, now), f);
    CompleteWhenAllCollected(key, header, payload, parts, have + {n}, accepted);
    if forall j | 0 <= j < |parts| :: j in have + {n} {
      CollectedDataIsPayload(key, header, payload, parts, have + {n}, accepted);
      if |accepted.header| + accepted.total <= MAX_TOTAL_LENGTH {
        assert accepted.data[..accepted.total] == payload;
        BuiltIsRebuilt(accepted);
      }
    } else {
      PlacingKeepsOk(p, i, f, now);
      AwaitingNext(p, i, key, header, payload, parts, have + {n}, f, now, Processed(t, f, now).0);
    }
  }

  lemma AwaitingIsOk(t: Table, key: Key, header: seq<byte>, payload: seq<byte>, parts: seq<Fragment>, have: set<nat>,
                     last: nat)
    requires Awaiting(t, key, header, payload, parts, have, last)
    ensures TableOk(t)
  {
  }

  lemma HeaderIsUsable(f: Fragment)
    requires !IsMalformed(f)
    ensures 20 <= |f.header|
  {
  }

  lemma AwaitingNext(p: Table, i: nat, key: Key, header: seq<byte>, payload: seq<byte>, parts: seq<Fragment>,
                     have: set<nat>, f: Fragment, now: nat, r: Table)
    requires i < |p.datagrams| && f.payload.Some? && p.datagrams[i].key == key && have != {} && TableOk(r)
    requires var accepted := Accepted(Headed(p.datagrams[i], f, now), f);
             Collected(header, payload, parts, have, accepted) && r.datagrams == p.datagrams[i := accepted]
    ensures Awaiting(r, key, header, payload, parts, have, now)
  {
    hide Collected, TableOk, Written, Grown, Inserted;
    var accepted := Accepted(Headed(p.datagrams[i], f, now), f);
    assert r.datagrams[i] == accepted && accepted in r.datagrams;
    assert accepted.key == key && accepted.lastSeen == now;
  }

  /** What a fragment does to the datagrams of other keys: it expires some, and touches none of the rest. */
  lemma OtherKeysStay(t: Table, f: Fragment, now: nat)
    requires TableOk(t)
    ensures AllShaped(t) && TableOk(Processed(t, f, now).0)
    ensures var r := Processed(t, f, now).0;
            && r.timeout == t.timeout
            && (forall d <- r.datagrams :: d.key != f.key ==> d in t.datagrams)
            && (forall d <- t.datagrams :: d.key != f.key && !(f.isFragment && IsExpired(d, now, t.timeout)) ==>
                  d in r.datagrams)
  {
    hide DatagramOk, Placed, ExpiredFrom, FindKey, IsMalformed, DataBytes, KeysDistinct, AllOk, IsExpired;
    ProcessingKeepsOk(t, f, now);
    ExpiryKeepsOk(t, now, 0);
    if f.isFragment && !IsMalformed(f) && HasRoom(t, f, now) {
      var p, i := Prepared(t, f, now), FindKey(ExpiredFrom(t, now, 0).datagrams, f.key, 0);
      PreparedIsOk(t, f, now);
      PlacingKeepsOk(p, i, f, now);
      AcceptedHasPayload(f);
      var accepted := Accepted(Headed(p.datagrams[i], f, now), f);
      MembersOf(p, i, accepted);
      NewHasKey(f, now);
      AcceptedKeepsKey(p.datagrams[i], f, now);
      assert forall d <- t.datagrams :: d.key != f.key && !IsExpired(d, now, t.timeout) ==>
               d in p.datagrams && d != p.datagrams[i];
    }
  }

  lemma NewHasKey(f: Fragment, now: nat)
    ensures NewDatagram(f, now).key == f.key
  {
  }

  lemma MembersOf(t: Table, i: nat, x: Datagram)
    requires TableOk(t) && i < |t.datagrams|
    ensures forall d <- WithoutAt(t.datagrams, i) :: d in t.datagrams
    ensures forall d <- t.datagrams :: d == t.datagrams[i] || d in WithoutAt(t.datagrams, i)
    ensures forall d <- t.datagrams[i := x] :: d == x || d in t.datagrams
    ensures forall d <- t.datagrams :: d == t.datagrams[i] || d in t.datagrams[i := x]
  {
    hide AllOk, DataBytes;
    MembersWithout(t.datagrams, i);
    var updated := t.datagrams[i := x];
    forall d | d in t.datagrams
      ensures d == t.datagrams[i] || d in updated
    {
      var j :| 0 <= j < |t.datagrams| && t.datagrams[j] == d;
      assert updated[j] == if j == i then x else d;
    }
  }

  /** A fragment of another datagram, whatever it is, leaves the parts where they are. */
  lemma ForeignArrives(t: Table, key: Key, header: seq<byte>, payload: seq<byte>, parts: seq<Fragment>, have: set<nat>,
                       last: nat, f: Fragment, now: nat)
    requires Awaiting(t, key, header, payload, parts, have, last) && f.key != key
    requires have != {} && f.isFragment ==> (t.timeout == 0 || now < last + t.timeout)
    ensures AllShaped(t) && Awaiting(Processed(t, f, now).0, key, header, payload, parts, have, last)
    ensures Processed(t, f, now).0.timeout == t.timeout
  {
    hide Collected, TableOk, Processed;
    OtherKeysStay(t, f, now);
    if have != {} {
      var d :| d in t.datagrams && d.key == key && d.lastSeen == last && Collected(header, payload, parts, have, d);
      assert d in Processed(t, f, now).0.datagrams;
    }
  }
}
