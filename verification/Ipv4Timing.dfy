/** When partial datagrams are forgotten, over whole runs (section 3.2 of RFC 791, src/ipv4_frag.c). */
module Ipv4Timing {
  import opened Bytes
  import opened Ipv4Fragments
  import opened Ipv4Provenance
  import opened Ipv4Reassembly

  /** A version 4 fragment with a header of 20 to 60 bytes and a payload, in whole units of eight bytes unless it is the
      last, that stays within 65535 bytes together with its header. */
  predicate WellFormed(f: Fragment) {
    && f.isFragment && f.version == 4 && 20 <= |f.header| <= 60
    && f.payload.Some? && f.payload.value != [] && (f.more ==> |f.payload.value| % 8 == 0)
    && f.offset + |f.payload.value| + |f.header| <= 65535
  }

  lemma WellFormedExactly(f: Fragment)
    ensures WellFormed(f) <==> f.isFragment && !IsMalformed(f)
  {
  }

  /** Packets that are no fragments pass by; malformed fragments are reported, and expire datagrams all the same. */
  lemma OnlyTheWellFormedAreHeld(t: Table, f: Fragment, now: nat)
    requires TableOk(t)
    ensures AllShaped(t)
    ensures var (r, outcome) := Processed(t, f, now);
            && (!f.isFragment ==> r == t && outcome.Ignored?)
            && (f.isFragment && !WellFormed(f) ==> outcome.Malformed? && r == ExpiredFrom(t, now, 0))
            && (outcome.Ignored? ==> !f.isFragment)
  {
    hide ExpiredFrom, FindKey, IsMalformed, TableOk, Placed;
    OkIsShaped(t);
    WellFormedExactly(f);
    if WellFormed(f) && HasRoom(t, f, now) {
      PreparedIsOk(t, f, now);
      PlacingKeepsOk(Prepared(t, f, now), FindKey(ExpiredFrom(t, now, 0).datagrams, f.key, 0), f, now);
    }
  }

  /** When the last well-formed fragment of the key came, if any did. */
  function LastOf(arrivals: seq<Arrival>, key: Key): Option<nat> {
    if arrivals == [] then None
    else
      var last := arrivals[|arrivals| - 1];
      if WellFormed(last.f) && last.f.key == key then Some(last.now) else LastOf(arrivals[..|arrivals| - 1], key)
  }

  /** The datagram is there at this time. */
  predicate IsTimely(d: Datagram, now: nat, timeout: nat) {
    timeout == 0 || now < d.lastSeen + timeout
  }

  lemma TimelyExactly(d: Datagram, now: nat, timeout: nat)
    ensures IsTimely(d, now, timeout) <==> !IsExpired(d, now, timeout)
  {
  }

  lemma ExpiryKeepsTheTimely(t: Table, now: nat)
    requires TableOk(t)
    ensures forall d :: d in ExpiredFrom(t, now, 0).datagrams <==> d in t.datagrams && IsTimely(d, now, t.timeout)
  {
    hide TableOk, IsExpired, ExpiredFrom, IsTimely;
    ExpiryKeepsOk(t, now, 0);
    forall d
      ensures IsTimely(d, now, t.timeout) <==> !IsExpired(d, now, t.timeout)
    {
      TimelyExactly(d, now, t.timeout);
    }
  }

  /** What a fragment leaves of the other datagrams, and what it makes of its own. */
  lemma StepMembers(t: Table, f: Fragment, now: nat)
    requires TableOk(t)
    ensures AllShaped(t)
    ensures var r := Processed(t, f, now).0;
            && (forall d <- r.datagrams :: if WellFormed(f) && d.key == f.key then d.lastSeen == now
                 else d in t.datagrams)
            && (forall d <- t.datagrams ::
                  f.isFragment && !(WellFormed(f) && d.key == f.key) ==>
                    (d in r.datagrams <==> IsTimely(d, now, t.timeout)))
  {
    hide TableOk, IsExpired, ExpiredFrom, FindKey, IsTimely, WellFormed, IsMalformed, Placed;
    OnlyTheWellFormedAreHeld(t, f, now);
    ExpiryKeepsTheTimely(t, now);
    WellFormedExactly(f);
    if WellFormed(f) {
      ExpiryKeepsOk(t, now, 0);
      if HasRoom(t, f, now) {
        PreparedIsOk(t, f, now);
        PlacedMembers(Prepared(t, f, now), FindKey(ExpiredFrom(t, now, 0).datagrams, f.key, 0), f, now);
        NewHasKey(f, now);
      } else {
        NoneOfTheKey(t, f, now);
      }
    }
  }

  lemma NoneOfTheKey(t: Table, f: Fragment, now: nat)
    requires !HasRoom(t, f, now)
    ensures forall d <- ExpiredFrom(t, now, 0).datagrams :: d.key != f.key
  {
    hide ExpiredFrom;
  }

  lemma PlacedMembers(t: Table, i: nat, f: Fragment, now: nat)
    requires TableOk(t) && i < |t.datagrams| && t.datagrams[i].key == f.key && !IsMalformed(f)
    ensures Shaped(t.datagrams[i])
    ensures var r := Placed(t, i, f, now).0;
            && (forall d <- r.datagrams :: if d.key == f.key then d.lastSeen == now else d in t.datagrams)
            && (forall d <- t.datagrams :: d.key != f.key ==> d in r.datagrams)
  {
    hide Placed, IsMalformed, DatagramOk, Refused, WithoutAt, Filled, DataBytes;
    PlacingKeepsOk(t, i, f, now);
    MembersWithout(t.datagrams, i);
    AcceptedHasPayload(f);
    AcceptedIsFresh(t.datagrams[i], f, now);
    var r, accepted := Placed(t, i, f, now).0, Accepted(Headed(t.datagrams[i], f, now), f);
    if Placed(t, i, f, now).1.Queued? {
      forall d | d in r.datagrams
        ensures if d.key == f.key then d.lastSeen == now else d in t.datagrams
      {
        var j :| 0 <= j < |r.datagrams| && r.datagrams[j] == d;
        assert j != i ==> d == t.datagrams[j];
      }
      forall d | d in t.datagrams && d.key != f.key
        ensures d in r.datagrams
      {
        var j :| 0 <= j < |t.datagrams| && t.datagrams[j] == d;
        assert r.datagrams[j] == d;
      }
    }
  }

  lemma AcceptedIsFresh(d: Datagram, f: Fragment, now: nat)
    requires f.payload.Some?
    ensures var accepted := Accepted(Headed(d, f, now), f); accepted.key == d.key && accepted.lastSeen == now
  {
  }

  // ----- over whole runs -----

  /** Over every run the time of a datagram is that of the last well-formed fragment of its key. */
  lemma {:induction false} LastSeenIsTheLastFragment(t: Table, arrivals: seq<Arrival>)
    requires TableOk(t) && t.datagrams == []
    ensures forall d <- Run(t, arrivals).datagrams :: LastOf(arrivals, d.key) == Some(d.lastSeen)
    decreases |arrivals|
  {
    hide TableOk, Processed, WellFormed;
    if arrivals != [] {
      var before, last := arrivals[..|arrivals| - 1], arrivals[|arrivals| - 1];
      LastSeenIsTheLastFragment(t, before);
      StepMembers(Run(t, before), last.f, last.now);
    }
  }

  lemma {:induction false} RunKeepsTimeout(t: Table, arrivals: seq<Arrival>)
    requires TableOk(t)
    ensures Run(t, arrivals).timeout == t.timeout
    decreases |arrivals|
  {
    hide TableOk, Processed;
    if arrivals != [] {
      RunKeepsTimeout(t, arrivals[..|arrivals| - 1]);
      ProcessingKeepsOk(Run(t, arrivals[..|arrivals| - 1]), arrivals[|arrivals| - 1].f, arrivals[|arrivals| - 1].now);
    }
  }

  /** Over every run a datagram that the next fragment is not about stays as it is if its last well-formed fragment came
      less than the timeout ago, and is forgotten if not. */
  lemma OthersStayUntilTheTimeout(t: Table, arrivals: seq<Arrival>, f: Fragment, now: nat, d: Datagram)
    requires TableOk(t) && t.datagrams == [] && d in Run(t, arrivals).datagrams
    requires f.isFragment && !(WellFormed(f) && f.key == d.key)
    ensures LastOf(arrivals, d.key).Some?
    ensures d in Run(t, arrivals + [Arrival(f, now)]).datagrams
       <==> t.timeout == 0 || now < LastOf(arrivals, d.key).value + t.timeout
  {
    hide TableOk, Processed, WellFormed;
    assert (arrivals + [Arrival(f, now)])[..|arrivals|] == arrivals;
    LastSeenIsTheLastFragment(t, arrivals);
    RunKeepsTimeout(t, arrivals);
    StepMembers(Run(t, arrivals), f, now);
  }

  /** The bytes of this fragment and no others, under its header. */
  predicate HoldsOnly(d: Datagram, f: Fragment) {
    && f.payload.Some? && d.header == f.header && d.ranges == [Range(f.offset, f.offset + |f.payload.value|)]
    && |d.data| == f.offset + |f.payload.value| && d.data[f.offset..] == f.payload.value
  }

  predicate IsPacketOf(packet: seq<byte>, f: Fragment) {
    && f.payload.Some? && f.offset == 0 && |packet| == |f.header| + |f.payload.value|
    && packet[|f.header|..] == f.payload.value
  }

  /** Over every run a well-formed fragment whose predecessor of the same key came the timeout or more ago, or that has
      none, meets nothing of its datagram: what is kept is its own bytes under its own header, and a packet that it
      completes is its own payload. */
  lemma LatePiecesAreForgotten(t: Table, arrivals: seq<Arrival>, f: Fragment, now: nat)
    requires TableOk(t) && t.datagrams == [] && WellFormed(f)
    requires LastOf(arrivals, f.key).None? || (t.timeout != 0 && now >= LastOf(arrivals, f.key).value + t.timeout)
    ensures forall d <- Run(t, arrivals + [Arrival(f, now)]).datagrams :: d.key == f.key ==> HoldsOnly(d, f)
    ensures AllShaped(Run(t, arrivals))
    ensures var outcome := Processed(Run(t, arrivals), f, now).1;
            outcome.Reassembled? ==> IsPacketOf(outcome.packet, f)
  {
    hide TableOk, ExpiredFrom, FindKey, IsMalformed, Placed, Run, Processed, WellFormed, DatagramOk, HasRoom;
    var before := Run(t, arrivals);
    assert (arrivals + [Arrival(f, now)])[..|arrivals|] == arrivals;
    RunUnrolls(t, arrivals, f, now);
    OkIsShaped(before);
    WellFormedExactly(f);
    StartsAnew(t, arrivals, f, now);
    ExpiryKeepsOk(before, now, 0);
    if HasRoom(before, f, now) {
      PreparedIsOk(before, f, now);
      var placed, i := Prepared(before, f, now), FindKey(ExpiredFrom(before, now, 0).datagrams, f.key, 0);
      OnlyPiece(placed, i, f, now);
    } else {
      NoneOfTheKey(before, f, now);
      TurnedAway(before, f, now);
    }
  }

  lemma RunUnrolls(t: Table, arrivals: seq<Arrival>, f: Fragment, now: nat)
    requires TableOk(t)
    ensures AllShaped(Run(t, arrivals))
    ensures Run(t, arrivals + [Arrival(f, now)]) == Processed(Run(t, arrivals), f, now).0
  {
    hide TableOk, Processed;
    assert (arrivals + [Arrival(f, now)])[..|arrivals|] == arrivals;
    OkIsShaped(Run(t, arrivals));
  }

  lemma TurnedAway(t: Table, f: Fragment, now: nat)
    requires AllShaped(t) && f.isFragment && !IsMalformed(f) && !HasRoom(t, f, now)
    ensures Processed(t, f, now) == (ExpiredFrom(t, now, 0), Dropped)
  {
    hide ExpiredFrom, FindKey;
  }

  /** The fragment finds no datagram of its key, and a new one is prepared. */
  lemma StartsAnew(t: Table, arrivals: seq<Arrival>, f: Fragment, now: nat)
    requires TableOk(t) && t.datagrams == []
    requires LastOf(arrivals, f.key).None? || (t.timeout != 0 && now >= LastOf(arrivals, f.key).value + t.timeout)
    ensures var before := Run(t, arrivals);
            && (forall d <- ExpiredFrom(before, now, 0).datagrams :: d.key != f.key)
            && Prepared(before, f, now).datagrams == ExpiredFrom(before, now, 0).datagrams + [NewDatagram(f, now)]
            && FindKey(ExpiredFrom(before, now, 0).datagrams, f.key, 0) == |ExpiredFrom(before, now, 0).datagrams|
  {
    hide TableOk, ExpiredFrom, Run, LastOf, NewDatagram;
    var before := Run(t, arrivals);
    LastSeenIsTheLastFragment(t, arrivals);
    RunKeepsTimeout(t, arrivals);
    ExpiryKeepsTheTimely(before, now);
  }

  /** A new datagram holds the fragment alone. */
  lemma OnlyPiece(t: Table, i: nat, f: Fragment, now: nat)
    requires TableOk(t) && i < |t.datagrams| && t.datagrams[i] == NewDatagram(f, now) && !IsMalformed(f)
    ensures Shaped(t.datagrams[i])
    ensures var (r, outcome) := Placed(t, i, f, now);
            && (forall d <- r.datagrams :: d.key == f.key ==> HoldsOnly(d, f))
            && (outcome.Reassembled? ==> IsPacketOf(outcome.packet, f))
  {
    hide Placed, IsMalformed, DatagramOk, Refused, WithoutAt, DataBytes, Accepted, Headed, BuildPacket;
    PlacingKeepsOk(t, i, f, now);
    MembersWithout(t.datagrams, i);
    AcceptedHasPayload(f);
    AloneIs(f, now);
    var (r, outcome) := Placed(t, i, f, now);
    var accepted := Accepted(Headed(t.datagrams[i], f, now), f);
    if outcome.Queued? {
      forall d | d in r.datagrams && d.key == f.key
        ensures d == accepted
      {
        var j :| 0 <= j < |r.datagrams| && r.datagrams[j] == d;
        assert j == i;
      }
    }
    if outcome.Reassembled? {
      PacketOf(accepted);
    }
  }

  lemma AloneIs(f: Fragment, now: nat)
    requires !IsMalformed(f)
    ensures f.payload.Some?
    ensures var d := Accepted(Headed(NewDatagram(f, now), f, now), f);
            && d.key == f.key && HoldsOnly(d, f)
            && (IsComplete(d) ==> f.offset == 0 && d.total == f.End())
  {
  }

  lemma PacketOf(d: Datagram)
    requires |d.header| >= 20 && d.total <= |d.data| && |d.header| + d.total <= MAX_TOTAL_LENGTH
    ensures BuildPacket(d)[|d.header|..] == d.data[..d.total] && |BuildPacket(d)| == |d.header| + d.total
  {
  }

  /** The fragment meets bytes that are there, or would be the 65th range. */
  predicate Collides(d: Datagram, f: Fragment) {
    |d.ranges| >= 64 || exists r <- d.ranges :: f.offset < r.end && r.start < f.End()
  }

  /** A well-formed fragment of a datagram that is still there is malformed, and ends it, exactly when it collides.
      When it is queued, the datagram keeps every range with its bytes and gains those of the fragment, and is not
      complete. */
  lemma TimelyDatagramIsMet(t: Table, f: Fragment, now: nat, d: Datagram)
    requires TableOk(t) && d in t.datagrams && d.key == f.key && WellFormed(f)
    requires t.timeout == 0 || now < d.lastSeen + t.timeout
    ensures AllShaped(t)
    ensures var (r, outcome) := Processed(t, f, now);
            && (outcome.Malformed? <==> Collides(d, f))
            && (outcome.Queued? ==> exists g <- r.datagrams :: g.key == f.key && Extends(d, f, g) && IsOpen(g))
            && (!outcome.Queued? ==> forall g <- r.datagrams :: g.key != f.key)
  {
    hide TableOk, ExpiredFrom, FindKey, IsMalformed, Placed, WellFormed, DatagramOk, Extends, Collides, IsOpen;
    OkIsShaped(t);
    WellFormedExactly(f);
    ExpiryKeepsTheTimely(t, now);
    ExpiryKeepsOk(t, now, 0);
    var live := ExpiredFrom(t, now, 0);
    var i := FindKey(live.datagrams, f.key, 0);
    FoundIsIt(live, d, i);
    PreparedIsOk(t, f, now);
    PlacedOn(live, i, f, now);
  }

  lemma FoundIsIt(t: Table, d: Datagram, i: nat)
    requires TableOk(t) && d in t.datagrams && i == FindKey(t.datagrams, d.key, 0)
    ensures i < |t.datagrams| && t.datagrams[i] == d
  {
    var j :| 0 <= j < |t.datagrams| && t.datagrams[j] == d;
  }

  /** What was there is there, and so is the fragment. */
  predicate Extends(d: Datagram, f: Fragment, g: Datagram) {
    && f.payload.Some? && |g.ranges| == |d.ranges| + 1
    && (forall r <- d.ranges :: r in g.ranges && r.start <= r.end <= |d.data| <= |g.data|
                                && g.data[r.start..r.end] == d.data[r.start..r.end])
    && Range(f.offset, f.End()) in g.ranges && f.End() <= |g.data| && g.data[f.offset..f.End()] == f.payload.value
    && g.header == (if f.offset == 0 then f.header else d.header)
    && g.hasLast == (d.hasLast || !f.more) && g.total == (if f.more then d.total else f.End())
  }

  /** No last fragment yet, or a range beyond its end, or a byte missing below it. */
  ghost predicate IsOpen(g: Datagram) {
    g.hasLast && (forall r <- g.ranges :: r.end <= g.total) ==> exists k | 0 <= k < g.total :: !ByteCovered(g.ranges, k)
  }

  lemma AcceptedExtends(d: Datagram, f: Fragment, now: nat)
    requires DatagramOk(d) && !IsMalformed(f) && !Refused(d, f)
    ensures Extends(d, f, Accepted(Headed(d, f, now), f))
  {
    hide Inserted, Written, Grown, Meets;
    var g := Accepted(Headed(d, f, now), f);
    InsertedAll(d.ranges, Range(f.offset, f.End()));
    WritingHere(d.data, f.offset, f.payload.value, f.End());
    forall r | r in d.ranges
      ensures r.start <= r.end <= |d.data| <= |g.data| && g.data[r.start..r.end] == d.data[r.start..r.end]
    {
      var j :| 0 <= j < |d.ranges| && d.ranges[j] == r;
      ApartFrom(d.ranges, f.offset, f.End(), |d.data|, j);
      WritingElsewhere(d.data, f.offset, f.payload.value, f.End(), r);
    }
  }

  lemma InsertedAll(ranges: seq<Range>, r: Range)
    ensures |Inserted(ranges, r)| == |ranges| + 1 && r in Inserted(ranges, r)
    ensures forall x <- ranges :: x in Inserted(ranges, r)
  {
    var k := InsertIndex(ranges, r.start, |ranges|);
    assert ranges == ranges[..k] + ranges[k..];
  }

  lemma CollidesExactly(d: Datagram, f: Fragment, now: nat)
    ensures Collides(d, f) <==> Refused(d, f)
    ensures Refused(Headed(d, f, now), f) <==> Refused(d, f)
  {
  }

  lemma PlacedOn(t: Table, i: nat, f: Fragment, now: nat)
    requires TableOk(t) && i < |t.datagrams| && t.datagrams[i].key == f.key && !IsMalformed(f)
    ensures Shaped(t.datagrams[i])
    ensures var ((r, outcome), d) := (Placed(t, i, f, now), t.datagrams[i]);
            && (outcome.Malformed? <==> Collides(d, f))
            && (outcome.Queued? ==> exists g <- r.datagrams :: g.key == f.key && Extends(d, f, g) && IsOpen(g))
            && (!outcome.Queued? ==> forall g <- r.datagrams :: g.key != f.key)
  {
    hide IsMalformed, DatagramOk, Refused, Collides, WithoutAt, DataBytes, Accepted, Headed, BuildPacket, IsComplete,
      Additional, Affordable, Extends, IsOpen;
    OkAt(t, i);
    PlacingKeepsOk(t, i, f, now);
    MembersWithout(t.datagrams, i);
    CollidesExactly(t.datagrams[i], f, now);
    AcceptedHasPayload(f);
    AcceptedIsFresh(t.datagrams[i], f, now);
    var accepted := Accepted(Headed(t.datagrams[i], f, now), f);
    if Placed(t, i, f, now).1.Queued? {
      AcceptedExtends(t.datagrams[i], f, now);
      QueuedIsIncomplete(t, i, f, now);
      var r := Placed(t, i, f, now).0.datagrams;
      assert r[i] == accepted;
    }
  }

  lemma QueuedIsIncomplete(t: Table, i: nat, f: Fragment, now: nat)
    requires TableOk(t) && i < |t.datagrams| && t.datagrams[i].key == f.key && !IsMalformed(f)
    ensures Shaped(t.datagrams[i])
    ensures Placed(t, i, f, now).1.Queued? ==>
              && i < |Placed(t, i, f, now).0.datagrams|
              && IsOpen(Placed(t, i, f, now).0.datagrams[i])
  {
    hide IsMalformed, Refused, WithoutAt, DataBytes, Accepted, Headed, BuildPacket, Additional, Affordable,
      ByteCovered, CoversFrom, RangesOk, Shaped;
    OkAt(t, i);
    PlacingKeepsOk(t, i, f, now);
    AcceptedHasPayload(f);
    var accepted := Accepted(Headed(t.datagrams[i], f, now), f);
    if Placed(t, i, f, now).1.Queued? {
      AcceptedIsOk(t.datagrams[i], f, now);
      EndsAfterNothing(t.datagrams[i], f, now);
      if accepted.hasLast && (forall r <- accepted.ranges :: r.end <= accepted.total) {
        WithinTotal(accepted.ranges, |accepted.data|, accepted.total);
        CoverageMeansBytes(accepted.ranges, accepted.total);
      }
    }
  }

  lemma WithinTotal(ranges: seq<Range>, limit: nat, total: nat)
    requires RangesOk(ranges, limit) && forall r <- ranges :: r.end <= total
    ensures RangesOk(ranges, total)
  {
  }

  /** The fragment just accepted has its bytes below the total, if all ranges do. */
  lemma EndsAfterNothing(d: Datagram, f: Fragment, now: nat)
    requires !IsMalformed(f)
    ensures f.payload.Some?
    ensures var g := Accepted(Headed(d, f, now), f);
            (forall r <- g.ranges :: r.end <= g.total) ==> g.total > 0
  {
    var g := Accepted(Headed(d, f, now), f);
    InsertedAll(d.ranges, Range(f.offset, f.End()));
    assert Range(f.offset, f.End()) in g.ranges;
  }
}
