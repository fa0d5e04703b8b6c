/** The fragments of a datagram in every order, mixed with any other traffic. */
module Ipv4Order {
  import opened Bytes
  import opened Ipv4Fragments
  import opened Ipv4Provenance
  import opened Ipv4Reassembly

  /** The next arrival: one part of the datagram, or a fragment of another, possibly malformed. */
  datatype Step = Part(n: nat, now: nat) | Foreign(f: Fragment, now: nat)

  /** Every part at most once; everything else has another key. */
  predicate Mixes(key: Key, parts: seq<Fragment>, steps: seq<Step>) {
    && (forall i | 0 <= i < |steps| :: if steps[i].Part? then steps[i].n < |parts| else steps[i].f.key != key)
    && (forall i, j | 0 <= i < j < |steps| :: steps[i].Part? && steps[j].Part? ==> steps[i].n != steps[j].n)
  }

  function Mix(key: Key, parts: seq<Fragment>, steps: seq<Step>): (arrivals: seq<Arrival>)
    requires Mixes(key, parts, steps)
    ensures |arrivals| == |steps|
  {
    seq(|steps|, i requires 0 <= i < |steps| =>
      match steps[i] case Part(n, now) => Arrival(parts[n], now) case Foreign(f, now) => Arrival(f, now))
  }

  function PartsIn(steps: seq<Step>): set<nat> {
    set i | 0 <= i < |steps| && steps[i].Part? :: steps[i].n
  }

  function LastPart(steps: seq<Step>): nat {
    if steps == [] then 0
    else
      var last := steps[|steps| - 1];
      if last.Part? then last.now else LastPart(steps[..|steps| - 1])
  }

  /** While parts are missing no arrival finds the datagram expired, and each part finds room. */
  ghost predicate InTimeWithRoom(t: Table, key: Key, parts: seq<Fragment>, steps: seq<Step>)
    requires TableOk(t) && Mixes(key, parts, steps)
  {
    steps == [] ||
    var init, s := steps[..|steps| - 1], steps[|steps| - 1];
    && InTimeWithRoom(t, key, parts, init)
    && (0 < |PartsIn(init)| < |parts| ==> t.timeout == 0 || s.now < LastPart(init) + t.timeout)
    && (s.Part? ==> FitsIn(Run(t, Mix(key, parts, init)), parts[s.n], s.now))
  }

  function OutcomeOf(t: Table, arrivals: seq<Arrival>, j: nat): Outcome
    requires TableOk(t) && j < |arrivals|
  {
    var before := Run(t, arrivals[..j]);
    OkIsShaped(before);
    Processed(before, arrivals[j].f, arrivals[j].now).1
  }

  lemma MixesPrefix(key: Key, parts: seq<Fragment>, steps: seq<Step>, j: nat)
    requires Mixes(key, parts, steps) && j <= |steps|
    ensures Mixes(key, parts, steps[..j]) && Mix(key, parts, steps[..j]) == Mix(key, parts, steps)[..j]
  {
  }

  lemma {:induction false} InTimePrefix(t: Table, key: Key, parts: seq<Fragment>, steps: seq<Step>, j: nat)
    requires TableOk(t) && Mixes(key, parts, steps) && InTimeWithRoom(t, key, parts, steps) && j <= |steps|
    ensures Mixes(key, parts, steps[..j]) && InTimeWithRoom(t, key, parts, steps[..j])
    decreases |steps|
  {
    hide TableOk, FitsIn, PartsIn, LastPart;
    if j == |steps| {
      assert steps[..j] == steps;
    } else {
      MixesPrefix(key, parts, steps, |steps| - 1);
      InTimePrefix(t, key, parts, steps[..|steps| - 1], j);
      assert steps[..|steps| - 1][..j] == steps[..j];
    }
  }

  lemma {:induction false} AllBelow(n: nat) returns (all: set<nat>)
    ensures |all| == n && forall x: nat :: x in all <==> x < n
    decreases n
  {
    if n == 0 {
      all := {};
    } else {
      var rest := AllBelow(n - 1);
      all := rest + {n - 1};
    }
  }

  /** All parts are there exactly when their number is. */
  lemma CountDecides(have: set<nat>, n: nat)
    requires forall x <- have :: x < n
    ensures |have| <= n && ((forall i | 0 <= i < n :: i in have) <==> |have| == n)
  {
    var all := AllBelow(n);
    assert have <= all;
    assert |all - have| == n - |have|;
    assert (forall i | 0 <= i < n :: i in have) ==> all - have == {};
    if |have| == n {
      assert all - have == {};
      forall i | 0 <= i < n
        ensures i in have
      {
        assert i in all && i !in all - have;
      }
    }
  }

  lemma PartsInLast(key: Key, parts: seq<Fragment>, steps: seq<Step>)
    requires Mixes(key, parts, steps) && steps != []
    ensures var init, s := steps[..|steps| - 1], steps[|steps| - 1];
            && Mixes(key, parts, init)
            && (s.Part? ==> s.n < |parts| && s.n !in PartsIn(init) && PartsIn(steps) == PartsIn(init) + {s.n})
            && (s.Foreign? ==> s.f.key != key && PartsIn(steps) == PartsIn(init))
    ensures forall x <- PartsIn(steps) :: x < |parts|
  {
    var init, s := steps[..|steps| - 1], steps[|steps| - 1];
    forall x
      ensures x in PartsIn(steps) <==> x in PartsIn(init) || (s.Part? && x == s.n)
    {
      if x in PartsIn(init) {
        var i :| 0 <= i < |init| && init[i].Part? && init[i].n == x;
        assert steps[i] == init[i];
      }
    }
  }

  /** While parts are missing, the table holds exactly those that have arrived. */
  lemma {:induction false} AwaitingAfter(t: Table, key: Key, header: seq<byte>, payload: seq<byte>,
                                         parts: seq<Fragment>, steps: seq<Step>)
    requires Tiling(key, header, payload, parts) && TableOk(t) && (forall d <- t.datagrams :: d.key != key)
    requires Mixes(key, parts, steps) && InTimeWithRoom(t, key, parts, steps) && |PartsIn(steps)| < |parts|
    ensures var before := Run(t, Mix(key, parts, steps));
            && Awaiting(before, key, header, payload, parts, PartsIn(steps), LastPart(steps))
            && before.timeout == t.timeout
    decreases |steps|
  {
    hide Tiling, Awaiting, Processed, PartsIn, TableOk, FitsIn, Mixes;
    if steps == [] {
      NothingYet(t, key, header, payload, parts);
    } else {
      var n := |steps| - 1;
      var init, s := steps[..n], steps[n];
      PartsInLast(key, parts, steps);
      MixesPrefix(key, parts, steps, n);
      AwaitingAfter(t, key, header, payload, parts, init);
      var before := Run(t, Mix(key, parts, init));
      CountDecides(PartsIn(steps), |parts|);
      assert PartsIn(init) == {} <==> |PartsIn(init)| == 0;
      LastArrival(key, parts, steps);
      match s
      case Part(k, now) =>
        PartArrives(before, key, header, payload, parts, PartsIn(init), LastPart(init), k, now);
        ProcessingKeepsOk(before, parts[k], now);
      case Foreign(f, now) =>
        ForeignArrives(before, key, header, payload, parts, PartsIn(init), LastPart(init), f, now);
    }
  }

  lemma LastArrival(key: Key, parts: seq<Fragment>, steps: seq<Step>)
    requires Mixes(key, parts, steps) && steps != []
    ensures var n := |steps| - 1;
            && Mixes(key, parts, steps[..n])
            && Mix(key, parts, steps)[..n] == Mix(key, parts, steps[..n])
            && Mix(key, parts, steps)[n] == match steps[n] case Part(k, now) => Arrival(parts[k], now)
                                            case Foreign(f, now) => Arrival(f, now)
  {
  }

  lemma NothingYet(t: Table, key: Key, header: seq<byte>, payload: seq<byte>, parts: seq<Fragment>)
    requires TableOk(t) && forall d <- t.datagrams :: d.key != key
    ensures Awaiting(Run(t, []), key, header, payload, parts, PartsIn([]), 0)
    ensures Mix(key, parts, []) == []
  {
    assert PartsIn([]) == {};
  }

  /** Order independence amid any traffic: the parts of a datagram, in any order, mixed with fragments of other
      datagrams, are all queued except the last to arrive. That one yields the original payload behind the header of
      the offset-0 part, or is dropped when that header makes the packet longer than 65535 bytes. */
  lemma ArrivalOrderDoesNotMatter(t: Table, key: Key, header: seq<byte>, payload: seq<byte>, parts: seq<Fragment>,
                                  steps: seq<Step>, j: nat)
    requires Tiling(key, header, payload, parts) && TableOk(t) && (forall d <- t.datagrams :: d.key != key)
    requires Mixes(key, parts, steps) && InTimeWithRoom(t, key, parts, steps) && j < |steps| && steps[j].Part?
    ensures |header| >= 20
    ensures OutcomeOf(t, Mix(key, parts, steps), j)
         == if |PartsIn(steps[..j + 1])| < |parts| then Queued else Whole(header, payload)
  {
    hide Tiling, Awaiting, Processed, PartsIn, TableOk, Run, FitsIn, Mixes, LastPart;
    var upTo, init := steps[..j + 1], steps[..j];
    InTimePrefix(t, key, parts, steps, j + 1);
    MixesPrefix(key, parts, steps, j + 1);
    MixesPrefix(key, parts, steps, j);
    assert upTo[..j] == init && upTo[j] == steps[j];
    PartsInLast(key, parts, upTo);
    CountDecides(PartsIn(upTo), |parts|);
    assert |PartsIn(init)| < |PartsIn(upTo)|;
    InTimePrefix(t, key, parts, steps, j);
    AwaitingAfter(t, key, header, payload, parts, init);
    assert PartsIn(init) == {} <==> |PartsIn(init)| == 0;
    LastArrival(key, parts, upTo);
    assert Mix(key, parts, steps)[j] == Mix(key, parts, upTo)[j];
    PartArrives(Run(t, Mix(key, parts, init)), key, header, payload, parts, PartsIn(init), LastPart(init), steps[j].n,
                steps[j].now);
  }

  // ----- a condition on the table at the start alone, when nothing else arrives -----

  /** The table can pay for what the datagram still lacks. */
  ghost predicate Funded(t: Table, key: Key, payload: seq<byte>) {
    && TableOk(t)
    && (forall d <- t.datagrams :: d.key == key ==> t.usedBytes - |d.data| + |payload| <= t.maxBytes)
    && ((forall d <- t.datagrams :: d.key != key) ==>
          |t.datagrams| < t.maxDatagrams && t.usedBytes + |payload| <= t.maxBytes)
  }

  lemma FundedFits(t: Table, key: Key, payload: seq<byte>, f: Fragment, now: nat)
    requires Funded(t, key, payload) && !IsMalformed(f) && f.key == key && f.End() <= |payload|
    requires forall d <- t.datagrams :: d.key == key ==> !IsExpired(d, now, t.timeout)
    ensures FitsIn(t, f, now)
  {
    hide IsExpired, ExpiredFrom, FindKey, IsMalformed, DatagramOk, AllOk, DataBytes, KeysDistinct, NewDatagram;
    ExpiryKeepsOk(t, now, 0);
    var live := ExpiredFrom(t, now, 0);
    var i := FindKey(live.datagrams, key, 0);
    NewIsEmpty(f, now);
    if i < |live.datagrams| {
      assert live.datagrams[i] in t.datagrams;
    } else {
      assert forall d <- t.datagrams :: d.key == key ==> d in live.datagrams;
    }
  }

  lemma NewIsEmpty(f: Fragment, now: nat)
    ensures NewDatagram(f, now).data == [] && NewDatagram(f, now).key == f.key
  {
  }

  lemma FundedStays(t: Table, key: Key, payload: seq<byte>, f: Fragment, now: nat)
    requires Funded(t, key, payload) && !IsMalformed(f) && f.key == key && f.End() <= |payload|
    requires HasRoom(t, f, now) && AllShaped(t) && Processed(t, f, now).1.Queued?
    requires forall d <- t.datagrams :: d.key == key ==> !IsExpired(d, now, t.timeout)
    ensures Funded(Processed(t, f, now).0, key, payload)
  {
    hide IsExpired, ExpiredFrom, FindKey, IsMalformed, DatagramOk, AllOk, DataBytes, Placed, Processed, NewDatagram,
      Accepted, Headed, Shaped, AllShaped, HasRoom, Refused;
    var p, i := Prepared(t, f, now), FindKey(ExpiredFrom(t, now, 0).datagrams, f.key, 0);
    PreparedIsOk(t, f, now);
    PlacingKeepsOk(p, i, f, now);
    AcceptedHasPayload(f);
    var d, accepted := p.datagrams[i], Accepted(Headed(p.datagrams[i], f, now), f);
    BytesWithUpdate(p.datagrams, i, accepted);
    PreparedIsFunded(t, key, payload, f, now);
    AcceptedKeepsKey(d, f, now);
    var r := Processed(t, f, now).0;
    assert r.usedBytes - |accepted.data| == p.usedBytes - |d.data|;
    forall e | e in r.datagrams && e.key == key
      ensures e == accepted
    {
      var j :| 0 <= j < |r.datagrams| && r.datagrams[j] == e;
      assert r.datagrams[i] == accepted;
    }
    assert accepted in r.datagrams by { assert r.datagrams[i] == accepted; }
  }

  lemma PreparedIsFunded(t: Table, key: Key, payload: seq<byte>, f: Fragment, now: nat)
    requires Funded(t, key, payload) && !IsMalformed(f) && f.key == key && HasRoom(t, f, now)
    requires forall d <- t.datagrams :: d.key == key ==> !IsExpired(d, now, t.timeout)
    ensures Prepared(t, f, now).usedBytes - |Target(t, f, now).data| + |payload| <= t.maxBytes
  {
    hide IsExpired, ExpiredFrom, FindKey, IsMalformed, DatagramOk, AllOk, DataBytes, KeysDistinct, NewDatagram;
    ExpiryKeepsOk(t, now, 0);
    NewIsEmpty(f, now);
    var live := ExpiredFrom(t, now, 0);
    var i := FindKey(live.datagrams, key, 0);
    if i < |live.datagrams| {
      assert live.datagrams[i] in t.datagrams;
    } else {
      assert forall d <- t.datagrams :: d.key == key ==> d in live.datagrams;
    }
  }

  /** Each part comes before the timeout that the one before it started. */
  predicate Timely(steps: seq<Step>, timeout: nat) {
    forall j | 0 < j < |steps| :: timeout == 0 || steps[j].now < steps[j - 1].now + timeout
  }

  lemma {:induction false} AllPartsCount(key: Key, parts: seq<Fragment>, steps: seq<Step>)
    requires Mixes(key, parts, steps) && forall i | 0 <= i < |steps| :: steps[i].Part?
    ensures |PartsIn(steps)| == |steps| && |steps| <= |parts|
    ensures steps != [] ==> LastPart(steps) == steps[|steps| - 1].now
    decreases |steps|
  {
    if steps == [] {
      assert PartsIn(steps) == {};
    } else {
      PartsInLast(key, parts, steps);
      AllPartsCount(key, parts, steps[..|steps| - 1]);
      CountDecides(PartsIn(steps), |parts|);
    }
  }

  lemma AwaitedIsAlive(t: Table, key: Key, header: seq<byte>, payload: seq<byte>, parts: seq<Fragment>, have: set<nat>,
                       last: nat, now: nat)
    requires Awaiting(t, key, header, payload, parts, have, last)
    requires have != {} ==> (t.timeout == 0 || now < last + t.timeout)
    ensures forall d <- t.datagrams :: d.key == key ==> !IsExpired(d, now, t.timeout)
  {
    hide Collected, AllOk, DataBytes;
    if have != {} {
      var e :| e in t.datagrams && e.key == key && e.lastSeen == last && Collected(header, payload, parts, have, e);
      forall d | d in t.datagrams && d.key == key
        ensures d == e
      {
        var i :| 0 <= i < |t.datagrams| && t.datagrams[i] == d;
        SameKeySameDatagram(t.datagrams, e, i);
      }
    }
  }

  lemma {:induction false} RoomFollows(t: Table, key: Key, header: seq<byte>, payload: seq<byte>, parts: seq<Fragment>,
                                       steps: seq<Step>)
    requires Tiling(key, header, payload, parts) && Funded(t, key, payload) && (forall d <- t.datagrams :: d.key != key)
    requires Mixes(key, parts, steps) && (forall i | 0 <= i < |steps| :: steps[i].Part?) && Timely(steps, t.timeout)
    ensures InTimeWithRoom(t, key, parts, steps)
    ensures |steps| < |parts| ==> Funded(Run(t, Mix(key, parts, steps)), key, payload)
    decreases |steps|
  {
    hide Tiling, Awaiting, Processed, PartsIn, TableOk, FitsIn, Mixes, Funded, LastPart;
    FundedIsOk(t, key, payload);
    if steps == [] {
      NothingYet(t, key, header, payload, parts);
    } else {
      var n := |steps| - 1;
      var init, s := steps[..n], steps[n];
      MixesPrefix(key, parts, steps, n);
      RoomFollows(t, key, header, payload, parts, init);
      AllPartsCount(key, parts, init);
      AllPartsCount(key, parts, steps);
      AwaitingAfter(t, key, header, payload, parts, init);
      var before := Run(t, Mix(key, parts, init));
      assert PartsIn(init) == {} <==> |PartsIn(init)| == 0;
      LastArrival(key, parts, steps);
      PartsInLast(key, parts, steps);
      assert parts[s.n].key == key && !IsMalformed(parts[s.n]) && parts[s.n].End() <= |payload| by {
        TileBounds(key, header, payload, parts, s.n);
      }
      AwaitedIsAlive(before, key, header, payload, parts, PartsIn(init), LastPart(init), s.now);
      FundedFits(before, key, payload, parts[s.n], s.now);
      PartArrives(before, key, header, payload, parts, PartsIn(init), LastPart(init), s.n, s.now);
      CountDecides(PartsIn(steps), |parts|);
      if |steps| < |parts| {
        assert HasRoom(before, parts[s.n], s.now) by { FitsHasRoom(before, parts[s.n], s.now); }
        FundedStays(before, key, payload, parts[s.n], s.now);
      }
    }
  }

  lemma FundedIsOk(t: Table, key: Key, payload: seq<byte>)
    requires Funded(t, key, payload)
    ensures TableOk(t)
  {
  }

  lemma FitsHasRoom(t: Table, f: Fragment, now: nat)
    requires FitsIn(t, f, now)
    ensures HasRoom(t, f, now)
  {
  }

  lemma TileBounds(key: Key, header: seq<byte>, payload: seq<byte>, parts: seq<Fragment>, n: nat)
    requires Tiling(key, header, payload, parts) && n < |parts|
    ensures parts[n].key == key && !IsMalformed(parts[n]) && parts[n].End() <= |payload|
  {
  }

  /** With nothing else arriving, room at the start suffices: a slot and the payload's bytes. All parts but the last are
      queued, in every order, and the last yields the whole. */
  lemma AnyOrderReassembles(t: Table, key: Key, header: seq<byte>, payload: seq<byte>, parts: seq<Fragment>,
                            steps: seq<Step>, j: nat)
    requires Tiling(key, header, payload, parts) && TableOk(t) && (forall d <- t.datagrams :: d.key != key)
    requires |t.datagrams| < t.maxDatagrams && t.usedBytes + |payload| <= t.maxBytes
    requires Mixes(key, parts, steps) && |steps| == |parts| && (forall i | 0 <= i < |steps| :: steps[i].Part?)
    requires Timely(steps, t.timeout) && j < |steps|
    ensures |header| >= 20
    ensures OutcomeOf(t, Mix(key, parts, steps), j) == if j < |parts| - 1 then Queued else Whole(header, payload)
  {
    hide Tiling, PartsIn, TableOk, Mixes, InTimeWithRoom, OutcomeOf;
    RoomFollows(t, key, header, payload, parts, steps);
    MixesPrefix(key, parts, steps, j + 1);
    AllPartsCount(key, parts, steps[..j + 1]);
    ArrivalOrderDoesNotMatter(t, key, header, payload, parts, steps, j);
  }
}
