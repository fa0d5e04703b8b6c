/** The fragment table updated in place (src/ipv4_frag.c), proved against the functions on values. */
module Ipv4Table {
  import opened Bytes
  import opened Ipv4Fragments
  import opened Ipv4Provenance

  class PartialDatagram {
    var key: Key
    var lastSeen: nat
    var header: seq<byte>
    var data: array<byte>
    var hasLast: bool
    var total: nat
    const ranges: array<Range>
    var rangeCount: nat

    ghost predicate Valid()
      reads this, ranges
    {
      ranges.Length == MAX_RANGES && rangeCount <= MAX_RANGES
    }

    ghost function View(): Datagram
      requires Valid()
      reads this, ranges, data
    {
      Datagram(key, lastSeen, header, data[..], hasLast, total, ranges[..rangeCount])
    }

    /** `create_datagram`. */
    constructor (f: Fragment, now: nat)
      ensures Valid() && View() == NewDatagram(f, now)
      ensures fresh(ranges) && fresh(data)
    {
      key, lastSeen, header, hasLast, total, rangeCount := f.key, now, f.header, false, 0, 0;
      data := new byte[0];
      ranges := new Range[MAX_RANGES](_ => Range(0, 0));
    }

    method RangeOverlaps(start: nat, end: nat) returns (overlaps: bool)
      requires Valid()
      ensures overlaps == Overlaps(ranges[..rangeCount], start, end)
    {
      for i := 0 to rangeCount
        invariant forall j | 0 <= j < i :: !Meets(ranges[..rangeCount][j], start, end)
      {
        if start < ranges[i].end && end > ranges[i].start {
          assert Meets(ranges[..rangeCount][i], start, end);
          return true;
        }
      }
      return false;
    }

    /** Sorted insertion from the back; later ranges shift up one slot at a time. */
    method AddRange(start: nat, end: nat) returns (ok: bool)
      requires Valid()
      modifies this`rangeCount, ranges
      ensures Valid() && ok == (old(rangeCount) < MAX_RANGES)
      ensures ranges[..rangeCount]
           == if ok then Inserted(old(ranges[..rangeCount]), Range(start, end)) else old(ranges[..rangeCount])
    {
      hide Inserted;
      if rangeCount >= MAX_RANGES {
        return false;
      }
      hide InsertIndex;
      ghost var before := ranges[..rangeCount];
      var index := rangeCount;
      while index > 0 && ranges[index - 1].start > start
        invariant 0 <= index <= rangeCount < MAX_RANGES && |before| == rangeCount
        invariant InsertIndex(before, start, rangeCount) == InsertIndex(before, start, index)
        invariant forall j | 0 <= j < index :: ranges[j] == before[j]
        invariant forall j | index <= j < rangeCount :: ranges[j + 1] == before[j]
      {
        ranges[index] := ranges[index - 1];
        index := index - 1;
      }
      ranges[index] := Range(start, end);
      rangeCount := rangeCount + 1;
      ShiftedInsert(before, ranges[..rangeCount], index, Range(start, end));
      return true;
    }

    method CoverageIsComplete() returns (complete: bool)
      requires Valid()
      ensures complete == IsComplete(View())
    {
      if !hasLast || total == 0 {
        return false;
      }
      var covered: nat := 0;
      ghost var all := ranges[..rangeCount];
      for i := 0 to rangeCount
        invariant CoversFrom(all, 0, 0, total) == CoversFrom(all, i, covered, total)
      {
        if ranges[i].start != covered {
          return false;
        }
        covered := ranges[i].end;
        if covered == total {
          return true;
        }
        if covered > total {
          return false;
        }
      }
      return false;
    }

    /** The header and the range of a fragment are taken in, unless it is to be refused. */
    method Enter(f: Fragment, now: nat) returns (ok: bool)
      requires Valid()
      modifies this`header, this`lastSeen, this`rangeCount, ranges
      ensures Valid() && ok == !Refused(Headed(old(View()), f, now), f)
      ensures View() == if ok then Ranged(Headed(old(View()), f, now), f) else Headed(old(View()), f, now)
    {
      hide Inserted, Overlaps;
      if f.offset == 0 {
        header := f.header;
      }
      lastSeen := now;
      var overlaps := RangeOverlaps(f.offset, f.End());
      if overlaps {
        return false;
      }
      ok := AddRange(f.offset, f.End());
    }

    /** `realloc` with the new bytes zeroed. */
    method Grow(capacity: nat)
      requires Valid() && data.Length < capacity
      modifies this`data
      ensures Valid() && View() == old(View()).(data := Grown(old(data[..]), capacity))
      ensures fresh(data) && data.Length == capacity
    {
      var bigger := new byte[capacity](_ => 0);
      forall i | 0 <= i < data.Length {
        bigger[i] := data[i];
      }
      assert bigger[..] == Grown(data[..], capacity);
      data := bigger;
    }

    method Store(start: nat, bytes: seq<byte>)
      requires Valid() && start + |bytes| <= data.Length
      modifies data
      ensures Valid() && View() == old(View()).(data := Written(old(data[..]), start, bytes))
    {
      forall i | 0 <= i < |bytes| {
        data[start + i] := bytes[i];
      }
      assert data[..] == Written(old(data[..]), start, bytes);
    }

    /** The payload is copied in, and the last fragment declares the total. */
    method Fill(f: Fragment)
      requires Valid() && f.payload.Some?
      modifies this`data, this`hasLast, this`total, data
      ensures Valid() && View() == Filled(old(View()), f)
      ensures data == old(data) || fresh(data)
    {
      hide Written;
      if data.Length < f.End() {
        Grow(f.End());
      }
      Store(f.offset, f.payload.value);
      if !f.more {
        hasLast, total := true, f.End();
      }
    }

    /** `build_packet`. */
    method Build() returns (packet: seq<byte>)
      requires Valid() && Shaped(View()) && |header| + total <= MAX_TOTAL_LENGTH
      ensures packet == BuildPacket(View())
    {
      hide BuildPacket;
      packet := header + data[..total];
      packet := WriteU16(packet, 2, |header| + total);
      packet := WriteU16(packet, 6, KeptFlags(U16(packet, 6)));
      packet := WriteU16(packet, 10, 0);
      BuildsPacket(View());
    }
  }

  lemma ShiftedInsert(before: seq<Range>, after: seq<Range>, index: nat, r: Range)
    requires |after| == |before| + 1 && index <= |before| && index == InsertIndex(before, r.start, |before|)
    requires after[index] == r && forall j | 0 <= j < index :: after[j] == before[j]
    requires forall j | index <= j < |before| :: after[j + 1] == before[j]
    ensures after == Inserted(before, r)
  {
    hide InsertIndex;
    ElementsShifted(before, after, index);
  }

  lemma ElementsShifted<T>(before: seq<T>, after: seq<T>, index: nat)
    requires |after| == |before| + 1 && index <= |before|
    requires forall j | 0 <= j < index :: after[j] == before[j]
    requires forall j | index <= j < |before| :: after[j + 1] == before[j]
    ensures after == before[..index] + [after[index]] + before[index..]
  {
    var expected := before[..index] + [after[index]] + before[index..];
    forall j | 0 <= j < |after|
      ensures after[j] == expected[j]
    {
      if j > index {
        assert after[j - 1 + 1] == before[j - 1];
      }
    }
  }

  /** `write_u16_network`. */
  function WriteU16(packet: seq<byte>, at: nat, value: uint16): (r: seq<byte>)
    requires at + 2 <= |packet|
    ensures |r| == |packet|
  {
    packet[..at] + U16Bytes(value) + packet[at + 2..]
  }

  /** Of the flags and the fragment offset only the two bits above more-fragments stay. */
  function KeptFlags(flags: uint16): uint16 {
    flags / 0x4000 * 0x4000
  }

  lemma BuildsPacket(d: Datagram)
    requires Shaped(d) && |d.header| + d.total <= MAX_TOTAL_LENGTH
    ensures var p1 := WriteU16(d.header + d.data[..d.total], 2, |d.header| + d.total);
            WriteU16(WriteU16(p1, 6, KeptFlags(U16(p1, 6))), 10, 0) == BuildPacket(d)
  {
    hide U16, KeptFlags;
    var length := U16Bytes(|d.header| + d.total);
    var p1 := WriteU16(d.header + d.data[..d.total], 2, |d.header| + d.total);
    FlagsOf(p1, d.header[6], d.header[7]);
    WritesInOrder(d.header, d.data[..d.total], length, [d.header[6] / 64 * 64, 0]);
  }

  lemma FlagsOf(packet: seq<byte>, high: byte, low: byte)
    requires |packet| >= 8 && packet[6] == high && packet[7] == low
    ensures U16Bytes(KeptFlags(U16(packet, 6))) == [high / 64 * 64, 0]
  {
    KeptFlagsBytes(high, low);
    assert U16(packet, 6) == U16([high, low], 0);
  }

  /** Overwriting three pairs of bytes one after the other is replacing them side by side. */
  lemma WritesInOrder(header: seq<byte>, rest: seq<byte>, length: seq<byte>, flags: seq<byte>)
    requires |header| >= 20 && |length| == |flags| == 2
    ensures var p := header + rest;
            var p1 := p[..2] + length + p[4..];
            var p2 := p1[..6] + flags + p1[8..];
            p2[..10] + [0, 0] + p2[12..]
            == header[..2] + length + header[4..6] + flags + header[8..10] + [0, 0] + header[12..] + rest
  {
    var p := header + rest;
    var p1 := p[..2] + length + p[4..];
    assert p1
        == header[..2] + length + header[4..6] + header[6..8] + header[8..10] + header[10..12] + header[12..] + rest;
    var p2 := p1[..6] + flags + p1[8..];
    assert p2 == header[..2] + length + header[4..6] + flags + header[8..10] + header[10..12] + header[12..] + rest;
  }

  lemma KeptFlagsBytes(high: byte, low: byte)
    ensures U16Bytes(KeptFlags(U16([high, low], 0))) == [high / 64 * 64, 0]
  {
    var h: int, l: int := high, low;
    assert (h * 256 + l) / 0x4000 == h / 64;
  }

  // ----- the objects of a table -----

  ghost function Footprint(ds: seq<PartialDatagram>): set<object>
    reads ds
  {
    (set d <- ds :: d as object) + (set d <- ds :: d.ranges as object) + (set d <- ds :: d.data as object)
  }

  /** Every object is valid, and no two share an array. */
  ghost predicate WellFormed(ds: seq<PartialDatagram>)
    reads ds, Footprint(ds)
  {
    && (forall i | 0 <= i < |ds| :: ds[i].Valid())
    && forall i, j | 0 <= i < j < |ds| :: ds[i] != ds[j] && ds[i].ranges != ds[j].ranges && ds[i].data != ds[j].data
  }

  ghost function Views(ds: seq<PartialDatagram>): (v: seq<Datagram>)
    requires WellFormed(ds)
    reads ds, Footprint(ds)
    ensures |v| == |ds| && forall i | 0 <= i < |ds| :: v[i] == ds[i].View()
  {
    seq(|ds|, i requires 0 <= i < |ds| && ds[i].Valid() reads ds, Footprint(ds) => ds[i].View())
  }

  lemma ViewsWithout(ds: seq<PartialDatagram>, index: nat)
    requires WellFormed(ds) && index < |ds|
    ensures var rest := ds[..index] + ds[index + 1..];
            WellFormed(rest) && Views(rest) == WithoutAt(Views(ds), index)
    ensures forall d <- ds[..index] + ds[index + 1..] :: d in ds
  {
    var rest := ds[..index] + ds[index + 1..];
    assert forall j | 0 <= j < |rest| :: rest[j] == ds[if j < index then j else j + 1];
  }

  lemma ViewsWithNew(ds: seq<PartialDatagram>, d: PartialDatagram)
    requires WellFormed(ds) && d.Valid() && {d, d.ranges, d.data} !! Footprint(ds)
    ensures WellFormed(ds + [d]) && Views(ds + [d]) == Views(ds) + [d.View()]
  {
    hide PartialDatagram.View, PartialDatagram.Valid;
    forall i | 0 <= i < |ds|
      ensures ds[i] != d && ds[i].ranges != d.ranges && ds[i].data != d.data
    {
      InFootprint(ds, i);
    }
    assert WellFormed(ds + [d]);
    assert Views(ds + [d]) == Views(ds) + [d.View()];
  }

  /** Where only the object at `index` may have changed, its view is the only one that did. */
  lemma OneChanged(ds: seq<PartialDatagram>, before: seq<Datagram>, index: nat)
    requires WellFormed(ds) && |before| == |ds| && index < |ds|
    requires forall j | 0 <= j < |ds| && j != index :: ds[j].View() == before[j]
    ensures Views(ds) == before[index := ds[index].View()]
  {
  }

  class FragmentTable {
    var datagrams: seq<PartialDatagram>
    var usedBytes: nat
    const maxDatagrams: nat
    const maxBytes: nat
    const timeout: nat

    ghost function View(): Table
      requires WellFormed(datagrams)
      reads this, datagrams, Footprint(datagrams)
    {
      Table(Views(datagrams), maxDatagrams, maxBytes, usedBytes, timeout)
    }

    ghost predicate Valid()
      reads this, datagrams, Footprint(datagrams)
    {
      WellFormed(datagrams) && TableOk(View())
    }

    /** `ipv4_fragment_table_init` past its guard. */
    constructor (datagramLimit: nat, byteLimit: nat, timeoutSeconds: nat)
      ensures Valid() && View() == Empty(datagramLimit, byteLimit, timeoutSeconds)
    {
      datagrams, usedBytes := [], 0;
      maxDatagrams, maxBytes, timeout := datagramLimit, byteLimit, timeoutSeconds;
    }

    /** `remove_datagram_at`: the later ones move up, the bytes are given back. */
    method RemoveDatagramAt(index: nat)
      requires WellFormed(datagrams) && index < |datagrams|
      modifies this`datagrams, this`usedBytes
      ensures WellFormed(datagrams) && View() == RemovedAt(old(View()), index)
      ensures Footprint(datagrams) <= old(Footprint(datagrams))
    {
      hide WellFormed, Views;
      ghost var rest := datagrams[..index] + datagrams[index + 1..];
      assert this !in Footprint(rest);
      ViewsWithout(datagrams, index);
      ReleasedIsSize(datagrams, index);
      assert Footprint(rest) <= Footprint(datagrams);
      var released := datagrams[index].data.Length;
      usedBytes := if usedBytes >= released then usedBytes - released else 0;
      datagrams := datagrams[..index] + datagrams[index + 1..];
    }

    method Expire(now: nat)
      requires WellFormed(datagrams)
      modifies this`datagrams, this`usedBytes
      ensures WellFormed(datagrams) && View() == ExpiredFrom(old(View()), now, 0)
      ensures Footprint(datagrams) <= old(Footprint(datagrams))
    {
      hide WellFormed, Views, Footprint;
      if timeout == 0 {
        NothingExpires(View(), now, 0);
        return;
      }
      var i := 0;
      while i < |datagrams|
        invariant WellFormed(datagrams) && 0 <= i <= |datagrams|
        invariant ExpiredFrom(View(), now, i) == ExpiredFrom(old(View()), now, 0)
        invariant Footprint(datagrams) <= old(Footprint(datagrams))
        decreases |datagrams| - i
      {
        ViewAt(datagrams, i);
        var idle := if now >= datagrams[i].lastSeen then now - datagrams[i].lastSeen else 0;
        if idle >= timeout {
          RemoveDatagramAt(i);
        } else {
          i := i + 1;
        }
      }
    }

    method FindDatagram(key: Key) returns (index: nat)
      requires WellFormed(datagrams)
      ensures WellFormed(datagrams) && View() == old(View()) && index == FindKey(View().datagrams, key, 0)
    {
      hide WellFormed, Views;
      index := 0;
      while index < |datagrams|
        invariant WellFormed(datagrams) && index <= |datagrams|
        invariant FindKey(Views(datagrams), key, 0) == FindKey(Views(datagrams), key, index)
      {
        ViewAt(datagrams, index);
        if datagrams[index].key == key {
          return;
        }
        index := index + 1;
      }
    }

    /** The end of `ipv4_fragment_table_process`: a complete datagram is rebuilt and leaves the table. */
    method Conclude(index: nat) returns (outcome: Outcome)
      requires WellFormed(datagrams) && index < |datagrams| && Shaped(View().datagrams[index])
      modifies this`datagrams, this`usedBytes
      ensures WellFormed(datagrams) && (View(), outcome) == Concluded(old(View()), index)
    {
      hide Views, IsComplete, BuildPacket, Shaped, RemovedAt;
      ghost var before := Views(datagrams);
      var d := datagrams[index];
      ViewAt(datagrams, index);
      var complete := d.CoverageIsComplete();
      OneChanged(datagrams, before, index);
      assert Views(datagrams) == before;
      if !complete {
        return Queued;
      }
      if |d.header| + d.total > MAX_TOTAL_LENGTH {
        RemoveDatagramAt(index);
        return Dropped;
      }
      var packet := d.Build();
      OneChanged(datagrams, before, index);
      RemoveDatagramAt(index);
      return Reassembled(packet);
    }

    method EnterAt(index: nat, f: Fragment, now: nat) returns (entered: bool)
      requires WellFormed(datagrams) && index < |datagrams|
      modifies datagrams[index], datagrams[index].ranges
      ensures WellFormed(datagrams) && datagrams[index].data == old(datagrams[index].data)
      ensures var d := Headed(old(View()).datagrams[index], f, now);
              && entered == !Refused(d, f)
              && View() == old(View()).(
                             datagrams := old(Views(datagrams))[index := if entered then Ranged(d, f) else d])
    {
      hide Views, Refused, Ranged, Headed;
      ghost var before := Views(datagrams);
      ViewAt(datagrams, index);
      entered := datagrams[index].Enter(f, now);
      OneChanged(datagrams, before, index);
    }

    /** Whether `ensure_capacity` grants the bytes the datagram lacks, and how many they are. */
    method Lacking(index: nat, capacity: nat) returns (additional: nat, granted: bool)
      requires WellFormed(datagrams) && index < |datagrams|
      ensures WellFormed(datagrams) && View() == old(View())
      ensures additional == Additional(View().datagrams[index], capacity) && granted == Affordable(View(), additional)
    {
      hide Views;
      ReleasedIsSize(datagrams, index);
      var had := datagrams[index].data.Length;
      if capacity <= had {
        return 0, true;
      }
      additional := capacity - had;
      granted := !(additional > maxBytes || usedBytes > maxBytes - additional);
    }

    method FillAt(index: nat, f: Fragment, additional: nat)
      requires WellFormed(datagrams) && index < |datagrams| && f.payload.Some?
      modifies this`usedBytes, datagrams[index], datagrams[index].data
      ensures WellFormed(datagrams)
      ensures View() == old(View()).(
                          datagrams := old(Views(datagrams))[index := Filled(old(Views(datagrams))[index], f)],
                          usedBytes := old(usedBytes) + additional)
    {
      hide Views, Filled;
      ghost var before := Views(datagrams);
      ViewAt(datagrams, index);
      usedBytes := usedBytes + additional;
      datagrams[index].Fill(f);
      OneChanged(datagrams, before, index);
    }

    /** The fragment meets the datagram of its key. */
    method Place(index: nat, f: Fragment, now: nat) returns (outcome: Outcome)
      requires WellFormed(datagrams) && index < |datagrams| && !IsMalformed(f) && Shaped(View().datagrams[index])
      modifies this`datagrams, this`usedBytes, datagrams[index], datagrams[index].ranges, datagrams[index].data
      ensures WellFormed(datagrams) && (View(), outcome) == Placed(old(View()), index, f, now)
    {
      hide WellFormed, Views, Refused, BuildPacket, IsMalformed, Shaped, RemovedAt, Ranged, Filled, Footprint,
        Headed, Concluded, Additional, Affordable, PartialDatagram.View, PartialDatagram.Valid;
      ghost var before := View();
      ghost var d := Headed(before.datagrams[index], f, now);
      AcceptedIsShaped(before.datagrams[index], f, now);
      AcceptedHasPayload(f);
      SizesStay(before, index, f, now);
      var entered := EnterAt(index, f, now);
      if !entered {
        RemovedAfterUpdate(before, index, d);
        RemoveDatagramAt(index);
        return Malformed;
      }
      var additional, granted := Lacking(index, f.End());
      if !granted {
        RemovedAfterUpdate(before, index, Ranged(d, f));
        RemoveDatagramAt(index);
        return Dropped;
      }
      FillAt(index, f, additional);
      assert View().datagrams == before.datagrams[index := Accepted(d, f)];
      outcome := Conclude(index);
    }

    method Allocate(f: Fragment, now: nat) returns (d: PartialDatagram)
      requires WellFormed(datagrams)
      ensures WellFormed(datagrams) && View() == old(View())
      ensures d.Valid() && d.View() == NewDatagram(f, now)
      ensures fresh({d, d.ranges, d.data}) && {d, d.ranges, d.data} !! Footprint(datagrams)
    {
      hide NewDatagram;
      d := new PartialDatagram(f, now);
    }

    method Create(f: Fragment, now: nat)
      requires WellFormed(datagrams)
      modifies this`datagrams
      ensures WellFormed(datagrams)
              && View() == old(View()).(datagrams := old(Views(datagrams)) + [NewDatagram(f, now)])
      ensures fresh(Footprint(datagrams) - old(Footprint(datagrams)))
    {
      hide Views, WellFormed, NewDatagram, PartialDatagram.View, PartialDatagram.Valid;
      var d := Allocate(f, now);
      ViewsWithNew(datagrams, d);
      assert this !in Footprint(datagrams + [d]);
      datagrams := datagrams + [d];
    }

    /** `ipv4_fragment_table_process`. */
    method Process(f: Fragment, now: nat) returns (outcome: Outcome)
      requires Valid()
      modifies this`datagrams, this`usedBytes, Footprint(datagrams)
      ensures Valid()
      ensures (View(), outcome) == (OkIsShaped(old(View())); Processed(old(View()), f, now))
    {
      hide WellFormed, Views, Footprint, TableOk, Placed, IsMalformed, Shaped, PartialDatagram.View,
        PartialDatagram.Valid;
      ghost var before := View();
      ProcessingKeepsOk(before, f, now);
      if !f.isFragment {
        return Ignored;
      }
      Expire(now);
      ExpiryKeepsOk(before, now, 0);
      if IsMalformed(f) {
        return Malformed;
      }
      var index := FindDatagram(f.key);
      ExpiryKeepsShape(before, now, 0);
      if index == |datagrams| {
        if |datagrams| >= maxDatagrams {
          return Dropped;
        }
        Create(f, now);
      }
      NewIsShaped(f, now);
      InFootprint(datagrams, index);
      outcome := Place(index, f, now);
    }
  }

  /** `ipv4_fragment_table_init`. */
  method InitFragmentTable(datagramLimit: nat, byteLimit: nat, timeoutSeconds: nat) returns (table: FragmentTable?)
    ensures table != null <==> 0 < datagramLimit <= 1024 && 0 < byteLimit <= 16777216
    ensures table != null ==>
              fresh(table) && table.Valid() && table.View() == Empty(datagramLimit, byteLimit, timeoutSeconds)
  {
    if !InitAccepts(datagramLimit, byteLimit) {
      return null;
    }
    table := new FragmentTable(datagramLimit, byteLimit, timeoutSeconds);
  }

  /** Taking in the header and the range does not change what the datagram holds or lacks. */
  lemma SizesStay(t: Table, i: nat, f: Fragment, now: nat)
    requires i < |t.datagrams|
    ensures var d := Headed(t.datagrams[i], f, now);
            && |d.data| == |Ranged(d, f).data| == |t.datagrams[i].data|
            && Additional(Ranged(d, f), f.End()) == Additional(d, f.End())
            && forall n: nat :: Affordable(t.(datagrams := t.datagrams[i := Ranged(d, f)]), n) == Affordable(t, n)
  {
  }

  lemma NewIsShaped(f: Fragment, now: nat)
    requires !IsMalformed(f)
    ensures Shaped(NewDatagram(f, now))
  {
  }

  lemma InFootprint(ds: seq<PartialDatagram>, i: nat)
    requires i < |ds|
    ensures {ds[i], ds[i].ranges, ds[i].data} <= Footprint(ds)
  {
    var d := ds[i];
    assert d in ds;
    assert d in Footprint(ds) && d.ranges in Footprint(ds) && d.data in Footprint(ds);
  }

  /** What happened to the removed datagram does not matter beyond its size. */
  lemma RemovedAfterUpdate(t: Table, i: nat, d: Datagram)
    requires i < |t.datagrams| && |d.data| == |t.datagrams[i].data|
    ensures RemovedAt(t.(datagrams := t.datagrams[i := d]), i) == RemovedAt(t, i)
  {
  }

  lemma ViewAt(ds: seq<PartialDatagram>, i: nat)
    requires WellFormed(ds) && i < |ds|
    ensures ds[i].Valid() && Views(ds)[i] == ds[i].View()
  {
  }

  lemma ReleasedIsSize(ds: seq<PartialDatagram>, i: nat)
    requires WellFormed(ds) && i < |ds|
    ensures |Views(ds)[i].data| == ds[i].data.Length
  {
    ViewAt(ds, i);
  }

  lemma {:induction false} NothingExpires(t: Table, now: nat, i: nat)
    requires t.timeout == 0 && i <= |t.datagrams|
    ensures ExpiredFrom(t, now, i) == t
    decreases |t.datagrams| - i
  {
    if i < |t.datagrams| {
      NothingExpires(t, now, i + 1);
    }
  }
}
