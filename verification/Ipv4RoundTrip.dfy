/** Reading IPv4 headers (parse_ipv4_packet in src/parser.c) and re-reading a rebuilt packet. */
module Ipv4RoundTrip {
  import opened Bytes
  import opened Ipv4Fragments
  import opened Ipv4Provenance

  datatype Parsed =
    | NotIpv4
    | Ipv4(key: Key, header: seq<byte>, totalLength: nat, isFragment: bool, offset: nat, more: bool, payload: seq<byte>)

  function HeaderLength(packet: seq<byte>): nat
    requires packet != []
  {
    packet[0] % 16 * 4
  }

  function KeyOf(header: seq<byte>): Key
    requires |header| >= 20
  {
    Key(header[12..16], header[16..20], header[9], U16(header, 4))
  }

  /** A packet captured as raw IP: the version nibble selects the parser; too short or inconsistent headers
      yield nothing; the total length bounds the payload. */
  function ParseRaw(packet: seq<byte>): Parsed {
    if |packet| < 20 || packet[0] / 16 != 4 || HeaderLength(packet) < 20 || |packet| < HeaderLength(packet) then NotIpv4
    else if U16(packet, 2) < HeaderLength(packet) then NotIpv4
    else
      var end := Min(|packet|, U16(packet, 2));
      var field := U16(packet, 6);
      Ipv4(KeyOf(packet), packet[..HeaderLength(packet)], U16(packet, 2), field % 8192 != 0 || field / 8192 % 2 == 1,
           field % 8192 * 8, field / 8192 % 2 == 1, packet[HeaderLength(packet)..end])
  }

  /** What the fragment table is given for a parsed packet. */
  function AsFragment(p: Parsed): Fragment
    requires p.Ipv4?
  {
    Fragment(p.isFragment, 4, p.key, p.header, p.offset, p.more, Some(p.payload))
  }

  /** A header that says its own length, and whose addresses, protocol and identification are the key's. */
  predicate HeaderMatches(header: seq<byte>, key: Key) {
    && 20 <= |header| <= MAX_HEADER && header[0] / 16 == 4 && HeaderLength(header) == |header|
    && KeyOf(header) == key
  }

  lemma ParsedHeaderMatches(packet: seq<byte>)
    requires ParseRaw(packet).Ipv4?
    ensures HeaderMatches(ParseRaw(packet).header, ParseRaw(packet).key)
  {
    var h := packet[..HeaderLength(packet)];
    assert h[12..16] == packet[12..16] && h[16..20] == packet[16..20];
    assert U16(h, 4) == U16(packet, 4);
  }

  lemma FlagsWithoutFragment(high: byte)
    ensures var field := U16([high / 64 * 64, 0], 0);
            field % 8192 == 0 && field / 8192 % 2 == 0
  {
    var q := high / 64;
    assert U16([high / 64 * 64, 0], 0) == q * 16384;
  }

  /** Rebuild and re-parse: the packet is a whole datagram, not a fragment; its total length is its own
      length, its key, header length and payload are the datagram's. */
  lemma RebuiltPacketParses(d: Datagram)
    requires Shaped(d) && HeaderMatches(d.header, d.key) && |d.header| + d.total <= MAX_TOTAL_LENGTH
    ensures var packet := BuildPacket(d);
            var p := ParseRaw(packet);
            && p.Ipv4? && !p.isFragment && p.offset == 0 && !p.more
            && p.totalLength == |packet| == |d.header| + d.total
            && p.key == d.key && |p.header| == |d.header| && p.payload == d.data[..d.total]
  {
    hide Shaped;
    assert 20 <= |d.header| && d.total <= |d.data| by { ShapedSizes(d); }
    var packet, h := BuildPacket(d), d.header;
    assert |packet| == |h| + d.total;
    assert packet[0] == h[0] && packet[9] == h[9];
    assert U16(packet, 2) == |h| + d.total by {
      assert packet[2..4] == U16Bytes(|h| + d.total);
      assert packet[2] == packet[2..4][0] && packet[3] == packet[2..4][1];
    }
    assert U16(packet, 4) == U16(h, 4) by { assert packet[4] == h[4] && packet[5] == h[5]; }
    assert packet[6] == h[6] / 64 * 64 && packet[7] == 0;
    FlagsWithoutFragment(h[6]);
    assert packet[12..16] == h[12..16] && packet[16..20] == h[16..20];
    assert packet[|h|..] == d.data[..d.total];
    assert packet[|h|..|packet|] == packet[|h|..];
  }

  lemma ShapedSizes(d: Datagram)
    requires Shaped(d)
    ensures 20 <= |d.header| && d.total <= |d.data|
  {
  }

  // ----- over runs of parsed fragments -----

  predicate FromWire(f: Fragment) {
    HeaderMatches(f.header, f.key)
  }

  predicate HeadersMatch(datagrams: seq<Datagram>) {
    forall d <- datagrams :: HeaderMatches(d.header, d.key)
  }

  lemma AcceptedMatches(d: Datagram, f: Fragment, now: nat)
    requires HeaderMatches(d.header, d.key) && FromWire(f) && f.key == d.key && f.payload.Some?
    ensures var accepted := Accepted(Headed(d, f, now), f);
            HeaderMatches(accepted.header, accepted.key) && accepted.key == d.key
  {
  }

  lemma PlacingKeepsHeaders(t: Table, i: nat, f: Fragment, now: nat)
    requires TableOk(t) && HeadersMatch(t.datagrams) && FromWire(f) && !IsMalformed(f)
    requires i < |t.datagrams| && f.key == t.datagrams[i].key && Shaped(t.datagrams[i])
    ensures HeadersMatch(Placed(t, i, f, now).0.datagrams)
  {
    hide HeaderMatches, TableOk, Placed, Refused, Accepted, Headed, IsComplete, BuildPacket, WithoutAt, Shaped;
    PlacingKeepsOk(t, i, f, now);
    AcceptedHasPayload(f);
    assert t.datagrams[i] in t.datagrams;
    AcceptedMatches(t.datagrams[i], f, now);
    var accepted := Accepted(Headed(t.datagrams[i], f, now), f);
    assert KeysDistinct(t.datagrams) by { OkKeys(t); }
    MembersWithout(t.datagrams, i);
    var r := Placed(t, i, f, now).0.datagrams;
    forall d | d in r
      ensures HeaderMatches(d.header, d.key)
    {
      assert d in t.datagrams || d == accepted;
    }
  }

  lemma OkKeys(t: Table)
    requires TableOk(t)
    ensures KeysDistinct(t.datagrams)
  {
  }

  lemma PreparedMatches(t: Table, f: Fragment, now: nat)
    requires TableOk(t) && HeadersMatch(t.datagrams) && FromWire(f)
    ensures HeadersMatch(ExpiredFrom(t, now, 0).datagrams) && HeadersMatch(Prepared(t, f, now).datagrams)
  {
    hide HeaderMatches, TableOk, FindKey, NewDatagram;
    ExpiryKeepsOk(t, now, 0);
    NewMatches(f, now);
  }

  lemma StepKeepsHeaders(t: Table, f: Fragment, now: nat)
    requires TableOk(t) && HeadersMatch(t.datagrams) && FromWire(f)
    ensures AllShaped(t) && HeadersMatch(Processed(t, f, now).0.datagrams)
  {
    hide HeaderMatches, HeadersMatch, TableOk, Placed, FindKey, IsMalformed, FromWire;
    ProcessingKeepsOk(t, f, now);
    PreparedMatches(t, f, now);
    if f.isFragment && !IsMalformed(f) && HasRoom(t, f, now) {
      PreparedIsOk(t, f, now);
      var i := FindKey(ExpiredFrom(t, now, 0).datagrams, f.key, 0);
      AllShapedPlaced(Prepared(t, f, now), i);
      PlacingKeepsHeaders(Prepared(t, f, now), i, f, now);
    }
  }

  lemma NewMatches(f: Fragment, now: nat)
    requires FromWire(f)
    ensures HeaderMatches(NewDatagram(f, now).header, NewDatagram(f, now).key)
  {
  }

  lemma {:induction false} RunKeepsHeaders(t: Table, arrivals: seq<Arrival>)
    requires TableOk(t) && t.datagrams == [] && forall a <- arrivals :: FromWire(a.f)
    ensures HeadersMatch(Run(t, arrivals).datagrams)
    decreases |arrivals|
  {
    hide TableOk, Processed, FromWire, HeaderMatches;
    if arrivals != [] {
      var before, last := arrivals[..|arrivals| - 1], arrivals[|arrivals| - 1];
      assert last in arrivals && forall a <- before :: a in arrivals;
      RunKeepsHeaders(t, before);
      StepKeepsHeaders(Run(t, before), last.f, last.now);
    }
  }

  /** End to end: when parsed fragments, in any order and however hostile, make the table reassemble a packet,
      parsing that packet yields an unfragmented datagram with the addresses, protocol and identification of
      its fragments, whose total length is the packet's and whose payload is that of adjoining fragments. */
  lemma ReassembledPacketParses(t: Table, arrivals: seq<Arrival>, last: Arrival) returns (pieces: seq<Fragment>)
    requires TableOk(t) && t.datagrams == [] && FromWire(last.f) && forall a <- arrivals :: FromWire(a.f)
    requires AllShaped(Run(t, arrivals)) && Processed(Run(t, arrivals), last.f, last.now).1.Reassembled?
    ensures var packet := Processed(Run(t, arrivals), last.f, last.now).1.packet;
            var p := ParseRaw(packet);
            && p.Ipv4? && !p.isFragment && p.key == last.f.key && p.totalLength == |packet|
            && pieces != [] && |p.header| == |pieces[0].header|
            && p.payload == Payload(pieces) && Adjoining(pieces, 0, |p.payload|)
    ensures forall p <- pieces :: Arrived(p, arrivals + [last]) && p.key == last.f.key
  {
    hide TableOk, Processed, Run, FromWire, HeaderMatches, Arrived, Accepted, Headed, BuildPacket, ParseRaw, FindKey,
      ExpiredFrom, Prepared, IsMalformed, HasRoom, Shaped;
    RunKeepsHeaders(t, arrivals);
    var before := Run(t, arrivals);
    pieces := ReassembledFromAdjoiningFragments(t, arrivals, last);
    ReassembledIsCompleted(before, last.f, last.now);
    PreparedMatches(before, last.f, last.now);
    TargetIsPrepared(before, last.f, last.now);
    AcceptedMatches(Target(before, last.f, last.now), last.f, last.now);
    RebuiltPacketParses(Completed(before, last.f, last.now));
    ShapedSizes(Completed(before, last.f, last.now));
  }

  // ----- over runs of packets -----

  /** A captured packet and the time the table is given. */
  datatype Capture = Capture(packet: seq<byte>, now: nat)

  /** What the parser hands to the fragment table: nothing for what is not IPv4. */
  function Parse(captures: seq<Capture>): seq<Arrival> {
    if captures == [] then []
    else
      var init, last := Parse(captures[..|captures| - 1]), captures[|captures| - 1];
      var parsed := ParseRaw(last.packet);
      if parsed.Ipv4? then init + [Arrival(AsFragment(parsed), last.now)] else init
  }

  lemma ParsedIsFromWire(packet: seq<byte>)
    requires ParseRaw(packet).Ipv4?
    ensures FromWire(AsFragment(ParseRaw(packet)))
  {
    hide ParseRaw, HeaderMatches;
    ParsedHeaderMatches(packet);
  }

  /** A captured packet is where the fragment was parsed from. */
  ghost predicate CapturedAs(f: Fragment, captures: seq<Capture>) {
    exists c <- captures :: ParseRaw(c.packet).Ipv4? && AsFragment(ParseRaw(c.packet)) == f
  }

  lemma {:induction false} ParseIsFromWire(captures: seq<Capture>)
    ensures forall a <- Parse(captures) :: FromWire(a.f) && CapturedAs(a.f, captures)
    decreases |captures|
  {
    hide ParseRaw, FromWire, AsFragment;
    if captures != [] {
      var init, last := captures[..|captures| - 1], captures[|captures| - 1];
      ParseIsFromWire(init);
      assert last in captures;
      if ParseRaw(last.packet).Ipv4? {
        ParsedIsFromWire(last.packet);
      }
      forall a | a in Parse(init)
        ensures CapturedAs(a.f, captures)
      {
        var c :| c in init && ParseRaw(c.packet).Ipv4? && AsFragment(ParseRaw(c.packet)) == a.f;
        assert c in captures;
      }
    }
  }

  /** From packets to packets: when captured packets, whatever they are, make the table reassemble one, parsing it
      yields an unfragmented datagram of the last packet's addresses, protocol and identification, whose total length
      is its own and whose payload is that of adjoining fragments parsed from captured packets, the first of which has
      its header length. */
  lemma CapturedFragmentsReassemble(t: Table, captures: seq<Capture>, last: Capture) returns (pieces: seq<Fragment>)
    requires TableOk(t) && t.datagrams == [] && ParseRaw(last.packet).Ipv4?
    requires AllShaped(Run(t, Parse(captures)))
    requires Processed(Run(t, Parse(captures)), AsFragment(ParseRaw(last.packet)), last.now).1.Reassembled?
    ensures var packet := Processed(Run(t, Parse(captures)), AsFragment(ParseRaw(last.packet)), last.now).1.packet;
            var p := ParseRaw(packet);
            && p.Ipv4? && !p.isFragment && p.key == ParseRaw(last.packet).key && p.totalLength == |packet|
            && pieces != [] && |p.header| == |pieces[0].header|
            && p.payload == Payload(pieces) && Adjoining(pieces, 0, |p.payload|)
    ensures forall f <- pieces :: CapturedAs(f, captures + [last]) && f.key == ParseRaw(last.packet).key
  {
    hide TableOk, Processed, Run, FromWire, ParseRaw, AllShaped, Adjoining, Payload;
    var arrivals, final := Parse(captures), Arrival(AsFragment(ParseRaw(last.packet)), last.now);
    ParseIsFromWire(captures);
    ParsedIsFromWire(last.packet);
    pieces := ReassembledPacketParses(t, arrivals, final);
    forall f | f in pieces
      ensures CapturedAs(f, captures + [last])
    {
      var a :| a in arrivals + [final] && a.f == f;
      if a in arrivals {
        var c :| c in captures && ParseRaw(c.packet).Ipv4? && AsFragment(ParseRaw(c.packet)) == f;
        assert c in captures + [last];
      } else {
        assert last in captures + [last];
      }
    }
  }
}
