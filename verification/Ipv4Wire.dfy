/** IPv4 packets as bytes (section 3.1 of RFC 791): what is parsed from them, and a cut datagram from wire to wire. */
module Ipv4Wire {
  import opened Bytes
  import opened Ipv4Fragments
  import opened Ipv4Provenance
  import opened Ipv4Reassembly
  import opened Ipv4Order
  import opened Ipv4RoundTrip

  /** The fields of a header that a fragment shares with its datagram or carries along. */
  datatype Fields = Fields(
    service: byte, identification: uint16, upperFlags: byte, timeToLive: byte, protocol: byte, checksum: uint16,
    source: seq<byte>, destination: seq<byte>, options: seq<byte>)

  predicate FieldsFit(w: Fields) {
    |w.source| == 4 && |w.destination| == 4 && |w.options| <= 40 && |w.options| % 4 == 0 && w.upperFlags < 4
  }

  function Header(w: Fields, units: nat, more: bool, total: nat): seq<byte>
    requires FieldsFit(w) && units < 8192 && total < 0x1_0000
  {
    [64 + (20 + |w.options|) / 4, w.service, total / 256, total % 256, w.identification / 256, w.identification % 256,
     w.upperFlags * 64 + (if more then 32 else 0) + units / 256, units % 256, w.timeToLive, w.protocol,
     w.checksum / 256, w.checksum % 256]
    + w.source + w.destination + w.options
  }

  function HeaderSize(w: Fields): nat {
    20 + |w.options|
  }

  predicate PacketFits(w: Fields, units: nat, payload: seq<byte>) {
    FieldsFit(w) && units < 8192 && HeaderSize(w) + |payload| < 0x1_0000
  }

  /** A packet with this payload, `units` times eight bytes into its datagram. */
  function Packet(w: Fields, units: nat, more: bool, payload: seq<byte>): seq<byte>
    requires PacketFits(w, units, payload)
  {
    Header(w, units, more, HeaderSize(w) + |payload|) + payload
  }

  function FieldsKey(w: Fields): Key {
    Key(w.source, w.destination, w.protocol, w.identification)
  }

  lemma HeaderBytes(w: Fields, units: nat, more: bool, total: nat, rest: seq<byte>)
    requires FieldsFit(w) && units < 8192 && total < 0x1_0000
    ensures var h, packet := Header(w, units, more, total), Header(w, units, more, total) + rest;
            && |h| == HeaderSize(w) && packet[..|h|] == h
            && packet[0] == 64 + HeaderSize(w) / 4 && packet[9] == w.protocol
            && packet[12..16] == w.source && packet[16..20] == w.destination
            && U16(packet, 2) == total && U16(packet, 4) == w.identification
            && packet[7] == units % 256
            && packet[6] == w.upperFlags * 64 + (if more then 32 else 0) + units / 256
  {
  }

  lemma FragmentField(upper: byte, more: bool, units: nat, high: byte, low: byte)
    requires upper < 4 && units < 8192
    requires high == upper * 64 + (if more then 32 else 0) + units / 256 && low == units % 256
    ensures var h: int, l: int := high, low;
            var field := h * 256 + l;
            field % 8192 == units && (field / 8192 % 2 == 1 <==> more)
  {
    var u: int := upper;
    var field := u * 16384 + (if more then 8192 else 0) + units;
    assert field / 8192 == u * 2 + if more then 1 else 0;
  }

  /** A written packet, whatever follows it, is parsed to its addresses, protocol and identification, its header, its
      total length, its offset in bytes, its more-fragments flag and its payload. */
  lemma PacketRoundTrip(w: Fields, units: nat, more: bool, payload: seq<byte>, rest: seq<byte>)
    requires PacketFits(w, units, payload)
    ensures var header := Header(w, units, more, HeaderSize(w) + |payload|);
            ParseRaw(Packet(w, units, more, payload) + rest)
            == Ipv4(FieldsKey(w), header, HeaderSize(w) + |payload|, more || units > 0, 8 * units, more, payload)
  {
    hide Header;
    var total := HeaderSize(w) + |payload|;
    var packet, header := Packet(w, units, more, payload) + rest, Header(w, units, more, total);
    HeaderBytes(w, units, more, total, payload + rest);
    assert packet == header + (payload + rest);
    FragmentField(w.upperFlags, more, units, packet[6], packet[7]);
    assert HeaderLength(packet) == HeaderSize(w) by { HeaderUnits(w, packet[0]); }
    assert packet[HeaderSize(w)..total] == payload;
  }

  lemma HeaderUnits(w: Fields, first: byte)
    requires FieldsFit(w) && first == 64 + HeaderSize(w) / 4
    ensures first % 16 * 4 == HeaderSize(w) && first / 16 == 4
  {
  }

  /** What a parser of raw packets can read: version 4, a header length of at least twenty bytes, both it and the total
      length consistent with what is there; then every field, from the bytes. */
  lemma PacketSpeaksForItself(packet: seq<byte>)
    ensures ParseRaw(packet).Ipv4? <==>
            && |packet| >= 20 && 69 <= packet[0] < 80
            && var size: int := packet[0];
               (size - 64) * 4 <= |packet| && (size - 64) * 4 <= 256 * Byte(packet, 2) + Byte(packet, 3)
    ensures ParseRaw(packet).Ipv4? ==>
              var p, size := ParseRaw(packet), (Byte(packet, 0) - 64) * 4;
              var total := 256 * Byte(packet, 2) + Byte(packet, 3);
              && p.key == Key(packet[12..16], packet[16..20], packet[9], 256 * Byte(packet, 4) + Byte(packet, 5))
              && p.header == packet[..size] && p.totalLength == total
              && p.offset == 8 * (Byte(packet, 6) % 32 * 256 + Byte(packet, 7))
              && (p.more <==> Byte(packet, 6) / 32 % 2 == 1) && (p.isFragment <==> p.more || p.offset > 0)
              && p.payload == packet[size..Min(|packet|, total)]
  {
    if |packet| >= 20 {
      assert U16(packet, 6) == 256 * Byte(packet, 6) + Byte(packet, 7);
      FieldBits(Byte(packet, 6), Byte(packet, 7));
      FirstByte(Byte(packet, 0));
    }
  }

  function Byte(packet: seq<byte>, i: nat): int
    requires i < |packet|
  {
    packet[i]
  }

  lemma FirstByte(b: int)
    requires 0 <= b < 256
    ensures b / 16 == 4 && b % 16 >= 5 <==> 69 <= b < 80
    ensures 69 <= b < 80 ==> b % 16 * 4 == (b - 64) * 4
  {
  }

  lemma FieldBits(high: int, low: int)
    requires 0 <= high < 256 && 0 <= low < 256
    ensures var field := 256 * high + low;
            field % 8192 == high % 32 * 256 + low && field / 8192 % 2 == high / 32 % 2
  {
    assert 256 * high + low == high / 32 * 8192 + (high % 32 * 256 + low);
  }

  // ----- from wire to wire -----

  /** A datagram cut into 2 to 64 packets in order: each carries the next part of its payload, in whole units of eight
      bytes but for the last, has the datagram's addresses, protocol and identification, and ends within 65535
      bytes of the beginning of the datagram, its own header counted; the other fields are free. */
  predicate IsCut(key: Key, payload: seq<byte>, fields: seq<Fields>, units: seq<nat>) {
    && 2 <= |fields| <= 64 && |units| == |fields| && units[0] == 0
    && (forall i | 0 <= i < |fields| :: FieldsFit(fields[i]) && FieldsKey(fields[i]) == key)
    && (forall i | 0 <= i < |units| :: units[i] < 8192 && 8 * units[i] < PartEnd(payload, units, i) <= |payload|)
    && forall i | 0 <= i < |fields| :: HeaderSize(fields[i]) + PartEnd(payload, units, i) <= 65535
  }

  function PartEnd(payload: seq<byte>, units: seq<nat>, i: nat): nat
    requires i < |units|
  {
    if i + 1 < |units| then 8 * units[i + 1] else |payload|
  }

  function PartPayload(payload: seq<byte>, units: seq<nat>, i: nat): seq<byte>
    requires i < |units| && 8 * units[i] <= PartEnd(payload, units, i) <= |payload|
  {
    payload[8 * units[i]..PartEnd(payload, units, i)]
  }

  /** The packets of a cut datagram. */
  function CutPackets(key: Key, payload: seq<byte>, fields: seq<Fields>, units: seq<nat>): (packets: seq<seq<byte>>)
    requires IsCut(key, payload, fields, units)
    ensures |packets| == |fields|
  {
    seq(|fields|, i requires 0 <= i < |fields| =>
      Packet(fields[i], units[i], i + 1 < |fields|, PartPayload(payload, units, i)))
  }

  /** What is parsed from the packets, trailing bytes of the link layer ignored. */
  predicate ParsedParts(packets: seq<seq<byte>>, trailers: seq<seq<byte>>, parts: seq<Fragment>) {
    && |packets| == |trailers| == |parts|
    && forall i | 0 <= i < |packets| ::
         ParseRaw(packets[i] + trailers[i]).Ipv4? && parts[i] == AsFragment(ParseRaw(packets[i] + trailers[i]))
  }

  lemma PartIsParsed(key: Key, payload: seq<byte>, fields: seq<Fields>, units: seq<nat>, i: nat, trailer: seq<byte>)
    requires IsCut(key, payload, fields, units) && i < |fields|
    ensures HeaderSize(fields[i]) + |PartPayload(payload, units, i)| < 0x1_0000
    ensures var p := ParseRaw(CutPackets(key, payload, fields, units)[i] + trailer);
            var part := PartPayload(payload, units, i);
            && p.Ipv4?
            && AsFragment(p) == Fragment(true, 4, key, Header(fields[i], units[i], i + 1 < |fields|,
                                                              HeaderSize(fields[i]) + |part|),
                                         8 * units[i], i + 1 < |fields|, Some(part))
  {
    hide Header, ParseRaw, Packet;
    var part := PartPayload(payload, units, i);
    PacketRoundTrip(fields[i], units[i], i + 1 < |fields|, part, trailer);
    if i + 1 == |fields| {
      assert 8 * units[i - 1] < PartEnd(payload, units, i - 1) == 8 * units[i];
    }
  }

  /** The parsed packets are the parts of the datagram. */
  lemma CutIsTiling(key: Key, payload: seq<byte>, fields: seq<Fields>, units: seq<nat>, trailers: seq<seq<byte>>,
                    parts: seq<Fragment>)
    requires IsCut(key, payload, fields, units)
    requires ParsedParts(CutPackets(key, payload, fields, units), trailers, parts)
    ensures Tiling(key, parts[0].header, payload, parts)
    ensures |parts[0].header| == HeaderSize(fields[0]) && HeaderMatches(parts[0].header, key)
  {
    hide Header, ParseRaw, Packet, IsMalformed, CutPackets, PartPayload;
    forall i | 0 <= i < |parts|
      ensures !IsMalformed(parts[i]) && parts[i].key == key && parts[i].offset == 8 * units[i]
      ensures parts[i].more == (i + 1 < |parts|) && parts[i].End() == PartEnd(payload, units, i)
      ensures parts[i].payload == Some(payload[parts[i].offset..parts[i].End()])
      ensures |parts[i].header| == HeaderSize(fields[i])
    {
      PartIsParsed(key, payload, fields, units, i, trailers[i]);
      PartIsWellFormed(key, payload, fields, units, i, parts[i]);
    }
    ParsedHeaderMatches(CutPackets(key, payload, fields, units)[0] + trailers[0]);
  }

  lemma PartIsWellFormed(key: Key, payload: seq<byte>, fields: seq<Fields>, units: seq<nat>, i: nat, f: Fragment)
    requires IsCut(key, payload, fields, units) && i < |fields|
    requires HeaderSize(fields[i]) + |PartPayload(payload, units, i)| < 0x1_0000
    requires var part := PartPayload(payload, units, i);
             f == Fragment(true, 4, key, Header(fields[i], units[i], i + 1 < |fields|, HeaderSize(fields[i]) + |part|),
                           8 * units[i], i + 1 < |fields|, Some(part))
    ensures !IsMalformed(f) && f.End() == PartEnd(payload, units, i) && |f.header| == HeaderSize(fields[i])
    ensures f.payload == Some(payload[f.offset..f.End()])
  {
    hide Header, IsMalformed;
    var end := PartEnd(payload, units, i);
    HeaderHasSize(fields[i], units[i], i + 1 < |fields|, HeaderSize(fields[i]) + |PartPayload(payload, units, i)|);
    assert f.more ==> end == 8 * units[i + 1];
    PieceIsWellFormed(f, payload, units[i], end, if f.more then units[i + 1] else 0);
  }

  lemma PieceIsWellFormed(f: Fragment, payload: seq<byte>, unit: nat, end: nat, next: nat)
    requires f.isFragment && f.version == 4 && 20 <= |f.header| <= 60 && f.offset == 8 * unit
    requires 8 * unit < end <= |payload| && f.payload == Some(payload[8 * unit..end])
    requires |f.header| + end <= 65535 && (f.more ==> end == 8 * next)
    ensures !IsMalformed(f) && f.End() == end
  {
    assert f.Length() == end - 8 * unit;
    if f.more {
      assert f.Length() == 8 * (next - unit);
    }
  }

  lemma HeaderHasSize(w: Fields, units: nat, more: bool, total: nat)
    requires FieldsFit(w) && units < 8192 && total < 0x1_0000
    ensures |Header(w, units, more, total)| == HeaderSize(w) && 20 <= HeaderSize(w) <= 60
  {
  }

  /** From wire to wire: a datagram cut into packets, captured in any order with any link-layer trailers, in time and
      with room at the start, comes back with the last of them: parsing the packet that the table yields gives an
      unfragmented datagram with the addresses, protocol, identification and payload of the cut one and the header
      length of its first packet. A datagram that its first header makes longer than 65535 bytes does not fit a packet
      and is dropped. */
  lemma CutDatagramComesBack(t: Table, key: Key, payload: seq<byte>, fields: seq<Fields>, units: seq<nat>,
                             trailers: seq<seq<byte>>, parts: seq<Fragment>, steps: seq<Step>, j: nat)
    requires IsCut(key, payload, fields, units)
    requires ParsedParts(CutPackets(key, payload, fields, units), trailers, parts)
    requires TableOk(t) && (forall d <- t.datagrams :: d.key != key)
    requires |t.datagrams| < t.maxDatagrams && t.usedBytes + |payload| <= t.maxBytes
    requires Mixes(key, parts, steps) && |steps| == |parts| && (forall i | 0 <= i < |steps| :: steps[i].Part?)
    requires Timely(steps, t.timeout) && j < |steps|
    ensures var outcome := OutcomeOf(t, Mix(key, parts, steps), j);
            if j < |parts| - 1 then outcome.Queued?
            else if HeaderSize(fields[0]) + |payload| > 65535 then outcome.Dropped?
            else
              && outcome.Reassembled?
              && var p := ParseRaw(outcome.packet);
                 && p.Ipv4? && p.key == key && !p.isFragment && p.offset == 0 && !p.more && p.payload == payload
                 && |p.header| == HeaderSize(fields[0]) && p.totalLength == |outcome.packet|
  {
    hide TableOk, Mixes, OutcomeOf, Mix, ParseRaw, CutPackets, Rebuilt, Tiling, HeaderMatches, IsCut, ParsedParts;
    CutIsTiling(key, payload, fields, units, trailers, parts);
    AnyOrderReassembles(t, key, parts[0].header, payload, parts, steps, j);
    if |parts[0].header| + |payload| <= 65535 {
      RebuiltParses(key, parts[0].header, payload);
    }
  }

  lemma RebuiltParses(key: Key, header: seq<byte>, payload: seq<byte>)
    requires HeaderMatches(header, key) && |header| + |payload| <= 65535
    ensures var packet := Rebuilt(header, payload);
            var p := ParseRaw(packet);
            && p.Ipv4? && !p.isFragment && p.offset == 0 && !p.more && p.totalLength == |packet|
            && p.key == key && |p.header| == |header| && p.payload == payload
  {
    hide ParseRaw, BuildPacket, Rebuilt, KeyOf, HeaderLength;
    var d := Datagram(key, 0, header, payload, true, |payload|, []);
    assert payload[..|payload|] == payload;
    BuiltIsRebuilt(d);
    RebuiltPacketParses(d);
  }
}
