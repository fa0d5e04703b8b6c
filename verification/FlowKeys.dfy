/** Direction-independent identity of TCP conversations (src/flow.c). */
module FlowKeys {
  import opened Bytes
  import opened FlowDecode

  type Bytes16 = s: seq<byte> | |s| == 16 witness [0, 0, 0, 0, 0, 0, 0, 0, 0, 0, 0, 0, 0, 0, 0, 0]

  datatype Address = Address(family: nat, bytes: Bytes16)

  datatype Endpoint = Endpoint(address: Address, port: uint16)

  datatype Transport = Tcp | Udp | OtherTransport

  /** A parsed packet as the flow table sees it; an address that does not parse is absent. */
  datatype Packet = Packet(transport: Transport, source: Option<Address>, destination: Option<Address>, size: nat,
                           tcp: TcpView)

  datatype FlowKey = FlowKey(a: Endpoint, b: Endpoint, protocol: nat)

  /** `memcmp`. */
  function CompareBytes(l: seq<byte>, r: seq<byte>): int
    requires |l| == |r|
  {
    if l == [] then 0 else if l[0] < r[0] then -1 else if l[0] > r[0] then 1 else CompareBytes(l[1..], r[1..])
  }

  function CompareEndpoint(l: Endpoint, r: Endpoint): int {
    if l.address.family < r.address.family then -1
    else if l.address.family > r.address.family then 1
    else
      var order := CompareBytes(l.address.bytes, r.address.bytes);
      if order != 0 then (if order < 0 then -1 else 1)
      else if l.port < r.port then -1
      else if l.port > r.port then 1
      else 0
  }

  lemma {:induction false} CompareBytesIsAnOrder(l: seq<byte>, r: seq<byte>)
    requires |l| == |r|
    ensures CompareBytes(l, r) == 0 <==> l == r
    ensures CompareBytes(r, l) == -CompareBytes(l, r)
    decreases |l|
  {
    if l != [] {
      CompareBytesIsAnOrder(l[1..], r[1..]);
      assert l == [l[0]] + l[1..] && r == [r[0]] + r[1..];
    }
  }

  lemma CompareEndpointIsAnOrder(l: Endpoint, r: Endpoint)
    ensures CompareEndpoint(l, r) == 0 <==> l == r
    ensures CompareEndpoint(r, l) == -CompareEndpoint(l, r)
  {
    CompareBytesIsAnOrder(l.address.bytes, r.address.bytes);
  }

  lemma {:induction false} CompareBytesIsTransitive(l: seq<byte>, m: seq<byte>, r: seq<byte>)
    requires |l| == |m| == |r| && CompareBytes(l, m) <= 0 && CompareBytes(m, r) <= 0
    ensures CompareBytes(l, r) <= 0
    ensures CompareBytes(l, r) == 0 ==> l == m == r
    decreases |l|
  {
    CompareBytesIsAnOrder(l, r);
    if l != [] && l[0] == m[0] == r[0] {
      CompareBytesIsTransitive(l[1..], m[1..], r[1..]);
      assert l == [l[0]] + l[1..] && m == [m[0]] + m[1..] && r == [r[0]] + r[1..];
    }
  }

  lemma CompareEndpointIsTransitive(l: Endpoint, m: Endpoint, r: Endpoint)
    requires CompareEndpoint(l, m) <= 0 && CompareEndpoint(m, r) <= 0
    ensures CompareEndpoint(l, r) <= 0
  {
    var one, two, three := l.address.bytes, m.address.bytes, r.address.bytes;
    if CompareBytes(one, two) <= 0 && CompareBytes(two, three) <= 0 {
      CompareBytesIsTransitive(one, two, three);
    }
    CompareBytesIsAnOrder(one, two);
    CompareBytesIsAnOrder(two, three);
    CompareBytesIsAnOrder(one, three);
  }

  datatype Identity = Identity(key: FlowKey, way: Way)

  /** `flow_key_from_packet`: TCP endpoints are normalised, UDP keeps packet order. */
  function IdentityOf(p: Packet): Option<Identity> {
    if !p.tcp.ports.known || p.transport.OtherTransport? || p.source.None? || p.destination.None? then None
    else
      var from := Endpoint(p.source.value, p.tcp.ports.source);
      var to := Endpoint(p.destination.value, p.tcp.ports.destination);
      if p.transport.Tcp? && CompareEndpoint(from, to) > 0 then Some(Identity(FlowKey(to, from, 6), BToA))
      else Some(Identity(FlowKey(from, to, if p.transport.Tcp? then 6 else 17), AToB))
  }

  predicate IsTcpFlow(p: Packet) {
    p.transport.Tcp? && IdentityOf(p).Some?
  }

  function From(p: Packet): Endpoint
    requires IsTcpFlow(p)
  {
    Endpoint(p.source.value, p.tcp.ports.source)
  }

  function To(p: Packet): Endpoint
    requires IsTcpFlow(p)
  {
    Endpoint(p.destination.value, p.tcp.ports.destination)
  }

  /** Two packets share a key exactly when they join the same unordered pair of endpoints. */
  lemma KeyIsTheUnorderedPair(p: Packet, q: Packet)
    requires IsTcpFlow(p) && IsTcpFlow(q)
    ensures IdentityOf(p).value.key == IdentityOf(q).value.key <==>
            (From(p) == From(q) && To(p) == To(q)) || (From(p) == To(q) && To(p) == From(q))
  {
    hide CompareEndpoint;
    CompareEndpointIsAnOrder(From(p), To(p));
    CompareEndpointIsAnOrder(From(q), To(q));
  }

  /** A packet and its reverse travel in opposite directions of one flow exactly when the endpoints differ. */
  lemma ReverseTravelsTheOtherWay(p: Packet, q: Packet)
    requires IsTcpFlow(p) && IsTcpFlow(q) && From(p) == To(q) && To(p) == From(q)
    ensures IdentityOf(p).value.key == IdentityOf(q).value.key
    ensures IdentityOf(p).value.way != IdentityOf(q).value.way <==> From(p) != To(p)
  {
    hide CompareEndpoint;
    CompareEndpointIsAnOrder(From(p), To(p));
  }

  /** The key and the way together say which endpoint sent the packet. */
  lemma IdentityNamesTheSender(p: Packet)
    requires IsTcpFlow(p)
    ensures var id := IdentityOf(p).value;
            From(p) == (if id.way == AToB then id.key.a else id.key.b)
                && To(p) == (if id.way == AToB then id.key.b else id.key.a)
  {
  }

  /** The first byte that differs decides. */
  lemma {:induction false} FirstDifferenceDecides(l: seq<byte>, r: seq<byte>)
    requires |l| == |r|
    ensures CompareBytes(l, r) < 0 <==> exists i | 0 <= i < |l| :: l[..i] == r[..i] && l[i] < r[i]
    decreases |l|
  {
    if l != [] {
      FirstDifferenceDecides(l[1..], r[1..]);
      if l[0] == r[0] {
        if i :| 0 <= i < |l| - 1 && l[1..][..i] == r[1..][..i] && l[1..][i] < r[1..][i] {
          assert l[..i + 1] == [l[0]] + l[1..][..i] && r[..i + 1] == [r[0]] + r[1..][..i];
          assert l[..i + 1] == r[..i + 1] && l[i + 1] < r[i + 1];
        }
        if i :| 0 <= i < |l| && l[..i] == r[..i] && l[i] < r[i] {
          assert l[1..][..i - 1] == l[..i][1..] && r[1..][..i - 1] == r[..i][1..];
          assert l[1..][..i - 1] == r[1..][..i - 1] && l[1..][i - 1] < r[1..][i - 1];
        }
      } else {
        assert l[..0] == r[..0];
        assert forall i | 0 < i < |l| :: l[..i] == r[..i] ==> l[..i][0] == r[..i][0];
      }
    }
  }

  /** A smaller endpoint: by address family, then by the bytes of the address, then by port. */
  predicate Smaller(l: Endpoint, r: Endpoint) {
    var (a, b) := (l.address.bytes, r.address.bytes);
    || l.address.family < r.address.family
    || (l.address.family == r.address.family && exists i | 0 <= i < 16 :: a[..i] == b[..i] && a[i] < b[i])
    || (l.address == r.address && l.port < r.port)
  }

  /** A packet has an identity exactly when its ports, its transport and both its addresses are known. The key of a
      TCP packet puts the smaller endpoint first and says 6; that of a UDP packet keeps the order of the packet and
      says 17. */
  lemma KeyIsNormalised(p: Packet)
    ensures IdentityOf(p).Some? <==> p.tcp.ports.known && !p.transport.OtherTransport? && p.source.Some?
                                     && p.destination.Some?
    ensures IsTcpFlow(p) <==> p.tcp.ports.known && p.transport.Tcp? && p.source.Some? && p.destination.Some?
    ensures IsTcpFlow(p) ==>
              var id := IdentityOf(p).value;
              && id.key.protocol == 6 && !Smaller(id.key.b, id.key.a)
              && (id.way.AToB? <==> !Smaller(To(p), From(p)))
    ensures IdentityOf(p).Some? && p.transport.Udp? ==>
              var id := IdentityOf(p).value;
              && id == Identity(FlowKey(id.key.a, id.key.b, 17), AToB)
              && id.key.a == Endpoint(p.source.value, p.tcp.ports.source)
              && id.key.b == Endpoint(p.destination.value, p.tcp.ports.destination)
  {
    hide CompareBytes;
    if IsTcpFlow(p) {
      var from, to := From(p), To(p);
      CompareEndpointIsAnOrder(from, to);
      SmallerIsLess(from, to);
      SmallerIsLess(to, from);
    }
  }

  lemma SmallerIsLess(l: Endpoint, r: Endpoint)
    ensures Smaller(l, r) <==> CompareEndpoint(l, r) < 0
  {
    hide CompareBytes;
    var (a, b) := (l.address.bytes, r.address.bytes);
    CompareBytesIsAnOrder(a, b);
    FirstDifferenceDecides(a, b);
    if l.address.family == r.address.family {
      assert (exists i | 0 <= i < 16 :: a[..i] == b[..i] && a[i] < b[i]) <==> CompareBytes(a, b) < 0;
      assert l.address == r.address <==> CompareBytes(a, b) == 0;
    }
  }
}
