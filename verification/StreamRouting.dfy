/** Which decoder a port selects, and what written messages come to on each port and without one. */
module StreamRouting {
  import opened Bytes
  import opened AppMetadata
  import opened AppDecoder
  import DnsDecoder
  import DnsNames
  import DnsRoundTrip
  import HttpDecoder
  import HttpRoundTrip
  import TlsDecoder
  import TlsRoundTrip
  import AlpnFilter

  predicate OnPort(p: Ports, port: nat) {
    p.known && (p.source == port || p.destination == port)
  }

  predicate ForHttp(p: Ports) {
    OnPort(p, 80) || OnPort(p, 8080) || OnPort(p, 8000)
  }

  predicate ForTls(p: Ports) {
    (OnPort(p, 443) || OnPort(p, 8443)) && !ForHttp(p)
  }

  predicate ForDns(p: Ports) {
    OnPort(p, 53) && !ForHttp(p) && !ForTls(p)
  }

  predicate Unhinted(p: Ports) {
    !ForHttp(p) && !ForTls(p) && !ForDns(p)
  }

  /** On either side of the connection a known port decides; what its protocol does not match is malformed. */
  lemma PortsDecide(p: Ports, data: seq<byte>)
    requires data != []
    ensures var http, tls, dns := HttpDecoder.Decode(data), TlsDecoder.Decode(data), DnsDecoder.DecodeTcpFrame(data);
            && (ForHttp(p) ==> StreamDecoding(p, data) == if http.NoMatch? then Malformed else http)
            && (ForTls(p) ==> StreamDecoding(p, data) == if tls.NoMatch? then Malformed else tls)
            && (ForDns(p) ==> StreamDecoding(p, data) == if dns.NoMatch? then Malformed else dns)
  {
    hide HttpDecoder.Decode, TlsDecoder.Decode, DnsDecoder.DecodeTcpFrame;
  }

  /** Without a known port the first of HTTP and TLS that decodes or waits is taken; else a bare DNS message that asks a
      question with a name; nothing is malformed. */
  lemma WithoutPortsAllAreTried(p: Ports, data: seq<byte>)
    requires data != [] && Unhinted(p)
    ensures var (http, tls) := (HttpDecoder.Decode(data), TlsDecoder.Decode(data));
            var dns := DnsDecoder.DecodeMessage(data);
            StreamDecoding(p, data) ==
            if http.Decoded? || http.NeedMore? then http
            else if tls.Decoded? || tls.NeedMore? then tls
            else if dns.Decoded? && dns.info.Dns? && dns.info.questions > 0 && dns.info.name != []
                    && dns.info.name[0] != 0 then dns
            else NoMatch
  {
    hide HttpDecoder.Decode, TlsDecoder.Decode, DnsDecoder.DecodeMessage;
  }

  lemma NothingIsNoMatch(p: Ports)
    ensures StreamDecoding(p, []).NoMatch?
  {
  }

  // ----- written messages -----

  /** A request on an HTTP port, or on none that is known. */
  lemma RequestOnItsPort(p: Ports, name: seq<byte>, path: seq<byte>, version: seq<byte>, start: seq<byte>,
                         lines: seq<seq<byte>>, body: seq<byte>)
    requires ForHttp(p) || Unhinted(p)
    requires HttpRoundTrip.IsRequestLine(start, name, path, version) && HttpRoundTrip.StartsWithMethod(name)
    requires HttpRoundTrip.Breakless(start) && HttpRoundTrip.AreLines(lines)
    ensures HttpRoundTrip.ReportsRequest(StreamDecoding(p, HttpRoundTrip.Message(start, lines, body)), name, path,
                                         version, lines)
  {
    hide HttpDecoder.Decode, TlsDecoder.Decode, DnsDecoder.DecodeMessage, StreamDecoding, HttpRoundTrip.Written,
      HttpRoundTrip.StartsWithMethod, HttpRoundTrip.HoldsHeaders, HttpRoundTrip.Holds, HttpRoundTrip.IsRequestLine,
      HttpRoundTrip.Breakless;
    var data := HttpRoundTrip.Message(start, lines, body);
    HttpRoundTrip.RequestRoundTrip(name, path, version, start, lines, body);
    PortsDecide(p, data);
    if Unhinted(p) {
      WithoutPortsAllAreTried(p, data);
    }
  }

  /** A response, likewise. */
  lemma ResponseOnItsPort(p: Ports, version: seq<byte>, status: nat, tail: seq<byte>, start: seq<byte>,
                          lines: seq<seq<byte>>, body: seq<byte>)
    requires ForHttp(p) || Unhinted(p)
    requires HttpRoundTrip.IsStatusLine(start, version, status, tail)
    requires HttpRoundTrip.Breakless(start) && HttpRoundTrip.AreLines(lines)
    ensures HttpRoundTrip.ReportsResponse(StreamDecoding(p, HttpRoundTrip.Message(start, lines, body)), version, status,
                                          tail, lines)
  {
    hide HttpDecoder.Decode, TlsDecoder.Decode, DnsDecoder.DecodeMessage, StreamDecoding, HttpRoundTrip.Written,
      HttpRoundTrip.HoldsHeaders, HttpRoundTrip.Holds, HttpRoundTrip.IsStatusLine, HttpRoundTrip.Breakless;
    var data := HttpRoundTrip.Message(start, lines, body);
    HttpRoundTrip.ResponseRoundTrip(version, status, tail, start, lines, body);
    PortsDecide(p, data);
    if Unhinted(p) {
      WithoutPortsAllAreTried(p, data);
    }
  }

  /** A ClientHello on a TLS port, or on none that is known. */
  lemma ClientHelloOnItsPort(p: Ports, h: TlsRoundTrip.ClientHello, trailer: seq<byte>, padding: seq<byte>,
                             more: seq<byte>)
    requires ForTls(p) || Unhinted(p)
    requires TlsRoundTrip.Fits(h) && TlsRoundTrip.FitsRecord(h, trailer, padding)
    requires TlsRoundTrip.RoomForLast(TlsRoundTrip.AllProtocols(TlsRoundTrip.SentExtensions(h)))
    ensures var es := TlsRoundTrip.SentExtensions(h);
            var (hosts, text) := (TlsRoundTrip.AllHosts(es), AlpnFilter.Joined(TlsRoundTrip.AllProtocols(es)));
            StreamDecoding(p, TlsRoundTrip.Written(h, trailer, padding) + more) ==
            Decoded(Tls(h.recordVersion, h.version, TlsRoundTrip.HostReported(hosts), text[..Min(|text|, 255)]))
  {
    hide HttpDecoder.Decode, TlsDecoder.Decode, DnsDecoder.DecodeMessage, StreamDecoding, TlsRoundTrip.WrittenBody,
      AlpnFilter.Joined, TlsRoundTrip.Fits;
    var data := TlsRoundTrip.Written(h, trailer, padding) + more;
    TlsRoundTrip.ClientHelloRoundTrip(h, trailer, padding, more);
    assert data[0] == 22;
    PortsDecide(p, data);
    if Unhinted(p) {
      RecordIsNotHttp(data);
      WithoutPortsAllAreTried(p, data);
    }
  }

  lemma RecordIsNotHttp(data: seq<byte>)
    requires data != [] && data[0] == 22
    ensures HttpDecoder.Decode(data).NoMatch?
  {
    hide HttpDecoder.LooksLikeHttp;
    HandshakeIsNotHttp(data);
  }

  /** A framed query on the DNS port. */
  lemma FramedQueryOnItsPort(p: Ports, id: uint16, flags: uint16, labels: seq<seq<byte>>, queryType: uint16,
                             queryClass: uint16, rest: seq<byte>)
    requires ForDns(p)
    requires (forall i | 0 <= i < |labels| :: DnsNames.IsLabel(labels[i])) && |DnsNames.Dotted(labels)| <= 253
    ensures var query := DnsRoundTrip.EncodedQuery(id, flags, labels, queryType, queryClass);
            && |query| < 0x1_0000
            && StreamDecoding(p, DnsRoundTrip.Framed(query) + rest) ==
               Decoded(Dns(id, flags >= 0x8000, flags / 2048 % 16, flags % 16, 1, DnsNames.Presentation(labels),
                           queryType, queryClass))
  {
    hide DnsDecoder.DecodeTcpFrame, StreamDecoding, DnsRoundTrip.EncodedQuery;
    var query := DnsRoundTrip.EncodedQuery(id, flags, labels, queryType, queryClass);
    DnsRoundTrip.FramedQueryRoundTrip(id, flags, labels, queryType, queryClass, rest);
    PortsDecide(p, DnsRoundTrip.Framed(query) + rest);
  }

  /** A bare query without a known port, unless its first bytes begin an HTTP message or a TLS record: the decoders for
      these are asked first. */
  lemma BareQueryWithoutPorts(p: Ports, id: uint16, flags: uint16, labels: seq<seq<byte>>, queryType: uint16,
                              queryClass: uint16)
    requires Unhinted(p) && id != 256 * 22 + 3
    requires (forall i | 0 <= i < |labels| :: DnsNames.IsLabel(labels[i])) && |DnsNames.Dotted(labels)| <= 253
    requires labels != [] ==> labels[0] != [] && labels[0][0] != 0
    requires var query := DnsRoundTrip.EncodedQuery(id, flags, labels, queryType, queryClass);
             !(HttpRoundTrip.Ascii("HTTP/") <= query) && !HttpRoundTrip.StartsWithMethod(query)
    ensures StreamDecoding(p, DnsRoundTrip.EncodedQuery(id, flags, labels, queryType, queryClass)) ==
            Decoded(Dns(id, flags >= 0x8000, flags / 2048 % 16, flags % 16, 1, DnsNames.Presentation(labels),
                        queryType, queryClass))
  {
    hide DnsDecoder.DecodeMessage, StreamDecoding, TlsDecoder.DecodeBody, HttpDecoder.Decode, DnsNames.EncodedName,
      HttpRoundTrip.StartsWithMethod;
    var query := DnsRoundTrip.EncodedQuery(id, flags, labels, queryType, queryClass);
    DnsRoundTrip.QueryRoundTrip(id, flags, labels, queryType, queryClass);
    QueryIsNotTls(query, id);
    QueryIsNotHttp(query);
    WithoutPortsAllAreTried(p, query);
  }

  lemma QueryIsNotTls(query: seq<byte>, id: uint16)
    requires |query| >= 12 && query[0] == id / 256 && query[1] == id % 256 && id != 256 * 22 + 3
    ensures TlsDecoder.Decode(query).NoMatch?
  {
    hide TlsDecoder.DecodeBody;
  }

  lemma QueryIsNotHttp(query: seq<byte>)
    requires |query| >= 12 && !(HttpRoundTrip.Ascii("HTTP/") <= query) && !HttpRoundTrip.StartsWithMethod(query)
    ensures HttpDecoder.Decode(query).NoMatch?
  {
    hide HttpDecoder.LooksLikeHttp, HttpDecoder.DecodeBlock, HttpDecoder.FindHeaderEnd;
    HttpRoundTrip.LooksLikeHttpExactly(query);
    assert !HttpRoundTrip.BeginsMethod(query) by {
      assert forall i | 0 <= i < 9 :: |HttpRoundTrip.MethodNames()[i]| <= 7;
    }
  }
}
