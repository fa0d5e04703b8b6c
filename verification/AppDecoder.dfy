/** Choosing a decoder for reassembled bytes (src/app_decoder.c). */
module AppDecoder {
  import opened Bytes
  import opened AppMetadata
  import DnsDecoder
  import HttpDecoder
  import TlsDecoder

  datatype Ports = Ports(known: bool, source: uint16, destination: uint16)

  predicate PortMatches(p: Ports, port: uint16) {
    p.known && (p.source == port || p.destination == port)
  }

  predicate HttpPorts(p: Ports) {
    PortMatches(p, 80) || PortMatches(p, 8080) || PortMatches(p, 8000)
  }

  predicate TlsPorts(p: Ports) {
    PortMatches(p, 443) || PortMatches(p, 8443)
  }

  predicate DnsPorts(p: Ports) {
    PortMatches(p, 53)
  }

  /** Bytes that do not match the protocol their ports promise are malformed. */
  function Preferred(d: Decoding): Decoding {
    if d.NoMatch? then Malformed else d
  }

  /** A sniffed DNS message counts only with a first question whose name is not empty text. */
  predicate StrongDnsMatch(d: Decoding) {
    d.Decoded? && d.info.Dns? && d.info.questions > 0 && d.info.name != [] && d.info.name[0] != 0
  }

  predicate Settles(d: Decoding) {
    d.Decoded? || d.NeedMore?
  }

  /** Without a port hint: HTTP, then TLS, then DNS. */
  function Sniffed(data: seq<byte>): Decoding {
    if |data| == 0 then NoMatch
    else if Settles(HttpDecoder.Decode(data)) then HttpDecoder.Decode(data)
    else if Settles(TlsDecoder.Decode(data)) then TlsDecoder.Decode(data)
    else if StrongDnsMatch(DnsDecoder.DecodeMessage(data)) then DnsDecoder.DecodeMessage(data)
    else NoMatch
  }

  /** `app_decode_stream` for a TCP packet. */
  function StreamDecoding(p: Ports, data: seq<byte>): Decoding {
    if |data| == 0 then NoMatch
    else if HttpPorts(p) then Preferred(HttpDecoder.Decode(data))
    else if TlsPorts(p) then Preferred(TlsDecoder.Decode(data))
    else if DnsPorts(p) then Preferred(DnsDecoder.DecodeTcpFrame(data))
    else Sniffed(data)
  }

  method SniffBuffer(data: seq<byte>) returns (verdict: Decoding)
    ensures verdict == Sniffed(data)
  {
    if |data| == 0 {
      return NoMatch;
    }
    verdict := HttpDecoder.DecodeHttp(data);
    if Settles(verdict) {
      return;
    }
    verdict := TlsDecoder.DecodeClientHello(data);
    if Settles(verdict) {
      return;
    }
    verdict := DnsDecoder.DecodeDnsMessage(data);
    if !StrongDnsMatch(verdict) {
      verdict := NoMatch;
    }
  }

  method DecodeStream(p: Ports, data: seq<byte>) returns (verdict: Decoding)
    ensures verdict == StreamDecoding(p, data)
  {
    if |data| == 0 {
      return NoMatch;
    }
    if HttpPorts(p) {
      verdict := HttpDecoder.DecodeHttp(data);
      return Preferred(verdict);
    }
    if TlsPorts(p) {
      verdict := TlsDecoder.DecodeClientHello(data);
      return Preferred(verdict);
    }
    if DnsPorts(p) {
      return Preferred(DnsDecoder.DecodeTcpFrame(data));
    }
    verdict := SniffBuffer(data);
  }

  lemma TlsStartsWithHandshake(data: seq<byte>)
    requires data != [] && Settles(TlsDecoder.Decode(data))
    ensures data[0] == TlsDecoder.HANDSHAKE_RECORD && HttpDecoder.Decode(data).NoMatch?
  {
    hide HttpDecoder.LooksLikeHttp, HttpDecoder.DecodeBlock, HttpDecoder.FindHeaderEnd, TlsDecoder.DecodeBody;
    HandshakeIsNotHttp(data);
  }

  lemma HandshakeIsNotHttp(data: seq<byte>)
    requires data != [] && data[0] == TlsDecoder.HANDSHAKE_RECORD
    ensures !HttpDecoder.LooksLikeHttp(data)
  {
    assert forall i | 0 <= i < |HttpDecoder.METHODS| ::
        HttpDecoder.METHODS[i] != [] && HttpDecoder.METHODS[i][0] != TlsDecoder.HANDSHAKE_RECORD;
  }

  lemma DnsIsLong(data: seq<byte>)
    requires DnsDecoder.DecodeMessage(data).Decoded?
    ensures |data| >= 12
  {
  }

  /** What HTTP declined it declines on every extension, unless it was the beginning of a response. */
  lemma HttpDeclinesOn(data: seq<byte>, more: seq<byte>)
    requires data != [] && !HttpDecoder.CutResponse(data) && !Settles(HttpDecoder.Decode(data))
    ensures !Settles(HttpDecoder.Decode(data + more))
  {
    hide HttpDecoder.Decode;
    if HttpDecoder.Decode(data).Malformed? {
      HttpDecoder.VerdictIsFinal(data, more);
    } else {
      HttpDecoder.NoMatchStandsUnlessCut(data, more);
    }
  }

  lemma SniffedSuccessIsFinal(data: seq<byte>, more: seq<byte>)
    requires Sniffed(data).Decoded?
    ensures Sniffed(data + more) == Sniffed(data)
  {
    hide HttpDecoder.Decode, TlsDecoder.Decode, DnsDecoder.DecodeMessage;
    var whole := data + more;
    if Settles(HttpDecoder.Decode(data)) {
      HttpDecoder.VerdictIsFinal(data, more);
    } else if Settles(TlsDecoder.Decode(data)) {
      TlsDecoder.VerdictIsFinal(data, more);
      TlsStartsWithHandshake(whole);
    } else {
      DnsIsLong(data);
      HttpDeclinesOn(data, more);
      TlsDecoder.VerdictIsFinal(data, more);
      DnsDecoder.MessageSuccessIsFinal(data, more);
    }
  }

  /** On every port a successful decode of stream bytes stands, with the same metadata, whatever follows. */
  lemma SuccessIsFinal(p: Ports, data: seq<byte>, more: seq<byte>)
    requires StreamDecoding(p, data).Decoded?
    ensures StreamDecoding(p, data + more) == StreamDecoding(p, data)
  {
    hide HttpDecoder.Decode, TlsDecoder.Decode, DnsDecoder.DecodeTcpFrame, Sniffed;
    if HttpPorts(p) {
      HttpDecoder.VerdictIsFinal(data, more);
    } else if TlsPorts(p) {
      TlsDecoder.VerdictIsFinal(data, more);
    } else if DnsPorts(p) {
      DnsDecoder.FrameVerdictIsFinal(data, more);
    } else {
      SniffedSuccessIsFinal(data, more);
    }
  }

  lemma TlsNoMatchStands(data: seq<byte>, more: seq<byte>)
    requires data != [] && TlsDecoder.Decode(data).NoMatch?
    ensures TlsDecoder.Decode(data + more).NoMatch?
  {
    if |data| >= TlsDecoder.RECORD_HEADER {
      TlsDecoder.VerdictIsFinal(data, more);
    }
  }

  lemma FrameNoMatchStands(data: seq<byte>, more: seq<byte>)
    requires data != [] && DnsDecoder.DecodeTcpFrame(data).NoMatch?
    ensures DnsDecoder.DecodeTcpFrame(data + more).NoMatch?
  {
    var length := U16(data, 0);
    assert U16(data + more, 0) == length;
    assert (data + more)[2..2 + length] == data[2..2 + length];
  }

  lemma MalformedStands(p: Ports, data: seq<byte>, more: seq<byte>)
    requires StreamDecoding(p, data).Malformed? && !(HttpPorts(p) && HttpDecoder.CutResponse(data))
    ensures StreamDecoding(p, data + more).Malformed?
  {
    hide HttpDecoder.Decode, TlsDecoder.Decode, DnsDecoder.DecodeTcpFrame;
    if HttpPorts(p) {
      if HttpDecoder.Decode(data).Malformed? {
        HttpDecoder.VerdictIsFinal(data, more);
      } else {
        HttpDecoder.NoMatchStandsUnlessCut(data, more);
      }
    } else if TlsPorts(p) {
      if TlsDecoder.Decode(data).Malformed? {
        TlsDecoder.VerdictIsFinal(data, more);
      } else {
        TlsNoMatchStands(data, more);
      }
    } else if DnsPorts(p) {
      if DnsDecoder.DecodeTcpFrame(data).Malformed? {
        DnsDecoder.FrameVerdictIsFinal(data, more);
      } else {
        FrameNoMatchStands(data, more);
      }
    }
  }

  /** MALFORMED is final for stream bytes exactly when it is not the verdict on "HT", "HTT" or "HTTP"
      on an HTTP port. */
  lemma MalformedIsFinalUnlessCutResponse(p: Ports, data: seq<byte>)
    requires StreamDecoding(p, data).Malformed?
    ensures (forall more :: StreamDecoding(p, data + more).Malformed?) <==>
            !(HttpPorts(p) && HttpDecoder.CutResponse(data))
  {
    if HttpPorts(p) && HttpDecoder.CutResponse(data) {
      var more := HttpDecoder.HTTP_SLASH[|data|..];
      assert data + more == HttpDecoder.HTTP_SLASH;
      assert StreamDecoding(p, data + more).NeedMore?;
    } else {
      forall more
        ensures StreamDecoding(p, data + more).Malformed?
      {
        MalformedStands(p, data, more);
      }
    }
  }
}
