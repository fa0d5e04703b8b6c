/** DNS messages, bare and framed for TCP (src/app_dns.c). */
module DnsDecoder {
  import opened Bytes
  import opened AppMetadata
  import opened DnsNames

  const HEADER_LENGTH := 12

  predicate PlausibleCounts(data: seq<byte>)
    requires |data| >= HEADER_LENGTH
  {
    U16(data, 4) <= 64 && U16(data, 6) <= 512 && U16(data, 8) <= 512 && U16(data, 10) <= 512
  }

  function HeaderInfo(data: seq<byte>, name: seq<byte>, queryType: uint16, queryClass: uint16): AppInfo
    requires |data| >= HEADER_LENGTH
  {
    var flags := U16(data, 2);
    Dns(U16(data, 0), flags >= 0x8000, flags / 2048 % 16, flags % 16, U16(data, 4), name, queryType, queryClass)
  }

  /** One message without transport framing; only the first question is read. */
  function DecodeMessage(data: seq<byte>): Decoding {
    if |data| == 0 then NoMatch
    else if |data| < HEADER_LENGTH then NeedMore
    else if !PlausibleCounts(data) then NoMatch
    else if U16(data, 4) == 0 then Decoded(HeaderInfo(data, [], 0, 0))
    else
      match ParseName(data, HEADER_LENGTH)
      case None => Malformed
      case Some(name) =>
        if name.next + 4 > |data| then Malformed
        else Decoded(HeaderInfo(data, name.text, U16(data, name.next), U16(data, name.next + 2)))
  }

  method DecodeDnsMessage(data: seq<byte>) returns (verdict: Decoding)
    ensures verdict == DecodeMessage(data)
  {
    if |data| == 0 {
      return NoMatch;
    }
    if |data| < HEADER_LENGTH {
      return NeedMore;
    }
    if !PlausibleCounts(data) {
      return NoMatch;
    }
    var text, queryType, queryClass := [], 0, 0;
    if U16(data, 4) > 0 {
      var buffer := new byte[NAME_BUFFER_SIZE](_ => 0);
      var ok, length, next := ParseDnsName(data, HEADER_LENGTH, buffer);
      if !ok || next + 4 > |data| {
        return Malformed;
      }
      text, queryType, queryClass := buffer[..length], U16(data, next), U16(data, next + 2);
    }
    return Decoded(HeaderInfo(data, text, queryType, queryClass));
  }

  /** A message behind its two-byte length. */
  function DecodeTcpFrame(data: seq<byte>): Decoding {
    if |data| == 0 then NoMatch
    else if |data| < 2 then NeedMore
    else if U16(data, 0) == 0 then Malformed
    else if |data| < 2 + U16(data, 0) then NeedMore
    else DecodeMessage(data[2..2 + U16(data, 0)])
  }

  /** Whatever a framed decode concludes stands when bytes are appended. */
  lemma FrameVerdictIsFinal(data: seq<byte>, more: seq<byte>)
    requires Conclusive(DecodeTcpFrame(data))
    ensures DecodeTcpFrame(data + more) == DecodeTcpFrame(data)
  {
    var length := U16(data, 0);
    assert U16(data + more, 0) == length;
    if length > 0 {
      assert (data + more)[2..2 + length] == data[2..2 + length];
    }
  }

  /** A successful bare decode stands when bytes are appended. A MALFORMED one need not. */
  lemma MessageSuccessIsFinal(data: seq<byte>, more: seq<byte>)
    requires DecodeMessage(data).Decoded?
    ensures DecodeMessage(data + more) == DecodeMessage(data)
  {
    forall i: nat | i + 2 <= |data|
      ensures U16(data + more, i) == U16(data, i)
    {
    }
    if U16(data, 4) > 0 {
      NameSurvivesExtension(data, more, HEADER_LENGTH, [], 0, None);
    }
  }

  /** A bare message cut inside its question is MALFORMED, yet completes: bare MALFORMED is not final. */
  lemma MessageMalformedIsNotFinal()
    ensures var cut: seq<byte> := [0, 7, 1, 0, 0, 1, 0, 0, 0, 0, 0, 0];
            DecodeMessage(cut).Malformed? && DecodeMessage(cut + [0, 0, 1, 0, 1]).Decoded?
  {
    var cut: seq<byte> := [0, 7, 1, 0, 0, 1, 0, 0, 0, 0, 0, 0];
    var whole := cut + [0, 0, 1, 0, 1];
    assert whole[12] == 0;
    assert U16(whole, 4) == 1 && U16(whole, 6) == 0 && U16(whole, 8) == 0 && U16(whole, 10) == 0;
    assert ParseName(whole, 12) == Some(Name([DOT], 13));
    assert U16(cut, 4) == 1 && ParseName(cut, 12) == None;
  }
}
