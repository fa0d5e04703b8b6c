/** When a NO_MATCH verdict on stream bytes is final. */
module StreamFinality {
  import opened Bytes
  import opened AppMetadata
  import opened AppDecoder
  import HttpDecoder
  import TlsDecoder
  import opened DnsNames
  import opened DnsDecoder
  import opened DnsFinality

  /** The least value a 16-bit field can still have. */
  function LeastCount(data: seq<byte>, offset: nat): nat {
    var high: int, low: int := AtLeast(data, offset), AtLeast(data, offset + 1);
    high * 256 + low
  }

  /** The counts that are there do not rule out a plausible message with a question. */
  predicate MayBePlausible(data: seq<byte>) {
    && LeastCount(data, 4) <= 64 && LeastCount(data, 6) <= 512 && LeastCount(data, 8) <= 512
    && LeastCount(data, 10) <= 512 && (|data| >= 6 ==> LeastCount(data, 4) > 0)
  }

  /** The bytes can still become a message that is sniffed as DNS: plausible counts, a question, and a name that is
      not refused and does not begin with a NUL. */
  predicate MayBeDns(data: seq<byte>) {
    MayBePlausible(data) && (|data| >= HEADER_LENGTH ==> !RefusedInside(true, data, HEADER_LENGTH, 0, 0))
  }

  // ----- what DNS can still become -----

  lemma CountsStand(data: seq<byte>, more: seq<byte>)
    requires |data + more| >= HEADER_LENGTH && PlausibleCounts(data + more) && U16(data + more, 4) > 0
    ensures MayBePlausible(data)
  {
    var whole := data + more;
    assert forall i | 0 <= i < |data| :: whole[i] == data[i];
    assert forall i | 0 <= i < |whole| :: AtLeast(data, i) <= whole[i];
  }

  lemma StrongNeedsQuestion(data: seq<byte>)
    requires StrongDnsMatch(DecodeMessage(data))
    ensures |data| >= HEADER_LENGTH && PlausibleCounts(data) && U16(data, 4) > 0
    ensures !Declined(true, [], ParseName(data, HEADER_LENGTH))
  {
    hide ParseName;
  }

  lemma StrongByName(data: seq<byte>)
    requires |data| >= HEADER_LENGTH && PlausibleCounts(data) && U16(data, 4) > 0
    requires var name := ParseName(data, HEADER_LENGTH);
             name.Some? && !Declined(true, [], name) && name.value.next + 4 <= |data|
    ensures StrongDnsMatch(DecodeMessage(data))
  {
    NameIsNotEmpty(data, HEADER_LENGTH, [], 0, None);
  }

  lemma {:induction false} NameIsNotEmpty(data: seq<byte>, cursor: nat, text: seq<byte>, depth: nat,
                                          resume: Option<nat>)
    requires depth <= MAX_POINTER_DEPTH && ParseFrom(data, cursor, text, depth, resume).Some?
    ensures ParseFrom(data, cursor, text, depth, resume).value.text != []
    decreases MAX_POINTER_DEPTH - depth, |data| - cursor
  {
    hide PointerTarget;
    if data[cursor] >= 192 {
      NameIsNotEmpty(data, PointerTarget(data[cursor], data[cursor + 1]), text, depth + 1,
                     if resume.Some? then resume else Some(cursor + 2));
    } else if data[cursor] > 0 {
      var end := cursor + 1 + data[cursor];
      NameIsNotEmpty(data, end, Separated(text) + data[cursor + 1..end], depth, resume);
    }
  }

  lemma DnsDeclinesOn(data: seq<byte>, more: seq<byte>)
    requires !MayBeDns(data)
    ensures !StrongDnsMatch(DecodeMessage(data + more))
  {
    hide DecodeMessage, RefusedInside, ParseFrom, MayBePlausible, Declined;
    if StrongDnsMatch(DecodeMessage(data + more)) {
      StrongNeedsQuestion(data + more);
      CountsStand(data, more);
      RefusalStands(true, data, more, HEADER_LENGTH, [], 0, None);
      assert false;
    }
  }

  /** The shortest completion of a header that is not whole: one question, whose name is the root. */
  function WithRootQuestion(data: seq<byte>): (whole: seq<byte>)
    requires |data| < HEADER_LENGTH
    ensures data <= whole && |whole| == 17
    ensures forall i | 0 <= i < 17 :: whole[i] == if i < |data| then data[i] else if i == 5 then 1 else 0
  {
    data + seq(17 - |data|, i requires 0 <= i => if |data| + i == 5 then 1 else 0)
  }

  lemma ShortBecomesDns(data: seq<byte>)
    requires |data| < HEADER_LENGTH && MayBePlausible(data)
    ensures StrongDnsMatch(DecodeMessage(WithRootQuestion(data)))
  {
    var whole := WithRootQuestion(data);
    assert U16(whole, 6) == LeastCount(data, 6) && U16(whole, 8) == LeastCount(data, 8);
    assert U16(whole, 10) == LeastCount(data, 10);
    assert whole[12] == 0;
    TerminatorEnds(whole, 12, [], 0, None);
    assert ParseName(whole, 12) == Some(Name([DOT], 13));
    assert U16(whole, 4) > 0 && U16(whole, 4) <= 64;
  }

  lemma BecomesDns(data: seq<byte>) returns (more: seq<byte>)
    requires MayBeDns(data)
    ensures StrongDnsMatch(DecodeMessage(data + more))
  {
    hide DecodeMessage, RefusedInside, ParseFrom, Declined, StrongDnsMatch;
    if |data| < HEADER_LENGTH {
      ShortBecomesDns(data);
      more := WithRootQuestion(data)[|data|..];
      assert data + more == WithRootQuestion(data);
    } else {
      more := CompletesMessage(true, data);
      WholeCountsStand(data, more);
      StrongByName(data + more);
    }
  }

  lemma WholeCountsStand(data: seq<byte>, more: seq<byte>)
    requires |data| >= HEADER_LENGTH && MayBePlausible(data)
    ensures PlausibleCounts(data + more) && U16(data + more, 4) > 0
  {
    assert forall i | 0 <= i < |data| :: (data + more)[i] == data[i];
  }

  // ----- sniffed bytes -----

  lemma StrongIsDecoded(d: Decoding)
    requires StrongDnsMatch(d)
    ensures d.Decoded?
  {
  }

  lemma TlsDeclinesOn(data: seq<byte>, more: seq<byte>)
    requires data != [] && !Settles(TlsDecoder.Decode(data))
    ensures !Settles(TlsDecoder.Decode(data + more))
  {
    hide TlsDecoder.Decode;
    if TlsDecoder.Decode(data).Malformed? {
      TlsDecoder.VerdictIsFinal(data, more);
    } else {
      TlsNoMatchStands(data, more);
    }
  }

  lemma ResponseBegins(data: seq<byte>)
    requires HttpDecoder.CutResponse(data)
    ensures exists more :: !Sniffed(data + more).NoMatch?
  {
    var more := HttpDecoder.HTTP_SLASH[|data|..];
    assert data + more == HttpDecoder.HTTP_SLASH;
    assert HttpDecoder.Decode(data + more).NeedMore?;
    assert !Sniffed(data + more).NoMatch?;
  }

  /** NO_MATCH on bytes without a port hint is final if and only if they are not the beginning of a response and can no
      longer become a DNS message with a name. */
  lemma SniffedNoMatchIsFinal(data: seq<byte>)
    requires data != [] && Sniffed(data).NoMatch?
    ensures (forall more :: Sniffed(data + more).NoMatch?) <==> !HttpDecoder.CutResponse(data) && !MayBeDns(data)
  {
    hide HttpDecoder.Decode, TlsDecoder.Decode, DecodeMessage, MayBeDns, StrongDnsMatch;
    if HttpDecoder.CutResponse(data) {
      ResponseBegins(data);
    } else if MayBeDns(data) {
      var more := BecomesDns(data);
      StrongIsDecoded(DecodeMessage(data + more));
      assert !Sniffed(data + more).NoMatch?;
    } else {
      forall more
        ensures Sniffed(data + more).NoMatch?
      {
        HttpDeclinesOn(data, more);
        TlsDeclinesOn(data, more);
        DnsDeclinesOn(data, more);
      }
    }
  }

  /** On stream bytes NO_MATCH is a verdict of sniffing alone, final under that condition. */
  lemma NoMatchIsFinal(p: Ports, data: seq<byte>)
    requires data != [] && StreamDecoding(p, data).NoMatch?
    ensures !HttpPorts(p) && !TlsPorts(p) && !DnsPorts(p)
    ensures (forall more :: StreamDecoding(p, data + more).NoMatch?) <==>
            !HttpDecoder.CutResponse(data) && !MayBeDns(data)
  {
    hide Sniffed, MayBeDns;
    SniffedNoMatchIsFinal(data);
    assert forall more :: StreamDecoding(p, data + more) == Sniffed(data + more);
  }
}
