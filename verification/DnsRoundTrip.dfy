/** What the fields of a decoded DNS message are, and that written messages come back, bare and framed. */
module DnsRoundTrip {
  import opened Bytes
  import opened AppMetadata
  import opened DnsNames
  import opened DnsDecoder

  // ----- the fields of a message -----

  /** Two bytes, most significant first. */
  function Word(data: seq<byte>, i: nat): nat
    requires i + 1 < |data|
  {
    var high: int, low: int := data[i], data[i + 1];
    256 * high + low
  }

  /** At most 64 questions, and at most 512 records of each kind. */
  predicate CountsAreSmall(data: seq<byte>)
    requires |data| >= 12
  {
    Word(data, 4) <= 64 && Word(data, 6) <= 512 && Word(data, 8) <= 512 && Word(data, 10) <= 512
  }

  /** A name stands behind the header, within the bounds, and four more bytes behind it. */
  ghost predicate HasQuestion(data: seq<byte>, walk: Walk) {
    NameAt(data, 12, walk) && Acceptable(walk) && ContinuesAt(12, walk) + 4 <= |data|
  }

  /** Without a question only the header speaks; and too few bytes are no verdict, and implausible counts no message. */
  lemma HeaderSpeaksForItself(data: seq<byte>)
    ensures data == [] ==> DecodeMessage(data).NoMatch?
    ensures 0 < |data| < 12 ==> DecodeMessage(data).NeedMore?
    ensures |data| >= 12 && !CountsAreSmall(data) ==> DecodeMessage(data).NoMatch?
    ensures |data| >= 12 && CountsAreSmall(data) && Word(data, 4) == 0 ==>
              DecodeMessage(data)
              == Decoded(Dns(Word(data, 0), data[2] >= 128, data[2] / 8 % 16, data[3] % 16, 0, [], 0, 0))
  {
    hide ParseName;
    if |data| >= 12 {
      WordIs(data);
      FlagBits(data[2], data[3]);
    }
  }

  lemma WordIs(data: seq<byte>)
    ensures forall i: nat | i + 2 <= |data| :: U16(data, i) == Word(data, i)
  {
  }

  lemma FlagBits(high: byte, low: byte)
    ensures var h: int, l: int := high, low;
            var flags := h * 256 + l;
            (flags >= 0x8000 <==> h >= 128) && flags / 2048 % 16 == h / 8 % 16 && flags % 16 == l % 16
  {
    var h: int, l: int := high, low;
    assert h * 256 + l == (h / 8) * 2048 + (h % 8 * 256 + l);
    assert (h * 256 + l) / 2048 == h / 8;
  }

  /** A message whose counts announce a question is decoded exactly when a question stands behind its header; it is
      malformed otherwise. */
  lemma QuestionIsRequired(data: seq<byte>)
    requires |data| >= 12 && CountsAreSmall(data) && Word(data, 4) > 0
    ensures DecodeMessage(data).Decoded? <==> exists walk :: HasQuestion(data, walk)
    ensures DecodeMessage(data).Decoded? || DecodeMessage(data).Malformed?
  {
    hide ParseName, NameAt, Acceptable, ContinuesAt, HeaderInfo;
    WordIs(data);
    ParsesExactlyTheNames(data, 12);
    if DecodeMessage(data).Decoded? {
      var walk :| NameAt(data, 12, walk) && Acceptable(walk);
      assert HasQuestion(data, walk);
    }
  }

  /** And then this is what it says: identification, response bit, opcode, result code, counts, the dotted name of the
      first question, its type and its class. */
  lemma QuestionSpeaksForItself(data: seq<byte>, walk: Walk)
    requires |data| >= 12 && CountsAreSmall(data) && Word(data, 4) > 0 && HasQuestion(data, walk)
    ensures var at := ContinuesAt(12, walk);
            DecodeMessage(data)
            == Decoded(Dns(Word(data, 0), data[2] >= 128, data[2] / 8 % 16, data[3] % 16, Word(data, 4),
                           Presentation(Labels(walk)), Word(data, at), Word(data, at + 2)))
  {
    hide ParseName, NameAt, Acceptable, ContinuesAt;
    WordIs(data);
    FlagBits(data[2], data[3]);
    ParsesExactlyTheNames(data, 12);
  }

  // ----- written messages -----

  /** A query with one question, as a resolver writes it. */
  function EncodedQuery(id: uint16, flags: uint16, labels: seq<seq<byte>>, queryType: uint16, queryClass: uint16)
      : seq<byte>
    requires forall i | 0 <= i < |labels| :: IsLabel(labels[i])
  {
    [id / 256, id % 256, flags / 256, flags % 256, 0, 1, 0, 0, 0, 0, 0, 0] + EncodedName(labels)
    + [queryType / 256, queryType % 256, queryClass / 256, queryClass % 256]
  }

  /** Decoding a query gives back its header fields, its dotted name, its type and its class. */
  lemma QueryRoundTrip(id: uint16, flags: uint16, labels: seq<seq<byte>>, queryType: uint16, queryClass: uint16)
    requires (forall i | 0 <= i < |labels| :: IsLabel(labels[i])) && |Dotted(labels)| <= 253
    ensures DecodeMessage(EncodedQuery(id, flags, labels, queryType, queryClass)) ==
            Decoded(Dns(id, flags >= 0x8000, flags / 2048 % 16, flags % 16, 1, Presentation(labels),
                        queryType, queryClass))
  {
    hide ParseName, NameAt, EncodedName, Dotted, Labels, Hops, ContinuesAt, DecodeMessage, Presentation;
    var header: seq<byte> := [id / 256, id % 256, flags / 256, flags % 256, 0, 1, 0, 0, 0, 0, 0, 0];
    var tail: seq<byte> := [queryType / 256, queryType % 256, queryClass / 256, queryClass % 256];
    var data, walk := header + EncodedName(labels) + tail, StraightWalk(labels);
    assert NameAt(data, 12, walk) && Labels(walk) == labels && Hops(walk) == 0
        && ContinuesAt(12, walk) == 12 + |EncodedName(labels)| by {
      EncodedNameStands(header, labels, tail);
    }
    QueryWords(header, EncodedName(labels), tail);
    FlagBits(flags / 256, flags % 256);
    QuestionSpeaksForItself(data, walk);
  }

  lemma QueryWords(header: seq<byte>, name: seq<byte>, tail: seq<byte>)
    requires |header| == 12 && |tail| == 4
    ensures var data, at := header + name + tail, 12 + |name|;
            && |data| == at + 4
            && Word(data, 0) == Word(header, 0) && Word(data, 4) == Word(header, 4) && Word(data, 6) == Word(header, 6)
            && Word(data, 8) == Word(header, 8) && Word(data, 10) == Word(header, 10)
            && data[2] == header[2] && data[3] == header[3]
            && Word(data, at) == Word(tail, 0) && Word(data, at + 2) == Word(tail, 2)
  {
  }

  // ----- framing -----

  /** A message behind its length, most significant byte first. */
  function Framed(m: seq<byte>): seq<byte>
    requires |m| < 0x1_0000
  {
    [|m| / 256, |m| % 256] + m
  }

  /** A framed message decodes as the message it frames, whatever follows the frame. */
  lemma FrameIsItsMessage(m: seq<byte>, rest: seq<byte>)
    requires 0 < |m| < 0x1_0000
    ensures DecodeTcpFrame(Framed(m) + rest) == DecodeMessage(m)
  {
    hide DecodeMessage;
    var data := Framed(m) + rest;
    assert U16(data, 0) == |m|;
    assert data[2..2 + |m|] == m;
  }

  /** Every beginning of a frame asks for more; nothing at all is no match; a frame of length zero is malformed. */
  lemma BeginningOfAFrameNeedsMore(m: seq<byte>, k: nat)
    requires 0 < |m| < 0x1_0000 && k < |m| + 2
    ensures if k == 0 then DecodeTcpFrame(Framed(m)[..k]).NoMatch? else DecodeTcpFrame(Framed(m)[..k]).NeedMore?
  {
    hide DecodeMessage;
    if k >= 2 {
      assert U16(Framed(m)[..k], 0) == |m|;
    }
  }

  lemma EmptyFrameIsMalformed(rest: seq<byte>)
    ensures DecodeTcpFrame([0, 0] + rest).Malformed?
  {
  }

  lemma {:induction false} EncodedNameIsShort(labels: seq<seq<byte>>)
    requires forall i | 0 <= i < |labels| :: IsLabel(labels[i])
    ensures |EncodedName(labels)| == if labels == [] then 1 else |Dotted(labels)| + 2
    decreases |labels|
  {
    if labels != [] {
      EncodedNameIsShort(labels[1..]);
    }
  }

  /** A framed query comes back, with anything behind it. */
  lemma FramedQueryRoundTrip(id: uint16, flags: uint16, labels: seq<seq<byte>>, queryType: uint16, queryClass: uint16,
                             rest: seq<byte>)
    requires (forall i | 0 <= i < |labels| :: IsLabel(labels[i])) && |Dotted(labels)| <= 253
    ensures var query := EncodedQuery(id, flags, labels, queryType, queryClass);
            && |query| < 0x1_0000
            && DecodeTcpFrame(Framed(query) + rest) ==
               Decoded(Dns(id, flags >= 0x8000, flags / 2048 % 16, flags % 16, 1, Presentation(labels),
                           queryType, queryClass))
  {
    hide DecodeMessage, DecodeTcpFrame;
    var query := EncodedQuery(id, flags, labels, queryType, queryClass);
    EncodedNameIsShort(labels);
    FrameIsItsMessage(query, rest);
    QueryRoundTrip(id, flags, labels, queryType, queryClass);
  }
}
