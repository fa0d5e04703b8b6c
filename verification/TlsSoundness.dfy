/** What the TLS decoder accepts: the verdict on every record from its header, and that only a written ClientHello is
    decoded. */
module TlsSoundness {
  import opened Bytes
  import opened AppMetadata
  import opened TlsDecoder
  import opened TlsRoundTrip

  function Number(data: seq<byte>, i: nat): nat
    requires i + 1 < |data|
  {
    var high: int, low: int := data[i], data[i + 1];
    256 * high + low
  }

  /** The declared length of the handshake message. */
  function Declared(data: seq<byte>): nat
    requires |data| >= 9
  {
    var high: int := data[6];
    65536 * high + Number(data, 7)
  }

  /** The verdict from the headers alone: nothing is no match; without five bytes the first has to be 22; then the
      second has to be 3, the record has to be there, to hold four bytes, and to begin with a ClientHello; and a
      ClientHello that is longer than its record waits. In a whole one, the verdict is conclusive and reports both
      versions. */
  lemma RecordSpeaksForItself(data: seq<byte>)
    ensures data == [] ==> Decode(data).NoMatch?
    ensures 0 < |data| < 5 ==> Decode(data) == if data[0] == 22 then NeedMore else NoMatch
    ensures |data| >= 5 ==>
              var record := Number(data, 3);
              if data[0] != 22 || data[1] != 3 then Decode(data).NoMatch?
              else if |data| < 5 + record then Decode(data).NeedMore?
              else if record < 4 then Decode(data).Malformed?
              else if data[5] != 1 then Decode(data).NoMatch?
              else if Declared(data) > record - 4 then Decode(data).NeedMore?
              else
                || Decode(data).Malformed?
                || (&& Decode(data).Decoded? && Decode(data).info.Tls? && |data| >= 11
                    && Decode(data).info.recordVersion == Number(data, 1)
                    && Decode(data).info.clientVersion == Number(data, 9))
  {
    hide AfterVectors, ExtensionBlock;
    if |data| >= 5 {
      assert U16(data, 3) == Number(data, 3) && U16(data, 1) == Number(data, 1);
      HighByte(data);
      if |data| >= 9 && 9 + Declared(data) <= |data| {
        SliceVersion(data, 9 + Declared(data));
      }
    }
  }

  lemma HighByte(data: seq<byte>)
    requires |data| >= 5
    ensures U16(data, 1) / 256 == data[1]
  {
  }

  lemma SliceVersion(data: seq<byte>, end: nat)
    requires 9 <= end <= |data|
    ensures |data[9..end]| >= 34 ==> U16(data[9..end], 0) == Number(data, 9)
  {
  }

  // ----- vectors -----

  lemma Vector8IsSized(data: seq<byte>)
    ensures var cut := Vector8(data);
            cut.Some? ==> |cut.value.vector| < 256 && data == Sized8(cut.value.vector) + cut.value.rest
  {
  }

  lemma Vector16IsSized(data: seq<byte>)
    ensures var cut := Vector16(data);
            cut.Some? ==> |cut.value.vector| < 0x1_0000 && data == Sized16(cut.value.vector) + cut.value.rest
  {
    if Vector16(data).Some? {
      WordOf(data);
    }
  }

  lemma WordOf(data: seq<byte>)
    requires |data| >= 2
    ensures Word(U16(data, 0)) == data[..2]
  {
    var high: int, low: int := data[0], data[1];
    assert (high * 256 + low) / 256 == high;
  }

  lemma WholeIsSized(data: seq<byte>)
    ensures WholeVector16(data).Some? ==>
              |WholeVector16(data).value| < 0x1_0000 && data == Sized16(WholeVector16(data).value)
  {
    if WholeVector16(data).Some? {
      WordOf(data);
    }
  }

  // ----- lists -----

  predicate NamesStand(names: seq<ServerName>) {
    forall i | 0 <= i < |names| :: 0 < |names[i].name| < 0x1_0000
  }

  predicate ProtocolsStand(names: seq<seq<byte>>) {
    forall i | 0 <= i < |names| :: 0 < |names[i]| < 256
  }

  lemma {:induction false} NamesAreListed(list: seq<byte>, sni: seq<byte>) returns (names: seq<ServerName>)
    requires ServerNames(list, sni).Some?
    ensures NamesStand(names) && list == WrittenServerNames(names)
    decreases |list|
  {
    hide Vector16, Sized16, StrLen;
    names := [];
    if list != [] {
      Vector16IsSized(list[1..]);
      var cut := Vector16(list[1..]).value;
      var rest := NamesAreListed(cut.rest, if list[0] == 0 && StrLen(sni) == 0 then
          Truncated(cut.vector, TEXT_SIZE) else sni);
      names := [ServerName(list[0], cut.vector)] + rest;
      assert names[1..] == rest;
      assert list == [list[0]] + list[1..];
    }
  }

  lemma {:induction false} ProtocolsAreListed(list: seq<byte>, alpn: seq<byte>) returns (names: seq<seq<byte>>)
    requires Protocols(list, alpn).Some?
    ensures ProtocolsStand(names) && list == WrittenProtocols(names)
    decreases |list|
  {
    hide Vector8, AppendedAlpn;
    names := [];
    if list != [] {
      Vector8IsSized(list);
      var cut := Vector8(list).value;
      var rest := ProtocolsAreListed(cut.rest, AppendedAlpn(alpn, cut.vector).value);
      names := [cut.vector] + rest;
      assert names[1..] == rest;
    }
  }

  predicate ExtensionStands(e: Extension) {
    && |ExtensionData(e)| < 0x1_0000
    && match e
       case ServerNameList(names) => NamesStand(names) && |WrittenServerNames(names)| < 0x1_0000
       case ProtocolList(protocols) => ProtocolsStand(protocols) && |WrittenProtocols(protocols)| < 0x1_0000
       case Other(kind, _) => kind != 0 && kind != 16
  }

  predicate ExtensionsStand(es: seq<Extension>) {
    forall i | 0 <= i < |es| :: ExtensionStands(es[i])
  }

  /** The lengths of all vectors are what they enclose; host names and protocols are not empty, whatever bytes they
      hold. */
  predicate Stands(h: ClientHello) {
    && h.recordVersion / 256 == 3 && |h.random| == 32 && |h.session| < 256
    && 0 < |h.ciphers| < 0x1_0000 && |h.ciphers| % 2 == 0
    && 0 < |h.compression| < 256
    && (h.extensions.Some? ==>
          ExtensionsStand(h.extensions.value) && |WrittenExtensions(h.extensions.value)| < 0x1_0000)
  }

  lemma ExtensionIsListed(kind: uint16, data: seq<byte>, names: Names) returns (e: Extension)
    requires ExtensionNames(kind, data, names).Some? && |data| < 0x1_0000
    ensures ExtensionStands(e) && ExtensionKind(e) == kind && ExtensionData(e) == data
  {
    hide WholeVector16, Sized16, ServerNames, Protocols, WrittenServerNames, WrittenProtocols;
    if kind == 0 {
      WholeIsSized(data);
      var list := NamesAreListed(WholeVector16(data).value, names.sni);
      e := ServerNameList(list);
    } else if kind == 16 {
      WholeIsSized(data);
      var list := ProtocolsAreListed(WholeVector16(data).value, names.alpn);
      e := ProtocolList(list);
    } else {
      e := Other(kind, data);
    }
  }

  lemma {:induction false} ExtensionsAreListed(list: seq<byte>, names: Names) returns (es: seq<Extension>)
    requires Extensions(list, names).Some?
    ensures ExtensionsStand(es) && list == WrittenExtensions(es)
    decreases |list|
  {
    hide Vector16, ExtensionNames, ExtensionStands, ExtensionData, ExtensionKind, Word;
    es := [];
    if list != [] {
      Vector16IsSized(list[2..]);
      WordOf(list);
      var cut := Vector16(list[2..]).value;
      var first := ExtensionIsListed(U16(list, 0), cut.vector, names);
      var rest := ExtensionsAreListed(cut.rest, ExtensionNames(U16(list, 0), cut.vector, names).value);
      es := [first] + rest;
      assert es[1..] == rest;
      assert list == list[..2] + list[2..];
    }
  }

  // ----- the whole record -----

  lemma BodyIsWritten(body: seq<byte>, recordVersion: uint16) returns (h: ClientHello, trailer: seq<byte>)
    requires DecodeBody(body, recordVersion).Decoded? && recordVersion / 256 == 3
    ensures Stands(h) && h.recordVersion == recordVersion && body == WrittenBody(h) + trailer
    ensures h.extensions.None? ==> trailer == []
  {
    hide Vector8, Vector16, Sized8, Sized16, Extensions, Word;
    var afterVersion := body[34..];
    var session := Vector8(afterVersion).value;
    Vector8IsSized(afterVersion);
    var ciphers := Vector16(session.rest).value;
    Vector16IsSized(session.rest);
    var compression := Vector8(ciphers.rest).value;
    Vector8IsSized(ciphers.rest);
    var extensions := None;
    trailer := [];
    if compression.rest != [] {
      Vector16IsSized(compression.rest);
      var block := Vector16(compression.rest).value;
      var es := ExtensionsAreListed(block.vector, Names([], []));
      extensions, trailer := Some(es), block.rest;
    }
    h := ClientHello(recordVersion, U16(body, 0), body[2..34], session.vector, ciphers.vector, compression.vector,
                     extensions);
    WordOf(body);
    BodyAddsUp(h, trailer, body);
  }

  lemma BodyAddsUp(h: ClientHello, trailer: seq<byte>, body: seq<byte>)
    requires |body| >= 34 && Word(h.version) == body[..2] && h.random == body[2..34]
    requires body[34..] == Sized8(h.session) + (Sized16(h.ciphers) + (Sized8(h.compression)
                                                                     + (WrittenBlock(h.extensions) + trailer)))
    ensures body == WrittenBody(h) + trailer
  {
    hide Sized8, Sized16, Word, WrittenBlock;
    assert body == body[..2] + body[2..34] + body[34..];
  }

  /** Only a written ClientHello is decoded: in every record that decodes, the lengths of all vectors are what they
      enclose, no host name and no protocol is empty, and bytes are left over only where they are ignored: behind the
      extensions block, behind the handshake message, and behind the record. */
  lemma OnlyTheWrittenDecode(data: seq<byte>)
      returns (h: ClientHello, trailer: seq<byte>, padding: seq<byte>, more: seq<byte>)
    requires Decode(data).Decoded?
    ensures Stands(h) && FitsRecord(h, trailer, padding) && data == Written(h, trailer, padding) + more
  {
    hide DecodeBody, WrittenBody, Stands, Written, Handshake;
    var size, record := U24(data, 6), U16(data, 3);
    h, trailer := BodyIsWritten(data[9..9 + size], U16(data, 1));
    padding, more := data[9 + size..5 + record], data[5 + record..];
    RecordAddsUp(h, trailer, data, size, record);
  }

  lemma MessageAddsUp(h: ClientHello, trailer: seq<byte>, data: seq<byte>, size: nat)
    requires |data| >= 9 && data[5] == 1 && size == U24(data, 6) && 9 + size <= |data|
    requires data[9..9 + size] == WrittenBody(h) + trailer
    ensures Handshake(h, trailer) == data[5..9 + size]
  {
    hide WrittenBody, U24;
    SizeBytes(data);
    assert data[5..9 + size] == data[5..9] + data[9..9 + size];
  }

  lemma RecordAddsUp(h: ClientHello, trailer: seq<byte>, data: seq<byte>, size: nat, record: nat)
    requires |data| >= 9 && data[0] == 22 && data[5] == 1 && size == U24(data, 6) && record == U16(data, 3)
    requires size + 4 <= record && record + 5 <= |data| && h.recordVersion == U16(data, 1)
    requires data[9..9 + size] == WrittenBody(h) + trailer
    ensures var padding := data[9 + size..5 + record];
            && |Handshake(h, trailer) + padding| == record
            && data == Written(h, trailer, padding) + data[5 + record..]
  {
    hide WrittenBody, U24, Handshake, Word;
    MessageAddsUp(h, trailer, data, size);
    HeaderBytes(data);
    assert data[5..9 + size] + data[9 + size..5 + record] == data[5..5 + record];
    assert data == data[..5] + data[5..5 + record] + data[5 + record..];
  }

  lemma SizeBytes(data: seq<byte>)
    requires |data| >= 9 && data[5] == 1
    ensures var size := U24(data, 6);
            [1, size / 65536 % 256, size / 256 % 256, size % 256] == data[5..9]
  {
    var a: int, b: int, c: int := data[6], data[7], data[8];
    var size := U24(data, 6);
    assert size == a * 65536 + (b * 256 + c);
    assert size / 65536 == a && size / 256 == a * 256 + b;
  }

  lemma HeaderBytes(data: seq<byte>)
    requires |data| >= 5 && data[0] == 22
    ensures [22] + Word(U16(data, 1)) + Word(U16(data, 3)) == data[..5]
  {
    assert data[1..3][..2] == data[1..3] && data[3..5][..2] == data[3..5];
    WordOf(data[1..3]);
    WordOf(data[3..5]);
    assert U16(data[1..3], 0) == U16(data, 1) && U16(data[3..5], 0) == U16(data, 3);
  }
}
