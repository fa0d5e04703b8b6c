/** Writing a ClientHello (section 4.1.2 of RFC 8446) and reading its metadata back. */
module TlsRoundTrip {
  import opened Bytes
  import opened AppMetadata
  import opened TlsDecoder
  import opened AlpnFilter

  function Sized8(vector: seq<byte>): seq<byte> {
    [(|vector| % 256) as byte] + vector
  }

  /** A value below 65536, most significant byte first. */
  function Word(value: nat): seq<byte> {
    [value / 256 % 256, value % 256]
  }

  function Sized16(vector: seq<byte>): seq<byte> {
    Word(|vector|) + vector
  }

  datatype ServerName = ServerName(kind: byte, name: seq<byte>)

  datatype Extension =
    | ServerNameList(names: seq<ServerName>)
    | ProtocolList(protocols: seq<seq<byte>>)
    | Other(kind: uint16, data: seq<byte>)

  datatype ClientHello = ClientHello(
    recordVersion: uint16, version: uint16, random: seq<byte>, session: seq<byte>, ciphers: seq<byte>,
    compression: seq<byte>, extensions: Option<seq<Extension>>)

  function WrittenServerNames(names: seq<ServerName>): seq<byte> {
    if names == [] then [] else [names[0].kind] + Sized16(names[0].name) + WrittenServerNames(names[1..])
  }

  function WrittenProtocols(names: seq<seq<byte>>): seq<byte> {
    if names == [] then [] else Sized8(names[0]) + WrittenProtocols(names[1..])
  }

  function ExtensionKind(e: Extension): uint16 {
    match e
    case ServerNameList(_) => 0
    case ProtocolList(_) => 16
    case Other(kind, _) => kind
  }

  function ExtensionData(e: Extension): seq<byte> {
    match e
    case ServerNameList(names) => Sized16(WrittenServerNames(names))
    case ProtocolList(protocols) => Sized16(WrittenProtocols(protocols))
    case Other(_, data) => data
  }

  function WrittenExtensions(es: seq<Extension>): seq<byte> {
    if es == [] then [] else Word(ExtensionKind(es[0])) + Sized16(ExtensionData(es[0])) + WrittenExtensions(es[1..])
  }

  function WrittenBlock(extensions: Option<seq<Extension>>): seq<byte> {
    match extensions
    case None => []
    case Some(es) => Sized16(WrittenExtensions(es))
  }

  function WrittenBody(h: ClientHello): seq<byte> {
    Word(h.version) + h.random
    + (Sized8(h.session) + (Sized16(h.ciphers) + (Sized8(h.compression) + WrittenBlock(h.extensions))))
  }

  /** A handshake message of type ClientHello: the body, and what its length counts besides. */
  function Handshake(h: ClientHello, trailer: seq<byte>): seq<byte> {
    var size := |WrittenBody(h) + trailer|;
    [1, size / 65536 % 256, size / 256 % 256, size % 256] + WrittenBody(h) + trailer
  }

  /** A record holding that message and some padding. */
  function Written(h: ClientHello, trailer: seq<byte>, padding: seq<byte>): seq<byte> {
    [22] + Word(h.recordVersion) + Sized16(Handshake(h, trailer) + padding)
  }

  // ----- what can be written -----

  predicate NamesFit(names: seq<ServerName>) {
    forall i | 0 <= i < |names| :: 0 < |names[i].name| < 0x1_0000
  }

  predicate ProtocolsFit(names: seq<seq<byte>>) {
    forall i | 0 <= i < |names| :: 0 < |names[i]| < 256 && 0 !in names[i]
  }

  predicate ExtensionFits(e: Extension) {
    && |ExtensionData(e)| < 0x1_0000
    && match e
       case ServerNameList(names) => NamesFit(names) && |WrittenServerNames(names)| < 0x1_0000
       case ProtocolList(protocols) => ProtocolsFit(protocols) && |WrittenProtocols(protocols)| < 0x1_0000
       case Other(kind, _) => kind != 0 && kind != 16
  }

  predicate ExtensionsFit(es: seq<Extension>) {
    forall i | 0 <= i < |es| :: ExtensionFits(es[i])
  }

  predicate Fits(h: ClientHello) {
    && h.recordVersion / 256 == 3 && |h.random| == 32 && |h.session| < 256
    && 0 < |h.ciphers| < 0x1_0000 && |h.ciphers| % 2 == 0
    && 0 < |h.compression| < 256
    && (h.extensions.Some? ==> ExtensionsFit(h.extensions.value) && |WrittenExtensions(h.extensions.value)| < 0x1_0000)
  }

  /** One record holds it; only an extensions block is followed by bytes that are ignored. */
  predicate FitsRecord(h: ClientHello, trailer: seq<byte>, padding: seq<byte>) {
    |Handshake(h, trailer) + padding| < 0x1_0000 && (h.extensions.None? ==> trailer == [])
  }

  // ----- what should be read -----

  /** All names of type host_name, in order. */
  function HostNames(names: seq<ServerName>): seq<seq<byte>> {
    if names == [] then [] else (if names[0].kind == 0 then [names[0].name] else []) + HostNames(names[1..])
  }

  function AllHosts(es: seq<Extension>): seq<seq<byte>> {
    if es == [] then [] else (if es[0].ServerNameList? then HostNames(es[0].names) else []) + AllHosts(es[1..])
  }

  function AllProtocols(es: seq<Extension>): seq<seq<byte>> {
    if es == [] then [] else (if es[0].ProtocolList? then es[0].protocols else []) + AllProtocols(es[1..])
  }

  /** The text after these host names: one that begins with a NUL is taken for none. */
  function FirstOf(sni: seq<byte>, hosts: seq<seq<byte>>): seq<byte>
    decreases |hosts|
  {
    if hosts == [] || (sni != [] && sni[0] != 0) then sni else FirstOf(Truncated(hosts[0], TEXT_SIZE), hosts[1..])
  }

  /** The first host name that does not begin with a NUL, or the last if all do, up to 255 bytes. */
  function HostReported(hosts: seq<seq<byte>>): seq<byte> {
    if hosts == [] then []
    else if |hosts| == 1 || (hosts[0] != [] && hosts[0][0] != 0) then hosts[0][..Min(|hosts[0]|, 255)]
    else HostReported(hosts[1..])
  }

  lemma {:induction false} FirstIsReported(sni: seq<byte>, hosts: seq<seq<byte>>)
    requires hosts != [] && (sni == [] || sni[0] == 0)
    ensures FirstOf(sni, hosts) == HostReported(hosts)
    decreases |hosts|
  {
    if |hosts| > 1 && (hosts[0] == [] || hosts[0][0] == 0) {
      FirstIsReported(Truncated(hosts[0], TEXT_SIZE), hosts[1..]);
    }
  }

  // ----- vectors -----

  lemma ReadSized8(vector: seq<byte>, rest: seq<byte>)
    requires |vector| < 256
    ensures Vector8(Sized8(vector) + rest) == Some(Cut(vector, rest))
  {
    var data := Sized8(vector) + rest;
    assert data[1..1 + |vector|] == vector && data[1 + |vector|..] == rest;
  }

  lemma ReadSized16(vector: seq<byte>, rest: seq<byte>)
    requires |vector| < 0x1_0000
    ensures Vector16(Sized16(vector) + rest) == Some(Cut(vector, rest))
    ensures WholeVector16(Sized16(vector)) == Some(vector)
  {
    var data := Sized16(vector) + rest;
    assert data[2..2 + |vector|] == vector && data[2 + |vector|..] == rest;
  }

  lemma StrLenOfPlain(text: seq<byte>)
    requires 0 !in text
    ensures StrLen(text) == |text|
  {
  }

  // ----- lists -----

  lemma {:induction false} ServerNamesRead(names: seq<ServerName>, sni: seq<byte>)
    requires NamesFit(names)
    ensures ServerNames(WrittenServerNames(names), sni) == Some(FirstOf(sni, HostNames(names)))
    decreases |names|
  {
    hide Vector16, Sized16, StrLen;
    if names != [] {
      var n, rest := names[0], WrittenServerNames(names[1..]);
      var list := WrittenServerNames(names);
      assert list[1..] == Sized16(n.name) + rest;
      ReadSized16(n.name, rest);
      var sni' := if n.kind == 0 && StrLen(sni) == 0 then Truncated(n.name, TEXT_SIZE) else sni;
      ServerNamesRead(names[1..], sni');
      OneMoreHost(n, sni, HostNames(names[1..]));
    }
  }

  lemma OneMoreHost(n: ServerName, sni: seq<byte>, later: seq<seq<byte>>)
    ensures FirstOf(sni, (if n.kind == 0 then [n.name] else []) + later)
         == FirstOf(if n.kind == 0 && StrLen(sni) == 0 then Truncated(n.name, TEXT_SIZE) else sni, later)
  {
    if n.kind == 0 {
      assert ([n.name] + later)[1..] == later;
      assert StrLen(sni) == 0 <==> sni == [] || sni[0] == 0;
    } else {
      assert [] + later == later;
    }
  }

  /** The text after one more protocol, as far as the field holds it. */
  function Appended(text: seq<byte>, name: seq<byte>): seq<byte> {
    Truncated((if text == [] then [] else text + [COMMA]) + name, TEXT_SIZE)
  }

  /** The text after these protocols: a text that fills the field leaves no room for the separator of another. */
  function AppendedAll(text: seq<byte>, names: seq<seq<byte>>): Option<seq<byte>>
    decreases |names|
  {
    if names == [] then Some(text)
    else if |text| + 1 >= TEXT_SIZE then None
    else AppendedAll(Appended(text, names[0]), names[1..])
  }

  predicate PlainText(text: seq<byte>) {
    0 !in text && |text| < TEXT_SIZE
  }

  lemma AppendToPlain(alpn: seq<byte>, name: seq<byte>)
    requires PlainText(alpn) && name != [] && 0 !in name
    ensures AppendedAlpn(alpn, name) == if |alpn| + 1 >= TEXT_SIZE then None else Some(Appended(alpn, name))
    ensures PlainText(Appended(alpn, name))
  {
    StrLenOfPlain(alpn);
    assert alpn[..|alpn|] == alpn;
  }

  lemma {:induction false} ProtocolsRead(names: seq<seq<byte>>, alpn: seq<byte>)
    requires ProtocolsFit(names) && PlainText(alpn)
    ensures Protocols(WrittenProtocols(names), alpn) == AppendedAll(alpn, names)
    ensures AppendedAll(alpn, names).Some? ==> PlainText(AppendedAll(alpn, names).value)
    decreases |names|
  {
    hide Vector8, AppendedAlpn, Appended;
    if names != [] {
      ReadSized8(names[0], WrittenProtocols(names[1..]));
      AppendToPlain(alpn, names[0]);
      if |alpn| + 1 < TEXT_SIZE {
        ProtocolsRead(names[1..], Appended(alpn, names[0]));
      }
    }
  }

  lemma {:induction false} AppendingChains(text: seq<byte>, one: seq<seq<byte>>, two: seq<seq<byte>>)
    ensures AppendedAll(text, one + two) ==
            match AppendedAll(text, one) case None => None case Some(middle) => AppendedAll(middle, two)
    decreases |one|
  {
    hide Appended;
    if one == [] {
      assert one + two == two;
    } else {
      assert (one + two)[1..] == one[1..] + two;
      if |text| + 1 < TEXT_SIZE {
        AppendingChains(Appended(text, one[0]), one[1..], two);
      }
    }
  }

  lemma JoinedWithLast(text: seq<byte>, names: seq<seq<byte>>)
    requires names != []
    ensures var n := |names| - 1;
            var before := JoinedOnto(text, names[..n]);
            JoinedOnto(text, names) == (if before == [] then [] else before + [COMMA]) + names[n]
    decreases |names|
  {
    if |names| == 1 {
      assert names[..0] == [] && names[1..] == [];
    } else {
      var start := (if text == [] then [] else text + [COMMA]) + names[0];
      JoinedWithLast(start, names[1..]);
      assert names[1..][..|names| - 2] == names[..|names| - 1][1..];
    }
  }

  /** In closed form: the joined text cut to the field, unless the field was full before the last protocol. */
  lemma {:induction false} AppendedInClosedForm(text: seq<byte>, names: seq<seq<byte>>)
    requires |text| < TEXT_SIZE && forall i | 0 <= i < |names| :: names[i] != []
    ensures AppendedAll(text, names) ==
            if names == [] then Some(text)
            else if |JoinedOnto(text, names[..|names| - 1])| + 1 < TEXT_SIZE then
              Some(Truncated(JoinedOnto(text, names), TEXT_SIZE))
            else None
    decreases |names|
  {
    if names != [] {
      var n := |names| - 1;
      var init := names[..n];
      AppendedInClosedForm(text, init);
      AppendingChains(text, init, [names[n]]);
      assert names == init + [names[n]];
      JoinedWithLast(text, names);
      if init != [] {
        JoinedWithLast(text, init);
      }
      OneMoreAppended(text, init, names[n]);
    }
  }

  lemma OneMoreAppended(text: seq<byte>, init: seq<seq<byte>>, name: seq<byte>)
    requires |text| < TEXT_SIZE
    requires AppendedAll(text, init) ==
             if init == [] then Some(text)
             else if |JoinedOnto(text, init[..|init| - 1])| + 1 < TEXT_SIZE then
               Some(Truncated(JoinedOnto(text, init), TEXT_SIZE))
             else None
    requires init != [] ==> |JoinedOnto(text, init)| > |JoinedOnto(text, init[..|init| - 1])|
    ensures var joined := JoinedOnto(text, init);
            (match AppendedAll(text, init) case None => None case Some(middle) => AppendedAll(middle, [name])) ==
            if |joined| + 1 < TEXT_SIZE then
              Some(Truncated((if joined == [] then [] else joined + [COMMA]) + name, TEXT_SIZE))
            else None
  {
    var joined := JoinedOnto(text, init);
    assert |joined| < TEXT_SIZE ==> joined[..|joined|] == joined;
    assert [name][1..] == [];
  }

  lemma {:induction false} FirstChains(sni: seq<byte>, one: seq<seq<byte>>, two: seq<seq<byte>>)
    ensures FirstOf(sni, one + two) == FirstOf(FirstOf(sni, one), two)
    decreases |one|
  {
    if one == [] {
      assert one + two == two;
    } else {
      assert (one + two)[1..] == one[1..] + two;
      if sni == [] || sni[0] == 0 {
        FirstChains(Truncated(one[0], TEXT_SIZE), one[1..], two);
      }
    }
  }

  lemma {:induction false} AllProtocolsFit(es: seq<Extension>)
    requires ExtensionsFit(es)
    ensures ProtocolsFit(AllProtocols(es))
    decreases |es|
  {
    if es != [] {
      assert ExtensionFits(es[0]);
      AllProtocolsFit(es[1..]);
    }
  }

  /** One extension updates the names as its list says, or fails where the field is full. */
  lemma ExtensionRead(e: Extension, names: Names)
    requires ExtensionFits(e) && PlainText(names.alpn)
    ensures var sni, alpn := FirstOf(names.sni, OwnHosts(e)), AppendedAll(names.alpn, OwnProtocols(e));
            && ExtensionNames(ExtensionKind(e), ExtensionData(e), names)
               == (if alpn.None? then None else Some(Names(sni, alpn.value)))
            && (alpn.Some? ==> PlainText(alpn.value))
  {
    hide WholeVector16, Sized16, FirstOf, AppendedAll;
    NothingRead(names);
    match e
    case ServerNameList(list) =>
      ReadSized16(WrittenServerNames(list), []);
      ServerNamesRead(list, names.sni);
    case ProtocolList(list) =>
      ReadSized16(WrittenProtocols(list), []);
      ProtocolsRead(list, names.alpn);
    case Other(_, _) =>
  }

  lemma NothingRead(names: Names)
    ensures FirstOf(names.sni, []) == names.sni && AppendedAll(names.alpn, []) == Some(names.alpn)
  {
  }

  lemma HeadOfList(es: seq<Extension>)
    requires es != [] && |ExtensionData(es[0])| < 0x1_0000
    ensures var list := WrittenExtensions(es);
            && |list| >= 2 && U16(list, 0) == ExtensionKind(es[0])
            && Vector16(list[2..]) == Some(Cut(ExtensionData(es[0]), WrittenExtensions(es[1..])))
  {
    hide Vector16, Sized16, ExtensionData;
    var list, rest := WrittenExtensions(es), WrittenExtensions(es[1..]);
    assert list[2..] == Sized16(ExtensionData(es[0])) + rest;
    ReadSized16(ExtensionData(es[0]), rest);
  }

  function OwnHosts(e: Extension): seq<seq<byte>> {
    if e.ServerNameList? then HostNames(e.names) else []
  }

  function OwnProtocols(e: Extension): seq<seq<byte>> {
    if e.ProtocolList? then e.protocols else []
  }

  /** Reading the first extension and then the rest amounts to reading all of them. */
  lemma NamesChain(es: seq<Extension>, names: Names)
    requires es != [] && ExtensionsFit(es)
    ensures FirstOf(names.sni, AllHosts(es)) == FirstOf(FirstOf(names.sni, OwnHosts(es[0])), AllHosts(es[1..]))
    ensures AppendedAll(names.alpn, AllProtocols(es)) ==
            match AppendedAll(names.alpn, OwnProtocols(es[0]))
            case None => None
            case Some(middle) => AppendedAll(middle, AllProtocols(es[1..]))
  {
    hide FirstOf, AppendedAll, HostNames;
    var e, tail := es[0], es[1..];
    assert ExtensionFits(e);
    AppendingChains(names.alpn, OwnProtocols(e), AllProtocols(tail));
    FirstChains(names.sni, OwnHosts(e), AllHosts(tail));
    assert AllHosts(es) == OwnHosts(e) + AllHosts(tail) && AllProtocols(es) == OwnProtocols(e) + AllProtocols(tail);
  }

  lemma {:induction false} ExtensionsRead(es: seq<Extension>, names: Names)
    requires ExtensionsFit(es) && PlainText(names.alpn)
    ensures Extensions(WrittenExtensions(es), names) ==
            match AppendedAll(names.alpn, AllProtocols(es))
            case None => None
            case Some(alpn) => Some(Names(FirstOf(names.sni, AllHosts(es)), alpn))
    decreases |es|
  {
    hide Vector16, WrittenExtensions, ExtensionNames, FirstOf, ExtensionData, HostNames, AppendedAll;
    NothingRead(names);
    if es == [] {
      NothingWritten();
    } else {
      assert ExtensionFits(es[0]);
      HeadOfList(es);
      NamesChain(es, names);
      ExtensionRead(es[0], names);
      var own := AppendedAll(names.alpn, OwnProtocols(es[0]));
      if own.Some? {
        ExtensionsRead(es[1..], Names(FirstOf(names.sni, OwnHosts(es[0])), own.value));
      }
    }
  }

  lemma NothingWritten()
    ensures WrittenExtensions([]) == []
  {
  }

  lemma WordIsRead(value: nat, rest: seq<byte>)
    requires value < 0x1_0000
    ensures U16(Word(value) + rest, 0) == value
  {
  }

  lemma VectorsRead(h: ClientHello, trailer: seq<byte>)
    requires Fits(h)
    ensures var body := WrittenBody(h) + trailer;
            && |body| >= 34 && U16(body, 0) == h.version
            && AfterVectors(body[34..]) == Some(WrittenBlock(h.extensions) + trailer)
  {
    hide Vector8, Vector16, Sized8, Sized16, Word;
    var block := WrittenBlock(h.extensions) + trailer;
    var three := Sized8(h.compression) + block;
    var two := Sized16(h.ciphers) + three;
    var one := Sized8(h.session) + two;
    var body := WrittenBody(h) + trailer;
    assert |Word(h.version)| == 2 by { WordHasTwo(h.version); }
    assert body == (Word(h.version) + h.random) + one;
    assert body[34..] == one;
    assert body == Word(h.version) + (h.random + one);
    WordIsRead(h.version, h.random + one);
    ReadSized8(h.session, two);
    ReadSized16(h.ciphers, three);
    ReadSized8(h.compression, block);
  }

  lemma WordHasTwo(value: nat)
    ensures |Word(value)| == 2
  {
  }

  lemma RecordRead(h: ClientHello, trailer: seq<byte>, padding: seq<byte>, more: seq<byte>)
    requires Fits(h) && FitsRecord(h, trailer, padding)
    ensures Decode(Written(h, trailer, padding) + more) == DecodeBody(WrittenBody(h) + trailer, h.recordVersion)
  {
    hide DecodeBody, WrittenBody;
    var data, body := Written(h, trailer, padding) + more, WrittenBody(h) + trailer;
    var record := Handshake(h, trailer) + padding;
    assert data == [22] + Word(h.recordVersion) + Word(|record|) + record + more;
    assert U16(data, 1) == h.recordVersion && U16(data, 3) == |record|;
    assert data[5] == 1 && data[5..9] == record[..4];
    HandshakeLength(data, record, body);
    assert data[9..9 + |body|] == body;
  }

  lemma HandshakeLength(data: seq<byte>, record: seq<byte>, body: seq<byte>)
    requires |data| >= 9 && |record| >= 4 && data[5..9] == record[..4] && |body| < 0x1_0000
    requires record[..4] == [1, |body| / 65536 % 256, |body| / 256 % 256, |body| % 256]
    ensures U24(data, 6) == |body|
  {
    assert data[6] == data[5..9][1] && data[7] == data[5..9][2] && data[8] == data[5..9][3];
  }

  function SentExtensions(h: ClientHello): seq<Extension> {
    if h.extensions.Some? then h.extensions.value else []
  }

  /** The field is not full before the last protocol. */
  predicate RoomForLast(protocols: seq<seq<byte>>) {
    protocols == [] || |Joined(protocols[..|protocols| - 1])| + 1 < 256
  }

  /** For every ClientHello in one record, whatever follows it, decoding reports its versions, its first host name cut
      to 255 bytes (passing over those that begin with a NUL), and its protocols joined by commas and cut to 255 bytes;
      unless those before the last already fill the field, when the whole message is malformed. */
  lemma ClientHelloRoundTrip(h: ClientHello, trailer: seq<byte>, padding: seq<byte>, more: seq<byte>)
    requires Fits(h) && FitsRecord(h, trailer, padding)
    ensures var hosts, protocols := AllHosts(SentExtensions(h)), AllProtocols(SentExtensions(h));
            Decode(Written(h, trailer, padding) + more) ==
            if RoomForLast(protocols) then
              Decoded(Tls(h.recordVersion, h.version, HostReported(hosts),
                  Joined(protocols)[..Min(|Joined(protocols)|, 255)]))
            else Malformed
  {
    hide Vector16, AfterVectors, WrittenBody, Written, Sized16, Extensions, AppendedAll, JoinedOnto, Joined,
      WrittenBlock,
      Fits, FitsRecord;
    RecordRead(h, trailer, padding, more);
    VectorsRead(h, trailer);
    var protocols := AllProtocols(SentExtensions(h));
    ProtocolsInClosedForm(h);
    BlockRead(h, trailer, padding);
    HostsInClosedForm(AllHosts(SentExtensions(h)));
  }

  lemma HostsInClosedForm(hosts: seq<seq<byte>>)
    ensures FirstOf([], hosts) == HostReported(hosts)
  {
    if hosts != [] {
      FirstIsReported([], hosts);
    }
  }

  lemma BlockRead(h: ClientHello, trailer: seq<byte>, padding: seq<byte>)
    requires Fits(h) && FitsRecord(h, trailer, padding)
    ensures ExtensionBlock(WrittenBlock(h.extensions) + trailer) ==
            match AppendedAll([], AllProtocols(SentExtensions(h)))
            case None => None
            case Some(alpn) => Some(Names(FirstOf([], AllHosts(SentExtensions(h))), alpn))
  {
    hide Vector16, WrittenBody, Sized16, Extensions, AppendedAll, FirstOf;
    var es := SentExtensions(h);
    NothingRead(Names([], []));
    if h.extensions.Some? {
      var list := WrittenExtensions(es);
      ReadSized16(list, trailer);
      assert Sized16(list) + trailer != [] by { SizedIsNotEmpty(list); }
      ExtensionsRead(es, Names([], []));
    }
  }

  lemma ProtocolsInClosedForm(h: ClientHello)
    requires Fits(h)
    ensures var protocols := AllProtocols(SentExtensions(h));
            AppendedAll([], protocols) ==
            if RoomForLast(protocols) then Some(Truncated(Joined(protocols), 256)) else None
  {
    hide Joined, AppendedAll, JoinedOnto;
    var es := SentExtensions(h);
    var protocols := AllProtocols(es);
    AllProtocolsFit(es);
    AppendedInClosedForm([], protocols);
    JoinOntoIsJoin([], protocols);
    NothingJoined();
    if protocols != [] {
      JoinOntoIsJoin([], protocols[..|protocols| - 1]);
    }
  }

  lemma NothingJoined()
    ensures Joined([]) == [] && Truncated([], 256) == []
  {
  }

  lemma SizedIsNotEmpty(vector: seq<byte>)
    ensures Sized16(vector) != []
  {
  }

  lemma JoinedIsLonger(names: seq<seq<byte>>)
    requires names != [] && forall i | 0 <= i < |names| :: names[i] != []
    ensures |Joined(names[..|names| - 1])| < |Joined(names)|
  {
    JoinOntoIsJoin([], names);
    JoinOntoIsJoin([], names[..|names| - 1]);
    JoinedWithLast([], names);
  }

  /** End to end: when the joined protocols fit the field, the filter accepts a protocol exactly when the client offered
      it. */
  lemma FilterSeesOfferedProtocols(h: ClientHello, trailer: seq<byte>, padding: seq<byte>, more: seq<byte>,
                                   name: seq<byte>)
    requires Fits(h) && FitsRecord(h, trailer, padding)
    requires |Joined(AllProtocols(SentExtensions(h)))| < 256
    requires ProtocolNames(AllProtocols(SentExtensions(h))) && name != []
    ensures var verdict := Decode(Written(h, trailer, padding) + more);
            verdict.Decoded? && (HasElement(verdict.info.alpn, name) <==> name in AllProtocols(SentExtensions(h)))
  {
    hide Decode, Joined, Written;
    var protocols := AllProtocols(SentExtensions(h));
    ClientHelloRoundTrip(h, trailer, padding, more);
    if protocols != [] {
      JoinedIsLonger(protocols);
    }
    assert Joined(protocols)[..|Joined(protocols)|] == Joined(protocols);
    MatchesExactlyTheMembers(protocols, name);
  }
}
