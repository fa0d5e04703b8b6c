/** ClientHello metadata from one TLS record (src/app_tls.c). */
module TlsDecoder {
  import opened Bytes
  import opened AppMetadata

  const HANDSHAKE_RECORD: byte := 0x16
  const CLIENT_HELLO: byte := 1
  const RECORD_HEADER := 5
  const HANDSHAKE_HEADER := 4
  const SERVER_NAME := 0
  const ALPN := 16
  const COMMA: byte := 44

  /** A length-prefixed vector and what follows it. */
  datatype Cut = Cut(vector: seq<byte>, rest: seq<byte>)

  function Vector8(data: seq<byte>): Option<Cut> {
    if |data| < 1 || |data| - 1 < data[0] then None
    else Some(Cut(data[1..1 + data[0]], data[1 + data[0]..]))
  }

  function Vector16(data: seq<byte>): Option<Cut> {
    if |data| < 2 || |data| - 2 < U16(data, 0) then None
    else Some(Cut(data[2..2 + U16(data, 0)], data[2 + U16(data, 0)..]))
  }

  /** A vector that has to fill its extension exactly. */
  function WholeVector16(data: seq<byte>): Option<seq<byte>> {
    if |data| < 2 || |data| - 2 != U16(data, 0) then None else Some(data[2..])
  }

  /** `strlen`: the bytes before the first NUL. */
  function StrLen(text: seq<byte>): (n: nat)
    ensures n <= |text|
    ensures forall i | 0 <= i < n :: text[i] != 0
    ensures n < |text| ==> text[n] == 0
  {
    if text == [] || text[0] == 0 then 0 else 1 + StrLen(text[1..])
  }

  function ServerNames(list: seq<byte>, sni: seq<byte>): Option<seq<byte>> {
    if list == [] then Some(sni)
    else
      match Vector16(list[1..])
      case None => None
      case Some(Cut(name, rest)) =>
        if name == [] then None
        else ServerNames(rest, if list[0] == 0 && StrLen(sni) == 0 then Truncated(name, TEXT_SIZE) else sni)
  }

  /** Joins one protocol name to the comma-separated list, cut to the field. */
  function AppendedAlpn(alpn: seq<byte>, name: seq<byte>): Option<seq<byte>> {
    var current := alpn[..StrLen(alpn)];
    if current != [] && |current| + 1 >= TEXT_SIZE then None
    else Some(Truncated((if current == [] then [] else current + [COMMA]) + name, TEXT_SIZE))
  }

  function Protocols(list: seq<byte>, alpn: seq<byte>): Option<seq<byte>> {
    if list == [] then Some(alpn)
    else
      match Vector8(list)
      case None => None
      case Some(Cut(name, rest)) =>
        if name == [] then None
        else
          match AppendedAlpn(alpn, name)
          case None => None
          case Some(joined) => Protocols(rest, joined)
  }

  datatype Names = Names(sni: seq<byte>, alpn: seq<byte>)

  function ExtensionNames(kind: nat, data: seq<byte>, names: Names): Option<Names> {
    if kind != SERVER_NAME && kind != ALPN then Some(names)
    else
      match WholeVector16(data)
      case None => None
      case Some(list) =>
        if kind == SERVER_NAME then
          var sni := ServerNames(list, names.sni);
          if sni.None? then None else Some(names.(sni := sni.value))
        else
          var alpn := Protocols(list, names.alpn);
          if alpn.None? then None else Some(names.(alpn := alpn.value))
  }

  function Extensions(list: seq<byte>, names: Names): Option<Names> {
    if list == [] then Some(names)
    else if |list| < 2 then None
    else
      match Vector16(list[2..])
      case None => None
      case Some(Cut(data, rest)) =>
        match ExtensionNames(U16(list, 0), data, names)
        case None => None
        case Some(updated) => Extensions(rest, updated)
  }

  /** The extensions block is optional; bytes after it are ignored. */
  function ExtensionBlock(rest: seq<byte>): Option<Names> {
    if rest == [] then Some(Names([], []))
    else
      match Vector16(rest)
      case None => None
      case Some(Cut(list, _)) => Extensions(list, Names([], []))
  }

  /** Session id, cipher suites and compression methods are checked for length only. */
  function AfterVectors(rest: seq<byte>): Option<seq<byte>> {
    match Vector8(rest)
    case None => None
    case Some(Cut(_, afterSession)) =>
      match Vector16(afterSession)
      case None => None
      case Some(Cut(ciphers, afterCiphers)) =>
        if ciphers == [] || |ciphers| % 2 != 0 then None
        else
          match Vector8(afterCiphers)
          case None => None
          case Some(Cut(compression, afterCompression)) => if compression == [] then None else Some(afterCompression)
  }

  function DecodeBody(body: seq<byte>, recordVersion: uint16): Decoding {
    if |body| < 34 then Malformed
    else
      match AfterVectors(body[34..])
      case None => Malformed
      case Some(rest) =>
        match ExtensionBlock(rest)
        case None => Malformed
        case Some(names) => Decoded(Tls(recordVersion, U16(body, 0), names.sni, names.alpn))
  }

  function U24(data: seq<byte>, offset: nat): nat
    requires offset + 3 <= |data|
  {
    var high: int := data[offset];
    high * 65536 + U16(data, offset + 1)
  }

  function Decode(data: seq<byte>): Decoding {
    if |data| == 0 then NoMatch
    else if |data| < RECORD_HEADER then (if data[0] == HANDSHAKE_RECORD then NeedMore else NoMatch)
    else if data[0] != HANDSHAKE_RECORD || U16(data, 1) / 256 != 3 then NoMatch
    else if |data| < RECORD_HEADER + U16(data, 3) then NeedMore
    else if U16(data, 3) < HANDSHAKE_HEADER then Malformed
    else if data[5] != CLIENT_HELLO then NoMatch
    else if U24(data, 6) > U16(data, 3) - HANDSHAKE_HEADER then NeedMore
    else DecodeBody(data[9..9 + U24(data, 6)], U16(data, 1))
  }

  // ----- the loops of the original, on offsets inside an enclosing vector -----

  lemma SliceOfSlice(data: seq<byte>, lo: nat, hi: nat, a: nat, b: nat)
    requires lo <= hi <= |data| && a <= b <= hi - lo
    ensures data[lo..hi][a..b] == data[lo + a..lo + b]
  {
    var window, part := data[lo..hi], data[lo..hi][a..b];
    forall i | 0 <= i < |part|
      ensures part[i] == data[lo + a..lo + b][i]
    {
      assert part[i] == window[a + i];
    }
  }

  lemma U16At(data: seq<byte>, lo: nat, hi: nat)
    requires lo + 2 <= hi <= |data|
    ensures U16(data[lo..hi], 0) == U16(data, lo)
  {
  }

  lemma Vector16At(data: seq<byte>, offset: nat, end: nat)
    requires offset + 2 <= end <= |data|
    ensures var at, n := offset + 2, U16(data, offset);
            Vector16(data[offset..end]) == if n > end - at then None else Some(Cut(data[at..at + n], data[at + n..end]))
  {
    var window, n := data[offset..end], U16(data, offset);
    assert U16(window, 0) == n;
    if n <= end - offset - 2 {
      SliceOfSlice(data, offset, end, 2, 2 + n);
      SliceOfSlice(data, offset, end, 2 + n, |window|);
    }
  }

  lemma Vector8At(data: seq<byte>, offset: nat, end: nat)
    requires offset + 1 <= end <= |data|
    ensures var at, n := offset + 1, data[offset];
            Vector8(data[offset..end]) == if n > end - at then None else Some(Cut(data[at..at + n], data[at + n..end]))
  {
    var window, n := data[offset..end], data[offset];
    if n <= end - offset - 1 {
      SliceOfSlice(data, offset, end, 1, 1 + n);
      SliceOfSlice(data, offset, end, 1 + n, |window|);
    }
  }

  method ParseSniExtension(data: seq<byte>, sni: seq<byte>) returns (result: Option<seq<byte>>)
    ensures result == (match WholeVector16(data) case None => None case Some(list) => ServerNames(list, sni))
  {
    hide Vector16;
    if |data| < 2 || U16(data, 0) != |data| - 2 {
      return None;
    }
    var offset, listEnd, name := 2, |data|, sni;
    assert data[offset..listEnd] == data[2..];
    while offset < listEnd
      invariant 2 <= offset <= listEnd == |data|
      invariant ServerNames(data[2..], sni) == ServerNames(data[offset..listEnd], name)
    {
      assert data[offset..listEnd][1..] == data[offset + 1..listEnd];
      if listEnd - offset < 3 {
        assert Vector16(data[offset + 1..listEnd]) == None by { TooShort(data[offset + 1..listEnd]); }
        return None;
      }
      Vector16At(data, offset + 1, listEnd);
      var nameType, nameLength := data[offset], U16(data, offset + 1);
      offset := offset + 3;
      if nameLength == 0 || nameLength > listEnd - offset {
        return None;
      }
      if nameType == 0 && StrLen(name) == 0 {
        name := Truncated(data[offset..offset + nameLength], TEXT_SIZE);
      }
      offset := offset + nameLength;
    }
    return Some(name);
  }

  lemma TooShort(data: seq<byte>)
    requires |data| < 2
    ensures Vector16(data) == None
  {
  }

  method ParseAlpnExtension(data: seq<byte>, alpn: seq<byte>) returns (result: Option<seq<byte>>)
    ensures result == (match WholeVector16(data) case None => None case Some(list) => Protocols(list, alpn))
  {
    hide Vector8, AppendedAlpn;
    if |data| < 2 || U16(data, 0) != |data| - 2 {
      return None;
    }
    var offset, listEnd, joined := 2, |data|, alpn;
    assert data[offset..listEnd] == data[2..];
    while offset < listEnd
      invariant 2 <= offset <= listEnd == |data|
      invariant Protocols(data[2..], alpn) == Protocols(data[offset..listEnd], joined)
    {
      Vector8At(data, offset, listEnd);
      var protocolLength := data[offset];
      offset := offset + 1;
      if protocolLength == 0 || protocolLength > listEnd - offset {
        return None;
      }
      var appended := AppendedAlpn(joined, data[offset..offset + protocolLength]);
      if appended.None? {
        return None;
      }
      joined := appended.value;
      offset := offset + protocolLength;
    }
    return Some(joined);
  }

  method ParseExtension(kind: nat, data: seq<byte>, names: Names) returns (result: Option<Names>)
    ensures result == ExtensionNames(kind, data, names)
  {
    if kind == SERVER_NAME {
      var sni := ParseSniExtension(data, names.sni);
      return if sni.None? then None else Some(names.(sni := sni.value));
    } else if kind == ALPN {
      var alpn := ParseAlpnExtension(data, names.alpn);
      return if alpn.None? then None else Some(names.(alpn := alpn.value));
    }
    return Some(names);
  }

  method ParseExtensions(data: seq<byte>, start: nat) returns (result: Option<Names>)
    requires start <= |data|
    ensures result == ExtensionBlock(data[start..])
  {
    hide Vector16, ExtensionNames, U16;
    if start == |data| {
      return Some(Names([], []));
    }
    assert data[start..|data|] == data[start..];
    if |data| - start < 2 {
      TooShort(data[start..]);
      return None;
    }
    Vector16At(data, start, |data|);
    if U16(data, start) > |data| - start - 2 {
      return None;
    }
    var offset := start + 2;
    var end := offset + U16(data, start);
    ghost var list := data[offset..end];
    var names := Names([], []);
    while offset < end
      invariant start + 2 <= offset <= end <= |data|
      invariant Extensions(list, Names([], [])) == Extensions(data[offset..end], names)
    {
      ghost var rest := data[offset..end];
      if end - offset < 4 {
        TooShort(rest[Min(2, |rest|)..]);
        return None;
      }
      assert rest[2..] == data[offset + 2..end];
      Vector16At(data, offset + 2, end);
      var kind, length := U16(data, offset), U16(data, offset + 2);
      assert kind == U16(rest, 0) by { U16At(data, offset, end); }
      offset := offset + 4;
      if length > end - offset {
        return None;
      }
      var updated := ParseExtension(kind, data[offset..offset + length], names);
      if updated.None? {
        return None;
      }
      names := updated.value;
      offset := offset + length;
    }
    return Some(names);
  }

  /** Session id, cipher suites and compression methods are passed by a cursor over the body. */
  method SkipVectors(body: seq<byte>, start: nat) returns (offset: Option<nat>)
    requires start <= |body|
    ensures match AfterVectors(body[start..])
            case None => offset == None
            case Some(rest) => offset.Some? && offset.value <= |body| && rest == body[offset.value..]
  {
    hide Vector8, Vector16;
    var end := |body|;
    assert forall i | 0 <= i <= end :: body[i..end] == body[i..];
    if start == end {
      NoLengthByte(body[start..]);
      return None;
    }
    Vector8At(body, start, end);
    var sessionLength := body[start];
    var at := start + 1;
    if sessionLength > end - at {
      return None;
    }
    at := at + sessionLength;
    if end - at < 2 {
      TooShort(body[at..]);
      return None;
    }
    Vector16At(body, at, end);
    var ciphersLength := U16(body, at);
    at := at + 2;
    if ciphersLength == 0 || ciphersLength % 2 != 0 || ciphersLength > end - at {
      return None;
    }
    at := at + ciphersLength;
    if at == end {
      NoLengthByte(body[at..]);
      return None;
    }
    Vector8At(body, at, end);
    var compressionLength := body[at];
    at := at + 1;
    if compressionLength == 0 || compressionLength > end - at {
      return None;
    }
    return Some(at + compressionLength);
  }

  lemma NoLengthByte(data: seq<byte>)
    requires data == []
    ensures Vector8(data) == None
  {
  }

  /** `parse_client_hello_body`. */
  method ParseClientHelloBody(body: seq<byte>, recordVersion: uint16) returns (verdict: Decoding)
    ensures verdict == DecodeBody(body, recordVersion)
  {
    hide ExtensionBlock, AfterVectors;
    if |body| < 34 {
      return Malformed;
    }
    var offset := SkipVectors(body, 34);
    if offset.None? {
      return Malformed;
    }
    var names := ParseExtensions(body, offset.value);
    if names.None? {
      return Malformed;
    }
    return Decoded(Tls(recordVersion, U16(body, 0), names.value.sni, names.value.alpn));
  }

  method DecodeClientHello(data: seq<byte>) returns (verdict: Decoding)
    ensures verdict == Decode(data)
  {
    hide DecodeBody;
    if |data| == 0 {
      return NoMatch;
    }
    if |data| < RECORD_HEADER {
      return if data[0] == HANDSHAKE_RECORD then NeedMore else NoMatch;
    }
    var recordVersion, recordLength := U16(data, 1), U16(data, 3);
    if data[0] != HANDSHAKE_RECORD || recordVersion / 256 != 3 {
      return NoMatch;
    }
    if |data| < RECORD_HEADER + recordLength {
      return NeedMore;
    }
    if recordLength < HANDSHAKE_HEADER {
      return Malformed;
    }
    if data[5] != CLIENT_HELLO {
      return NoMatch;
    }
    var handshakeLength := U24(data, 6);
    if handshakeLength > recordLength - HANDSHAKE_HEADER {
      return NeedMore;
    }
    verdict := ParseClientHelloBody(data[9..9 + handshakeLength], recordVersion);
  }

  // ----- verdicts under extension -----

  /** Every verdict other than NEED_MORE on a whole record header stands when bytes are appended. */
  lemma VerdictIsFinal(data: seq<byte>, more: seq<byte>)
    requires Conclusive(Decode(data)) || (Decode(data).NoMatch? && |data| >= RECORD_HEADER)
    ensures Decode(data + more) == Decode(data)
  {
    hide DecodeBody;
    var whole := data + more;
    assert U16(whole, 1) == U16(data, 1) && U16(whole, 3) == U16(data, 3);
    if |data| >= 9 {
      assert U24(whole, 6) == U24(data, 6);
      var end := 9 + U24(data, 6);
      if end <= |data| {
        assert whole[9..end] == data[9..end];
      }
    }
  }

  // ----- waiting for more -----

  /** The handshake is a ClientHello that is longer than its record, whatever the length bytes still missing. */
  predicate HandshakeExceedsRecord(data: seq<byte>)
    requires |data| >= RECORD_HEADER
  {
    var high: int, middle: int, low: int := AtLeast(data, 6), AtLeast(data, 7), AtLeast(data, 8);
    && |data| >= 6 && data[5] == CLIENT_HELLO && U16(data, 3) >= HANDSHAKE_HEADER
    && high * 65536 + middle * 256 + low > U16(data, 3) - HANDSHAKE_HEADER
  }

  /** A message that has the record header and all of its record, the missing bytes being zero. */
  function Filled(data: seq<byte>): (whole: seq<byte>)
    requires |data| >= RECORD_HEADER
    ensures data <= whole && |whole| >= RECORD_HEADER + U16(data, 3) && |whole| >= 9
    ensures forall i | 0 <= i < |whole| :: whole[i] == AtLeast(data, i)
  {
    data + seq(U16(data, 3) + 9, _ => 0)
  }

  lemma ExceedingStays(data: seq<byte>, more: seq<byte>)
    requires |data| >= RECORD_HEADER && Decode(data).NeedMore? && HandshakeExceedsRecord(data)
    ensures Decode(data + more).NeedMore?
  {
    hide DecodeBody;
    var whole := data + more;
    assert forall i | 0 <= i < |data| :: whole[i] == data[i];
    assert U16(whole, 1) == U16(data, 1) && U16(whole, 3) == U16(data, 3);
  }

  lemma FillingDecides(data: seq<byte>)
    requires |data| >= RECORD_HEADER && Decode(data).NeedMore? && !HandshakeExceedsRecord(data)
    ensures !Decode(Filled(data)).NeedMore?
  {
    hide DecodeBody;
    var whole := Filled(data);
    assert U16(whole, 1) == U16(data, 1) && U16(whole, 3) == U16(data, 3);
    if U16(data, 3) >= HANDSHAKE_HEADER && whole[5] == CLIENT_HELLO {
      BodyIsConclusive(whole[9..9 + U24(whole, 6)], U16(whole, 1));
    }
  }

  lemma BodyIsConclusive(body: seq<byte>, recordVersion: uint16)
    ensures Conclusive(DecodeBody(body, recordVersion))
  {
  }

  /** NEED_MORE can be completed to another verdict if and only if the record header is not there yet, or the handshake
      can still fit its record. A ClientHello that is longer than its record waits for ever. */
  lemma NeedMoreIsForeverWhenExceeding(data: seq<byte>)
    requires Decode(data).NeedMore?
    ensures (forall more :: Decode(data + more).NeedMore?) <==>
            |data| >= RECORD_HEADER && HandshakeExceedsRecord(data)
  {
    hide DecodeBody, HandshakeExceedsRecord;
    if |data| < RECORD_HEADER {
      ShortHeaderDecides(data);
    } else if HandshakeExceedsRecord(data) {
      forall more
        ensures Decode(data + more).NeedMore?
      {
        ExceedingStays(data, more);
      }
    } else {
      FillingDecides(data);
      var more := Filled(data)[|data|..];
      assert data + more == Filled(data);
    }
  }

  lemma ShortHeaderDecides(data: seq<byte>)
    requires Decode(data).NeedMore? && |data| < RECORD_HEADER
    ensures exists more :: !Decode(data + more).NeedMore?
  {
    hide DecodeBody;
    var more: seq<byte> := seq(0x1_0010, _ => 0);
    assert (data + more)[5] == 0;
    assert !Decode(data + more).NeedMore?;
  }
}
