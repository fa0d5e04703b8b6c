/** HTTP/1.x start lines and headers (src/app_http.c). */
module HttpDecoder {
  import opened Bytes
  import opened AppMetadata

  const CR: byte := 13
  const LF: byte := 10
  const SPACE: byte := 32
  const COLON: byte := 58

  const VERSION_SIZE := 16

  const HTTP_SLASH: seq<byte> := [72, 84, 84, 80, 47]
  const GET: seq<byte> := [71, 69, 84]
  const POST: seq<byte> := [80, 79, 83, 84]
  const PUT: seq<byte> := [80, 85, 84]
  const DELETE: seq<byte> := [68, 69, 76, 69, 84, 69]
  const HEAD: seq<byte> := [72, 69, 65, 68]
  const OPTIONS: seq<byte> := [79, 80, 84, 73, 79, 78, 83]
  const PATCH: seq<byte> := [80, 65, 84, 67, 72]
  const TRACE: seq<byte> := [84, 82, 65, 67, 69]
  const CONNECT: seq<byte> := [67, 79, 78, 78, 69, 67, 84]
  const METHODS: seq<seq<byte>> := [GET, POST, PUT, DELETE, HEAD, OPTIONS, PATCH, TRACE, CONNECT]

  // Names of the headers that are kept, in lower case.
  const HOST: seq<byte> := [104, 111, 115, 116]
  const USER_AGENT: seq<byte> := [117, 115, 101, 114, 45, 97, 103, 101, 110, 116]
  const CONTENT_TYPE: seq<byte> := [99, 111, 110, 116, 101, 110, 116, 45, 116, 121, 112, 101]

  /** A complete method name, or the beginning of one when no more has arrived. */
  predicate MaybeMethod(data: seq<byte>, name: seq<byte>) {
    name <= data || (|data| > 0 && data < name)
  }

  predicate MaybeRequest(data: seq<byte>) {
    exists i | 0 <= i < |METHODS| :: MaybeMethod(data, METHODS[i])
  }

  predicate LooksLikeHttp(data: seq<byte>) {
    HTTP_SLASH <= data || MaybeRequest(data)
  }

  predicate CrLfAt(data: seq<byte>, i: nat) {
    i + 1 < |data| && data[i] == CR && data[i + 1] == LF
  }

  predicate BlankLineAt(data: seq<byte>, i: nat) {
    CrLfAt(data, i) && CrLfAt(data, i + 2)
  }

  /** The first CRLF from `i` on. */
  function FindCrLf(data: seq<byte>, i: nat): (r: Option<nat>)
    ensures r.Some? ==> i <= r.value && CrLfAt(data, r.value)
    ensures forall j: nat | i <= j && (r.Some? ==> j < r.value) :: !CrLfAt(data, j)
    decreases |data| - i
  {
    if i + 1 >= |data| then None else if CrLfAt(data, i) then Some(i) else FindCrLf(data, i + 1)
  }

  /** Just past the first blank line. */
  function FindHeaderEnd(data: seq<byte>, i: nat): (r: Option<nat>)
    ensures r.Some? ==> i + 4 <= r.value <= |data| && BlankLineAt(data, r.value - 4)
    ensures forall j: nat | i <= j && (r.Some? ==> j < r.value - 4) :: !BlankLineAt(data, j)
    decreases |data| - i
  {
    if i + 3 >= |data| then None else if BlankLineAt(data, i) then Some(i + 4) else FindHeaderEnd(data, i + 1)
  }

  /** `memchr` from `i` on. */
  function IndexOf(data: seq<byte>, b: byte, i: nat): (r: Option<nat>)
    ensures r.Some? ==> i <= r.value < |data| && data[r.value] == b
    ensures forall j | i <= j < |data| && (r.Some? ==> j < r.value) :: data[j] != b
    decreases |data| - i
  {
    if i >= |data| then None else if data[i] == b then Some(i) else IndexOf(data, b, i + 1)
  }

  predicate IsSpace(b: byte) { b == SPACE || 9 <= b <= 13 }

  predicate IsDigit(b: byte) { 48 <= b <= 57 }

  function Lower(b: byte): byte { if 65 <= b <= 90 then b + 32 else b }

  function TrimmedFront(text: seq<byte>): seq<byte> {
    if text != [] && IsSpace(text[0]) then TrimmedFront(text[1..]) else text
  }

  function TrimmedBack(text: seq<byte>): seq<byte> {
    if text != [] && IsSpace(text[|text| - 1]) then TrimmedBack(text[..|text| - 1]) else text
  }

  /** What `copy_trimmed` leaves in a field of the given size. */
  function Field(text: seq<byte>, size: nat): seq<byte>
    requires size > 0
  {
    Truncated(TrimmedBack(TrimmedFront(text)), size)
  }

  predicate NameEquals(text: seq<byte>, lowerName: seq<byte>) {
    |text| == |lowerName| && forall i | 0 <= i < |text| :: Lower(text[i]) == lowerName[i]
  }

  datatype StartLine =
    | RequestLine(requestMethod: seq<byte>, path: seq<byte>, version: seq<byte>)
    | StatusLine(version: seq<byte>, status: nat, reason: seq<byte>)

  function ParseRequestLine(line: seq<byte>): Option<StartLine> {
    var methodEnd := IndexOf(line, SPACE, 0);
    if methodEnd.None? || methodEnd.value == 0 then None
    else
      var pathStart := methodEnd.value + 1;
      var pathEnd := IndexOf(line, SPACE, pathStart);
      if pathEnd.None? || pathEnd.value == pathStart then None
      else
        var version := line[pathEnd.value + 1..];
        if |version| < 8 || !(HTTP_SLASH <= version) then None
        else Some(RequestLine(Field(line[..methodEnd.value], VERSION_SIZE),
                              Field(line[pathStart..pathEnd.value], TEXT_SIZE),
                              Field(version, VERSION_SIZE)))
  }

  function ParseStatusLine(line: seq<byte>): Option<StartLine> {
    if |line| < 12 || !(HTTP_SLASH <= line) then None
    else
      var space := IndexOf(line, SPACE, 0);
      if space.None? || |line| - space.value < 4 then None
      else
        var s := space.value + 1;
        if !IsDigit(line[s]) || !IsDigit(line[s + 1]) || !IsDigit(line[s + 2]) then None
        else
          var hundreds: int, tens: int, units: int := line[s], line[s + 1], line[s + 2];
          var status := (hundreds - 48) * 100 + (tens - 48) * 10 + (units - 48);
          var reason := if s + 3 < |line| && line[s + 3] == SPACE then Field(line[s + 4..], TEXT_SIZE) else [];
          Some(StatusLine(Field(line[..space.value], VERSION_SIZE), status, reason))
  }

  function ParseStartLine(line: seq<byte>): Option<StartLine> {
    if HTTP_SLASH <= line then ParseStatusLine(line) else ParseRequestLine(line)
  }

  /** One header line, colon included, applied to the headers kept so far. */
  function WithHeader(line: seq<byte>, kept: Headers): Headers {
    match IndexOf(line, COLON, 0)
    case None => kept
    case Some(colon) =>
      var name, value := line[..colon], Field(line[colon + 1..], TEXT_SIZE);
      if NameEquals(name, HOST) then kept.(host := value)
      else if NameEquals(name, USER_AGENT) then kept.(userAgent := value)
      else if NameEquals(name, CONTENT_TYPE) then kept.(contentType := value)
      else kept
  }

  /** Header lines from `at` to the first empty line or the end. */
  function ParseHeaders(block: seq<byte>, at: nat, kept: Headers): Headers
    decreases |block| - at
  {
    match FindCrLf(block, at)
    case None => kept
    case Some(end) => if end == at then kept else ParseHeaders(block, end + 2, WithHeader(block[at..end], kept))
  }

  function WithHeaders(start: StartLine, headers: Headers): AppInfo {
    match start
    case RequestLine(name, path, version) => HttpRequest(name, path, version, headers)
    case StatusLine(version, status, reason) => HttpResponse(version, status, reason, headers)
  }

  /** A header block, up to and including its blank line. */
  function DecodeBlock(block: seq<byte>): Decoding {
    match FindCrLf(block, 0)
    case None => Malformed
    case Some(lineEnd) =>
      match ParseStartLine(block[..lineEnd])
      case None => Malformed
      case Some(start) => Decoded(WithHeaders(start, ParseHeaders(block, lineEnd + 2, Headers([], [], []))))
  }

  function Decode(data: seq<byte>): Decoding {
    if |data| == 0 || !LooksLikeHttp(data) then NoMatch
    else
      match FindHeaderEnd(data, 0)
      case None => NeedMore
      case Some(end) => DecodeBlock(data[..end])
  }

  // ----- the loops of the original -----

  method ScanCrLf(data: seq<byte>, start: nat) returns (at: Option<nat>)
    ensures at == FindCrLf(data, start)
  {
    var cursor := start;
    while cursor + 1 < |data|
      invariant start <= cursor
      invariant FindCrLf(data, start) == FindCrLf(data, cursor)
    {
      if data[cursor] == CR && data[cursor + 1] == LF {
        return Some(cursor);
      }
      cursor := cursor + 1;
    }
    return None;
  }

  method ScanHeaderEnd(data: seq<byte>) returns (end: Option<nat>)
    ensures end == FindHeaderEnd(data, 0)
  {
    var i := 0;
    while i + 3 < |data|
      invariant FindHeaderEnd(data, 0) == FindHeaderEnd(data, i)
    {
      if data[i] == CR && data[i + 1] == LF && data[i + 2] == CR && data[i + 3] == LF {
        return Some(i + 4);
      }
      i := i + 1;
    }
    return None;
  }

  method CopyTrimmed(text: seq<byte>, size: nat) returns (field: seq<byte>)
    requires size > 0
    ensures field == Field(text, size)
  {
    var start, end := 0, |text|;
    while start < end && IsSpace(text[start])
      invariant 0 <= start <= end == |text|
      invariant TrimmedFront(text) == TrimmedFront(text[start..])
    {
      start := start + 1;
    }
    ghost var front := text[start..];
    assert front == TrimmedFront(text) && text[start..end] == front;
    while start < end && IsSpace(text[end - 1])
      invariant start <= end <= |text|
      invariant TrimmedBack(front) == TrimmedBack(text[start..end])
    {
      assert text[start..end][..end - start - 1] == text[start..end - 1];
      end := end - 1;
    }
    var length := end - start;
    if length >= size {
      length := size - 1;
    }
    return text[start..start + length];
  }

  method HeaderNameEquals(text: seq<byte>, lowerName: seq<byte>) returns (equal: bool)
    ensures equal == NameEquals(text, lowerName)
  {
    if |text| != |lowerName| {
      return false;
    }
    for i := 0 to |text|
      invariant forall j | 0 <= j < i :: Lower(text[j]) == lowerName[j]
    {
      if Lower(text[i]) != lowerName[i] {
        return false;
      }
    }
    return true;
  }

  method ScanHeaders(block: seq<byte>, start: nat) returns (kept: Headers)
    ensures kept == ParseHeaders(block, start, Headers([], [], []))
  {
    kept := Headers([], [], []);
    var line := start;
    while line < |block|
      invariant ParseHeaders(block, start, Headers([], [], [])) == ParseHeaders(block, line, kept)
      decreases |block| - line
    {
      var lineEnd := ScanCrLf(block, line);
      if lineEnd.None? || lineEnd.value == line {
        return;
      }
      var text := block[line..lineEnd.value];
      var colon := IndexOf(text, COLON, 0);
      if colon.Some? {
        var name := text[..colon.value];
        var value := CopyTrimmed(text[colon.value + 1..], TEXT_SIZE);
        var isHost := HeaderNameEquals(name, HOST);
        var isAgent := HeaderNameEquals(name, USER_AGENT);
        var isType := HeaderNameEquals(name, CONTENT_TYPE);
        if isHost {
          kept := kept.(host := value);
        } else if isAgent {
          kept := kept.(userAgent := value);
        } else if isType {
          kept := kept.(contentType := value);
        }
      }
      line := lineEnd.value + 2;
    }
  }

  method DecodeHttp(data: seq<byte>) returns (verdict: Decoding)
    ensures verdict == Decode(data)
  {
    if |data| == 0 || !LooksLikeHttp(data) {
      return NoMatch;
    }
    var headerEnd := ScanHeaderEnd(data);
    if headerEnd.None? {
      return NeedMore;
    }
    var block := data[..headerEnd.value];
    var lineEnd := ScanCrLf(block, 0);
    if lineEnd.None? {
      return Malformed;
    }
    var start := ParseStartLine(block[..lineEnd.value]);
    if start.None? {
      return Malformed;
    }
    var headers := ScanHeaders(block, lineEnd.value + 2);
    return Decoded(WithHeaders(start.value, headers));
  }

  // ----- verdicts under extension -----

  lemma PrefixOfExtension(p: seq<byte>, data: seq<byte>, more: seq<byte>)
    requires p <= data + more
    ensures p <= data || data < p
  {
  }

  lemma ExtensionLooksAlike(data: seq<byte>, more: seq<byte>)
    requires LooksLikeHttp(data) && FindHeaderEnd(data, 0).Some?
    ensures LooksLikeHttp(data + more)
  {
    var end := FindHeaderEnd(data, 0).value;
    assert data[end - 1] == LF;
    assert forall i | 0 <= i < |METHODS| :: LF !in METHODS[i];
    if !(HTTP_SLASH <= data) {
      var i :| 0 <= i < |METHODS| && MaybeMethod(data, METHODS[i]);
      assert METHODS[i] <= data; // a method name cut short has no line feed
      assert MaybeMethod(data + more, METHODS[i]);
    }
  }

  lemma {:induction false} HeaderEndIsStable(data: seq<byte>, more: seq<byte>, i: nat)
    requires FindHeaderEnd(data, i).Some?
    ensures FindHeaderEnd(data + more, i) == FindHeaderEnd(data, i)
    decreases |data| - i
  {
    if !BlankLineAt(data, i) {
      HeaderEndIsStable(data, more, i + 1);
    }
  }

  /** OK and MALFORMED stand, with the same metadata, whatever bytes follow. */
  lemma VerdictIsFinal(data: seq<byte>, more: seq<byte>)
    requires Conclusive(Decode(data))
    ensures Decode(data + more) == Decode(data)
  {
    ExtensionLooksAlike(data, more);
    HeaderEndIsStable(data, more, 0);
    var end := FindHeaderEnd(data, 0).value;
    assert (data + more)[..end] == data[..end];
  }

  /** The starts of a response that are too short to be taken for one. */
  predicate CutResponse(data: seq<byte>) {
    data == [72, 84] || data == [72, 84, 84] || data == [72, 84, 84, 80]
  }

  lemma NoMatchStandsUnlessCut(data: seq<byte>, more: seq<byte>)
    requires data != [] && Decode(data).NoMatch? && !CutResponse(data)
    ensures Decode(data + more).NoMatch?
  {
    var whole := data + more;
    if HTTP_SLASH <= whole {
      PrefixOfExtension(HTTP_SLASH, data, more);
      assert data == [72];
      assert MaybeMethod(data, METHODS[4]);
    }
    forall i | 0 <= i < |METHODS|
      ensures !MaybeMethod(whole, METHODS[i])
    {
      assert !MaybeMethod(data, METHODS[i]);
      if METHODS[i] <= whole {
        PrefixOfExtension(METHODS[i], data, more);
      }
    }
  }

  /** NO_MATCH on non-empty bytes is final exactly when they are not "HT", "HTT" or "HTTP". */
  lemma NoMatchIsFinalUnlessCut(data: seq<byte>)
    requires data != [] && Decode(data).NoMatch?
    ensures (forall more :: Decode(data + more).NoMatch?) <==> !CutResponse(data)
  {
    if CutResponse(data) {
      var more := HTTP_SLASH[|data|..];
      assert data + more == HTTP_SLASH;
      assert !Decode(data + more).NoMatch?;
    } else {
      forall more
        ensures Decode(data + more).NoMatch?
      {
        NoMatchStandsUnlessCut(data, more);
      }
    }
  }
}
