/** HTTP messages as texts: what the decoder makes of each of them, in terms of its lines and of literal bytes alone. */
module HttpRoundTrip {
  import opened Bytes
  import opened AppMetadata
  import opened HttpDecoder

  // ----- texts -----

  function Ascii(s: string): (r: seq<byte>)
    requires forall i | 0 <= i < |s| :: s[i] as int < 128
    ensures |r| == |s| && forall i | 0 <= i < |s| :: r[i] == s[i] as int
  {
    seq(|s|, i requires 0 <= i < |s| => s[i] as int)
  }

  predicate Blank(b: byte) {
    b == 9 || b == 10 || b == 11 || b == 12 || b == 13 || b == 32
  }

  /** From `i` to `j` stands all of the text but the blanks in front and at the back. */
  predicate Stripped(text: seq<byte>, i: nat, j: nat)
    requires i <= j <= |text|
  {
    && (forall k | 0 <= k < i :: Blank(text[k])) && (forall k | j <= k < |text| :: Blank(text[k]))
    && (i < j ==> !Blank(text[i]) && !Blank(text[j - 1]))
  }

  /** The field holds the text without the blanks around it, up to so many bytes. */
  ghost predicate Holds(field: seq<byte>, text: seq<byte>, limit: nat) {
    exists i: nat, j: nat | i <= j <= |text| :: Stripped(text, i, j) && field == text[i..Min(j, i + limit)]
  }

  lemma StrippedOnce(text: seq<byte>, i: nat, j: nat, m: nat, n: nat)
    requires i <= j <= |text| && m <= n <= |text| && Stripped(text, i, j) && Stripped(text, m, n)
    ensures i < j ==> i == m && j == n
    ensures i == j ==> m == n
  {
  }

  /** A core that neither begins nor ends with a blank, between blanks. */
  lemma PaddedTextIsHeld(field: seq<byte>, front: seq<byte>, core: seq<byte>, back: seq<byte>, limit: nat)
    requires (forall k | 0 <= k < |front| :: Blank(front[k])) && (forall k | 0 <= k < |back| :: Blank(back[k]))
    requires core != [] ==> !Blank(core[0]) && !Blank(core[|core| - 1])
    ensures Holds(field, front + core + back, limit) <==> field == core[..Min(|core|, limit)]
  {
    var text, i, j := front + core + back, |front|, |front + core|;
    assert text[i..j] == core;
    assert Stripped(text, i, j) by {
      if core != [] {
        assert text[i] == core[0] && text[j - 1] == core[|core| - 1];
      }
    }
    assert text[i..Min(j, i + limit)] == core[..Min(|core|, limit)];
    forall m: nat, n: nat | m <= n <= |text| && Stripped(text, m, n)
      ensures text[m..Min(n, m + limit)] == core[..Min(|core|, limit)]
    {
      StrippedOnce(text, i, j, m, n);
    }
  }

  lemma {:induction false} FrontIsBlank(text: seq<byte>) returns (i: nat)
    ensures i <= |text| && TrimmedFront(text) == text[i..] && (forall k | 0 <= k < i :: Blank(text[k]))
    ensures i < |text| ==> !Blank(text[i])
  {
    i := 0;
    if text != [] && IsSpace(text[0]) {
      var rest := FrontIsBlank(text[1..]);
      i := rest + 1;
      assert forall k | 1 <= k < i :: text[k] == text[1..][k - 1];
    }
  }

  lemma {:induction false} BackIsBlank(text: seq<byte>) returns (j: nat)
    ensures j <= |text| && TrimmedBack(text) == text[..j] && (forall k | j <= k < |text| :: Blank(text[k]))
    ensures j > 0 ==> !Blank(text[j - 1])
  {
    j := |text|;
    if text != [] && IsSpace(text[|text| - 1]) {
      j := BackIsBlank(text[..|text| - 1]);
    }
  }

  /** What a field keeps is what it should hold. */
  lemma FieldHolds(text: seq<byte>, size: nat)
    requires size > 0
    ensures Holds(Field(text, size), text, size - 1)
  {
    hide TrimmedFront, TrimmedBack;
    var i := FrontIsBlank(text);
    var n := BackIsBlank(text[i..]);
    var j := i + n;
    assert forall k | j <= k < |text| :: text[k] == text[i..][k - i];
    assert Stripped(text, i, j);
    assert Field(text, size) == text[i..Min(j, i + (size - 1))];
  }

  /** Letters in either case; anything else as it is. */
  predicate Spells(text: seq<byte>, lowerName: seq<byte>) {
    |text| == |lowerName| &&
    forall i | 0 <= i < |text| ::
      text[i] == lowerName[i] || (97 <= lowerName[i] <= 122 && text[i] == lowerName[i] - 32)
  }

  // ----- lines -----

  /** No carriage return that a line feed follows. */
  predicate Breakless(text: seq<byte>) {
    forall i | 0 <= i < |text| - 1 :: !(text[i] == 13 && text[i + 1] == 10)
  }

  predicate IsLine(text: seq<byte>) {
    text != [] && Breakless(text)
  }

  predicate AreLines(lines: seq<seq<byte>>) {
    forall i | 0 <= i < |lines| :: IsLine(lines[i])
  }

  function Written(lines: seq<seq<byte>>): seq<byte> {
    if lines == [] then [] else lines[0] + [13, 10] + Written(lines[1..])
  }

  function Message(start: seq<byte>, lines: seq<seq<byte>>, body: seq<byte>): seq<byte> {
    start + [13, 10] + Written(lines) + [13, 10] + body
  }

  /** The text behind the colon, in a line whose text before its first colon spells the name. */
  function ValueIn(line: seq<byte>, lowerName: seq<byte>): Option<seq<byte>> {
    var n := |lowerName|;
    if n < |line| && line[n] == 58 && Spells(line[..n], lowerName) then Some(line[n + 1..]) else None
  }

  /** That of the last such line. */
  function LastValue(lines: seq<seq<byte>>, lowerName: seq<byte>): Option<seq<byte>> {
    if lines == [] then None
    else
      var later := LastValue(lines[1..], lowerName);
      if later.Some? then later else ValueIn(lines[0], lowerName)
  }

  ghost predicate HoldsHeader(field: seq<byte>, lines: seq<seq<byte>>, lowerName: seq<byte>) {
    match LastValue(lines, lowerName)
    case None => field == []
    case Some(text) => Holds(field, text, 255)
  }

  ghost predicate HoldsHeaders(headers: Headers, lines: seq<seq<byte>>) {
    && HoldsHeader(headers.host, lines, Ascii("host"))
    && HoldsHeader(headers.userAgent, lines, Ascii("user-agent"))
    && HoldsHeader(headers.contentType, lines, Ascii("content-type"))
  }

  // ----- finding lines and headers -----

  lemma {:induction false} IndexOfAt(data: seq<byte>, b: byte, i: nat, at: nat)
    requires i <= at < |data| && data[at] == b
    requires forall j | i <= j < at :: data[j] != b
    ensures IndexOf(data, b, i) == Some(at)
    decreases at - i
  {
    if i < at {
      IndexOfAt(data, b, i + 1, at);
    }
  }

  lemma {:induction false} CrLfFoundAt(data: seq<byte>, i: nat, at: nat)
    requires i <= at && CrLfAt(data, at) && forall j: nat | i <= j < at :: !CrLfAt(data, j)
    ensures FindCrLf(data, i) == Some(at)
    decreases at - i
  {
    if i < at {
      CrLfFoundAt(data, i + 1, at);
    }
  }

  lemma {:induction false} BlankLineSkips(data: seq<byte>, i: nat, at: nat)
    requires i <= at && at + 3 < |data|
    requires forall j: nat | i <= j < at :: !BlankLineAt(data, j)
    ensures FindHeaderEnd(data, i) == FindHeaderEnd(data, at)
    decreases at - i
  {
    if i < at {
      BlankLineSkips(data, i + 1, at);
    }
  }

  /** A text without a line break, in front of one, is the next line. */
  lemma NextBreak(before: seq<byte>, text: seq<byte>, rest: seq<byte>)
    requires Breakless(text)
    ensures var data, end := before + text + [13, 10] + rest, |before| + |text|;
            && data[|before|..end] == text && CrLfAt(data, end)
            && forall j: nat | |before| <= j < end :: !CrLfAt(data, j)
  {
    var data, end := before + text + [13, 10] + rest, |before| + |text|;
    assert data[|before|..end] == text;
    assert data[end] == 13 && data[end + 1] == 10;
    forall j: nat | |before| <= j < end
      ensures !CrLfAt(data, j)
    {
      assert data[j] == text[j - |before|] && (j + 1 < end ==> data[j + 1] == text[j + 1 - |before|]);
    }
  }

  /** From one line break, the blank line is where it is from the next, across a line. */
  lemma OneLineFurther(before: seq<byte>, text: seq<byte>, rest: seq<byte>)
    requires |before| >= 2 && before[|before| - 1] == 10 && IsLine(text) && |rest| >= 2
    ensures var after := before + text + [13, 10];
            FindHeaderEnd(after + rest, |before| - 2) == FindHeaderEnd(after + rest, |after| - 2)
  {
    hide FindHeaderEnd;
    var after := before + text + [13, 10];
    NextBreak(before, text, rest);
    assert (after + rest)[|before| - 1] == 10;
    BlankLineSkips(after + rest, |before| - 2, |after| - 2);
  }

  lemma BlankAt(before: seq<byte>, rest: seq<byte>)
    requires |before| >= 2 && before[|before| - 2..] == [13, 10]
    ensures BlankLineAt(before + [13, 10] + rest, |before| - 2)
  {
    var data, i := before + [13, 10] + rest, |before| - 2;
    assert data[i] == before[i..][0] && data[i + 1] == before[i..][1];
    assert data[i + 2] == 13 && data[i + 3] == 10;
  }

  lemma {:induction false} HeaderEndAfterLines(before: seq<byte>, lines: seq<seq<byte>>, body: seq<byte>)
    requires |before| >= 2 && before[|before| - 2..] == [13, 10] && AreLines(lines)
    ensures FindHeaderEnd(before + Written(lines) + [13, 10] + body, |before| - 2)
         == Some(|before| + |Written(lines)| + 2)
    decreases |lines|
  {
    hide BlankLineAt, IsLine, Written;
    var data := before + Written(lines) + [13, 10] + body;
    if lines == [] {
      WrittenUnrolls(lines);
      BlankAt(before, body);
      assert data == before + [13, 10] + body;
    } else {
      WrittenUnrolls(lines);
      var after, rest := before + lines[0] + [13, 10], Written(lines[1..]) + [13, 10] + body;
      assert before[|before| - 2..][1] == 10;
      assert after[|after| - 2..] == [13, 10];
      HeaderEndAfterLines(after, lines[1..], body);
      assert data == after + rest == after + Written(lines[1..]) + [13, 10] + body;
      OneLineFurther(before, lines[0], rest);
    }
  }

  lemma WrittenUnrolls(lines: seq<seq<byte>>)
    ensures Written(lines) == if lines == [] then [] else lines[0] + [13, 10] + Written(lines[1..])
  {
  }

  function AllHeaders(lines: seq<seq<byte>>, kept: Headers): Headers {
    if lines == [] then kept else AllHeaders(lines[1..], WithHeader(lines[0], kept))
  }

  lemma {:induction false} LinesAreKept(before: seq<byte>, lines: seq<seq<byte>>, kept: Headers)
    requires AreLines(lines)
    ensures ParseHeaders(before + Written(lines) + [13, 10], |before|, kept) == AllHeaders(lines, kept)
    decreases |lines|
  {
    hide WithHeader, FindCrLf, Written, CrLfAt;
    WrittenUnrolls(lines);
    var block := before + Written(lines) + [13, 10];
    if lines == [] {
      NextBreak(before, [], []);
      assert block == before + [] + [13, 10] + [];
      CrLfFoundAt(block, |before|, |before|);
    } else {
      var text, rest := lines[0], Written(lines[1..]) + [13, 10];
      assert IsLine(text);
      var after := before + text + [13, 10];
      NextBreak(before, text, rest);
      assert block == after + rest == after + Written(lines[1..]) + [13, 10];
      CrLfFoundAt(block, |before|, |before| + |text|);
      LinesAreKept(after, lines[1..], WithHeader(text, kept));
    }
  }

  lemma BlankLineIsFound(start: seq<byte>, lines: seq<seq<byte>>, body: seq<byte>)
    requires Breakless(start) && AreLines(lines)
    ensures var block := start + [13, 10] + Written(lines) + [13, 10];
            FindHeaderEnd(Message(start, lines, body), 0) == Some(|block|)
                && Message(start, lines, body)[..|block|] == block
  {
    hide FindHeaderEnd, Written, CrLfAt, IsLine;
    var before, data := start + [13, 10], Message(start, lines, body);
    var rest := Written(lines) + [13, 10] + body;
    NextBreak([], start, rest);
    assert data == [] + start + [13, 10] + rest == before + rest;
    BlankLineSkips(data, 0, |start|);
    HeaderEndAfterLines(before, lines, body);
    assert data == before + Written(lines) + [13, 10] + body;
  }

  lemma BlockIsRead(start: seq<byte>, lines: seq<seq<byte>>)
    requires Breakless(start) && AreLines(lines)
    ensures var block := start + [13, 10] + Written(lines) + [13, 10];
            && FindCrLf(block, 0) == Some(|start|) && block[..|start|] == start
            && ParseHeaders(block, |start| + 2, Headers([], [], [])) == AllHeaders(lines, Headers([], [], []))
  {
    hide FindCrLf, ParseHeaders, AllHeaders, Written, CrLfAt, IsLine;
    var block, rest := start + [13, 10] + Written(lines) + [13, 10], Written(lines) + [13, 10];
    NextBreak([], start, rest);
    assert block == [] + start + [13, 10] + rest;
    CrLfFoundAt(block, 0, |start|);
    LinesAreKept(start + [13, 10], lines, Headers([], [], []));
  }

  // ----- headers -----

  /** Literal names, and that a name in any letter case spells the same as the decoder compares. */
  lemma NamesAreThese()
    ensures HOST == Ascii("host") && USER_AGENT == Ascii("user-agent") && CONTENT_TYPE == Ascii("content-type")
  {
  }

  lemma SpelledAlike(text: seq<byte>, lowerName: seq<byte>)
    requires forall i | 0 <= i < |lowerName| :: lowerName[i] == 45 || 97 <= lowerName[i] <= 122
    ensures NameEquals(text, lowerName) <==> Spells(text, lowerName)
    ensures Spells(text, lowerName) ==> 58 !in text
  {
  }

  lemma NamedAt(line: seq<byte>, lowerName: seq<byte>)
    requires forall i | 0 <= i < |lowerName| :: lowerName[i] == 45 || 97 <= lowerName[i] <= 122
    ensures var colon := IndexOf(line, COLON, 0);
            ValueIn(line, lowerName) ==
            if colon.Some? && NameEquals(line[..colon.value], lowerName) then Some(line[colon.value + 1..]) else None
  {
    hide IndexOf, NameEquals, Spells;
    var n, colon := |lowerName|, IndexOf(line, COLON, 0);
    if colon.Some? {
      SpelledAlike(line[..colon.value], lowerName);
      SameLength(line[..colon.value], lowerName);
    }
    if n < |line| && line[n] == 58 && Spells(line[..n], lowerName) {
      SpelledAlike(line[..n], lowerName);
      assert forall j | 0 <= j < n :: line[j] == line[..n][j];
      IndexOfAt(line, COLON, 0, n);
    }
  }

  lemma SameLength(text: seq<byte>, lowerName: seq<byte>)
    ensures NameEquals(text, lowerName) || Spells(text, lowerName) ==> |text| == |lowerName|
  {
  }

  /** What one line does to the headers kept so far. */
  lemma HeaderIsKept(line: seq<byte>, kept: Headers)
    ensures var r := WithHeader(line, kept);
            && r.host == (match ValueIn(line, Ascii("host")) case None => kept.host case Some(v) => Field(v, 256))
            && r.userAgent == (match ValueIn(line, Ascii("user-agent"))
                               case None => kept.userAgent case Some(v) => Field(v, 256))
            && r.contentType == (match ValueIn(line, Ascii("content-type"))
                                 case None => kept.contentType case Some(v) => Field(v, 256))
  {
    hide IndexOf, NameEquals, Spells, Field, ValueIn;
    NamesAreThese();
    NamedAt(line, HOST);
    NamedAt(line, USER_AGENT);
    NamedAt(line, CONTENT_TYPE);
    var colon := IndexOf(line, COLON, 0);
    if colon.Some? {
      OnlyOneName(line[..colon.value]);
    }
  }

  lemma OnlyOneName(text: seq<byte>)
    ensures !(NameEquals(text, HOST) && NameEquals(text, USER_AGENT))
    ensures !(NameEquals(text, HOST) && NameEquals(text, CONTENT_TYPE))
    ensures !(NameEquals(text, USER_AGENT) && NameEquals(text, CONTENT_TYPE))
  {
  }

  /** The last line of a name decides. */
  lemma {:induction false} LastLineWins(lines: seq<seq<byte>>, kept: Headers)
    ensures var r := AllHeaders(lines, kept);
            && r.host == (match LastValue(lines, Ascii("host")) case None => kept.host case Some(v) => Field(v, 256))
            && r.userAgent == (match LastValue(lines, Ascii("user-agent"))
                               case None => kept.userAgent case Some(v) => Field(v, 256))
            && r.contentType == (match LastValue(lines, Ascii("content-type"))
                                 case None => kept.contentType case Some(v) => Field(v, 256))
    decreases |lines|
  {
    hide Field, ValueIn, WithHeader;
    if lines != [] {
      HeaderIsKept(lines[0], kept);
      LastLineWins(lines[1..], WithHeader(lines[0], kept));
    }
  }

  lemma HeadersAreHeld(lines: seq<seq<byte>>)
    ensures HoldsHeaders(AllHeaders(lines, Headers([], [], [])), lines)
  {
    hide Field, LastValue, AllHeaders, Holds;
    LastLineWins(lines, Headers([], [], []));
    OneIsHeld(lines, Ascii("host"));
    OneIsHeld(lines, Ascii("user-agent"));
    OneIsHeld(lines, Ascii("content-type"));
  }

  lemma OneIsHeld(lines: seq<seq<byte>>, lowerName: seq<byte>)
    ensures var value := LastValue(lines, lowerName); value.Some? ==> Holds(Field(value.value, 256), value.value, 255)
  {
    var value := LastValue(lines, lowerName);
    if value.Some? {
      FieldHolds(value.value, 256);
    }
  }

  // ----- start lines -----

  function MethodNames(): seq<seq<byte>> {
    [Ascii("GET"), Ascii("POST"), Ascii("PUT"), Ascii("DELETE"), Ascii("HEAD"), Ascii("OPTIONS"), Ascii("PATCH"),
     Ascii("TRACE"), Ascii("CONNECT")]
  }

  predicate StartsWithMethod(data: seq<byte>) {
    exists i | 0 <= i < 9 :: MethodNames()[i] <= data
  }

  predicate BeginsMethod(data: seq<byte>) {
    exists i | 0 <= i < 9 :: data < MethodNames()[i]
  }

  lemma VersionBegins()
    ensures HTTP_SLASH == Ascii("HTTP/")
  {
  }

  lemma MethodsAreThese()
    ensures METHODS == MethodNames()
    ensures forall i | 0 <= i < 9 :: MethodNames()[i] != [] && 13 !in MethodNames()[i] && 10 !in MethodNames()[i]
    ensures forall i | 0 <= i < 9 :: |MethodNames()[i]| >= 3 && 32 !in MethodNames()[i] && MethodNames()[i][1] != 84
  {
    assert |METHODS| == |MethodNames()| == 9;
    assert forall i | 0 <= i < 9 :: METHODS[i] == MethodNames()[i];
  }

  lemma LooksLikeHttpExactly(data: seq<byte>)
    ensures LooksLikeHttp(data) <==>
            Ascii("HTTP/") <= data || StartsWithMethod(data) || (data != [] && BeginsMethod(data))
  {
    hide MethodNames;
    VersionBegins();
    MethodsAreThese();
  }

  /** Three words with single spaces between them, the last one an HTTP version. */
  predicate IsRequestLine(line: seq<byte>, name: seq<byte>, path: seq<byte>, version: seq<byte>) {
    && line == name + [32] + path + [32] + version && name != [] && 32 !in name && path != [] && 32 !in path
    && Ascii("HTTP/") <= version && |version| >= 8
  }

  /** An HTTP version, a space, three digits, and a tail. */
  predicate IsStatusLine(line: seq<byte>, version: seq<byte>, status: nat, tail: seq<byte>) {
    && status < 1000 && 32 !in version && Ascii("HTTP/") <= version && |line| >= 12
    && line == version + [32, 48 + status / 100, 48 + status / 10 % 10, 48 + status % 10] + tail
  }

  lemma RequestWords(line: seq<byte>, name: seq<byte>, path: seq<byte>, version: seq<byte>)
    requires IsRequestLine(line, name, path, version)
    ensures ParseRequestLine(line) == Some(RequestLine(Field(name, 16), Field(path, 256), Field(version, 16)))
  {
    hide IndexOf, Field;
    VersionBegins();
    var m, p := |name|, |path|;
    assert line[..m] == name && line[m + 1..m + 1 + p] == path && line[m + p + 2..] == version;
    assert forall j | 0 <= j < m :: line[j] == name[j];
    assert forall j | m + 1 <= j < m + 1 + p :: line[j] == path[j - m - 1];
    IndexOfAt(line, SPACE, 0, m);
    IndexOfAt(line, SPACE, m + 1, m + 1 + p);
  }

  lemma RequestLineHasWords(line: seq<byte>) returns (name: seq<byte>, path: seq<byte>, version: seq<byte>)
    requires ParseRequestLine(line).Some?
    ensures IsRequestLine(line, name, path, version)
  {
    VersionBegins();
    var m := IndexOf(line, SPACE, 0).value;
    var e := IndexOf(line, SPACE, m + 1).value;
    name, path, version := line[..m], line[m + 1..e], line[e + 1..];
    assert line == name + [32] + path + [32] + version;
  }

  lemma Digits(status: nat)
    requires status < 1000
    ensures status / 100 < 10 && status / 10 % 10 < 10 && status % 10 < 10
    ensures status / 100 * 100 + status / 10 % 10 * 10 + status % 10 == status
  {
  }

  lemma StatusWords(line: seq<byte>, version: seq<byte>, status: nat, tail: seq<byte>)
    requires IsStatusLine(line, version, status, tail)
    ensures ParseStatusLine(line) ==
            Some(StatusLine(Field(version, 16), status,
                            if tail != [] && tail[0] == 32 then Field(tail[1..], 256) else []))
  {
    hide IndexOf, Field;
    VersionBegins();
    Digits(status);
    var v := |version|;
    assert line[..v] == version && line[v] == 32;
    assert forall j | 0 <= j < v :: line[j] == version[j];
    IndexOfAt(line, SPACE, 0, v);
    assert line[v + 1] == 48 + status / 100 && line[v + 2] == 48 + status / 10 % 10 && line[v + 3] == 48 + status % 10;
    if tail != [] {
      assert line[v + 4] == tail[0] && line[v + 5..] == tail[1..];
    }
  }

  lemma DigitsAreThese(h: nat, t: nat, u: nat)
    requires h < 10 && t < 10 && u < 10
    ensures var status := h * 100 + t * 10 + u;
            status < 1000 && status / 100 == h && status / 10 % 10 == t && status % 10 == u
  {
  }

  lemma StatusLineHasWords(line: seq<byte>) returns (version: seq<byte>, status: nat, tail: seq<byte>)
    requires ParseStatusLine(line).Some?
    ensures IsStatusLine(line, version, status, tail)
  {
    hide IndexOf, Field;
    VersionBegins();
    var v := IndexOf(line, SPACE, 0).value;
    var h: int, t: int, u: int := line[v + 1] - 48, line[v + 2] - 48, line[v + 3] - 48;
    DigitsAreThese(h, t, u);
    version, status, tail := line[..v], h * 100 + t * 10 + u, line[v + 4..];
    assert v >= 5 by { assert forall j | 0 <= j < 5 :: line[j] == HTTP_SLASH[j]; }
    assert version == line[..v];
    CutAtSpace(line, v);
  }

  lemma CutAtSpace(line: seq<byte>, v: nat)
    requires v + 4 <= |line|
    ensures line == line[..v] + [line[v], line[v + 1], line[v + 2], line[v + 3]] + line[v + 4..]
  {
  }

  // ----- whole messages -----

  /** A method name or a version is in the message exactly when it is in its first line. */
  lemma FirstLineShows(start: seq<byte>, lines: seq<seq<byte>>, body: seq<byte>)
    ensures var data := Message(start, lines, body);
            LooksLikeHttp(data) <==> Ascii("HTTP/") <= start || StartsWithMethod(start)
  {
    hide MethodNames, Written;
    var data := Message(start, lines, body);
    LooksLikeHttpExactly(data);
    MethodsAreThese();
    assert start <= data && data[|start|] == 13;
    assert forall i | 0 <= i < |start| :: data[i] == start[i];
    var v := Ascii("HTTP/");
    assert 13 !in v;
    assert v <= data ==> v <= start by {
      if v <= data { StopsAtBreak(v, start, data); }
    }
    forall i | 0 <= i < 9
      ensures MethodNames()[i] <= data ==> MethodNames()[i] <= start
      ensures !(data < MethodNames()[i])
    {
      if MethodNames()[i] <= data {
        StopsAtBreak(MethodNames()[i], start, data);
      }
      assert forall k | 0 <= k < |MethodNames()[i]| :: MethodNames()[i][k] in MethodNames()[i];
    }
  }

  lemma StopsAtBreak(word: seq<byte>, start: seq<byte>, data: seq<byte>)
    requires word <= data && start <= data && |start| < |data| && data[|start|] == 13 && 13 !in word
    ensures word <= start
  {
    assert forall k | 0 <= k < |word| :: word[k] in word;
  }

  ghost predicate ReportsRequest(verdict: Decoding, name: seq<byte>, path: seq<byte>, version: seq<byte>,
                                 lines: seq<seq<byte>>) {
    && verdict.Decoded? && verdict.info.HttpRequest?
    && Holds(verdict.info.requestMethod, name, 15) && Holds(verdict.info.path, path, 255)
    && Holds(verdict.info.version, version, 15) && HoldsHeaders(verdict.info.headers, lines)
  }

  ghost predicate ReportsResponse(verdict: Decoding, version: seq<byte>, status: nat, tail: seq<byte>,
                                  lines: seq<seq<byte>>) {
    && verdict.Decoded? && verdict.info.HttpResponse?
    && Holds(verdict.info.version, version, 15) && verdict.info.status == status
    && (if tail != [] && tail[0] == 32 then Holds(verdict.info.reason, tail[1..], 255) else verdict.info.reason == [])
    && HoldsHeaders(verdict.info.headers, lines)
  }

  /** A request decodes to its three words and its headers, whatever its lines are and whatever follows the blank line:
      the words and the header values without blanks around them, the method and the version up to 15 bytes, the rest
      up to 255; of each header the last line that spells its name, in any letter case. */
  lemma RequestRoundTrip(name: seq<byte>, path: seq<byte>, version: seq<byte>, start: seq<byte>, lines: seq<seq<byte>>,
                         body: seq<byte>)
    requires IsRequestLine(start, name, path, version) && StartsWithMethod(name)
    requires Breakless(start) && AreLines(lines)
    ensures ReportsRequest(Decode(Message(start, lines, body)), name, path, version, lines)
  {
    hide FindHeaderEnd, FindCrLf, ParseRequestLine, Field, AllHeaders, HoldsHeaders, Written, AreLines, MethodNames,
      ParseHeaders, LooksLikeHttp, Breakless, Holds;
    MethodIsNoVersion(start, name, path, version);
    FirstLineShows(start, lines, body);
    BlankLineIsFound(start, lines, body);
    BlockIsRead(start, lines);
    RequestWords(start, name, path, version);
    FieldHolds(name, 16);
    FieldHolds(path, 256);
    FieldHolds(version, 16);
    HeadersAreHeld(lines);
  }

  lemma MethodIsNoVersion(start: seq<byte>, name: seq<byte>, path: seq<byte>, version: seq<byte>)
    requires IsRequestLine(start, name, path, version) && StartsWithMethod(name)
    ensures StartsWithMethod(start) && !(HTTP_SLASH <= start)
  {
    hide MethodNames;
    MethodsAreThese();
    VersionBegins();
    var i :| 0 <= i < 9 && MethodNames()[i] <= name;
    assert name <= start && MethodNames()[i] <= start;
    assert start[1] == MethodNames()[i][1];
  }

  /** A response decodes to its version, its three-digit status, its reason when a space announces one, and its headers,
      likewise. */
  lemma ResponseRoundTrip(version: seq<byte>, status: nat, tail: seq<byte>, start: seq<byte>, lines: seq<seq<byte>>,
                          body: seq<byte>)
    requires IsStatusLine(start, version, status, tail) && Breakless(start) && AreLines(lines)
    ensures ReportsResponse(Decode(Message(start, lines, body)), version, status, tail, lines)
  {
    hide FindHeaderEnd, FindCrLf, ParseStatusLine, Field, AllHeaders, HoldsHeaders, Written, AreLines, MethodNames,
      ParseHeaders, LooksLikeHttp, Breakless, Holds;
    VersionBegins();
    assert version <= start;
    FirstLineShows(start, lines, body);
    BlankLineIsFound(start, lines, body);
    BlockIsRead(start, lines);
    StatusWords(start, version, status, tail);
    FieldHolds(version, 16);
    if tail != [] {
      FieldHolds(tail[1..], 256);
    }
    HeadersAreHeld(lines);
  }

  /** Any other first line is no match when it begins with neither a version nor a method, and malformed when it
      does. */
  lemma OtherFirstLines(start: seq<byte>, lines: seq<seq<byte>>, body: seq<byte>)
    requires Breakless(start) && AreLines(lines)
    ensures var verdict := Decode(Message(start, lines, body));
            if Ascii("HTTP/") <= start then
              (exists v, s, t :: IsStatusLine(start, v, s, t)) || verdict.Malformed?
            else if StartsWithMethod(start) then
              (exists n, p, v :: IsRequestLine(start, n, p, v)) || verdict.Malformed?
            else verdict.NoMatch?
  {
    hide FindHeaderEnd, FindCrLf, ParseStatusLine, ParseRequestLine, AllHeaders, HoldsHeaders, Written, AreLines,
      MethodNames, ParseHeaders, LooksLikeHttp, Breakless, IsStatusLine, IsRequestLine;
    VersionBegins();
    FirstLineShows(start, lines, body);
    BlankLineIsFound(start, lines, body);
    BlockIsRead(start, lines);
    if HTTP_SLASH <= start && ParseStatusLine(start).Some? {
      var v, s, t := StatusLineHasWords(start);
    } else if !(HTTP_SLASH <= start) && ParseRequestLine(start).Some? {
      var n, p, v := RequestLineHasWords(start);
    }
  }

  // ----- every input -----

  predicate BlankLineIn(data: seq<byte>, i: nat) {
    i + 4 <= |data| && data[i..i + 4] == [13, 10, 13, 10]
  }

  lemma BlankLineIs(data: seq<byte>, i: nat)
    ensures BlankLineIn(data, i) <==> BlankLineAt(data, i)
  {
    if i + 4 <= |data| {
      var w := data[i..i + 4];
      assert w == [data[i], data[i + 1], data[i + 2], data[i + 3]];
    }
  }

  lemma NoBreakBefore(data: seq<byte>, i: nat, at: nat)
    requires i <= at < |data| && data[at] == 13 && forall j: nat | i <= j < at :: !CrLfAt(data, j)
    ensures Breakless(data[i..at])
  {
    var text := data[i..at];
    forall k | 0 <= k < |text| - 1
      ensures !(text[k] == 13 && text[k + 1] == 10)
    {
      assert !CrLfAt(data, i + k);
    }
  }

  /** What stands between a line break and the first blank line is a sequence of lines. */
  lemma {:induction false} LinesStand(data: seq<byte>, at: nat, end: nat) returns (lines: seq<seq<byte>>)
    requires 2 <= at && at + 2 <= end <= |data| && CrLfAt(data, at - 2) && BlankLineAt(data, end - 4)
    requires forall j: nat | at - 2 <= j < end - 4 :: !BlankLineAt(data, j)
    ensures AreLines(lines) && data[at..end] == Written(lines) + [13, 10]
    decreases end - at
  {
    if at + 2 == end {
      lines := [];
      assert data[at..end] == [data[at], data[at + 1]];
    } else {
      assert data[at - 1] == 10 && data[end - 4] == 13;
      assert !BlankLineAt(data, at - 2);
      var e := FindCrLf(data, at).value;
      var text := data[at..e];
      NoBreakBefore(data, at, e);
      var rest := LinesStand(data, e + 2, end);
      lines := [text] + rest;
      assert lines[1..] == rest;
      assert data[at..end] == text + [data[e], data[e + 1]] + data[e + 2..end];
    }
  }

  lemma PutTogether(data: seq<byte>, s: nat, end: nat)
    requires s + 2 <= end <= |data|
    ensures data == data[..s] + [data[s], data[s + 1]] + data[s + 2..end] + data[end..]
  {
  }

  /** Everything with a blank line in it is a message. */
  lemma EveryMessageSplits(data: seq<byte>) returns (start: seq<byte>, lines: seq<seq<byte>>, body: seq<byte>)
    requires exists i: nat :: BlankLineIn(data, i)
    ensures Breakless(start) && AreLines(lines) && data == Message(start, lines, body)
  {
    var i: nat :| BlankLineIn(data, i);
    BlankLineIs(data, i);
    var end := FindHeaderEnd(data, 0).value;
    var s := FindCrLf(data, 0).value;
    NoBreakBefore(data, 0, s);
    assert s <= end - 4;
    lines := LinesStand(data, s + 2, end);
    start, body := data[..s], data[end..];
    PutTogether(data, s, end);
  }

  /** And without one the decoder waits if the bytes begin like HTTP, and declines them if they do not. */
  lemma WithoutBlankLine(data: seq<byte>)
    requires forall i: nat :: !BlankLineIn(data, i)
    ensures if Ascii("HTTP/") <= data || StartsWithMethod(data) || (data != [] && BeginsMethod(data))
            then Decode(data).NeedMore? else Decode(data).NoMatch?
  {
    hide MethodNames, LooksLikeHttp;
    LooksLikeHttpExactly(data);
    if FindHeaderEnd(data, 0).Some? {
      BlankLineIs(data, FindHeaderEnd(data, 0).value - 4);
    }
    assert Ascii("HTTP/") != [];
    MethodsAreThese();
  }
}
