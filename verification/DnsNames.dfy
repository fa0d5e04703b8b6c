/** Compressed domain names (section 4.1.4 of RFC 1035) as src/app_dns.c reads them. */
module DnsNames {
  import opened Bytes

  const MAX_POINTER_DEPTH := 16
  const MAX_NAME_LENGTH := 253
  const NAME_BUFFER_SIZE := 256
  const DOT: byte := 46

  /** A decoded name and the offset where the enclosing message continues. */
  datatype Name = Name(text: seq<byte>, next: nat)

  function PointerTarget(high: byte, low: byte): nat {
    high % 64 * 256 + low
  }

  function Separated(text: seq<byte>): seq<byte> {
    if text == [] then text else text + [DOT]
  }

  /** The bounded reader: `text` is what has been written, `depth` the pointers followed, `resume`
      the offset remembered at the first pointer. */
  function ParseFrom(data: seq<byte>, cursor: nat, text: seq<byte>, depth: nat, resume: Option<nat>): Option<Name>
    requires depth <= MAX_POINTER_DEPTH
    decreases MAX_POINTER_DEPTH - depth, |data| - cursor
  {
    if cursor >= |data| then None
    else if data[cursor] == 0 then
      Some(Name(if text == [] then [DOT] else text, if resume.Some? then resume.value else cursor + 1))
    else if data[cursor] >= 192 then
      if cursor + 1 >= |data| || depth >= MAX_POINTER_DEPTH
          || PointerTarget(data[cursor], data[cursor + 1]) >= |data| then None
      else
        ParseFrom(data, PointerTarget(data[cursor], data[cursor + 1]), text, depth + 1,
                  if resume.Some? then resume else Some(cursor + 2))
    else if data[cursor] >= 64 then None
    else
      var end := cursor + 1 + data[cursor];
      if end > |data| || |Separated(text)| > MAX_NAME_LENGTH
          || |Separated(text)| + data[cursor] > MAX_NAME_LENGTH then None
      else ParseFrom(data, end, Separated(text) + data[cursor + 1..end], depth, resume)
  }

  function ParseName(data: seq<byte>, offset: nat): Option<Name> {
    ParseFrom(data, offset, [], 0, None)
  }

  /** Writes one label, after a dot unless it is the first; false when it exceeds the bounds. */
  method AppendLabel(out: array<byte>, outputLength: nat, part: seq<byte>) returns (ok: bool, newLength: nat)
    requires out.Length == NAME_BUFFER_SIZE && outputLength <= MAX_NAME_LENGTH && part != []
    modifies out
    ensures var joined := Separated(old(out[..outputLength])) + part;
            && ok == (|joined| <= MAX_NAME_LENGTH)
            && (ok ==> newLength == |joined| && out[..newLength] == joined && out[newLength] == 0)
  {
    newLength := outputLength;
    if newLength != 0 {
      if newLength + 1 >= out.Length || newLength + 1 > MAX_NAME_LENGTH {
        return false, newLength;
      }
      out[newLength] := DOT;
      newLength := newLength + 1;
    }
    assert out[..newLength] == Separated(old(out[..outputLength]));
    if newLength + |part| >= out.Length || newLength + |part| > MAX_NAME_LENGTH {
      return false, newLength;
    }
    forall i | 0 <= i < |part| {
      out[newLength + i] := part[i];
    }
    newLength := newLength + |part|;
    out[newLength] := 0;
    assert out[..newLength] == Separated(old(out[..outputLength])) + part;
    ok := true;
  }

  /** `parse_dns_name` over a 256-byte output buffer. */
  method ParseDnsName(data: seq<byte>, offset: nat, out: array<byte>) returns (ok: bool, outputLength: nat, next: nat)
    requires out.Length == NAME_BUFFER_SIZE
    modifies out
    ensures ok <==> ParseName(data, offset).Some?
    ensures ok ==> outputLength < out.Length && out[outputLength] == 0
                   && ParseName(data, offset) == Some(Name(out[..outputLength], next))
  {
    hide PointerTarget, Separated;
    ok, outputLength, next := false, 0, offset;
    if offset >= |data| {
      return;
    }
    var cursor: nat, jumped, depth := offset, false, 0;
    out[0] := 0;
    ghost var text := out[..0];
    while cursor < |data|
      invariant depth <= MAX_POINTER_DEPTH && outputLength <= MAX_NAME_LENGTH && !ok
      invariant out[outputLength] == 0 && text == out[..outputLength]
      invariant ParseName(data, offset) == ParseFrom(data, cursor, text, depth, if jumped then Some(next) else None)
      decreases MAX_POINTER_DEPTH - depth, |data| - cursor
    {
      var labelLength := data[cursor];
      if labelLength == 0 {
        if !jumped {
          next := cursor + 1;
        }
        if outputLength == 0 {
          out[0], out[1] := DOT, 0;
          outputLength := 1;
          assert out[..1] == [DOT];
        }
        return true, outputLength, next;
      }
      if labelLength >= 192 {
        if cursor + 1 >= |data| || depth >= MAX_POINTER_DEPTH {
          return;
        }
        var pointer := PointerTarget(labelLength, data[cursor + 1]);
        if pointer >= |data| {
          return;
        }
        if !jumped {
          next := cursor + 2;
        }
        cursor, jumped, depth := pointer, true, depth + 1;
      } else {
        if labelLength >= 64 {
          return;
        }
        cursor := cursor + 1;
        if cursor + labelLength > |data| {
          return;
        }
        var part := data[cursor..cursor + labelLength];
        var appended;
        appended, outputLength := AppendLabel(out, outputLength, part);
        if !appended {
          return;
        }
        text := out[..outputLength];
        cursor := cursor + labelLength;
      }
    }
  }

  // ----- what a name is, independently of the reader -----

  /** The course of a name through a message: labels and pointer hops up to the terminator. */
  datatype Walk = Terminator | Label(text: seq<byte>, rest: Walk) | Pointer(rest: Walk)

  /** `walk` is the course of the name found at `pos`. */
  ghost predicate NameAt(data: seq<byte>, pos: nat, walk: Walk)
    decreases walk
  {
    pos < |data| &&
    match walk
    case Terminator => data[pos] == 0
    case Label(text, rest) =>
      && data[pos] == |text| && 0 < |text| < 64
      && pos + 1 + |text| <= |data| && text == data[pos + 1..pos + 1 + |text|]
      && NameAt(data, pos + 1 + |text|, rest)
    case Pointer(rest) =>
      && data[pos] >= 192 && pos + 1 < |data|
      && var high: int, low: int := data[pos], data[pos + 1];
         NameAt(data, (high - 192) * 256 + low, rest)
  }

  function Labels(walk: Walk): seq<seq<byte>> {
    match walk
    case Terminator => []
    case Label(text, rest) => [text] + Labels(rest)
    case Pointer(rest) => Labels(rest)
  }

  function Hops(walk: Walk): nat {
    match walk
    case Terminator => 0
    case Label(_, rest) => Hops(rest)
    case Pointer(rest) => 1 + Hops(rest)
  }

  /** Just past the first terminator or pointer. */
  function ContinuesAt(pos: nat, walk: Walk): nat
    decreases walk
  {
    match walk
    case Terminator => pos + 1
    case Label(text, rest) => ContinuesAt(pos + 1 + |text|, rest)
    case Pointer(_) => pos + 2
  }

  function Dotted(labels: seq<seq<byte>>): seq<byte> {
    if labels == [] then []
    else if |labels| == 1 then labels[0]
    else labels[0] + [46] + Dotted(labels[1..])
  }

  /** The dotted form of a name, "." for the root. */
  function Presentation(labels: seq<seq<byte>>): seq<byte> {
    if labels == [] then [46] else Dotted(labels)
  }

  function ExtendedBy(text: seq<byte>, labels: seq<seq<byte>>): seq<byte> {
    if labels == [] then text else if text == [] then Dotted(labels) else text + [DOT] + Dotted(labels)
  }

  lemma ExtendByLabel(text: seq<byte>, first: seq<byte>, rest: seq<seq<byte>>)
    requires first != []
    ensures ExtendedBy(text, [first] + rest) == ExtendedBy(Separated(text) + first, rest)
    ensures |ExtendedBy(text, [first] + rest)| >= |Separated(text) + first|
    ensures Separated(text) + first != []
    ensures text == [] ==> ExtendedBy(text, [first] + rest) == Presentation([first] + rest)
  {
    assert ([first] + rest)[1..] == rest;
    if text != [] && rest != [] {
      assert text + [DOT] + (first + [DOT] + Dotted(rest)) == text + [DOT] + first + [DOT] + Dotted(rest);
    } else if text != [] {
      assert text + [DOT] + first == text + ([DOT] + first);
    }
  }

  lemma TargetIs(high: byte, low: byte)
    requires high >= 192
    ensures var h: int, l: int := high, low; PointerTarget(high, low) == (h - 192) * 256 + l
  {
  }

  lemma ReadsLabel(data: seq<byte>, pos: nat, first: seq<byte>, text: seq<byte>, depth: nat, resume: Option<nat>)
    requires depth <= MAX_POINTER_DEPTH && 0 < |first| < 64 && pos + 1 + |first| <= |data| && data[pos] == |first|
    requires first == data[pos + 1..pos + 1 + |first|]
    ensures ParseFrom(data, pos, text, depth, resume) ==
            if |Separated(text) + first| <= MAX_NAME_LENGTH then
              ParseFrom(data, pos + 1 + |first|, Separated(text) + first, depth, resume)
            else None
  {
    hide Separated, PointerTarget;
  }

  lemma ReadsTerminator(data: seq<byte>, pos: nat, text: seq<byte>, depth: nat, resume: Option<nat>)
    requires depth <= MAX_POINTER_DEPTH && pos < |data| && data[pos] == 0
    ensures ParseFrom(data, pos, text, depth, resume)
         == Some(Name(if text == [] then [46] else text, if resume.Some? then resume.value else pos + 1))
    ensures ExtendedBy(text, []) == text && Presentation([]) == [46]
  {
  }

  lemma ReadsPointer(data: seq<byte>, pos: nat, target: nat, text: seq<byte>, depth: nat, resume: Option<nat>)
    requires depth <= MAX_POINTER_DEPTH && pos + 1 < |data| && data[pos] >= 192
    requires target == PointerTarget(data[pos], data[pos + 1]) < |data|
    ensures ParseFrom(data, pos, text, depth, resume) ==
            if depth < MAX_POINTER_DEPTH then
              ParseFrom(data, target, text, depth + 1, if resume.Some? then resume else Some(pos + 2))
            else None
  {
    hide PointerTarget, Separated;
  }

  /** On a message that has a name here, the reader answers exactly by its hops and dotted length. */
  lemma {:induction false} ReaderFollowsWalk(data: seq<byte>, pos: nat, walk: Walk, text: seq<byte>, depth: nat,
                                             resume: Option<nat>)
    requires NameAt(data, pos, walk) && depth <= MAX_POINTER_DEPTH && |text| <= MAX_NAME_LENGTH
    ensures ParseFrom(data, pos, text, depth, resume) ==
            if depth + Hops(walk) <= MAX_POINTER_DEPTH && |ExtendedBy(text, Labels(walk))| <= MAX_NAME_LENGTH then
              Some(Name(if text == [] then Presentation(Labels(walk)) else ExtendedBy(text, Labels(walk)),
                        if resume.Some? then resume.value else ContinuesAt(pos, walk)))
            else None
    decreases walk
  {
    hide PointerTarget, Dotted, Separated, ParseFrom, ExtendedBy, Presentation;
    match walk
    case Terminator => ReadsTerminator(data, pos, text, depth, resume);
    case Label(first, rest) =>
      ReadsLabel(data, pos, first, text, depth, resume);
      ExtendByLabel(text, first, Labels(rest));
      if |Separated(text) + first| <= MAX_NAME_LENGTH {
        ReaderFollowsWalk(data, pos + 1 + |first|, rest, Separated(text) + first, depth, resume);
      }
    case Pointer(rest) =>
      TargetIs(data[pos], data[pos + 1]);
      var target := PointerTarget(data[pos], data[pos + 1]);
      NameIsInside(data, target, rest);
      ReadsPointer(data, pos, target, text, depth, resume);
      if depth < MAX_POINTER_DEPTH {
        ReaderFollowsWalk(data, target, rest, text, depth + 1, if resume.Some? then resume else Some(pos + 2));
      }
  }

  lemma NameIsInside(data: seq<byte>, pos: nat, walk: Walk)
    requires NameAt(data, pos, walk)
    ensures pos < |data|
  {
  }

  /** The reader succeeds only where there is a name. */
  lemma {:induction false} ReaderFindsWalk(data: seq<byte>, pos: nat, text: seq<byte>, depth: nat, resume: Option<nat>)
      returns (walk: Walk)
    requires depth <= MAX_POINTER_DEPTH && ParseFrom(data, pos, text, depth, resume).Some?
    ensures NameAt(data, pos, walk)
    decreases MAX_POINTER_DEPTH - depth, |data| - pos
  {
    hide PointerTarget, Separated;
    if data[pos] == 0 {
      walk := Terminator;
    } else if data[pos] >= 192 {
      TargetIs(data[pos], data[pos + 1]);
      var rest := ReaderFindsWalk(data, PointerTarget(data[pos], data[pos + 1]), text, depth + 1,
                                  if resume.Some? then resume else Some(pos + 2));
      walk := Pointer(rest);
    } else {
      var end := pos + 1 + data[pos];
      var first := data[pos + 1..end];
      var rest := ReaderFindsWalk(data, end, Separated(text) + first, depth, resume);
      walk := Label(first, rest);
    }
  }

  /** A message has at most one name at an offset. */
  lemma {:induction false} NameIsUnique(data: seq<byte>, pos: nat, one: Walk, two: Walk)
    requires NameAt(data, pos, one) && NameAt(data, pos, two)
    ensures one == two
    decreases one
  {
    match one
    case Terminator =>
    case Label(first, rest) => NameIsUnique(data, pos + 1 + |first|, rest, two.rest);
    case Pointer(rest) =>
      var high: int, low: int := data[pos], data[pos + 1];
      NameIsUnique(data, (high - 192) * 256 + low, rest, two.rest);
  }

  ghost predicate Acceptable(walk: Walk) {
    Hops(walk) <= 16 && |Dotted(Labels(walk))| <= 253
  }

  /** Sound and complete: the reader succeeds exactly when a name stands at the offset that needs at
      most 16 pointer hops and has a dotted form of at most 253 bytes; it then yields that form and
      the offset past the first terminator or pointer. */
  lemma ParsesExactlyTheNames(data: seq<byte>, offset: nat)
    ensures ParseName(data, offset).Some? <==> exists walk :: NameAt(data, offset, walk) && Acceptable(walk)
    ensures forall walk :: NameAt(data, offset, walk) && Acceptable(walk) ==>
              ParseName(data, offset) == Some(Name(Presentation(Labels(walk)), ContinuesAt(offset, walk)))
  {
    if ParseName(data, offset).Some? {
      var walk := ReaderFindsWalk(data, offset, [], 0, None);
      ReaderFollowsWalk(data, offset, walk, [], 0, None);
      assert Acceptable(walk);
    }
    forall walk | NameAt(data, offset, walk) && Acceptable(walk)
      ensures ParseName(data, offset) == Some(Name(Presentation(Labels(walk)), ContinuesAt(offset, walk)))
    {
      ReaderFollowsWalk(data, offset, walk, [], 0, None);
    }
  }

  // ----- encoding -----

  predicate IsLabel(text: seq<byte>) {
    0 < |text| < 64
  }

  function EncodedName(labels: seq<seq<byte>>): seq<byte>
    requires forall i | 0 <= i < |labels| :: IsLabel(labels[i])
  {
    if labels == [] then [0]
    else
      assert IsLabel(labels[0]);
      var size: byte := |labels[0]|;
      [size] + labels[0] + EncodedName(labels[1..])
  }

  function StraightWalk(labels: seq<seq<byte>>): Walk {
    if labels == [] then Terminator else Label(labels[0], StraightWalk(labels[1..]))
  }

  lemma {:induction false} EncodedNameStands(before: seq<byte>, labels: seq<seq<byte>>, after: seq<byte>)
    requires forall i | 0 <= i < |labels| :: IsLabel(labels[i])
    ensures var data, walk := before + EncodedName(labels) + after, StraightWalk(labels);
            && NameAt(data, |before|, walk) && Labels(walk) == labels && Hops(walk) == 0
            && ContinuesAt(|before|, walk) == |before| + |EncodedName(labels)|
    decreases |labels|
  {
    var data := before + EncodedName(labels) + after;
    if labels != [] {
      assert IsLabel(labels[0]);
      var size: byte := |labels[0]|;
      var head := before + [size] + labels[0];
      EncodedNameStands(head, labels[1..], after);
      LabelStandsFirst(before, labels[0], EncodedName(labels[1..]), after);
    }
  }

  lemma LabelStandsFirst(before: seq<byte>, first: seq<byte>, rest: seq<byte>, after: seq<byte>)
    requires IsLabel(first)
    ensures var size: byte := |first|;
            var data, head := before + ([size] + first + rest) + after, before + [size] + first;
            data == head + rest + after && data[|before|] == size && data[|before| + 1..|head|] == first
  {
  }

  /** Reading an encoded name gives back its dotted form, wherever it stands in a message. */
  lemma NameRoundTrip(before: seq<byte>, labels: seq<seq<byte>>, after: seq<byte>)
    requires forall i | 0 <= i < |labels| :: IsLabel(labels[i])
    requires |Dotted(labels)| <= 253
    ensures ParseName(before + EncodedName(labels) + after, |before|)
         == Some(Name(Presentation(labels), |before| + |EncodedName(labels)|))
  {
    EncodedNameStands(before, labels, after);
    ParsesExactlyTheNames(before + EncodedName(labels) + after, |before|);
  }

  /** A name that was read is read the same when bytes are appended to the message. */
  lemma {:induction false} NameSurvivesExtension(data: seq<byte>, more: seq<byte>, pos: nat, text: seq<byte>,
                                                 depth: nat, resume: Option<nat>)
    requires depth <= MAX_POINTER_DEPTH && ParseFrom(data, pos, text, depth, resume).Some?
    ensures ParseFrom(data + more, pos, text, depth, resume) == ParseFrom(data, pos, text, depth, resume)
    decreases MAX_POINTER_DEPTH - depth, |data| - pos
  {
    if data[pos] == 0 {
    } else if data[pos] >= 192 {
      NameSurvivesExtension(data, more, PointerTarget(data[pos], data[pos + 1]), text, depth + 1,
                            if resume.Some? then resume else Some(pos + 2));
    } else {
      var end := pos + 1 + data[pos];
      assert (data + more)[pos + 1..end] == data[pos + 1..end];
      NameSurvivesExtension(data, more, end, Separated(text) + data[pos + 1..end], depth, resume);
    }
  }
}
