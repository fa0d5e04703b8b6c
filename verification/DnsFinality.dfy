/** When a MALFORMED verdict on a bare DNS message is final: exactly when it was refused on bytes that are there. */
module DnsFinality {
  import opened Bytes
  import opened AppMetadata
  import opened DnsNames
  import opened DnsDecoder

  /** The reader at `cursor`, with `written` bytes of text and `depth` pointers followed, is refused whatever bytes
      follow the data: a label of an unknown type, a text past 253 bytes, or a 17th pointer lies ahead. A pointer whose
      second byte is missing is refused when it is so for each value of that byte; one past the data is not, as what it
      asks for may still come. With `strict`, a text that begins with a NUL is refused too. */
  predicate RefusedInside(strict: bool, data: seq<byte>, cursor: nat, written: nat, depth: nat)
    requires depth <= MAX_POINTER_DEPTH
    decreases MAX_POINTER_DEPTH - depth, |data| - cursor
  {
    if cursor >= |data| || data[cursor] == 0 then false
    else if data[cursor] >= 192 then
      depth == MAX_POINTER_DEPTH ||
      if cursor + 1 < |data| then
        RefusedInside(strict, data, PointerTarget(data[cursor], data[cursor + 1]), written, depth + 1)
      else forall low: byte :: RefusedInside(strict, data + [low], PointerTarget(data[cursor], low), written, depth + 1)
    else if data[cursor] >= 64 then true
    else
      var end, total := cursor + 1 + data[cursor], (if written == 0 then 0 else written + 1) + data[cursor];
      || total > MAX_NAME_LENGTH
      || (strict && written == 0 && cursor + 1 < |data| && data[cursor + 1] == 0)
      || (end <= |data| && RefusedInside(strict, data, end, total, depth))
  }

  /** No name, or one whose text begins with a NUL where that is refused. */
  predicate Declined(strict: bool, text: seq<byte>, name: Option<Name>) {
    name.None? || (strict && text == [] && name.value.text != [] && name.value.text[0] == 0)
  }

  /** The reader only appends to what it has written. */
  lemma {:induction false} TextGrows(data: seq<byte>, cursor: nat, text: seq<byte>, depth: nat, resume: Option<nat>)
    requires depth <= MAX_POINTER_DEPTH && text != [] && ParseFrom(data, cursor, text, depth, resume).Some?
    ensures text <= ParseFrom(data, cursor, text, depth, resume).value.text
    decreases MAX_POINTER_DEPTH - depth, |data| - cursor
  {
    hide PointerTarget;
    if data[cursor] >= 192 {
      TextGrows(data, PointerTarget(data[cursor], data[cursor + 1]), text, depth + 1,
                if resume.Some? then resume else Some(cursor + 2));
    } else if data[cursor] > 0 {
      var end := cursor + 1 + data[cursor];
      TextGrows(data, end, Separated(text) + data[cursor + 1..end], depth, resume);
    }
  }

  lemma {:induction false} RefusalStands(strict: bool, data: seq<byte>, more: seq<byte>, cursor: nat, text: seq<byte>,
                                         depth: nat, resume: Option<nat>)
    requires depth <= MAX_POINTER_DEPTH && RefusedInside(strict, data, cursor, |text|, depth)
    ensures Declined(strict, text, ParseFrom(data + more, cursor, text, depth, resume))
    decreases MAX_POINTER_DEPTH - depth, |data| - cursor
  {
    hide PointerTarget;
    var whole := data + more;
    assert whole[cursor] == data[cursor];
    if data[cursor] >= 192 {
      if depth < MAX_POINTER_DEPTH && cursor + 1 < |whole| {
        var low := whole[cursor + 1];
        var target, after := PointerTarget(data[cursor], low), if resume.Some? then resume else Some(cursor + 2);
        if cursor + 1 < |data| {
          RefusalStands(strict, data, more, target, text, depth + 1, after);
        } else {
          assert whole == (data + [low]) + more[1..];
          assert RefusedInside(strict, data + [low], target, |text|, depth + 1);
          RefusalStands(strict, data + [low], more[1..], target, text, depth + 1, after);
        }
      }
    } else if data[cursor] < 64 {
      LabelRefusalStands(strict, data, more, cursor, text, depth, resume);
    }
  }

  lemma {:induction false} LabelRefusalStands(strict: bool, data: seq<byte>, more: seq<byte>, cursor: nat,
                                              text: seq<byte>, depth: nat, resume: Option<nat>)
    requires depth <= MAX_POINTER_DEPTH && cursor < |data| && 0 < data[cursor] < 64
    requires RefusedInside(strict, data, cursor, |text|, depth)
    ensures Declined(strict, text, ParseFrom(data + more, cursor, text, depth, resume))
    decreases MAX_POINTER_DEPTH - depth, |data| - cursor, 0
  {
    hide ParseFrom;
    var whole := data + more;
    assert whole[cursor] == data[cursor];
    var end := cursor + 1 + data[cursor];
    LabelReads(whole, cursor, text, depth, resume);
    if end > |whole| || |Separated(text)| + data[cursor] > MAX_NAME_LENGTH {
      LabelFails(whole, cursor, text, depth, resume);
    } else {
      var joined := Separated(text) + whole[cursor + 1..end];
      if strict && text == [] && cursor + 1 < |data| && data[cursor + 1] == 0 {
        assert joined[0] == whole[cursor + 1] == 0;
        if ParseFrom(whole, end, joined, depth, resume).Some? {
          TextGrows(whole, end, joined, depth, resume);
        }
      } else {
        RefusalStands(strict, data, more, end, joined, depth, resume);
      }
    }
  }

  lemma LabelFails(data: seq<byte>, cursor: nat, text: seq<byte>, depth: nat, resume: Option<nat>)
    requires depth <= MAX_POINTER_DEPTH && cursor < |data| && 0 < data[cursor] < 64
    requires cursor + 1 + data[cursor] > |data| || |Separated(text)| + data[cursor] > MAX_NAME_LENGTH
    ensures ParseFrom(data, cursor, text, depth, resume).None?
  {
  }

  lemma NameIsInside(data: seq<byte>, cursor: nat, text: seq<byte>, depth: nat, resume: Option<nat>)
    requires depth <= MAX_POINTER_DEPTH && ParseFrom(data, cursor, text, depth, resume).Some?
    ensures cursor < |data|
  {
  }

  lemma TerminatorEnds(data: seq<byte>, cursor: nat, text: seq<byte>, depth: nat, resume: Option<nat>)
    requires depth <= MAX_POINTER_DEPTH && cursor < |data| && data[cursor] == 0
    ensures ParseFrom(data, cursor, text, depth, resume).Some?
    ensures ParseFrom(data, cursor, text, depth, resume).value.text == if text == [] then [DOT] else text
  {
  }

  /** Some bytes and a zero at `cursor`. */
  function ZeroAt(data: seq<byte>, cursor: nat): (more: seq<byte>)
    requires cursor >= |data|
    ensures |data + more| == cursor + 1 && (data + more)[cursor] == 0
    ensures forall i | |data| <= i < cursor :: (data + more)[i] == 1
  {
    seq(cursor - |data|, _ => 1) + [0]
  }

  /** What is not refused on the bytes that are there can still become a name. */
  lemma {:induction false} Completes(strict: bool, data: seq<byte>, cursor: nat, text: seq<byte>, depth: nat,
                                     resume: Option<nat>)
      returns (more: seq<byte>)
    requires depth <= MAX_POINTER_DEPTH && !RefusedInside(strict, data, cursor, |text|, depth)
    ensures ParseFrom(data + more, cursor, text, depth, resume).Some?
    ensures !Declined(strict, text, ParseFrom(data + more, cursor, text, depth, resume))
    decreases MAX_POINTER_DEPTH - depth, |data| - cursor
  {
    hide PointerTarget, ZeroAt;
    if cursor >= |data| {
      more := ZeroAt(data, cursor);
      TerminatorEnds(data + more, cursor, text, depth, resume);
    } else if data[cursor] == 0 {
      more := [];
      TerminatorEnds(data + more, cursor, text, depth, resume);
    } else if data[cursor] >= 192 {
      more := CompletesPointer(strict, data, cursor, text, depth, resume);
    } else {
      more := CompletesLabel(strict, data, cursor, text, depth, resume);
    }
  }

  lemma {:induction false} CompletesPointer(strict: bool, data: seq<byte>, cursor: nat, text: seq<byte>, depth: nat,
                                            resume: Option<nat>)
      returns (more: seq<byte>)
    requires depth <= MAX_POINTER_DEPTH && cursor < |data| && data[cursor] >= 192
    requires !RefusedInside(strict, data, cursor, |text|, depth)
    ensures ParseFrom(data + more, cursor, text, depth, resume).Some?
    ensures !Declined(strict, text, ParseFrom(data + more, cursor, text, depth, resume))
    decreases MAX_POINTER_DEPTH - depth, |data| - cursor, 0
  {
    hide PointerTarget, ParseFrom, RefusedInside;
    var low := LowByte(strict, data, cursor, |text|, depth);
    var known := if cursor + 1 < |data| then data else data + [low];
    var target, after := PointerTarget(data[cursor], low), if resume.Some? then resume else Some(cursor + 2);
    var rest := Completes(strict, known, target, text, depth + 1, after);
    NameIsInside(known + rest, target, text, depth + 1, after);
    more := if cursor + 1 < |data| then rest else [low] + rest;
    assert data + more == known + rest;
    PointerReads(data + more, cursor, text, depth, resume);
    assert (data + more)[cursor] == data[cursor] && (data + more)[cursor + 1] == low;
  }

  /** The pointer's second byte: the one that is there, or one that is not refused. */
  lemma LowByte(strict: bool, data: seq<byte>, cursor: nat, written: nat, depth: nat) returns (low: byte)
    requires depth <= MAX_POINTER_DEPTH && cursor < |data| && data[cursor] >= 192
    requires !RefusedInside(strict, data, cursor, written, depth)
    ensures depth < MAX_POINTER_DEPTH && (cursor + 1 < |data| ==> low == data[cursor + 1])
    ensures !RefusedInside(strict, if cursor + 1 < |data| then data else data + [low], PointerTarget(data[cursor], low),
                           written, depth + 1)
  {
    hide PointerTarget;
    if cursor + 1 < |data| {
      low := data[cursor + 1];
    } else {
      low :| !RefusedInside(strict, data + [low], PointerTarget(data[cursor], low), written, depth + 1);
    }
  }

  lemma PointerReads(data: seq<byte>, cursor: nat, text: seq<byte>, depth: nat, resume: Option<nat>)
    requires depth < MAX_POINTER_DEPTH && cursor + 1 < |data| && data[cursor] >= 192
    ensures var target := PointerTarget(data[cursor], data[cursor + 1]);
            target < |data| ==>
              ParseFrom(data, cursor, text, depth, resume)
              == ParseFrom(data, target, text, depth + 1, if resume.Some? then resume else Some(cursor + 2))
  {
  }

  lemma {:induction false} CompletesLabel(strict: bool, data: seq<byte>, cursor: nat, text: seq<byte>, depth: nat,
                                          resume: Option<nat>)
      returns (more: seq<byte>)
    requires depth <= MAX_POINTER_DEPTH && cursor < |data| && 0 < data[cursor] < 192
    requires !RefusedInside(strict, data, cursor, |text|, depth)
    ensures ParseFrom(data + more, cursor, text, depth, resume).Some?
    ensures !Declined(strict, text, ParseFrom(data + more, cursor, text, depth, resume))
    decreases MAX_POINTER_DEPTH - depth, |data| - cursor, 0
  {
    hide ZeroAt, ParseFrom;
    var end := cursor + 1 + data[cursor];
    if end <= |data| {
      var joined := Separated(text) + data[cursor + 1..end];
      more := Completes(strict, data, end, joined, depth, resume);
      assert (data + more)[cursor + 1..end] == data[cursor + 1..end];
      TextGrows(data + more, end, joined, depth, resume);
      assert joined[0] == if text == [] then data[cursor + 1] else text[0];
    } else {
      more := ZeroAt(data, end);
      TerminatorEnds(data + more, end, Separated(text) + (data + more)[cursor + 1..end], depth, resume);
      assert (data + more)[cursor + 1..end][0] == (data + more)[cursor + 1];
    }
    assert (data + more)[cursor] == data[cursor];
    LabelReads(data + more, cursor, text, depth, resume);
  }

  lemma LabelReads(data: seq<byte>, cursor: nat, text: seq<byte>, depth: nat, resume: Option<nat>)
    requires depth <= MAX_POINTER_DEPTH && cursor < |data| && 0 < data[cursor] < 64
    ensures var end := cursor + 1 + data[cursor];
            end <= |data| && |Separated(text)| + data[cursor] <= MAX_NAME_LENGTH ==>
              ParseFrom(data, cursor, text, depth, resume)
              == ParseFrom(data, end, Separated(text) + data[cursor + 1..end], depth, resume)
  {
  }

  /** The question's name at its fixed place. */
  predicate NameRefused(data: seq<byte>) {
    RefusedInside(false, data, HEADER_LENGTH, 0, 0)
  }

  lemma HeaderStands(data: seq<byte>, more: seq<byte>)
    requires DecodeMessage(data).Malformed?
    ensures |data| >= HEADER_LENGTH && PlausibleCounts(data + more) && U16(data + more, 4) != 0
    ensures DecodeMessage(data + more).Malformed? <==>
            var name := ParseName(data + more, HEADER_LENGTH);
            name.None? || name.value.next + 4 > |data + more|
  {
    hide ParseName;
    assert forall i | 0 <= i < |data| :: (data + more)[i] == data[i];
  }

  /** A name that is not refused, and its type and class, can be completed. */
  lemma CompletesMessage(strict: bool, data: seq<byte>) returns (more: seq<byte>)
    requires |data| >= HEADER_LENGTH && !RefusedInside(strict, data, HEADER_LENGTH, 0, 0)
    ensures var name := ParseName(data + more, HEADER_LENGTH);
            name.Some? && !Declined(strict, [], name) && name.value.next + 4 <= |data + more|
  {
    hide RefusedInside, ParseFrom;
    var named := Completes(strict, data, HEADER_LENGTH, [], 0, None);
    var next := ParseName(data + named, HEADER_LENGTH).value.next;
    var rest := seq(next + 4, _ => 0 as byte);
    NameSurvivesExtension(data + named, rest, HEADER_LENGTH, [], 0, None);
    more := named + rest;
    assert data + more == (data + named) + rest;
  }

  /** MALFORMED on a bare message is final if and only if its name is refused on the bytes that are there; a name
      that is cut, and a question type or class that is cut, can still be completed. */
  lemma MessageMalformedIsFinalWhenRefused(data: seq<byte>)
    requires DecodeMessage(data).Malformed?
    ensures (forall more :: DecodeMessage(data + more).Malformed?) <==> NameRefused(data)
  {
    hide DecodeMessage, RefusedInside, ParseFrom;
    if NameRefused(data) {
      forall more
        ensures DecodeMessage(data + more).Malformed?
      {
        HeaderStands(data, more);
        RefusalStands(false, data, more, HEADER_LENGTH, [], 0, None);
      }
    } else {
      HeaderStands(data, []);
      var more := CompletesMessage(false, data);
      HeaderStands(data, more);
      assert !DecodeMessage(data + more).Malformed?;
    }
  }
}
