/** Matching one protocol name against a comma-separated list (src/filters.c). */
module AlpnFilter {
  import opened Bytes
  import opened TlsDecoder

  /** The bytes before the first comma. */
  function ToComma(list: seq<byte>): (n: nat)
    ensures n <= |list|
    ensures forall i | 0 <= i < n :: list[i] != COMMA
    ensures n < |list| ==> list[n] == COMMA
  {
    if list == [] || list[0] == COMMA then 0 else 1 + ToComma(list[1..])
  }

  /** Some element of the list, as cut at its commas, is the name; an empty rest ends the search. */
  predicate HasElement(list: seq<byte>, name: seq<byte>)
    decreases |list|
  {
    list != [] &&
    var end := ToComma(list);
    list[..end] == name || (end < |list| && HasElement(list[end + 1..], name))
  }

  lemma HasElementFrom(list: seq<byte>, name: seq<byte>, cursor: nat)
    requires cursor < |list|
    ensures var length := ToComma(list[cursor..]);
            cursor + length <= |list|
            && (HasElement(list[cursor..], name) <==>
                list[cursor..cursor + length] == name
                || (cursor + length < |list| && HasElement(list[cursor + length + 1..], name)))
  {
    hide ToComma;
    var rest, length := list[cursor..], ToComma(list[cursor..]);
    assert rest[..length] == list[cursor..cursor + length];
    if length < |rest| {
      assert rest[length + 1..] == list[cursor + length + 1..];
    }
  }

  lemma NothingIsLeft(name: seq<byte>)
    ensures !HasElement([], name)
  {
  }

  /** `app_has_alpn` on the text before the terminators. */
  method AppHasAlpn(list: seq<byte>, needle: seq<byte>) returns (found: bool)
    ensures found == (needle != [] && HasElement(list, needle))
  {
    hide HasElement, ToComma;
    if needle == [] {
      return false;
    }
    var cursor := 0;
    while cursor < |list|
      invariant 0 <= cursor <= |list|
      invariant HasElement(list, needle) == HasElement(list[cursor..], needle)
      decreases |list| - cursor
    {
      var length := ToComma(list[cursor..]);
      HasElementFrom(list, needle, cursor);
      if list[cursor..cursor + length] == needle {
        return true;
      }
      if cursor + length == |list| {
        return false;
      }
      cursor := cursor + length + 1;
    }
    NothingIsLeft(needle);
    return false;
  }

  /** Names joined by commas, appended to a text. */
  function JoinedOnto(text: seq<byte>, names: seq<seq<byte>>): seq<byte>
    decreases |names|
  {
    if names == [] then text
    else JoinedOnto((if text == [] then [] else text + [COMMA]) + names[0], names[1..])
  }

  function Joined(names: seq<seq<byte>>): seq<byte> {
    if names == [] then []
    else if |names| == 1 then names[0]
    else names[0] + [44] + Joined(names[1..])
  }

  predicate ProtocolName(name: seq<byte>) {
    name != [] && 44 !in name && 0 !in name
  }

  predicate ProtocolNames(names: seq<seq<byte>>) {
    forall i | 0 <= i < |names| :: ProtocolName(names[i])
  }

  lemma {:induction false} JoinOntoIsJoin(text: seq<byte>, names: seq<seq<byte>>)
    requires forall i | 0 <= i < |names| :: names[i] != []
    ensures JoinedOnto(text, names) ==
            if names == [] then text else if text == [] then Joined(names) else text + [COMMA] + Joined(names)
    decreases |names|
  {
    if names != [] {
      var first, rest := names[0], names[1..];
      JoinOntoIsJoin((if text == [] then [] else text + [COMMA]) + first, rest);
      if rest != [] && text != [] {
        assert text + [COMMA] + first + [COMMA] + Joined(rest) == text + [COMMA] + (first + [COMMA] + Joined(rest));
      } else if text != [] {
        assert text + [COMMA] + first == text + [COMMA] + Joined(names);
      } else {
        assert [] + first == first;
      }
    }
  }

  lemma ToCommaOf(name: seq<byte>, rest: seq<byte>)
    requires COMMA !in name && (rest == [] || rest[0] == COMMA)
    ensures ToComma(name + rest) == |name|
  {
    assert forall i | 0 <= i < |name| :: (name + rest)[i] == name[i];
    if rest != [] {
      assert (name + rest)[|name|] == COMMA;
    }
  }

  /** On an untruncated list of protocol names, a non-empty name matches exactly when it is a member;
      a name with a comma therefore never matches. */
  lemma {:induction false} MatchesExactlyTheMembers(names: seq<seq<byte>>, name: seq<byte>)
    requires ProtocolNames(names) && name != []
    ensures HasElement(Joined(names), name) <==> name in names
    decreases |names|
  {
    if |names| == 1 {
      assert ProtocolName(names[0]);
      ToCommaOf(names[0], []);
      assert names[0] + [] == names[0];
    } else if names != [] {
      assert ProtocolName(names[0]);
      var first, rest := names[0], names[1..];
      var list := Joined(names);
      assert list == first + ([COMMA] + Joined(rest));
      ToCommaOf(first, [COMMA] + Joined(rest));
      assert list[..|first|] == first && list[|first| + 1..] == Joined(rest);
      MatchesExactlyTheMembers(rest, name);
      assert name in names <==> name == first || name in rest;
    }
  }
}
