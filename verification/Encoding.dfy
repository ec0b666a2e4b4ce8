/** Parsing valid UTF-8 text yields only valid UTF-8 strings and names. */
module Encoding {
  import opened CText
  import opened Items
  import opened Strings
  import opened Values
  import opened Parser
  import Utf8

  /** Every string and every member name in the value is valid UTF-8. */
  ghost predicate AllUtf8(v: Value) {
    match v
    case String(text) => Utf8.Valid(text)
    case Array(elements) => forall k :: 0 <= k < |elements| ==> AllUtf8(elements[k])
    case Object(members) => MembersUtf8(members)
    case _ => true
  }

  ghost predicate MembersUtf8(members: seq<Item<Value>>) {
    forall k :: 0 <= k < |members| ==> Utf8.Valid(members[k].name) && AllUtf8(members[k].value)
  }

  /** Raw bytes and escapes, mixed in any way: if the text is valid UTF-8, so is everything
      in the value. */
  lemma {:induction false} ParseKeepsUtf8(s: string, i: nat, nesting: nat)
    requires i <= |s| && Utf8.Valid(s) && ParseValue(s, i, nesting).Ok?
    ensures AllUtf8(ParseValue(s, i, nesting).value)
    decreases |s| - i, 2
  {
    hide GetQuoted, Utf8.Valid, ParseElements, ParseMembers, SkipSpaces;
    var j := SkipSpaces(s, i);
    if At(s, j) == '[' {
      var k := SkipSpaces(s, j + 1);
      if At(s, k) != ']' {
        ElementsKeepUtf8(s, k, nesting + 1, []);
      }
    } else if At(s, j) == '{' {
      var k := SkipSpaces(s, j + 1);
      if At(s, k) != '}' {
        MembersKeepUtf8(s, k, nesting + 1, []);
      }
    } else if At(s, j) == '\"' {
      GetQuotedValid(s, j);
    }
  }

  lemma {:induction false} ElementsKeepUtf8(s: string, i: nat, nesting: nat, parsed: seq<Value>)
    requires i <= |s| && Utf8.Valid(s) && ParseElements(s, i, nesting, parsed).Ok?
    requires forall k :: 0 <= k < |parsed| ==> AllUtf8(parsed[k])
    ensures AllUtf8(Array(ParseElements(s, i, nesting, parsed).value))
    decreases |s| - i, 3
  {
    hide ParseValue, ParseElements, SkipSpaces, Utf8.Valid;
    ElementsRound(s, i, nesting, parsed);
    ParseKeepsUtf8(s, i, nesting);
    var v := ParseValue(s, i, nesting);
    var j := SkipSpaces(s, v.next);
    if At(s, j) == ',' {
      var k := SkipSpaces(s, j + 1);
      if At(s, k) != ']' { ElementsKeepUtf8(s, k, nesting, parsed + [v.value]); }
    }
  }

  lemma NameUtf8(s: string, i: nat)
    requires i <= |s| && Utf8.Valid(s) && ParseName(s, i).Ok?
    ensures Utf8.Valid(ParseName(s, i).value)
  {
    hide GetQuoted, Utf8.Valid;
    GetQuotedValid(s, i);
  }

  lemma MemberUtf8(members: seq<Item<Value>>, name: string, v: Value)
    requires MembersUtf8(members) && Utf8.Valid(name) && AllUtf8(v)
    ensures MembersUtf8(members + [Item(name, v)])
  {
    hide Utf8.Valid, AllUtf8;
  }

  lemma {:induction false} MembersKeepUtf8(s: string, i: nat, nesting: nat, parsed: seq<Item<Value>>)
    requires i <= |s| && Utf8.Valid(s) && ParseMembers(s, i, nesting, parsed).Ok?
    requires MembersUtf8(parsed)
    ensures MembersUtf8(ParseMembers(s, i, nesting, parsed).value)
    decreases |s| - i, 3
  {
    hide ParseValue, ParseName, ParseMembers, SkipSpaces, AllUtf8, MembersUtf8, Utf8.Valid, Find;
    MembersRound(s, i, nesting, parsed);
    var name := ParseName(s, i);
    NameUtf8(s, i);
    ParseKeepsUtf8(s, name.next, nesting);
    var v := ParseValue(s, name.next, nesting);
    MemberUtf8(parsed, name.value, v.value);
    var j := SkipSpaces(s, v.next);
    if At(s, j) == ',' {
      var k := SkipSpaces(s, j + 1);
      if At(s, k) != '}' { MembersKeepUtf8(s, k, nesting, parsed + [Item(name.value, v.value)]); }
    }
  }
}
