/** What holds of every parsed value, whatever the text. */
module Parsed {
  import opened CText
  import opened Items
  import opened Strings
  import opened Values
  import opened Parser
  import Compare
  import Printer

  /** Fits under `nesting` containers. */
  ghost predicate Fits(v: Value, nesting: nat) {
    Sane(v) && nesting + Depth(v) <= MAX_NESTING
  }

  lemma {:induction false} ElementsFit(elements: seq<Value>, nesting: nat)
    requires ElementsOk(elements, nesting + 1)
    ensures nesting <= MAX_NESTING ==> nesting + ElementsDepth(elements) <= MAX_NESTING
  {
    hide Sane, Depth;
    if elements != [] { ElementsFit(elements[1..], nesting); }
  }

  lemma {:induction false} MembersFit(members: seq<Item<Value>>, nesting: nat)
    requires forall k :: 0 <= k < |members| ==> Fits(members[k].value, nesting + 1)
    ensures nesting <= MAX_NESTING ==> nesting + MembersDepth(members) <= MAX_NESTING
  {
    hide Sane, Depth;
    if members != [] { MembersFit(members[1..], nesting); }
  }

  /** Whatever the text, a parsed value is no deeper than the bound allows, and its objects
      have distinct names without NULs. */
  lemma {:induction false} ParseFits(s: string, i: nat, nesting: nat)
    requires i <= |s| && ParseValue(s, i, nesting).Ok?
    ensures Fits(ParseValue(s, i, nesting).value, nesting)
    decreases |s| - i, 2
  {
    hide GetQuoted, ParseElements, ParseMembers, SkipSpaces, ElementsDepth, MembersDepth;
    var j := SkipSpaces(s, i);
    NoDepth();
    if At(s, j) == '[' {
      var k := SkipSpaces(s, j + 1);
      if At(s, k) != ']' {
        ElementsAllFit(s, k, nesting + 1, []);
        ElementsFit(ParseElements(s, k, nesting + 1, []).value, nesting);
      }
    } else if At(s, j) == '{' {
      var k := SkipSpaces(s, j + 1);
      if At(s, k) != '}' {
        MembersAllFit(s, k, nesting + 1, []);
        MembersFit(ParseMembers(s, k, nesting + 1, []).value, nesting);
      }
    }
  }

  ghost predicate ElementsOk(elements: seq<Value>, nesting: nat) {
    forall k :: 0 <= k < |elements| ==> Fits(elements[k], nesting)
  }

  lemma AppendOk(elements: seq<Value>, v: Value, nesting: nat)
    requires ElementsOk(elements, nesting) && Fits(v, nesting)
    ensures ElementsOk(elements + [v], nesting)
  {
    hide Fits;
  }

  lemma {:induction false} ElementsAllFit(s: string, i: nat, nesting: nat, parsed: seq<Value>)
    requires i <= |s| && ParseElements(s, i, nesting, parsed).Ok? && ElementsOk(parsed, nesting)
    ensures ElementsOk(ParseElements(s, i, nesting, parsed).value, nesting)
    decreases |s| - i, 3
  {
    hide ParseValue, ParseElements, SkipSpaces, Fits, ElementsOk;
    ElementsRound(s, i, nesting, parsed);
    ParseFits(s, i, nesting);
    var v := ParseValue(s, i, nesting);
    AppendOk(parsed, v.value, nesting);
    var j := SkipSpaces(s, v.next);
    if At(s, j) == ',' {
      var k := SkipSpaces(s, j + 1);
      if At(s, k) != ']' { ElementsAllFit(s, k, nesting, parsed + [v.value]); }
    }
  }

  ghost predicate MembersOk(members: seq<Item<Value>>, nesting: nat) {
    Distinct(members) && forall k :: 0 <= k < |members| ==> IsName(members[k].name) && Fits(members[k].value, nesting)
  }

  lemma AddOk(members: seq<Item<Value>>, name: string, v: Value, nesting: nat)
    requires MembersOk(members, nesting) && IsName(name) && Fits(v, nesting) && Add(members, name, v).Some?
    ensures MembersOk(Add(members, name, v).value, nesting)
  {
    hide Fits, IsName;
  }

  lemma {:induction false} MembersAllFit(s: string, i: nat, nesting: nat, parsed: seq<Item<Value>>)
    requires i <= |s| && ParseMembers(s, i, nesting, parsed).Ok? && MembersOk(parsed, nesting)
    ensures MembersOk(ParseMembers(s, i, nesting, parsed).value, nesting)
    decreases |s| - i, 3
  {
    hide ParseValue, ParseName, ParseMembers, SkipSpaces, Fits, MembersOk, IsName, Find;
    MembersRound(s, i, nesting, parsed);
    var name := ParseName(s, i);
    NameIsName(s, i);
    ParseFits(s, name.next, nesting);
    var v := ParseValue(s, name.next, nesting);
    AddOk(parsed, name.value, v.value, nesting);
    var j := SkipSpaces(s, v.next);
    if At(s, j) == ',' {
      var k := SkipSpaces(s, j + 1);
      if At(s, k) != '}' { MembersAllFit(s, k, nesting, parsed + [Item(name.value, v.value)]); }
    }
  }

  lemma NameIsName(s: string, i: nat)
    requires i <= |s| && ParseName(s, i).Ok?
    ensures IsName(ParseName(s, i).value)
  {
  }

  // ---------------------------------------------------------------- printing what was parsed

  lemma {:induction false} SaneIsWellFormed(v: Value)
    requires Sane(v) && Compare.Drawn(Compare.AllNumbers(), v)
    ensures WellFormed(v)
  {
    match v {
      case Array(e) => forall k | 0 <= k < |e| ensures WellFormed(e[k]) { SaneIsWellFormed(e[k]); }
      case Object(m) => forall k | 0 <= k < |m| ensures WellFormed(m[k].value) { SaneIsWellFormed(m[k].value); }
      case _ =>
    }
  }

  /** A parsed value whose numbers are printed literals is well formed, and what is printed of
      it, compact or pretty, parses back to it. */
  lemma ParsedPrints(s: string, pretty: bool, level: nat, slashes: bool)
    requires ParseText(s).Some? && Compare.Drawn(Compare.AllNumbers(), ParseText(s).value)
    ensures var v := ParseText(s).value;
            WellFormed(v) && Depth(v) <= MAX_NESTING && ParseText(Printer.Print(v, level, pretty, slashes)) == Some(v)
  {
    hide ParseValue, Compare.Drawn, Compare.AllNumbers, Printer.Print, WellFormed, Sane;
    var v := ParseText(s).value;
    ParseFits(s, if StartsWith(s, 0, BOM) then 3 else 0, 0);
    SaneIsWellFormed(v);
    Printer.NothingBehind(v);
    Printer.PrintParses(v, level, pretty, slashes, "");
    Printer.NoByteOrderMark(v, level, pretty, slashes, "");
    var t := Printer.Print(v, level, pretty, slashes);
    assert t + "" == t;
  }
}
