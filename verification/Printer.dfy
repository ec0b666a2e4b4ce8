/** The text the serializer writes, compact and pretty, and its round trips through the
    parser.
 */
module Printer {
  import opened CText
  import opened Items
  import opened Numbers
  import opened Strings
  import opened Values
  import opened Parser
  import opened Layout

  /** APPEND_INDENT. */
  function Indent(level: nat): (t: string)
    ensures Blank(t)
  {
    if level == 0 then "" else "    " + Indent(level - 1)
  }

  function Newline(pretty: bool): (t: string)
    ensures Blank(t)
  {
    if pretty then "\n" else ""
  }

  function IndentIf(pretty: bool, level: nat): (t: string)
    ensures Blank(t)
  {
    if pretty then Indent(level) else ""
  }

  function Space(pretty: bool): (t: string)
    ensures Blank(t)
  {
    if pretty then " " else ""
  }

  function Comma(more: bool): string {
    if more then "," else ""
  }

  function ScalarText(v: Value, slashes: bool): string
    requires IsScalar(v)
  {
    match v
    case Null => "null"
    case Bool(b) => if b then "true" else "false"
    case Number(literal) => literal
    case String(text) => Quote(text, slashes)
  }

  /** json_serialize_to_buffer_r, in its order of appends. */
  function Print(v: Value, level: nat, pretty: bool, slashes: bool): string
    decreases v, 1
  {
    match v
    case Array(elements) =>
      if elements == [] then "[]"
      else "[" + Newline(pretty) + PrintElements(elements, level, pretty, slashes) + IndentIf(pretty, level) + "]"
    case Object(members) =>
      if members == [] then "{}"
      else "{" + Newline(pretty) + PrintMembers(members, level, pretty, slashes) + IndentIf(pretty, level) + "}"
    case _ => ScalarText(v, slashes)
  }

  /** The element loop, for the elements still to be written. */
  function PrintElements(elements: seq<Value>, level: nat, pretty: bool, slashes: bool): string
    decreases elements, 0
  {
    if elements == [] then ""
    else
      IndentIf(pretty, level + 1) + Print(elements[0], level + 1, pretty, slashes)
      + Comma(|elements| > 1) + Newline(pretty) + PrintElements(elements[1..], level, pretty, slashes)
  }

  function PrintMembers(members: seq<Item<Value>>, level: nat, pretty: bool, slashes: bool): string
    decreases members, 0
  {
    if members == [] then ""
    else
      IndentIf(pretty, level + 1) + Quote(members[0].name, slashes) + ":" + Space(pretty)
      + Print(members[0].value, level + 1, pretty, slashes)
      + Comma(|members| > 1) + Newline(pretty) + PrintMembers(members[1..], level, pretty, slashes)
  }

  // ---------------------------------------------------------------- as a layout

  /** Where the serializer puts its white space, and how it writes the tokens. */
  function DocOf(v: Value, level: nat, pretty: bool, slashes: bool): Doc
    decreases v, 1
  {
    match v
    case Array(elements) => List("", SlotsFor(elements, level, pretty, slashes))
    case Object(members) => Dict("", EntriesFor(members, level, pretty, slashes))
    case _ => Leaf(v, ScalarText(v, slashes))
  }

  function SlotsFor(elements: seq<Value>, level: nat, pretty: bool, slashes: bool): (r: seq<Slot>)
    ensures |r| == |elements|
    decreases elements, 0
  {
    if elements == [] then []
    else
      var after := if |elements| == 1 then Newline(pretty) + IndentIf(pretty, level) else "";
      [Slot(Newline(pretty) + IndentIf(pretty, level + 1), DocOf(elements[0], level + 1, pretty, slashes), after)]
      + SlotsFor(elements[1..], level, pretty, slashes)
  }

  function EntriesFor(members: seq<Item<Value>>, level: nat, pretty: bool, slashes: bool): (r: seq<Entry>)
    ensures |r| == |members|
    decreases members, 0
  {
    if members == [] then []
    else
      var after := if |members| == 1 then Newline(pretty) + IndentIf(pretty, level) else "";
      [Entry(Newline(pretty) + IndentIf(pretty, level + 1), members[0].name, Quote(members[0].name, slashes), "",
             Space(pretty), DocOf(members[0].value, level + 1, pretty, slashes), after)]
      + EntriesFor(members[1..], level, pretty, slashes)
  }

  /** It is a text of the value, with blank gaps. */
  lemma {:induction false} DocOfShape(v: Value, level: nat, pretty: bool, slashes: bool)
    requires WellFormed(v)
    ensures var doc := DocOf(v, level, pretty, slashes); Ready(doc) && ValueOf(doc) == v
    decreases v, 1
  {
    hide Ready, IsNumber, IsScanned, Distinct, IsQuoted;
    match v {
      case Array(elements) =>
        SlotsForShape(elements, level, pretty, slashes);
        ListReady(DocOf(v, level, pretty, slashes));
      case Object(members) =>
        EntriesForShape(members, level, pretty, slashes);
        DictReady(DocOf(v, level, pretty, slashes));
      case _ => ScalarShape(v, slashes);
    }
  }

  lemma ScalarShape(v: Value, slashes: bool)
    requires IsScalar(v) && WellFormed(v)
    ensures Ready(Leaf(v, ScalarText(v, slashes)))
  {
    hide IsNumber, IsScanned, IsQuoted, Quote;
    if v.Number? { NumberIsScanned(v.literal); }
    if v.String? { QuoteIsQuoted(v.text, slashes); }
  }

  lemma {:induction false} SlotsForShape(elements: seq<Value>, level: nat, pretty: bool, slashes: bool)
    requires forall k :: 0 <= k < |elements| ==> WellFormed(elements[k])
    ensures var slots := SlotsFor(elements, level, pretty, slashes); ElementsOf(slots) == elements && SlotsReady(slots)
    decreases elements, 0
  {
    hide Ready, ValueOf, DocOf, Indent, WellFormed, LastGap;
    if elements != [] {
      DocOfShape(elements[0], level + 1, pretty, slashes);
      SlotsForShape(elements[1..], level, pretty, slashes);
      var slots := SlotsFor(elements, level, pretty, slashes);
      assert slots[1..] == SlotsFor(elements[1..], level, pretty, slashes);
      assert elements == [elements[0]] + elements[1..];
      BlankIsLast(slots[0].after);
    }
  }

  lemma BlankIsLast(g: string)
    ensures Blank(g) ==> LastGap(g)
  {
  }

  lemma {:induction false} EntriesForShape(members: seq<Item<Value>>, level: nat, pretty: bool, slashes: bool)
    requires forall k :: 0 <= k < |members| ==> IsName(members[k].name) && WellFormed(members[k].value)
    ensures var entries := EntriesFor(members, level, pretty, slashes);
            MembersOf(entries) == members && EntriesReady(entries)
    decreases members, 0
  {
    hide Ready, ValueOf, DocOf, Indent, WellFormed, LastGap, IsQuoted, Quote, IsName;
    if members != [] {
      DocOfShape(members[0].value, level + 1, pretty, slashes);
      EntriesForShape(members[1..], level, pretty, slashes);
      var entries := EntriesFor(members, level, pretty, slashes);
      assert entries[1..] == EntriesFor(members[1..], level, pretty, slashes);
      assert members == [members[0]] + members[1..];
      BlankIsLast(entries[0].after);
      QuoteIsQuoted(members[0].name, slashes);
      forall k | 0 <= k < |entries| ensures EntryReady(entries[k], k == |entries| - 1) {
        if k > 0 { assert entries[k] == entries[1..][k - 1]; }
      }
    }
  }

  /** The serializer's text is the text of that layout. */
  lemma {:induction false} PrintIsText(v: Value, level: nat, pretty: bool, slashes: bool)
    ensures Print(v, level, pretty, slashes) == Text(DocOf(v, level, pretty, slashes))
    decreases v, 1
  {
    match v {
      case Array(elements) => ArrayPrintIsText(elements, level, pretty, slashes);
      case Object(members) => ObjectPrintIsText(members, level, pretty, slashes);
      case _ =>
    }
  }

  lemma {:induction false} ArrayPrintIsText(elements: seq<Value>, level: nat, pretty: bool, slashes: bool)
    ensures Print(Array(elements), level, pretty, slashes) == Text(DocOf(Array(elements), level, pretty, slashes))
    decreases elements, 1
  {
    hide Newline, IndentIf, SlotsText, PrintElements, SlotsFor;
    if elements != [] {
      ElementsPrintIsText(elements, level, pretty, slashes);
      Enclose("[", Newline(pretty), PrintElements(elements, level, pretty, slashes), IndentIf(pretty, level), "]");
    }
  }

  lemma {:induction false} ObjectPrintIsText(members: seq<Item<Value>>, level: nat, pretty: bool, slashes: bool)
    ensures Print(Object(members), level, pretty, slashes) == Text(DocOf(Object(members), level, pretty, slashes))
    decreases members, 1
  {
    hide Newline, IndentIf, EntriesText, PrintMembers, EntriesFor;
    if members != [] {
      MembersPrintIsText(members, level, pretty, slashes);
      Enclose("{", Newline(pretty), PrintMembers(members, level, pretty, slashes), IndentIf(pretty, level), "}");
    }
  }

  lemma Enclose(open: string, nl: string, body: string, ind: string, close: string)
    ensures open + nl + body + ind + close == open + ((nl + body + ind) + close)
  {
  }

  lemma {:induction false} ElementsPrintIsText(elements: seq<Value>, level: nat, pretty: bool, slashes: bool)
    requires elements != []
    ensures Newline(pretty) + PrintElements(elements, level, pretty, slashes) + IndentIf(pretty, level)
            == SlotsText(SlotsFor(elements, level, pretty, slashes))
    decreases elements, 0
  {
    hide Indent, DocOf, Text, Print, Newline, IndentIf;
    var nl, ind, close := Newline(pretty), IndentIf(pretty, level + 1), IndentIf(pretty, level);
    var slots := SlotsFor(elements, level, pretty, slashes);
    PrintIsText(elements[0], level + 1, pretty, slashes);
    var t := Print(elements[0], level + 1, pretty, slashes);
    if |elements| == 1 {
      JoinLast(nl, ind, t, close);
    } else {
      assert slots[1..] == SlotsFor(elements[1..], level, pretty, slashes);
      ElementsPrintIsText(elements[1..], level, pretty, slashes);
      JoinNext(nl, ind, t, PrintElements(elements[1..], level, pretty, slashes), close);
    }
  }

  lemma JoinLast(nl: string, ind: string, t: string, close: string)
    ensures nl + (ind + t + "" + nl + "") + close == (nl + ind) + (t + ((nl + close) + ""))
  {
  }

  lemma JoinNext(nl: string, ind: string, t: string, more: string, close: string)
    ensures nl + (ind + t + "," + nl + more) + close == (nl + ind) + (t + ("" + ("," + (nl + more + close))))
  {
  }

  lemma {:induction false} MembersPrintIsText(members: seq<Item<Value>>, level: nat, pretty: bool, slashes: bool)
    requires members != []
    ensures Newline(pretty) + PrintMembers(members, level, pretty, slashes) + IndentIf(pretty, level)
            == EntriesText(EntriesFor(members, level, pretty, slashes))
    decreases members, 0
  {
    hide Indent, DocOf, Text, Print, Newline, IndentIf, Space, Quote;
    var nl, ind, close := Newline(pretty), IndentIf(pretty, level + 1), IndentIf(pretty, level);
    var entries := EntriesFor(members, level, pretty, slashes);
    PrintIsText(members[0].value, level + 1, pretty, slashes);
    var q, sp, t := Quote(members[0].name, slashes), Space(pretty), Print(members[0].value, level + 1, pretty, slashes);
    if |members| == 1 {
      assert FromValue(entries) == t + ((nl + close) + "");
      JoinLastMember(nl, ind, q, sp, t, close);
    } else {
      assert entries[1..] == EntriesFor(members[1..], level, pretty, slashes);
      MembersPrintIsText(members[1..], level, pretty, slashes);
      assert FromValue(entries) == t + ("" + ("," + EntriesText(entries[1..])));
      JoinNextMember(nl, ind, q, sp, t, PrintMembers(members[1..], level, pretty, slashes), close);
    }
  }

  lemma JoinLastMember(nl: string, ind: string, q: string, sp: string, t: string, close: string)
    ensures nl + (ind + q + ":" + sp + t + "" + nl + "") + close
            == (nl + ind) + (q + ("" + (":" + (sp + (t + ((nl + close) + ""))))))
  {
  }

  lemma JoinNextMember(nl: string, ind: string, q: string, sp: string, t: string, more: string, close: string)
    ensures nl + (ind + q + ":" + sp + t + "," + nl + more) + close
            == (nl + ind) + (q + ("" + (":" + (sp + (t + ("" + ("," + (nl + more + close))))))))
  {
  }

  // ---------------------------------------------------------------- round trips

  /** Text after a value that is not read as part of it: only a number can be carried on. */
  predicate Separate(v: Value, rest: string) {
    v.Number? ==> Strtod(v.literal + rest, 0) == Decimal(|v.literal|)
  }

  lemma NothingBehind(v: Value)
    requires WellFormed(v)
    ensures Separate(v, "")
  {
    hide Strtod, IsNumber, CarriesOn;
    if v.Number? {
      OnlyExtends(v.literal, "", 0);
      SeparateByChars(v.literal, "");
    }
  }

  /** For a printed literal that can be told from the characters that follow. */
  lemma SeparateByChars(lit: string, rest: string)
    requires IsNumber(lit)
    ensures Separate(Number(lit), rest) <==> !CarriesOn(lit, rest, 0)
  {
    hide Strtod, CarriesOn, IsG17, Overflows;
    assert (lit + rest)[0..|lit|] == lit && (lit + rest)[|lit|..] == rest;
    ScanExactly(lit + rest, 0, lit);
    CarriesOnAlike(lit, lit + rest, |lit|, rest);
  }

  /** In a longer text it is what comes at the end of the document that counts. */
  lemma StopsIsSeparate(doc: Doc, s: string, i: nat, rest: string)
    requires Tokens(doc) && i <= |s| && s[i..] == Text(doc) + rest
    ensures Stops(doc, s, i) <==> Separate(ValueOf(doc), rest)
  {
    hide Strtod, IsDecimal, Overflows, IsQuoted;
    if doc.Leaf? && doc.v.Number? { ScanAhead(s, i, doc.written + rest); }
  }

  /** Parsing what the serializer writes, compact or pretty from any indent level, with
      anything behind it, gives the value back and leaves exactly the rest, if and only if
      the value is at most MAX_NESTING deep and the rest does not carry it on; a deeper value
      fails to parse, and a number that is carried on is parsed as something else. */
  lemma PrintParses(v: Value, level: nat, pretty: bool, slashes: bool, rest: string)
    requires WellFormed(v)
    ensures var t, r := Print(v, level, pretty, slashes), ParseValue(Print(v, level, pretty, slashes) + rest, 0, 0);
            && (Depth(v) > MAX_NESTING ==> r == Fail)
            && (r == Ok(v, |t|) <==> Depth(v) <= MAX_NESTING && Separate(v, rest))
            && (!Separate(v, rest) ==> r.Fail? || r.value != v)
  {
    hide ParseValue, Print, Text, WellFormed, Depth, DocOf, Separate, Stops, Tokens, Spaced;
    var t, doc := Print(v, level, pretty, slashes), DocOf(v, level, pretty, slashes);
    DocOfShape(v, level, pretty, slashes);
    PrintIsText(v, level, pretty, slashes);
    var s := t + rest;
    assert s[0..|t|] == t && s[0..] == t + rest;
    ParseDoc(s, 0, doc, 0);
    StopsIsSeparate(doc, s, 0, rest);
  }

  lemma NumberText(v: Value, level: nat, pretty: bool, slashes: bool)
    requires v.Number?
    ensures Print(v, level, pretty, slashes) == ScalarText(v, slashes) == v.literal && Depth(v) == 0
  {
  }

  /** Compact and pretty text, from any level and with either slash setting, parse alike
      whatever comes behind, and to the value exactly within the bound and when the rest does
      not carry it on. */
  lemma PrintsAgree(v: Value, level: nat, slashes: bool, slashes': bool, rest: string)
    requires WellFormed(v)
    ensures ParseText(Print(v, level, true, slashes) + rest) == ParseText(Print(v, 0, false, slashes') + rest)
    ensures ParseText(Print(v, 0, false, slashes') + rest) == Some(v) <==> Depth(v) <= MAX_NESTING && Separate(v, rest)
    ensures Depth(v) > MAX_NESTING ==> ParseText(Print(v, 0, false, slashes') + rest) == None
  {
    hide ParseValue, Print, WellFormed, Depth, Separate;
    PrintParses(v, level, true, slashes, rest);
    PrintParses(v, 0, false, slashes', rest);
    NoByteOrderMark(v, level, true, slashes, rest);
    NoByteOrderMark(v, 0, false, slashes', rest);
    if v.Number? {
      NumberText(v, level, true, slashes);
      NumberText(v, 0, false, slashes');
    } else {
      OnlyNumbersCarryOn(v, rest);
    }
  }

  lemma OnlyNumbersCarryOn(v: Value, rest: string)
    ensures !v.Number? ==> Separate(v, rest)
  {
  }

  lemma NoByteOrderMark(v: Value, level: nat, pretty: bool, slashes: bool, rest: string)
    requires WellFormed(v)
    ensures ParseText(Print(v, level, pretty, slashes) + rest) ==
            (var r := ParseValue(Print(v, level, pretty, slashes) + rest, 0, 0);
             if r.Fail? then None else Some(r.value))
  {
    hide ParseValue, Print, Text, WellFormed, DocOf, Tokens, Spaced;
    var s, doc := Print(v, level, pretty, slashes) + rest, DocOf(v, level, pretty, slashes);
    DocOfShape(v, level, pretty, slashes);
    PrintIsText(v, level, pretty, slashes);
    TextOpens(doc);
    if StartsWith(s, 0, BOM) {
      StartsWithFirst(s, 0, BOM);
    }
  }

  /** A value comes back from its text exactly when it is at most 2048 deep. */
  lemma RoundTrip(v: Value, level: nat, pretty: bool, slashes: bool)
    requires WellFormed(v)
    ensures ParseText(Print(v, level, pretty, slashes)) == if Depth(v) <= 2048 then Some(v) else None
  {
    hide ParseValue, Print, WellFormed, Depth, Separate;
    NothingBehind(v);
    PrintParses(v, level, pretty, slashes, "");
    NoByteOrderMark(v, level, pretty, slashes, "");
    assert Print(v, level, pretty, slashes) + "" == Print(v, level, pretty, slashes);
  }

  /** So it does from behind a byte order mark. */
  lemma MarkIsSkipped(v: Value, level: nat, pretty: bool, slashes: bool)
    requires WellFormed(v)
    ensures ParseText([0xEF as char, 0xBB as char, 0xBF as char] + Print(v, level, pretty, slashes))
            == if Depth(v) <= 2048 then Some(v) else None
  {
    hide ParseValue, Print, Text, WellFormed, Depth, DocOf, Separate, Stops, Tokens, Spaced;
    var mark, t := [0xEF as char, 0xBB as char, 0xBF as char], Print(v, level, pretty, slashes);
    var s, doc := mark + t, DocOf(v, level, pretty, slashes);
    DocOfShape(v, level, pretty, slashes);
    PrintIsText(v, level, pretty, slashes);
    assert s[0..3] == mark && s[3..] == t == t + "" && s[3..3 + |t|] == t;
    ParseDoc(s, 3, doc, 0);
    NothingBehind(v);
    StopsIsSeparate(doc, s, 3, "");
  }

  // ---------------------------------------------------------------- as a C string

  ghost predicate IsCString(t: string) {
    '\0' !in t
  }

  lemma {:induction false} QuoteIsCString(t: string, slashes: bool)
    ensures IsCString(Escape(t, slashes)) && IsCString(Quote(t, slashes))
  {
    hide EscapeChar;
    if t != "" {
      EscapeForms(t[0], slashes);
      EscapeIsCString(t[0], slashes);
      QuoteIsCString(t[1..], slashes);
    }
  }

  lemma EscapeIsCString(c: char, slashes: bool)
    ensures IsCString(EscapeChar(c, slashes))
  {
  }

  lemma BlankIsCString(t: string)
    requires Blank(t)
    ensures IsCString(t)
  {
  }

  lemma NumberIsCString(literal: string)
    requires IsG17(literal)
    ensures IsCString(literal)
  {
  }

  /** The text has no NUL in it, whatever the strings of the value hold. */
  lemma {:induction false} PrintIsCString(v: Value, level: nat, pretty: bool, slashes: bool)
    requires WellFormed(v)
    ensures IsCString(Print(v, level, pretty, slashes))
    decreases v, 1
  {
    hide Quote, IsG17, Overflows, Newline, IndentIf;
    BlankIsCString(Newline(pretty));
    BlankIsCString(IndentIf(pretty, level));
    match v {
      case Array(elements) => ElementsAreCString(elements, level, pretty, slashes);
      case Object(members) => MembersAreCString(members, level, pretty, slashes);
      case Number(literal) => NumberIsCString(literal);
      case String(text) => QuoteIsCString(text, slashes);
      case _ =>
    }
  }

  lemma {:induction false} ElementsAreCString(elements: seq<Value>, level: nat, pretty: bool, slashes: bool)
    requires forall k :: 0 <= k < |elements| ==> WellFormed(elements[k])
    ensures IsCString(PrintElements(elements, level, pretty, slashes))
    decreases elements, 0
  {
    hide WellFormed, Print, Newline, IndentIf;
    BlankIsCString(Newline(pretty));
    BlankIsCString(IndentIf(pretty, level + 1));
    if elements != [] {
      PrintIsCString(elements[0], level + 1, pretty, slashes);
      ElementsAreCString(elements[1..], level, pretty, slashes);
    }
  }

  lemma {:induction false} MembersAreCString(members: seq<Item<Value>>, level: nat, pretty: bool, slashes: bool)
    requires forall k :: 0 <= k < |members| ==> WellFormed(members[k].value)
    ensures IsCString(PrintMembers(members, level, pretty, slashes))
    decreases members, 0
  {
    hide WellFormed, Print, Newline, IndentIf, Quote, Space;
    BlankIsCString(Newline(pretty));
    BlankIsCString(IndentIf(pretty, level + 1));
    BlankIsCString(Space(pretty));
    if members != [] {
      QuoteIsCString(members[0].name, slashes);
      PrintIsCString(members[0].value, level + 1, pretty, slashes);
      MembersAreCString(members[1..], level, pretty, slashes);
    }
  }
}
