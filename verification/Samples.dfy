/** Examples with every character written out. */
module Samples {
  import opened CText
  import opened Items
  import opened Magnitudes
  import opened Numbers
  import opened Strings
  import opened Values
  import opened Parser
  import opened Layout
  import opened Literals
  import opened Printer

  // ---------------------------------------------------------------- a text, compact and pretty

  /** An array with a number, a bool and null, an empty object, and a string to be escaped. */
  function Sample(): Value {
    Object([Item("a", Inner()), Item("b", Object([])), Item("c", String("/\n"))])
  }

  function Inner(): Value {
    Array([Number("1"), Bool(true), Null])
  }

  lemma LastElement(v: Value, level: nat, pretty: bool, slashes: bool)
    ensures PrintElements([v], level, pretty, slashes)
            == IndentIf(pretty, level + 1) + (Print(v, level + 1, pretty, slashes) + Newline(pretty))
  {
    hide Print, IndentIf, Newline;
    assert [v][1..] == [] && PrintElements([v][1..], level, pretty, slashes) == "";
    var a, b, c := IndentIf(pretty, level + 1), Print(v, level + 1, pretty, slashes), Newline(pretty);
    assert a + b + "" + c + "" == a + (b + c);
  }

  lemma NextElement(v: Value, more: seq<Value>, level: nat, pretty: bool, slashes: bool)
    requires more != []
    ensures PrintElements([v] + more, level, pretty, slashes)
            == IndentIf(pretty, level + 1) + (Print(v, level + 1, pretty, slashes)
               + ("," + (Newline(pretty) + PrintElements(more, level, pretty, slashes))))
  {
    hide Print, IndentIf, Newline;
    assert ([v] + more)[1..] == more;
    var a, b, c := IndentIf(pretty, level + 1), Print(v, level + 1, pretty, slashes), Newline(pretty);
    var d := PrintElements(more, level, pretty, slashes);
    assert a + b + "," + c + d == a + (b + ("," + (c + d)));
  }

  lemma LastMember(name: string, v: Value, level: nat, pretty: bool, slashes: bool)
    ensures PrintMembers([Item(name, v)], level, pretty, slashes)
            == IndentIf(pretty, level + 1) + (Quote(name, slashes) + (":" + (Space(pretty)
               + (Print(v, level + 1, pretty, slashes) + Newline(pretty)))))
  {
    hide Print, IndentIf, Newline, Space, Quote;
    assert [Item(name, v)][1..] == [] && PrintMembers([Item(name, v)][1..], level, pretty, slashes) == "";
    var a, b, c := IndentIf(pretty, level + 1), Print(v, level + 1, pretty, slashes), Newline(pretty);
    var q, sp := Quote(name, slashes), Space(pretty);
    assert a + q + ":" + sp + b + "" + c + "" == a + (q + (":" + (sp + (b + c))));
  }

  lemma NextMember(name: string, v: Value, more: seq<Item<Value>>, level: nat, pretty: bool, slashes: bool)
    requires more != []
    ensures PrintMembers([Item(name, v)] + more, level, pretty, slashes)
            == IndentIf(pretty, level + 1) + (Quote(name, slashes) + (":" + (Space(pretty)
               + (Print(v, level + 1, pretty, slashes)
                  + ("," + (Newline(pretty) + PrintMembers(more, level, pretty, slashes)))))))
  {
    hide Print, IndentIf, Newline, Space, Quote;
    assert ([Item(name, v)] + more)[1..] == more;
    var a, b, c := IndentIf(pretty, level + 1), Print(v, level + 1, pretty, slashes), Newline(pretty);
    var q, sp, d := Quote(name, slashes), Space(pretty), PrintMembers(more, level, pretty, slashes);
    assert a + q + ":" + sp + b + "," + c + d == a + (q + (":" + (sp + (b + ("," + (c + d))))));
  }

  lemma Indents()
    ensures Indent(0) == "" && Indent(1) == "    " && Indent(2) == "        "
  {
    assert Indent(0) == "";
    assert Indent(1) == "    " + Indent(0);
    assert Indent(2) == "    " + Indent(1);
  }

  lemma CompactInner(slashes: bool)
    ensures Print(Inner(), 1, false, slashes) == "[1,true,null]"
  {
    hide PrintElements;
    InnerElements(false, slashes);
    assert "" + ("1" + ("," + ("" + ("" + ("true" + ("," + ("" + ("" + ("null" + ""))))))))) == "1,true,null";
  }

  /** What is written of the elements of the array. */
  lemma InnerElements(pretty: bool, slashes: bool)
    ensures var ind, nl := IndentIf(pretty, 2), Newline(pretty);
            PrintElements(Inner().elements, 1, pretty, slashes)
            == ind + ("1" + ("," + (nl + (ind + ("true" + ("," + (nl + (ind + ("null" + nl)))))))))
  {
    hide PrintElements, IndentIf, Newline;
    LastElement(Null, 1, pretty, slashes);
    NextElement(Bool(true), [Null], 1, pretty, slashes);
    NextElement(Number("1"), [Bool(true), Null], 1, pretty, slashes);
    assert Inner().elements == [Number("1")] + [Bool(true), Null] && [Bool(true), Null] == [Bool(true)] + [Null];
  }

  /** A line of the pretty text, put together from what is appended. */
  lemma Line(a: string, b: string, c: string, d: string, line: string, rest: string)
    requires a + b + c + d == line
    ensures a + (b + (c + (d + rest))) == line + rest
  {
  }

  lemma PrettyInner(slashes: bool)
    ensures Print(Inner(), 1, true, slashes)
            == "[\n" + ("        1,\n" + ("        true,\n" + ("        null\n" + "    ]")))
  {
    hide PrintElements, Indent;
    InnerElements(true, slashes);
    Indents();
    var ind, nl, close := "        ", "\n", "    ]";
    Line(ind, "1", ",", nl, "        1,\n", ind + ("true" + ("," + (nl + (ind + ("null" + nl))))));
    Line(ind, "true", ",", nl, "        true,\n", ind + ("null" + nl));
    assert ind + ("null" + nl) == "        null\n";
    var l1, l2, l3 := "        1,\n", "        true,\n", "        null\n";
    Closed("[", nl, l1, l2, l3, "    ", "]", "[\n", close);
  }

  lemma Closed(open: string, nl: string, l1: string, l2: string, l3: string, ind: string, close: string,
               first: string, last: string)
    requires open + nl == first && ind + close == last
    ensures open + nl + (l1 + (l2 + l3)) + ind + close == first + (l1 + (l2 + (l3 + last)))
  {
  }

  lemma SlashText(slashes: bool)
    ensures Quote("/\n", slashes) == if slashes then "\"\\/\\n\"" else "\"/\\n\""
    ensures Quote("a", slashes) == "\"a\"" && Quote("b", slashes) == "\"b\"" && Quote("c", slashes) == "\"c\""
  {
    hide Quote;
    PlainIsUnchanged("a", slashes);
    PlainIsUnchanged("b", slashes);
    PlainIsUnchanged("c", slashes);
    EscapedText(slashes);
  }

  lemma EscapedText(slashes: bool)
    ensures Quote("/\n", slashes) == if slashes then "\"\\/\\n\"" else "\"/\\n\""
  {
    assert "/\n"[1..] == "\n" && "\n"[1..] == "";
    assert Escape("", slashes) == "" && Escape("\n", slashes) == "\\n" + "";
  }

  /** What is written of the members of the sample. */
  lemma SampleMembers(pretty: bool, slashes: bool)
    ensures var ind, nl, sp := IndentIf(pretty, 1), Newline(pretty), Space(pretty);
            PrintMembers(Sample().members, 0, pretty, slashes)
            == ind + (Quote("a", slashes) + (":" + (sp + (Print(Inner(), 1, pretty, slashes) + ("," + (nl
               + (ind + (Quote("b", slashes) + (":" + (sp + ("{}" + ("," + (nl
               + (ind + (Quote("c", slashes) + (":" + (sp + (Quote("/\n", slashes) + nl))))))))))))))))))
  {
    hide PrintMembers, PrintElements, Quote, IndentIf, Newline, Space;
    var m := [Item("b", Object([])), Item("c", String("/\n"))];
    LastMember("c", String("/\n"), 0, pretty, slashes);
    NextMember("b", Object([]), [Item("c", String("/\n"))], 0, pretty, slashes);
    assert m == [Item("b", Object([]))] + [Item("c", String("/\n"))];
    NextMember("a", Inner(), m, 0, pretty, slashes);
    assert Sample().members == [Item("a", Inner())] + m;
  }

  /** The compact text, with slashes escaped and without. */
  lemma CompactText(slashes: bool)
    ensures Print(Sample(), 0, false, slashes)
            == "{\"a\":[1,true,null]," + ("\"b\":{}," + (if slashes then "\"c\":\"\\/\\n\"}" else "\"c\":\"/\\n\"}"))
  {
    hide PrintMembers, Quote, Print;
    CompactInner(slashes);
    SlashText(slashes);
    SampleMembers(false, slashes);
    var c := Quote("/\n", slashes);
    SamplePrint(false, slashes);
    CompactPieces(c);
    assert slashes ==> "\"c\":" + (c + "}") == "\"c\":\"\\/\\n\"}";
    assert !slashes ==> "\"c\":" + (c + "}") == "\"c\":\"/\\n\"}";
  }

  lemma SamplePrint(pretty: bool, slashes: bool)
    ensures Print(Sample(), 0, pretty, slashes)
            == "{" + Newline(pretty) + PrintMembers(Sample().members, 0, pretty, slashes) + IndentIf(pretty, 0) + "}"
  {
    hide PrintMembers;
  }

  lemma CompactPieces(c: string)
    ensures "{" + "" + ("" + ("\"a\"" + (":" + ("" + ("[1,true,null]" + ("," + (""
            + ("" + ("\"b\"" + (":" + ("" + ("{}" + ("," + (""
            + ("" + ("\"c\"" + (":" + ("" + (c + ""))))))))))))))))))) + "" + "}"
            == "{\"a\":[1,true,null]," + ("\"b\":{}," + ("\"c\":" + (c + "}")))
  {
    CompactJoin("\"a\"", "[1,true,null]", "\"b\"", "{}", "\"c\"", c);
    assert "{" + "\"a\"" + ":" + "[1,true,null]" + "," == "{\"a\":[1,true,null],";
    assert "\"b\"" + ":" + "{}" + "," == "\"b\":{}," && "\"c\"" + ":" == "\"c\":";
  }

  lemma CompactJoin(qa: string, a: string, qb: string, b: string, qc: string, c: string)
    ensures "{" + "" + ("" + (qa + (":" + ("" + (a + ("," + (""
            + ("" + (qb + (":" + ("" + (b + ("," + (""
            + ("" + (qc + (":" + ("" + (c + ""))))))))))))))))))) + "" + "}"
            == ("{" + qa + ":" + a + ",") + ((qb + ":" + b + ",") + ((qc + ":") + (c + "}")))
  {
  }

  /** The pretty text, line by line. */
  lemma PrettyText(slashes: bool)
    ensures Print(Sample(), 0, true, slashes)
            == "{\n" + ("    \"a\": [\n" + ("        1,\n" + ("        true,\n" + ("        null\n" + ("    ],\n"
               + ("    \"b\": {},\n" + ((if slashes then "    \"c\": \"\\/\\n\"\n" else "    \"c\": \"/\\n\"\n")
               + "}")))))))
  {
    hide PrintMembers, Quote, Print, Indent;
    PrettyInner(slashes);
    SampleMembers(true, slashes);
    SamplePrint(true, slashes);
    Indents();
    var c := Quote("/\n", slashes);
    var inner := "        1,\n" + ("        true,\n" + ("        null\n" + "    ]"));
    var line := if slashes then "    \"c\": \"\\/\\n\"\n" else "    \"c\": \"/\\n\"\n";
    LastLine(slashes);
    MemberLine(Quote("c", slashes), c, "\n", line);
    MiddleLine(slashes, line);
    MemberLine(Quote("b", slashes), "{}", "," + ("\n" + line), "    \"b\": {},\n" + line);
    SlashText(slashes);
    FirstLine(inner, line);
  }

  lemma LastLine(slashes: bool)
    ensures "    " + Quote("c", slashes) + ":" + " " + Quote("/\n", slashes) + "\n"
            == if slashes then "    \"c\": \"\\/\\n\"\n" else "    \"c\": \"/\\n\"\n"
  {
    hide Quote;
    SlashText(slashes);
    if slashes {
      assert "    " + "\"c\"" + ":" + " " + "\"\\/\\n\"" + "\n" == "    \"c\": \"\\/\\n\"\n";
    } else {
      assert "    " + "\"c\"" + ":" + " " + "\"/\\n\"" + "\n" == "    \"c\": \"/\\n\"\n";
    }
  }

  lemma MiddleLine(slashes: bool, line: string)
    ensures "    " + Quote("b", slashes) + ":" + " " + "{}" + ("," + ("\n" + line)) == "    \"b\": {},\n" + line
  {
    hide Quote;
    SlashText(slashes);
    assert "    " + "\"b\"" + ":" + " " + "{}" + "," + "\n" == "    \"b\": {},\n";
    Behind("    " + "\"b\"" + ":" + " " + "{}", ",", "\n", line);
  }

  lemma Behind(a: string, b: string, c: string, d: string)
    ensures a + (b + (c + d)) == a + b + c + d
  {
  }

  lemma MemberLine(q: string, t: string, more: string, all: string)
    requires "    " + q + ":" + " " + t + more == all
    ensures "    " + (q + (":" + (" " + (t + more)))) == all
  {
  }

  lemma FirstLine(inner: string, line: string)
    requires inner == "        1,\n" + ("        true,\n" + ("        null\n" + "    ]"))
    ensures "{" + "\n" + ("    " + ("\"a\"" + (":" + (" " + (("[\n" + inner) + ("," + ("\n"
            + ("    \"b\": {},\n" + line)))))))) + "" + "}"
            == "{\n" + ("    \"a\": [\n" + ("        1,\n" + ("        true,\n" + ("        null\n" + ("    ],\n"
               + ("    \"b\": {},\n" + (line + "}")))))))
  {
    assert "    " + "\"a\"" + ":" + " " + "[\n" == "    \"a\": [\n";
    assert "{" + "\n" == "{\n" && "    ]" + "," + "\n" == "    ],\n";
    Nested("    ", "\"a\"", ":", " ", "[\n", "        1,\n", "        true,\n", "        null\n", "    ]", ",", "\n",
           "    \"b\": {},\n", line);
  }

  lemma Nested(ind: string, q: string, colon: string, sp: string, open: string, l1: string, l2: string, l3: string,
               close: string, comma: string, nl: string, next: string, line: string)
    ensures "{" + "\n" + (ind + (q + (colon + (sp + ((open + (l1 + (l2 + (l3 + close)))) + (comma + (nl
            + (next + line)))))))) + "" + "}"
            == ("{" + "\n") + ((ind + q + colon + sp + open) + (l1 + (l2 + (l3 + ((close + comma + nl)
               + (next + (line + "}")))))))
  {
  }

  lemma SampleIsWellFormed()
    ensures WellFormed(Sample())
  {
    hide IsNumber;
    OneIsNumber();
  }

  lemma SampleDepth()
    ensures Depth(Sample()) == 2
  {
    hide IsNumber;
    var e := Inner().elements;
    assert e == [Number("1")] + [Bool(true), Null] && [Bool(true), Null] == [Bool(true)] + [Null];
    ConsElementsDepth([Null], Null, []);
    ConsElementsDepth([Bool(true), Null], Bool(true), [Null]);
    ConsElementsDepth(e, Number("1"), [Bool(true), Null]);
    var c := Item("c", String("/\n"));
    var b := Item("b", Object([]));
    assert [b, c] == [b] + [c] && Sample().members == [Item("a", Inner())] + [b, c];
    ConsMembersDepth([c], c, []);
    ConsMembersDepth([b, c], b, [c]);
    ConsMembersDepth(Sample().members, Item("a", Inner()), [b, c]);
  }

  /** Both parse to the sample. */
  lemma SampleParses(pretty: bool, slashes: bool)
    ensures ParseText(Print(Sample(), 0, pretty, slashes)) == Some(Sample())
  {
    hide Print, ParseText, WellFormed, Depth;
    SampleIsWellFormed();
    SampleDepth();
    RoundTrip(Sample(), 0, pretty, slashes);
  }

  // ---------------------------------------------------------------- white space and numbers

  /** Spaces, tabs, line feeds, vertical tabs, form feeds and carriage returns between two tokens
      are passed over, in any mix. */
  lemma WhiteBetween(g: string)
    requires forall k :: 0 <= k < |g| ==>
               g[k] in [' ', 9 as char, 10 as char, 11 as char, 12 as char, 13 as char]
    ensures ParseText("[" + (g + "]")) == Some(Array([]))
  {
    hide ParseValue;
    forall k | 0 <= k < |g| ensures IsSpace(g[k]) { SpaceIs(g[k]); }
    var doc, s := List(g, []), "[" + (g + "]");
    assert ElementsOf([]) == [] && s[0..|s|] == s;
    ListReady(doc);
    ParseDoc(s, 0, doc, 0);
    if StartsWith(s, 0, BOM) { StartsWithFirst(s, 0, BOM); }
  }

  /** No number starts with a zero and another digit. */
  lemma LeadingZeroRefused(s: string, i: nat)
    requires i <= |s|
    requires var j := if At(s, i) == '-' then i + 1 else i; At(s, j) == '0' && IsDigit(At(s, j + 1))
    ensures ParseNumber(s, i) == Fail
  {
    hide DigitsEnd, FractionEnd, ExponentEnd;
    var j := if At(s, i) == '-' then i + 1 else i;
    TwoDigits(s, j);
    if Strtod(s, i).Decimal? {
      var end := Strtod(s, i).end;
      assert j + 2 <= end;
      assert s[i..end][j - i] == '0' && s[i..end][j - i + 1] == s[j + 1];
      assert j > i ==> s[i..end][..2] == "-0";
    }
  }

  lemma TwoDigits(s: string, j: nat)
    requires j + 1 < |s| && IsDigit(s[j]) && IsDigit(s[j + 1])
    ensures DigitsEnd(s, j) >= j + 2
  {
  }

  /** 01 is refused. */
  lemma ZeroOne()
    ensures ParseText("01") == None && ParseText("-01") == None
  {
    hide ParseNumber;
    LeadingZeroRefused("01", 0);
    LeadingZeroRefused("-01", 0);
    assert SkipSpaces("01", 0) == 0 && SkipSpaces("-01", 0) == 0;
  }
}
