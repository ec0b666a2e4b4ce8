/** What the printed text looks like: where slashes, white space and line breaks stand in it. */
module Printed {
  import opened CText
  import opened Items
  import opened Numbers
  import opened Strings
  import opened Values
  import opened Layout
  import opened Literals
  import opened Printer

  // ---------------------------------------------------------------- slashes

  lemma NoSlash(t: string)
    requires '/' !in t
    ensures SlashesEscaped(t)
  {
  }

  /** A printed number is made of digits, points, signs and the letter e. */
  lemma NumberChars(literal: string)
    requires IsG17(literal)
    ensures literal != "" && forall k :: 0 <= k < |literal| ==> InNumber(literal[k])
  {
    hide IsG17, CarriesOn, Strtod;
    assert literal[0..|literal|] == literal;
    ScanExactly(literal, 0, literal);
    OnlyExtends(literal, literal, |literal|);
    ScannedChars(literal);
  }

  lemma WhiteHasNoSlash(pretty: bool, level: nat)
    ensures SlashesEscaped(Newline(pretty)) && SlashesEscaped(IndentIf(pretty, level)) && SlashesEscaped(Space(pretty))
  {
  }

  /** With escaping on every slash in the text stands behind a backslash, so the text never has
      a closing tag in it. */
  lemma {:induction false} PrintEscapesSlashes(v: Value, level: nat, pretty: bool)
    requires WellFormed(v)
    ensures SlashesEscaped(Print(v, level, pretty, true))
    ensures var t := Print(v, level, pretty, true); forall k :: 0 < k < |t| ==> !(t[k - 1] == '<' && t[k] == '/')
    decreases v, 1
  {
    hide Quote, IsG17, Overflows, SlashesEscaped, PrintElements, PrintMembers;
    Marks();
    match v {
      case Array(elements) =>
        ElementsEscapeSlashes(elements, level, pretty);
        BracketsEscape("[", "]", PrintElements(elements, level, pretty, true), level, pretty);
      case Object(members) =>
        MembersEscapeSlashes(members, level, pretty);
        BracketsEscape("{", "}", PrintMembers(members, level, pretty, true), level, pretty);
      case Number(literal) =>
        NumberChars(literal);
        NoSlash(literal);
      case String(text) => QuoteEscapesSlashes(text);
      case _ => NoSlash(Print(v, level, pretty, true));
    }
    NoClosingTag(Print(v, level, pretty, true));
  }

  lemma NoClosingTag(t: string)
    requires SlashesEscaped(t)
    ensures forall k :: 0 < k < |t| ==> !(t[k - 1] == '<' && t[k] == '/')
  {
  }

  lemma BracketsEscape(open: string, close: string, t: string, level: nat, pretty: bool)
    requires SlashesEscaped(open) && SlashesEscaped(close) && SlashesEscaped(t)
    ensures SlashesEscaped(open + Newline(pretty) + t + IndentIf(pretty, level) + close)
  {
    hide SlashesEscaped, Newline, IndentIf;
    Joins();
    WhiteHasNoSlash(pretty, level);
  }

  lemma MemberEscapes(q: string, t: string, comma: bool, more: string, level: nat, pretty: bool)
    requires SlashesEscaped(q) && SlashesEscaped(t) && SlashesEscaped(more)
    ensures SlashesEscaped(IndentIf(pretty, level) + q + ":" + Space(pretty)
                           + t + Comma(comma) + Newline(pretty) + more)
  {
    hide SlashesEscaped, Newline, IndentIf, Space, Comma;
    Joins();
    Marks();
    WhiteHasNoSlash(pretty, level);
  }

  lemma Joins()
    ensures forall a, b {:trigger SlashesEscaped(a + b)} ::
              SlashesEscaped(a) && SlashesEscaped(b) ==> SlashesEscaped(a + b)
  {
    forall a, b | SlashesEscaped(a) && SlashesEscaped(b) ensures SlashesEscaped(a + b) { BothEscaped(a, b); }
  }

  lemma {:induction false} ElementsEscapeSlashes(elements: seq<Value>, level: nat, pretty: bool)
    requires forall k :: 0 <= k < |elements| ==> WellFormed(elements[k])
    ensures SlashesEscaped(PrintElements(elements, level, pretty, true))
    decreases elements, 0
  {
    hide WellFormed, Print, Newline, IndentIf, SlashesEscaped;
    Joins();
    WhiteHasNoSlash(pretty, level + 1);
    Marks();
    if elements != [] {
      PrintEscapesSlashes(elements[0], level + 1, pretty);
      ElementsEscapeSlashes(elements[1..], level, pretty);
    }
  }

  lemma {:induction false} MembersEscapeSlashes(members: seq<Item<Value>>, level: nat, pretty: bool)
    requires forall k :: 0 <= k < |members| ==> WellFormed(members[k].value)
    ensures SlashesEscaped(PrintMembers(members, level, pretty, true))
    decreases members, 0
  {
    hide WellFormed, Print, Quote, SlashesEscaped;
    Marks();
    if members != [] {
      QuoteEscapesSlashes(members[0].name);
      PrintEscapesSlashes(members[0].value, level + 1, pretty);
      MembersEscapeSlashes(members[1..], level, pretty);
      MemberEscapes(Quote(members[0].name, true), Print(members[0].value, level + 1, pretty, true), |members| > 1,
                    PrintMembers(members[1..], level, pretty, true), level + 1, pretty);
    }
  }

  lemma Marks()
    ensures SlashesEscaped("") && SlashesEscaped(":") && SlashesEscaped("[") && SlashesEscaped("]")
    ensures SlashesEscaped("{") && SlashesEscaped("}") && SlashesEscaped("[]") && SlashesEscaped("{}")
    ensures forall more :: SlashesEscaped(Comma(more))
  {
  }

  // ---------------------------------------------------------------- white space

  /** The text without the white space outside string literals. */
  function Minified(t: string, inString: bool, escaped: bool): string {
    if t == "" then ""
    else
      var quote := t[0] == '\"' && !escaped;
      var rest := Minified(t[1..], if quote then !inString else inString, inString && t[0] == '\\' && !escaped);
      if !inString && t[0] in " \t\n\U{0B}\U{0C}\r" then rest else [t[0]] + rest
  }

  /** t is made of whole tokens, and m is what is left of it. */
  ghost predicate Whole(t: string, m: string) {
    forall rest :: Minified(t + rest, false, false) == m + Minified(rest, false, false)
  }

  lemma WholeJoin(a: string, m: string, b: string, n: string)
    requires Whole(a, m) && Whole(b, n)
    ensures Whole(a + b, m + n)
  {
    hide Minified;
    forall rest ensures Minified(a + b + rest, false, false) == m + n + Minified(rest, false, false) {
      Outermost(a, b, rest);
      Outermost(m, n, Minified(rest, false, false));
    }
  }

  lemma WholesJoin()
    ensures forall a, m, b, n {:trigger Whole(a + b, m + n)} :: Whole(a, m) && Whole(b, n) ==> Whole(a + b, m + n)
  {
    forall a, m, b, n | Whole(a, m) && Whole(b, n) ensures Whole(a + b, m + n) { WholeJoin(a, m, b, n); }
  }

  /** White space goes. */
  lemma {:induction false} BlankGoes(t: string)
    requires Blank(t)
    ensures Whole(t, "")
  {
    forall rest ensures Minified(t + rest, false, false) == "" + Minified(rest, false, false) { BlankSkipped(t, rest); }
  }

  lemma {:induction false} BlankSkipped(t: string, rest: string)
    requires Blank(t)
    ensures Minified(t + rest, false, false) == Minified(rest, false, false)
  {
    if t != "" {
      assert (t + rest)[1..] == t[1..] + rest;
      SpaceIs(t[0]);
      BlankSkipped(t[1..], rest);
    } else {
      assert t + rest == rest;
    }
  }

  lemma {:induction false} TokenStays(t: string)
    requires forall k :: 0 <= k < |t| ==> !IsSpace(t[k]) && t[k] != '\"'
    ensures Whole(t, t)
  {
    forall rest ensures Minified(t + rest, false, false) == t + Minified(rest, false, false) { TokenKept(t, rest); }
  }

  lemma {:induction false} TokenKept(t: string, rest: string)
    requires forall k :: 0 <= k < |t| ==> !IsSpace(t[k]) && t[k] != '\"'
    ensures Minified(t + rest, false, false) == t + Minified(rest, false, false)
  {
    if t != "" {
      assert (t + rest)[1..] == t[1..] + rest;
      SpaceIs(t[0]);
      TokenKept(t[1..], rest);
    } else {
      assert t + rest == rest;
    }
  }

  lemma QuoteStays(t: string, slashes: bool)
    ensures Whole(Quote(t, slashes), Quote(t, slashes))
  {
    hide Escape;
    var q := Quote(t, slashes);
    forall rest ensures Minified(q + rest, false, false) == q + Minified(rest, false, false) {
      EscapeKept(t, slashes, rest);
      assert (q + rest)[1..] == Escape(t, slashes) + ("\"" + rest);
      assert q + Minified(rest, false, false) == "\"" + (Escape(t, slashes) + ("\"" + Minified(rest, false, false)));
    }
  }

  /** Inside a literal, up to and including its closing quote. */
  lemma {:induction false} EscapeKept(t: string, slashes: bool, rest: string)
    ensures Minified(Escape(t, slashes) + ("\"" + rest), true, false)
            == Escape(t, slashes) + ("\"" + Minified(rest, false, false))
  {
    hide EscapeChar, Minified;
    var close := "\"" + rest;
    if t == "" {
      assert Escape(t, slashes) + close == close && close[1..] == rest;
      ClosesString(close);
      assert Escape(t, slashes) + ("\"" + Minified(rest, false, false)) == "\"" + Minified(rest, false, false);
    } else {
      var e, more := EscapeChar(t[0], slashes), Escape(t[1..], slashes);
      EscapeKept(t[1..], slashes, rest);
      Outermost(e, more, close);
      ByteKept(t[0], slashes, more + close);
      Outermost(e, more, "\"" + Minified(rest, false, false));
    }
  }

  lemma ClosesString(t: string)
    requires t != "" && t[0] == '\"'
    ensures Minified(t, true, false) == "\"" + Minified(t[1..], false, false)
  {
  }

  lemma ByteKept(c: char, slashes: bool, rest: string)
    ensures Minified(EscapeChar(c, slashes) + rest, true, false)
            == EscapeChar(c, slashes) + Minified(rest, true, false)
  {
    hide EscapeChar, Minified;
    var e := EscapeChar(c, slashes);
    EscapeForms(c, slashes);
    if |e| == 1 {
      KeptInside(e + rest, false);
      assert (e + rest)[1..] == rest && e == [e[0]];
    } else if |e| == 2 {
      KeptInside(e + rest, false);
      KeptInside((e + rest)[1..], true);
      assert (e + rest)[1..][1..] == rest && e == [e[0]] + [e[1]];
    } else {
      KeptInside(e + rest, false);
      KeptInside((e + rest)[1..], true);
      assert (e + rest)[1..][1..] == e[2..] + rest && e == [e[0]] + ([e[1]] + e[2..]);
      HexKept(e[2..], rest);
    }
  }

  /** Any byte but an unescaped quote is kept in a string. */
  lemma KeptInside(t: string, escaped: bool)
    requires t != "" && (escaped || t[0] != '\"')
    ensures Minified(t, true, escaped) == [t[0]] + Minified(t[1..], true, t[0] == '\\' && !escaped)
  {
  }

  lemma {:induction false} HexKept(h: string, rest: string)
    requires forall k :: 0 <= k < |h| ==> h[k] != '\"' && h[k] != '\\'
    ensures Minified(h + rest, true, false) == h + Minified(rest, true, false)
  {
    if h != "" {
      assert (h + rest)[1..] == h[1..] + rest;
      HexKept(h[1..], rest);
    } else {
      assert h + rest == rest;
    }
  }

  lemma WhiteGoes(pretty: bool, level: nat)
    ensures Whole(Newline(pretty), "") && Whole(IndentIf(pretty, level), "") && Whole(Space(pretty), "")
  {
    hide Whole, Newline, IndentIf, Space;
    BlankGoes(Newline(pretty));
    BlankGoes(IndentIf(pretty, level));
    BlankGoes(Space(pretty));
  }

  lemma MarksStay()
    ensures Whole("", "") && Whole(":", ":") && Whole("[", "[") && Whole("]", "]") && Whole("{", "{") && Whole("}", "}")
    ensures Whole("[]", "[]") && Whole("{}", "{}") && Whole("null", "null") && Whole("true", "true")
    ensures Whole("false", "false") && forall more :: Whole(Comma(more), Comma(more))
  {
    hide Whole;
    TokenStays("");
    TokenStays(":");
    TokenStays("[");
    TokenStays("]");
    TokenStays("{");
    TokenStays("}");
    TokenStays("[]");
    TokenStays("{}");
    TokenStays("null");
    TokenStays("true");
    TokenStays("false");
    TokenStays(",");
  }

  lemma NumberStays(literal: string)
    requires IsG17(literal)
    ensures Whole(literal, literal)
  {
    hide Whole;
    NumberChars(literal);
    TokenStays(literal);
  }

  lemma {:induction false} PrintWhole(v: Value, level: nat, pretty: bool, slashes: bool, level': nat)
    requires WellFormed(v)
    ensures Whole(Print(v, level, pretty, slashes), Print(v, level', false, slashes))
    decreases v, 1
  {
    hide Whole, Quote, IsG17, Overflows, PrintElements, PrintMembers;
    MarksStay();
    match v {
      case Array(elements) =>
        if elements != [] {
          ElementsWhole(elements, level, pretty, slashes, level');
          BracketsWhole("[", "]", PrintElements(elements, level, pretty, slashes),
                        PrintElements(elements, level', false, slashes), level, pretty);
        }
      case Object(members) =>
        if members != [] {
          MembersWhole(members, level, pretty, slashes, level');
          BracketsWhole("{", "}", PrintMembers(members, level, pretty, slashes),
                        PrintMembers(members, level', false, slashes), level, pretty);
        }
      case Number(literal) => NumberStays(literal);
      case String(text) => QuoteStays(text, slashes);
      case _ =>
    }
  }

  lemma BracketsWhole(open: string, close: string, t: string, m: string, level: nat, pretty: bool)
    requires Whole(open, open) && Whole(close, close) && Whole(t, m)
    ensures Whole(open + Newline(pretty) + t + IndentIf(pretty, level) + close, open + "" + m + "" + close)
  {
    hide Whole, Newline, IndentIf;
    WhiteGoes(pretty, level);
    WholesJoin();
  }

  lemma {:induction false} ElementsWhole(elements: seq<Value>, level: nat, pretty: bool, slashes: bool, level': nat)
    requires forall k :: 0 <= k < |elements| ==> WellFormed(elements[k])
    ensures Whole(PrintElements(elements, level, pretty, slashes), PrintElements(elements, level', false, slashes))
    decreases elements, 0
  {
    hide Whole, WellFormed, Print;
    MarksStay();
    if elements != [] {
      PrintWhole(elements[0], level + 1, pretty, slashes, level' + 1);
      ElementsWhole(elements[1..], level, pretty, slashes, level');
      ElementWhole(Print(elements[0], level + 1, pretty, slashes), Print(elements[0], level' + 1, false, slashes),
                   |elements| > 1, PrintElements(elements[1..], level, pretty, slashes),
                   PrintElements(elements[1..], level', false, slashes), level + 1, pretty);
    }
  }

  lemma ElementWhole(t: string, m: string, comma: bool, more: string, rest: string, level: nat, pretty: bool)
    requires Whole(t, m) && Whole(more, rest)
    ensures Whole(IndentIf(pretty, level) + t + Comma(comma) + Newline(pretty) + more,
                  "" + m + Comma(comma) + "" + rest)
  {
    hide Whole, Newline, IndentIf, Comma;
    WhiteGoes(pretty, level);
    MarksStay();
    WholesJoin();
  }

  lemma {:induction false} MembersWhole(members: seq<Item<Value>>, level: nat, pretty: bool, slashes: bool, level': nat)
    requires forall k :: 0 <= k < |members| ==> WellFormed(members[k].value)
    ensures Whole(PrintMembers(members, level, pretty, slashes), PrintMembers(members, level', false, slashes))
    decreases members, 0
  {
    hide Whole, WellFormed, Print, Quote;
    MarksStay();
    if members != [] {
      QuoteStays(members[0].name, slashes);
      PrintWhole(members[0].value, level + 1, pretty, slashes, level' + 1);
      MembersWhole(members[1..], level, pretty, slashes, level');
      MemberWhole(Quote(members[0].name, slashes), Print(members[0].value, level + 1, pretty, slashes),
                  Print(members[0].value, level' + 1, false, slashes), |members| > 1,
                  PrintMembers(members[1..], level, pretty, slashes),
                  PrintMembers(members[1..], level', false, slashes), level + 1, pretty);
    }
  }

  lemma MemberWhole(q: string, t: string, m: string, comma: bool, more: string, rest: string, level: nat, pretty: bool)
    requires Whole(q, q) && Whole(t, m) && Whole(more, rest)
    ensures Whole(IndentIf(pretty, level) + q + ":" + Space(pretty) + t + Comma(comma) + Newline(pretty) + more,
                  "" + q + ":" + "" + m + Comma(comma) + "" + rest)
  {
    hide Whole, Newline, IndentIf, Space, Comma;
    WhiteGoes(pretty, level);
    MarksStay();
    WholesJoin();
  }

  /** Without the white space outside strings, the pretty text is the compact text; and the
      compact text has none. */
  lemma PrettyIsCompact(v: Value, level: nat, pretty: bool, slashes: bool)
    requires WellFormed(v)
    ensures Minified(Print(v, level, pretty, slashes), false, false) == Print(v, 0, false, slashes)
  {
    hide Print, WellFormed, Minified;
    PrintWhole(v, level, pretty, slashes, 0);
    var t, m := Print(v, level, pretty, slashes), Print(v, 0, false, slashes);
    assert t + "" == t && Minified(t + "", false, false) == m + Minified("", false, false);
    NothingMinified();
  }

  lemma NothingMinified()
    ensures Minified("", false, false) == ""
  {
  }

  // ---------------------------------------------------------------- lines

  /** The text cut at its line breaks. */
  function Lines(t: string): (r: seq<string>)
    ensures r != []
  {
    if t == "" then [""]
    else
      var rest := Lines(t[1..]);
      if t[0] == '\n' then [""] + rest else [[t[0]] + rest[0]] + rest[1..]
  }

  /** The number of spaces a line starts with. */
  function Leading(line: string): (n: nat)
    ensures n <= |line|
  {
    if line != "" && line[0] == ' ' then 1 + Leading(line[1..]) else 0
  }

  /** The line ends with an opening bracket. */
  predicate Opening(line: string) {
    line != "" && line[|line| - 1] in "[{"
  }

  /** The first thing in the line is a closing bracket. */
  predicate Closing(line: string) {
    Leading(line) < |line| && line[Leading(line)] in "]}"
  }

  /** From lines at depth d to lines at depth `end`, each line is indented by exactly four spaces
      for every container it is in; a closing bracket stands outside the container. */
  predicate Tidy(lines: seq<string>, d: int, end: int) {
    if lines == [] then d == end
    else
      var line := lines[0];
      var here := if Closing(line) then d - 1 else d;
      && Leading(line) == 4 * here
      && Tidy(lines[1..], if Opening(line) then here + 1 else here, end)
  }

  lemma {:induction false} TidyJoin(a: seq<string>, b: seq<string>, d: int, m: int, end: int)
    requires Tidy(a, d, m) && Tidy(b, m, end)
    ensures Tidy(a + b, d, end)
  {
    hide Closing, Opening, Leading;
    if a == [] {
      assert a + b == b;
    } else {
      var here := if Closing(a[0]) then d - 1 else d;
      TidyJoin(a[1..], b, if Opening(a[0]) then here + 1 else here, m, end);
      assert (a + b)[1..] == a[1..] + b;
    }
  }

  lemma {:induction false} LinesJoin(a: string, b: string)
    ensures Lines(a + ("\n" + b)) == Lines(a) + Lines(b)
  {
    var t := a + ("\n" + b);
    if a == "" {
      assert t == "\n" + b && t[1..] == b;
    } else {
      assert t[1..] == a[1..] + ("\n" + b);
      LinesJoin(a[1..], b);
    }
  }

  lemma {:induction false} OneLine(t: string)
    requires '\n' !in t
    ensures Lines(t) == [t]
  {
    if t != "" {
      OneLine(t[1..]);
      assert t == [t[0]] + t[1..];
    }
  }

  /** A line by itself. */
  lemma TidyLine(line: string, d: int, end: int)
    requires '\n' !in line
    requires var here := if Closing(line) then d - 1 else d;
             Leading(line) == 4 * here && end == if Opening(line) then here + 1 else here
    ensures Tidy(Lines(line), d, end)
  {
    OneLine(line);
    assert [line][1..] == [];
  }

  lemma {:induction false} IndentIs(level: nat)
    ensures |Indent(level)| == 4 * level && forall k :: 0 <= k < |Indent(level)| ==> Indent(level)[k] == ' '
  {
    if level > 0 { IndentIs(level - 1); }
  }

  lemma {:induction false} LeadingIs(t: string, x: string)
    requires (forall k :: 0 <= k < |t| ==> t[k] == ' ') && (x == "" || x[0] != ' ')
    ensures Leading(t + x) == |t|
  {
    if t == "" {
      assert t + x == x;
    } else {
      assert (t + x)[1..] == t[1..] + x;
      LeadingIs(t[1..], x);
    }
  }

  /** An indented line whose first character is not a space. */
  lemma IndentedLine(level: nat, x: string)
    requires x != "" && x[0] != ' ' && '\n' !in x
    ensures var line := Indent(level) + x;
            && '\n' !in line && Leading(line) == 4 * level
            && (Closing(line) <==> x[0] in "]}") && (Opening(line) <==> x[|x| - 1] in "[{")
  {
    hide Leading;
    IndentIs(level);
    LeadingIs(Indent(level), x);
  }

  /** What a line can start with before a value: nothing, or a name and a colon. */
  ghost predicate IsHead(h: string) {
    h == "" || (h[0] == '\"' && '\n' !in h)
  }

  /** An indented value, with what stands before and behind it in its lines. */
  lemma {:induction false} ValueIsTidy(v: Value, level: nat, h: string, comma: bool, slashes: bool)
    requires WellFormed(v) && IsHead(h)
    ensures Tidy(Lines(Indent(level) + (h + (Print(v, level, true, slashes) + Comma(comma)))), level, level)
    decreases v, 1
  {
    hide Tidy, Indent, PrintElements, PrintMembers, Quote, IsNumber;
    match v {
      case Array(elements) =>
        if elements == [] {
          FlatIsTidy("[]", level, h, comma);
        } else {
          ElementsAreTidy(elements, level, slashes);
          NestedIsTidy("[", "]", PrintElements(elements, level, true, slashes), level, h, comma);
        }
      case Object(members) =>
        if members == [] {
          FlatIsTidy("{}", level, h, comma);
        } else {
          MembersAreTidy(members, level, slashes);
          NestedIsTidy("{", "}", PrintMembers(members, level, true, slashes), level, h, comma);
        }
      case _ =>
        ScalarIsFlat(v, slashes);
        FlatIsTidy(ScalarText(v, slashes), level, h, comma);
    }
  }

  /** One line, neither opening nor closing. */
  ghost predicate IsFlat(t: string) {
    t != "" && '\n' !in t && t[0] !in " ]}" && t[|t| - 1] !in "[{"
  }

  lemma ScalarIsFlat(v: Value, slashes: bool)
    requires WellFormed(v) && IsScalar(v)
    ensures IsFlat(ScalarText(v, slashes))
  {
    hide Quote, IsG17, Overflows;
    if v.Number? { NumberChars(v.literal); }
    if v.String? { QuoteIsFlat(v.text, slashes); }
  }

  lemma {:induction false} QuoteIsFlat(t: string, slashes: bool)
    ensures '\n' !in Escape(t, slashes)
    ensures var q := Quote(t, slashes); |q| >= 2 && q[0] == q[|q| - 1] == '\"' && '\n' !in q
  {
    hide EscapeChar;
    if t != "" {
      QuoteIsFlat(t[1..], slashes);
      EscapeForms(t[0], slashes);
      NoBreak(t[0], slashes);
    }
  }

  lemma NoBreak(c: char, slashes: bool)
    ensures '\n' !in EscapeChar(c, slashes)
  {
  }

  lemma FlatIsTidy(t: string, level: nat, h: string, comma: bool)
    requires IsFlat(t) && IsHead(h)
    ensures Tidy(Lines(Indent(level) + (h + (t + Comma(comma)))), level, level)
  {
    hide Tidy, Indent, Lines;
    var x := h + (t + Comma(comma));
    IndentedLine(level, x);
    TidyLine(Indent(level) + x, level, level);
  }

  ghost predicate TidyText(t: string, d: int, end: int) {
    Tidy(Lines(t), d, end)
  }

  /** Lines at depth d, whatever comes behind. */
  ghost predicate TidyInside(inner: string, d: int) {
    forall rest, end :: TidyText(rest, d, end) ==> TidyText(inner + rest, d, end)
  }

  /** A bracket, lines one level deeper, and the closing bracket. */
  lemma NestedIsTidy(open: string, close: string, inner: string, level: nat, h: string, comma: bool)
    requires (open, close) in {("[", "]"), ("{", "}")} && IsHead(h)
    requires TidyInside(inner, level + 1)
    ensures var t := open + "\n" + inner + Indent(level) + close;
            Tidy(Lines(Indent(level) + (h + (t + Comma(comma)))), level, level)
  {
    hide Tidy, Indent, Lines;
    var first, last := Indent(level) + (h + open), Indent(level) + (close + Comma(comma));
    IndentedLine(level, h + open);
    TidyLine(first, level, level + 1);
    IndentedLine(level, close + Comma(comma));
    TidyLine(last, level + 1, level);
    assert TidyText(last, level + 1, level);
    assert TidyText(inner + last, level + 1, level);
    LinesJoin(first, inner + last);
    TidyJoin(Lines(first), Lines(inner + last), level, level + 1, level);
    Spliced(Indent(level), h, open, inner, close, Comma(comma));
  }

  lemma Spliced(ind: string, h: string, open: string, inner: string, close: string, comma: string)
    ensures ind + (h + ((open + "\n" + inner + ind + close) + comma))
            == (ind + (h + open)) + ("\n" + (inner + (ind + (close + comma))))
  {
  }

  lemma {:induction false} ElementsAreTidy(elements: seq<Value>, level: nat, slashes: bool)
    requires forall k :: 0 <= k < |elements| ==> WellFormed(elements[k])
    ensures TidyInside(PrintElements(elements, level, true, slashes), level + 1)
    decreases elements, 0
  {
    hide Tidy, Lines, Print, WellFormed, Indent;
    var d, all := level + 1, PrintElements(elements, level, true, slashes);
    forall rest, end | TidyText(rest, d, end) ensures TidyText(all + rest, d, end) {
      if elements == [] {
        assert "" + rest == rest;
      } else {
        ValueIsTidy(elements[0], level + 1, "", |elements| > 1, slashes);
        ElementsAreTidy(elements[1..], level, slashes);
        var more := PrintElements(elements[1..], level, true, slashes);
        assert TidyText(more + rest, level + 1, end);
        NextIsTidy("", Print(elements[0], level + 1, true, slashes), |elements| > 1, more, rest, level + 1, end);
        assert Indent(level + 1) + "" == Indent(level + 1);
      }
    }
  }

  /** A line break behind tidy lines, and more. */
  lemma NextIsTidy(h: string, t: string, comma: bool, more: string, rest: string, level: nat, end: int)
    requires Tidy(Lines(Indent(level) + (h + (t + Comma(comma)))), level, level)
    requires Tidy(Lines(more + rest), level, end)
    ensures Tidy(Lines(Indent(level) + h + t + Comma(comma) + "\n" + more + rest), level, end)
  {
    hide Tidy, Lines, Indent, Comma;
    var x := Indent(level) + (h + (t + Comma(comma)));
    LinesJoin(x, more + rest);
    TidyJoin(Lines(x), Lines(more + rest), level, level, end);
    assert Indent(level) + h + t + Comma(comma) + "\n" + more + rest == x + ("\n" + (more + rest));
  }

  lemma {:induction false} MembersAreTidy(members: seq<Item<Value>>, level: nat, slashes: bool)
    requires forall k :: 0 <= k < |members| ==> WellFormed(members[k].value)
    ensures TidyInside(PrintMembers(members, level, true, slashes), level + 1)
    decreases members, 0
  {
    hide Tidy, Lines, Print, WellFormed, Indent, Quote;
    var d, all := level + 1, PrintMembers(members, level, true, slashes);
    forall rest, end | TidyText(rest, d, end) ensures TidyText(all + rest, d, end) {
      if members == [] {
        assert "" + rest == rest;
      } else {
        var q := Quote(members[0].name, slashes);
        QuoteIsFlat(members[0].name, slashes);
        var h := q + ":" + " ";
        ValueIsTidy(members[0].value, level + 1, h, |members| > 1, slashes);
        MembersAreTidy(members[1..], level, slashes);
        var t := Print(members[0].value, level + 1, true, slashes);
        var more := PrintMembers(members[1..], level, true, slashes);
        assert TidyText(more + rest, level + 1, end);
        NextIsTidy(h, t, |members| > 1, more, rest, level + 1, end);
        NamedLine(Indent(level + 1), q, t, Comma(|members| > 1), more);
      }
    }
  }

  lemma NamedLine(ind: string, q: string, t: string, comma: string, more: string)
    ensures ind + (q + ":" + " ") + t + comma + "\n" + more == ind + q + ":" + " " + t + comma + "\n" + more
  {
  }

  /** In the pretty text every line is indented by four spaces for each container around it. */
  lemma PrettyIsTidy(v: Value, slashes: bool)
    requires WellFormed(v)
    ensures Tidy(Lines(Print(v, 0, true, slashes)), 0, 0)
  {
    hide Print, Tidy, WellFormed, Lines;
    ValueIsTidy(v, 0, "", false, slashes);
    var t := Print(v, 0, true, slashes);
    assert Indent(0) + ("" + (t + Comma(false))) == t;
  }
}
