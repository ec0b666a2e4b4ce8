/** Exactly what the parser accepts.

  Whatever is read is the text of a document: white space in the gaps, a comma perhaps before a
  closing bracket, string and number literals written in any way. With `Layout.ParseDoc` that
  makes `ParseExactly` an equivalence. The one exception is a lone minus sign, which is read as 0
  without being consumed, and is then refused anywhere but at the very end.
 */
module Grammar {
  import opened CText
  import opened Items
  import opened Numbers
  import opened Strings
  import opened Literals
  import opened Values
  import opened Parser
  import opened Layout
  import NumberForms
  import Parsed

  predicate LoneMinus(s: string, j: nat)
    requires j <= |s|
  {
    At(s, j) == '-' && Strtod(s, j) == NoNumber
  }

  /** The document is read from position j: its value is v and it ends at `next`. */
  ghost predicate Reads(s: string, j: nat, doc: Doc, v: Value, next: nat) {
    && j <= next <= |s| && Ready(doc) && ValueOf(doc) == v && s[j..next] == Text(doc) && Stops(doc, s, j)
  }

  // ---------------------------------------------------------------- tokens

  lemma {:induction false} DigitScans(s: string, j: nat)
    requires j <= |s| && IsDigit(At(s, j))
    ensures Strtod(s, j) != NoNumber
  {
    SomeDigits(s, j, s[j]);
  }

  lemma NumberIsRead(s: string, j: nat) returns (doc: Doc)
    requires j <= |s| && (At(s, j) == '-' || IsDigit(At(s, j))) && !LoneMinus(s, j) && ParseNumber(s, j).Ok?
    ensures Reads(s, j, doc, Number(ParseNumber(s, j).value), ParseNumber(s, j).next)
  {
    hide Strtod, IsDecimal, Overflows;
    if IsDigit(At(s, j)) { DigitScans(s, j); }
    var end := ParseNumber(s, j).next;
    ScanAlone(s, j, end);
    var lit := s[j..end];
    doc := Leaf(Number(lit), lit);
    assert lit[0] == s[j];
  }

  lemma QuotedHere(s: string, j: nat)
    requires j <= |s| && GetQuoted(s, j).Ok?
    ensures IsQuoted(s[j..GetQuoted(s, j).next], GetQuoted(s, j).value)
  {
    hide GetQuoted, AllWritten, AllDenoted, ArePieces;
    var pieces := OnlyPiecesAreRead(s, j);
  }

  lemma LeafReads(s: string, j: nat, v: Value, w: string)
    requires IsToken(v, w) && !v.Number? && j + |w| <= |s| && s[j..j + |w|] == w
    ensures Reads(s, j, Leaf(v, w), v, j + |w|)
  {
  }

  // ---------------------------------------------------------------- values

  lemma {:induction false} ValueIsRead(s: string, i: nat, nesting: nat) returns (doc: Doc)
    requires i <= |s| && ParseValue(s, i, nesting).Ok? && !LoneMinus(s, SkipSpaces(s, i))
    ensures var r := ParseValue(s, i, nesting); Reads(s, SkipSpaces(s, i), doc, r.value, r.next)
    decreases |s| - i, 2
  {
    hide GetQuoted, ParseArray, ParseObject, ParseNumber, IsToken, IsQuoted, SkipSpaces, Reads, Strtod;
    var j := SkipSpaces(s, i);
    var c, r := At(s, j), ParseValue(s, i, nesting);
    if c == '[' {
      doc := ArrayIsRead(s, j, nesting + 1);
    } else if c == '{' {
      doc := ObjectIsRead(s, j, nesting + 1);
    } else if c == '\"' {
      doc := StringIsRead(s, j);
    } else if c == '-' || IsDigit(c) {
      doc := NumberIsRead(s, j);
    } else {
      doc := WordIsRead(s, j, r.value, r.next);
    }
  }

  lemma StringIsRead(s: string, j: nat) returns (doc: Doc)
    requires j <= |s| && ParseString(s, j).Ok?
    ensures Reads(s, j, doc, ParseString(s, j).value, ParseString(s, j).next)
  {
    hide GetQuoted, IsQuoted;
    QuotedHere(s, j);
    var q := GetQuoted(s, j);
    doc := Leaf(String(q.value), s[j..q.next]);
    LeafReads(s, j, doc.v, doc.written);
  }

  lemma WordIsRead(s: string, j: nat, v: Value, next: nat) returns (doc: Doc)
    requires j <= |s| && (ParseBoolean(s, j) == Ok(v, next) || ParseNull(s, j) == Ok(v, next))
    ensures Reads(s, j, doc, v, next)
  {
    var w := s[j..next];
    doc := Leaf(v, w);
    LeafReads(s, j, v, w);
  }

  /** White space, cut out of the text. */
  lemma GapAt(s: string, i: nat)
    requires i <= |s|
    ensures Blank(s[i..SkipSpaces(s, i)]) && SkipSpaces(s, SkipSpaces(s, i)) == SkipSpaces(s, i)
  {
  }

  lemma NothingIsBlank()
    ensures Blank("")
  {
  }

  lemma Cut(s: string, a: nat, b: nat, c: nat)
    requires a <= b <= c <= |s|
    ensures s[a..c] == s[a..b] + s[b..c]
  {
  }

  lemma CutOne(s: string, a: nat, c: nat)
    requires a < c <= |s|
    ensures s[a..c] == [s[a]] + s[a + 1..c]
  {
  }

  lemma {:induction false} ArrayIsRead(s: string, j: nat, nesting: nat) returns (doc: Doc)
    requires j < |s| && s[j] == '[' && ParseArray(s, j, nesting).Ok?
    ensures var r := ParseArray(s, j, nesting); Reads(s, j, doc, r.value, r.next)
    decreases |s| - j, 1
  {
    hide ParseElements, SkipSpaces, Ready, Text, ElementsOf, Blank, SlotsReady;
    var k := SkipSpaces(s, j + 1);
    var r := ParseArray(s, j, nesting);
    GapAt(s, j + 1);
    if At(s, k) == ']' {
      doc := List(s[j + 1..k], []);
      EmptyArray(s, j, k, doc);
    } else {
      var slots := ElementsAreRead(s, k, nesting, [], s[j + 1..k]);
      doc := List("", slots);
      NothingIsBlank();
      ListReady(doc);
      ListText(s, j, k, r.next, slots);
      assert [] + ElementsOf(slots) == ElementsOf(slots);
    }
  }

  lemma EmptyArray(s: string, j: nat, k: nat, doc: Doc)
    requires j < k < |s| && s[j] == '[' && s[k] == ']' && doc == List(s[j + 1..k], []) && Blank(doc.inner)
    ensures Reads(s, j, doc, Array([]), k + 1)
  {
    hide Blank;
    ListReady(doc);
    CutOne(s, j, k + 1);
    Cut(s, j + 1, k, k + 1);
    assert s[k..k + 1] == "]" && s[j..k + 1] == "[" + (doc.inner + "]");
  }

  lemma ListText(s: string, j: nat, k: nat, next: nat, slots: seq<Slot>)
    requires j < k <= next <= |s| && s[j] == '[' && slots != []
    requires slots[0].before == s[j + 1..k] && s[k..next] == FromFirst(slots) + "]"
    ensures s[j..next] == Text(List("", slots))
  {
    hide FromFirst;
    CutOne(s, j, next);
    Cut(s, j + 1, k, next);
    Outermost(slots[0].before, FromFirst(slots), "]");
  }

  /** A lone minus consumes nothing, so that no comma and no bracket can follow it. */
  lemma MinusStays(s: string, i: nat, nesting: nat)
    requires i <= |s| && LoneMinus(s, SkipSpaces(s, i)) && ParseValue(s, i, nesting).Ok?
    ensures ParseValue(s, i, nesting).next == SkipSpaces(s, i) && At(s, SkipSpaces(s, i)) == '-'
  {
    hide Strtod;
  }

  /** What a round of the element loop has done when it succeeds. */
  lemma ElementsStep(s: string, i: nat, nesting: nat, parsed: seq<Value>)
    requires i <= |s| && ParseElements(s, i, nesting, parsed).Ok?
    ensures ParseValue(s, i, nesting).Ok? && !LoneMinus(s, SkipSpaces(s, i))
    ensures var v, r := ParseValue(s, i, nesting), ParseElements(s, i, nesting, parsed);
            var j := SkipSpaces(s, v.next);
            if At(s, j) != ',' then At(s, j) == ']' && r == Ok(parsed + [v.value], j + 1)
            else
              var k := SkipSpaces(s, j + 1);
              if At(s, k) == ']' then r == Ok(parsed + [v.value], k + 1)
              else ParseElements(s, k, nesting, parsed + [v.value]) == r
  {
    hide ParseValue, ParseElements, SkipSpaces, LoneMinus;
    ElementsRound(s, i, nesting, parsed);
    if LoneMinus(s, SkipSpaces(s, i)) {
      MinusStays(s, i, nesting);
      SkipTwice(s, i);
    }
  }

  /** The elements from i on, where the first token of an element is; `before` is the gap in
      front of it. */
  lemma {:induction false} ElementsAreRead(s: string, i: nat, nesting: nat, parsed: seq<Value>, before: string)
    returns (slots: seq<Slot>)
    requires i <= |s| && SkipSpaces(s, i) == i && Blank(before) && ParseElements(s, i, nesting, parsed).Ok?
    ensures slots != [] && SlotsReady(slots) && slots[0].before == before
    ensures var r := ParseElements(s, i, nesting, parsed);
            i <= r.next <= |s| && s[i..r.next] == FromFirst(slots) + "]" && r.value == parsed + ElementsOf(slots)
    decreases |s| - i, 3
  {
    hide ParseValue, ParseElements, SkipSpaces, Ready, ValueOf, Text, Blank, LastGap, LoneMinus, FromFirst, ElementsOf;
    hide SlotsReady;
    ElementsStep(s, i, nesting, parsed);
    var r := ParseElements(s, i, nesting, parsed);
    var v := ParseValue(s, i, nesting);
    var j := SkipSpaces(s, v.next);
    GapAt(s, v.next);
    var doc := ValueIsRead(s, i, nesting);
    if At(s, j) != ',' {
      slots := EndSlots(s, i, v.next, s[v.next..j], j, doc, before);
    } else {
      var k := SkipSpaces(s, j + 1);
      GapAt(s, j + 1);
      if At(s, k) == ']' {
        CommaIsLast(s[v.next..j], s[j + 1..k]);
        CommaAt(s, i, v.next, j, k);
        slots := EndSlots(s, i, v.next, s[v.next..k], k, doc, before);
      } else {
        var more := ElementsAreRead(s, k, nesting, parsed + [v.value], s[j + 1..k]);
        slots := GoOnSlots(s, i, v.next, j, k, r.next, doc, before, more);
        Outermost(parsed, [v.value], ElementsOf(more));
      }
    }
  }

  /** The last element, which ends at m, the gap after it, and the bracket at e. */
  lemma EndSlots(s: string, i: nat, m: nat, gap: string, e: nat, doc: Doc, before: string) returns (slots: seq<Slot>)
    requires i <= m <= e < |s| && s[i..m] == Text(doc) && gap == s[m..e] && s[e] == ']'
    requires Ready(doc) && Blank(before) && (Blank(gap) || LastGap(gap))
    ensures slots != [] && SlotsReady(slots) && slots[0].before == before
    ensures s[i..e + 1] == FromFirst(slots) + "]" && ElementsOf(slots) == [ValueOf(doc)]
  {
    hide Ready, ValueOf, Text, Blank, LastGap, FromFirst, ElementsOf, SlotsReady;
    slots := [Slot(before, doc, gap)];
    EndText(s, i, m, e);
    OneSlot(slots[0], "]");
  }

  /** An element that ends at m, the comma at j, and more from k on. */
  lemma GoOnSlots(s: string, i: nat, m: nat, j: nat, k: nat, next: nat, doc: Doc, before: string, more: seq<Slot>)
    returns (slots: seq<Slot>)
    requires i <= m <= j < k <= next <= |s| && s[i..m] == Text(doc) && s[j] == ','
    requires Ready(doc) && Blank(before) && Blank(s[m..j]) && more != [] && SlotsReady(more)
    requires more[0].before == s[j + 1..k] && s[k..next] == FromFirst(more) + "]"
    ensures slots != [] && SlotsReady(slots) && slots[0].before == before
    ensures s[i..next] == FromFirst(slots) + "]" && ElementsOf(slots) == [ValueOf(doc)] + ElementsOf(more)
  {
    hide Ready, ValueOf, Text, Blank, LastGap, FromFirst, ElementsOf, SlotsReady;
    slots := [Slot(before, doc, s[m..j])] + more;
    MoreText(s, i, m, j, k, next);
    MoreSlots(slots[0], more, slots);
    SlotText(slots, "," + (more[0].before + (FromFirst(more) + "]")));
  }

  /** A text, a gap, and the closing bracket at e. */
  lemma EndText(s: string, i: nat, m: nat, e: nat)
    requires i <= m <= e < |s|
    ensures s[i..e + 1] == s[i..m] + (s[m..e] + [s[e]])
  {
  }

  lemma CommaAt(s: string, i: nat, m: nat, j: nat, k: nat)
    requires i <= m <= j < k <= |s| && s[j] == ','
    ensures s[m..k] == s[m..j] + ("," + s[j + 1..k])
  {
  }

  /** A text, a gap, a comma, a gap, and the rest. */
  lemma MoreText(s: string, i: nat, m: nat, j: nat, k: nat, next: nat)
    requires i <= m <= j < k <= next <= |s| && s[j] == ','
    ensures s[i..next] == s[i..m] + (s[m..j] + ("," + (s[j + 1..k] + s[k..next])))
  {
    Cut(s, i, m, next);
    Cut(s, m, j, next);
    CutOne(s, j, next);
    Cut(s, j + 1, k, next);
  }

  lemma CommaIsLast(a: string, b: string)
    requires Blank(a) && Blank(b)
    ensures LastGap(a + ("," + b))
  {
    hide Blank;
    assert WithComma(a + ("," + b), a, b);
  }

  lemma OneSlot(slot: Slot, close: string)
    ensures FromFirst([slot]) + close == Text(slot.doc) + (slot.after + close)
    ensures ElementsOf([slot]) == [ValueOf(slot.doc)]
    ensures Ready(slot.doc) && Blank(slot.before) && (Blank(slot.after) || LastGap(slot.after)) ==> SlotsReady([slot])
  {
    hide Text, ValueOf, Ready, Blank;
    assert FromFirst([slot]) == Text(slot.doc) + (slot.after + "") && slot.after + "" == slot.after;
    Outermost(Text(slot.doc), slot.after, close);
  }

  lemma MoreSlots(slot: Slot, more: seq<Slot>, slots: seq<Slot>)
    requires slots == [slot] + more && more != []
    ensures slots[1..] == more && ElementsOf(slots) == [ValueOf(slot.doc)] + ElementsOf(more)
    ensures Ready(slot.doc) && Blank(slot.before) && Blank(slot.after) && SlotsReady(more) ==> SlotsReady(slots)
  {
    hide Text, ValueOf, Ready, Blank, LastGap;
    assert slots[1..] == more;
    if Ready(slot.doc) && Blank(slot.before) && Blank(slot.after) && SlotsReady(more) {
      forall k | 0 < k < |slots| ensures slots[k] == more[k - 1] { }
    }
  }

  // ---------------------------------------------------------------- objects

  lemma {:induction false} ObjectIsRead(s: string, j: nat, nesting: nat) returns (doc: Doc)
    requires j < |s| && s[j] == '{' && ParseObject(s, j, nesting).Ok?
    ensures var r := ParseObject(s, j, nesting); Reads(s, j, doc, r.value, r.next)
    decreases |s| - j, 1
  {
    hide ParseMembers, SkipSpaces, Ready, Text, MembersOf, Blank, EntriesReady, Distinct;
    var k := SkipSpaces(s, j + 1);
    var r := ParseObject(s, j, nesting);
    GapAt(s, j + 1);
    if At(s, k) == '}' {
      doc := Dict(s[j + 1..k], []);
      EmptyObject(s, j, k, doc);
    } else {
      var entries := MembersAreRead(s, k, nesting, [], s[j + 1..k]);
      NamesDistinct(s, k, nesting);
      doc := Dict("", entries);
      NothingIsBlank();
      DictReady(doc);
      DictText(s, j, k, r.next, entries);
      assert [] + MembersOf(entries) == MembersOf(entries);
    }
  }

  lemma EmptyObject(s: string, j: nat, k: nat, doc: Doc)
    requires j < k < |s| && s[j] == '{' && s[k] == '}' && doc == Dict(s[j + 1..k], []) && Blank(doc.inner)
    ensures Reads(s, j, doc, Object([]), k + 1)
  {
    hide Blank;
    DictReady(doc);
    CutOne(s, j, k + 1);
    Cut(s, j + 1, k, k + 1);
    assert s[k..k + 1] == "}" && s[j..k + 1] == "{" + (doc.inner + "}");
  }

  lemma DictText(s: string, j: nat, k: nat, next: nat, entries: seq<Entry>)
    requires j < k <= next <= |s| && s[j] == '{' && entries != []
    requires entries[0].before == s[j + 1..k] && s[k..next] == FromName(entries) + "}"
    ensures s[j..next] == Text(Dict("", entries))
  {
    hide FromName;
    CutOne(s, j, next);
    Cut(s, j + 1, k, next);
    Outermost(entries[0].before, FromName(entries), "}");
  }

  lemma NamesDistinct(s: string, k: nat, nesting: nat)
    requires k <= |s| && ParseMembers(s, k, nesting, []).Ok?
    ensures Distinct(ParseMembers(s, k, nesting, []).value)
  {
    hide ParseMembers;
    Parsed.MembersAllFit(s, k, nesting, []);
  }

  /** A name and the colon after it, cut out of the text. */
  lemma NameIsRead(s: string, i: nat) returns (quoted: string, beforeColon: string, c: nat)
    requires i <= |s| && ParseName(s, i).Ok?
    ensures var name := ParseName(s, i);
            && IsName(name.value) && IsQuoted(quoted, name.value) && Blank(beforeColon)
            && i <= c < |s| && name.next == c + 1 && s[i..c + 1] == quoted + (beforeColon + ":")
  {
    hide GetQuoted, SkipSpaces, IsQuoted, Blank;
    var q := GetQuoted(s, i);
    QuotedHere(s, i);
    c := SkipSpaces(s, q.next);
    GapAt(s, q.next);
    quoted, beforeColon := s[i..q.next], s[q.next..c];
    EndText(s, i, q.next, c);
  }

  /** A member read as far as its value, which stands from m to n. */
  ghost predicate Begun(s: string, i: nat, m: nat, n: nat, e: Entry) {
    && i <= m <= n <= |s| && e.after == "" && EntryReady(e, false) && s[m..n] == Text(e.doc)
    && s[i..m] == e.quoted + (e.beforeColon + (":" + e.afterColon))
  }

  /** A member as far as its value, and the value. */
  lemma {:induction false} MemberIsRead(s: string, i: nat, nesting: nat, before: string) returns (entry: Entry, m: nat)
    requires i <= |s| && Blank(before) && ParseName(s, i).Ok? && ParseValue(s, ParseName(s, i).next, nesting).Ok?
    requires !LoneMinus(s, SkipSpaces(s, ParseName(s, i).next))
    ensures var name, v := ParseName(s, i), ParseValue(s, ParseName(s, i).next, nesting);
            && entry.before == before && entry.name == name.value && ValueOf(entry.doc) == v.value
            && Begun(s, i, m, v.next, entry)
    decreases |s| - i, 3
  {
    hide ParseValue, ParseName, SkipSpaces, Tokens, Spaced, ValueOf, Text, IsQuoted, IsName, Strtod;
    var name := ParseName(s, i);
    var quoted, beforeColon, c := NameIsRead(s, i);
    m := SkipSpaces(s, c + 1);
    GapAt(s, c + 1);
    var doc := ValueIsRead(s, c + 1, nesting);
    entry := Entry(before, name.value, quoted, beforeColon, s[c + 1..m], doc, "");
    Cut(s, i, c + 1, m);
    assert quoted + (beforeColon + ":") + s[c + 1..m] == quoted + (beforeColon + (":" + s[c + 1..m]));
  }

  lemma MembersStep(s: string, i: nat, nesting: nat, parsed: seq<Item<Value>>)
    requires i <= |s| && ParseMembers(s, i, nesting, parsed).Ok?
    ensures ParseName(s, i).Ok? && ParseValue(s, ParseName(s, i).next, nesting).Ok?
    ensures !LoneMinus(s, SkipSpaces(s, ParseName(s, i).next))
    ensures var name, r := ParseName(s, i), ParseMembers(s, i, nesting, parsed);
            var v := ParseValue(s, name.next, nesting);
            var j, all := SkipSpaces(s, v.next), parsed + [Item(name.value, v.value)];
            if At(s, j) != ',' then At(s, j) == '}' && r == Ok(all, j + 1)
            else
              var k := SkipSpaces(s, j + 1);
              if At(s, k) == '}' then r == Ok(all, k + 1) else ParseMembers(s, k, nesting, all) == r
  {
    hide ParseValue, ParseName, ParseMembers, SkipSpaces, LoneMinus, Find;
    MembersRound(s, i, nesting, parsed);
    var name := ParseName(s, i);
    if LoneMinus(s, SkipSpaces(s, name.next)) {
      MinusStays(s, name.next, nesting);
      SkipTwice(s, name.next);
    }
  }

  lemma {:induction false} MembersAreRead(s: string, i: nat, nesting: nat, parsed: seq<Item<Value>>, before: string)
    returns (entries: seq<Entry>)
    requires i <= |s| && SkipSpaces(s, i) == i && Blank(before) && ParseMembers(s, i, nesting, parsed).Ok?
    ensures entries != [] && EntriesReady(entries) && entries[0].before == before
    ensures var r := ParseMembers(s, i, nesting, parsed);
            i <= r.next <= |s| && s[i..r.next] == FromName(entries) + "}" && r.value == parsed + MembersOf(entries)
    decreases |s| - i, 4
  {
    hide ParseValue, ParseName, ParseMembers, SkipSpaces, Ready, ValueOf, Text, Blank, LastGap, LoneMinus, FromName;
    hide MembersOf, EntriesReady, EntryReady, Begun;
    MembersStep(s, i, nesting, parsed);
    var r := ParseMembers(s, i, nesting, parsed);
    var name := ParseName(s, i);
    var v := ParseValue(s, name.next, nesting);
    var j := SkipSpaces(s, v.next);
    GapAt(s, v.next);
    var e, m := MemberIsRead(s, i, nesting, before);
    var item := Item(e.name, v.value);
    if At(s, j) != ',' {
      entries := EndEntries(s, i, m, v.next, s[v.next..j], j, e);
    } else {
      var k := SkipSpaces(s, j + 1);
      GapAt(s, j + 1);
      if At(s, k) == '}' {
        entries := CommaEntries(s, i, m, v.next, j, k, e);
      } else {
        var more := MembersAreRead(s, k, nesting, parsed + [item], s[j + 1..k]);
        entries := GoOnEntries(s, i, m, v.next, j, k, r.next, e, more);
        Outermost(parsed, [item], MembersOf(more));
      }
    }
  }

  /** The last member, a comma at j, and the brace at k. */
  lemma CommaEntries(s: string, i: nat, m: nat, n: nat, j: nat, k: nat, e: Entry) returns (entries: seq<Entry>)
    requires Begun(s, i, m, n, e) && n <= j < k < |s| && s[j] == ',' && s[k] == '}'
    requires Blank(s[n..j]) && Blank(s[j + 1..k])
    ensures entries != [] && EntriesReady(entries) && entries[0].before == e.before
    ensures s[i..k + 1] == FromName(entries) + "}" && MembersOf(entries) == [Item(e.name, ValueOf(e.doc))]
  {
    hide EntryReady, ValueOf, Text, Blank, LastGap, FromName, MembersOf, EntriesReady;
    CommaIsLast(s[n..j], s[j + 1..k]);
    CommaAt(s, m, n, j, k);
    entries := EndEntries(s, i, m, n, s[n..k], k, e);
  }

  /** The last member, the gap after it, and the brace at c. */
  lemma EndEntries(s: string, i: nat, m: nat, n: nat, gap: string, c: nat, e: Entry) returns (entries: seq<Entry>)
    requires Begun(s, i, m, n, e) && n <= c < |s| && gap == s[n..c] && s[c] == '}' && (Blank(gap) || LastGap(gap))
    ensures entries != [] && EntriesReady(entries) && entries[0].before == e.before
    ensures s[i..c + 1] == FromName(entries) + "}" && MembersOf(entries) == [Item(e.name, ValueOf(e.doc))]
  {
    hide EntryReady, ValueOf, Text, Blank, LastGap, FromName, MembersOf, EntriesReady;
    var last := e.(after := gap);
    entries := [last];
    EndText(s, m, n, c);
    EntryEnds(s, i, m, c + 1, last, "}");
    assert last.(after := "") == e;
    OneEntry(last);
  }

  /** A member, the comma at j, and more from k on. */
  lemma GoOnEntries(s: string, i: nat, m: nat, n: nat, j: nat, k: nat, next: nat, e: Entry, more: seq<Entry>)
    returns (entries: seq<Entry>)
    requires Begun(s, i, m, n, e) && n <= j < k <= next <= |s| && s[j] == ',' && Blank(s[n..j])
    requires more != [] && EntriesReady(more) && more[0].before == s[j + 1..k] && s[k..next] == FromName(more) + "}"
    ensures entries != [] && EntriesReady(entries) && entries[0].before == e.before
    ensures s[i..next] == FromName(entries) + "}"
    ensures MembersOf(entries) == [Item(e.name, ValueOf(e.doc))] + MembersOf(more)
  {
    hide EntryReady, ValueOf, Text, Blank, LastGap, FromName, MembersOf, EntriesReady;
    var first, rest := e.(after := s[n..j]), "," + (more[0].before + (FromName(more) + "}"));
    entries := [first] + more;
    MoreText(s, m, n, j, k, next);
    EntryEnds(s, i, m, next, first, rest);
    assert first.(after := "") == e;
    MoreEntries(first, more, entries);
    EntryText(entries, rest);
  }

  /** The member's text, put together from its head and the rest. */
  lemma EntryEnds(s: string, i: nat, m: nat, next: nat, e: Entry, rest: string)
    requires i <= m <= next <= |s| && s[i..m] == e.quoted + (e.beforeColon + (":" + e.afterColon))
    requires s[m..next] == Text(e.doc) + (e.after + rest)
    ensures s[i..next] == e.quoted + (e.beforeColon + (":" + (e.afterColon + (Text(e.doc) + (e.after + rest)))))
  {
    hide Text;
    Cut(s, i, m, next);
    var x := Text(e.doc) + (e.after + rest);
    Outermost(e.quoted, e.beforeColon + (":" + e.afterColon), x);
    Outermost(e.beforeColon, ":" + e.afterColon, x);
    Outermost(":", e.afterColon, x);
  }

  lemma OneEntry(e: Entry)
    ensures FromName([e]) + "}" == e.quoted + (e.beforeColon + (":" + (e.afterColon + (Text(e.doc) + (e.after + "}")))))
    ensures MembersOf([e]) == [Item(e.name, ValueOf(e.doc))]
    ensures EntryReady(e, true) ==> EntriesReady([e])
    ensures EntryReady(e.(after := ""), false) && (Blank(e.after) || LastGap(e.after)) ==> EntryReady(e, true)
  {
    hide Text, ValueOf, Ready, Blank, IsQuoted, IsName;
    LastEntryText([e]);
  }

  lemma MoreEntries(e: Entry, more: seq<Entry>, entries: seq<Entry>)
    requires entries == [e] + more && more != []
    ensures entries[1..] == more && MembersOf(entries) == [Item(e.name, ValueOf(e.doc))] + MembersOf(more)
    ensures EntryReady(e, false) && EntriesReady(more) ==> EntriesReady(entries)
    ensures EntryReady(e.(after := ""), false) && Blank(e.after) ==> EntryReady(e, false)
  {
    hide Text, ValueOf, Ready, Blank, LastGap, IsQuoted, IsName;
    assert entries[1..] == more;
    if EntryReady(e, false) && EntriesReady(more) {
      forall k | 0 < k < |entries| ensures entries[k] == more[k - 1] { }
    }
  }

  // ---------------------------------------------------------------- exactly

  /** A value is read exactly where a document of it stands that is not nested too deeply and
      that what follows does not carry on, or, as 0, at a lone minus. */
  lemma ParseExactly(s: string, i: nat, nesting: nat, v: Value, next: nat)
    requires i <= |s|
    ensures var j := SkipSpaces(s, i);
            ParseValue(s, i, nesting) == Ok(v, next) <==>
              if LoneMinus(s, j) then nesting <= MAX_NESTING && v == Number("0") && next == j
              else nesting + Depth(v) <= MAX_NESTING && exists doc :: Reads(s, j, doc, v, next)
  {
    hide ParseValue, Reads, Strtod, Depth;
    var j := SkipSpaces(s, i);
    if LoneMinus(s, j) {
      MinusIsZero(s, i, nesting);
    } else {
      if ParseValue(s, i, nesting) == Ok(v, next) {
        var doc := ValueIsRead(s, i, nesting);
        Parsed.ParseFits(s, i, nesting);
      }
      if nesting + Depth(v) <= MAX_NESTING && exists doc :: Reads(s, j, doc, v, next) {
        var doc :| Reads(s, j, doc, v, next);
        ReadsBack(s, i, nesting, doc, v, next);
      }
    }
  }

  lemma MinusIsZero(s: string, i: nat, nesting: nat)
    requires i <= |s| && LoneMinus(s, SkipSpaces(s, i))
    ensures ParseValue(s, i, nesting) == if nesting <= MAX_NESTING then Ok(Number("0"), SkipSpaces(s, i)) else Fail
  {
    hide Strtod;
  }

  lemma ReadsBack(s: string, i: nat, nesting: nat, doc: Doc, v: Value, next: nat)
    requires i <= |s| && Reads(s, SkipSpaces(s, i), doc, v, next) && nesting + Depth(v) <= MAX_NESTING
    ensures ParseValue(s, i, nesting) == Ok(v, next)
  {
    hide ParseValue, Ready, Text, ValueOf, Depth, Stops;
    var j := SkipSpaces(s, i);
    assert |Text(doc)| == next - j;
    ParseValueSkips(s, i, nesting);
    ParseDoc(s, j, doc, nesting);
  }

  /** A number token is a text of the form, without a leading zero, in range, that starts with a
      digit or a minus sign. */
  lemma NumberToken(lit: string)
    ensures IsToken(Number(lit), lit) <==>
              && NumberForms.IsNumberText(lit) && lit != "" && (lit[0] == '-' || '0' <= lit[0] <= '9')
              && -((NumberForms.Two(1024) - NumberForms.Two(970)) as real) < Meaning(lit)
              && Meaning(lit) < (NumberForms.Two(1024) - NumberForms.Two(970)) as real
  {
    hide Strtod, IsDecimal, Meaning, NumberForms.IsNumberText, NumberForms.Two, HUGE;
    NumberForms.HugeIs();
    NumberForms.AcceptedExactly(lit);
  }
}
