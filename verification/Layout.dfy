/** Texts of a value, with anything between the tokens and the tokens written in any way.

  A `Doc` is a value together with the tokens of its text and the gaps between them; compact
  text, pretty text and commented text are all texts of a `Doc`. `ParseDoc` is one half of what
  the parser does: when the gaps are white space, the text parses to the value exactly if the
  value is not nested too deeply. Module Grammar has the other half.
 */
module Layout {
  import opened CText
  import opened Items
  import opened Numbers
  import opened Strings
  import opened Values
  import opened Parser
  import opened Literals

  /** A gap after the last element or member may hold a comma. */
  datatype Doc =
    | Leaf(v: Value, written: string)
    | List(inner: string, slots: seq<Slot>)       // `inner` is the gap of an empty array
    | Dict(inner: string, entries: seq<Entry>)

  datatype Slot = Slot(before: string, doc: Doc, after: string)

  datatype Entry =
    Entry(before: string, name: string, quoted: string, beforeColon: string, afterColon: string, doc: Doc,
          after: string)

  // ---------------------------------------------------------------- value and text

  function ValueOf(doc: Doc): Value {
    match doc
    case Leaf(v, _) => v
    case List(_, slots) => Array(ElementsOf(slots))
    case Dict(_, entries) => Object(MembersOf(entries))
  }

  function ElementsOf(slots: seq<Slot>): (r: seq<Value>)
    ensures |r| == |slots|
  {
    if slots == [] then [] else [ValueOf(slots[0].doc)] + ElementsOf(slots[1..])
  }

  function MembersOf(entries: seq<Entry>): (r: seq<Item<Value>>)
    ensures |r| == |entries|
  {
    if entries == [] then [] else [Item(entries[0].name, ValueOf(entries[0].doc))] + MembersOf(entries[1..])
  }

  lemma {:induction false} ElementAt(slots: seq<Slot>, k: nat)
    requires k < |slots|
    ensures ElementsOf(slots)[k] == ValueOf(slots[k].doc)
  {
    hide ValueOf;
    if k > 0 {
      ElementAt(slots[1..], k - 1);
    }
  }

  lemma {:induction false} MemberAt(entries: seq<Entry>, k: nat)
    requires k < |entries|
    ensures MembersOf(entries)[k] == Item(entries[k].name, ValueOf(entries[k].doc))
  {
    hide ValueOf;
    if k > 0 {
      MemberAt(entries[1..], k - 1);
    }
  }

  function Text(doc: Doc): string {
    match doc
    case Leaf(_, written) => written
    case List(inner, slots) => "[" + ((if slots == [] then inner else SlotsText(slots)) + "]")
    case Dict(inner, entries) => "{" + ((if entries == [] then inner else EntriesText(entries)) + "}")
  }

  function SlotsText(slots: seq<Slot>): string
    requires slots != []
    decreases slots, 1
  {
    slots[0].before + FromFirst(slots)
  }

  /** The elements' text from the first element's first token on. */
  function FromFirst(slots: seq<Slot>): string
    requires slots != []
    decreases slots, 0
  {
    Text(slots[0].doc) + (slots[0].after + (if |slots| == 1 then "" else "," + SlotsText(slots[1..])))
  }

  function EntriesText(entries: seq<Entry>): string
    requires entries != []
    decreases entries, 2
  {
    entries[0].before + FromName(entries)
  }

  /** The members' text from the first member's name on. */
  function FromName(entries: seq<Entry>): string
    requires entries != []
    decreases entries, 1
  {
    entries[0].quoted + (entries[0].beforeColon + (":" + (entries[0].afterColon + FromValue(entries))))
  }

  function FromValue(entries: seq<Entry>): string
    requires entries != []
    decreases entries, 0
  {
    Text(entries[0].doc) + (entries[0].after + (if |entries| == 1 then "" else "," + EntriesText(entries[1..])))
  }

  // ---------------------------------------------------------------- tokens

  predicate IsScalar(v: Value) {
    !v.Array? && !v.Object?
  }

  /** w is a string literal for t, written in any way. */
  ghost predicate IsQuoted(w: string, t: string) {
    exists pieces :: ArePieces(pieces) && w == "\"" + (AllWritten(pieces) + "\"") && t == AllDenoted(pieces)
  }

  /** A number literal that the parser accepts, read by strtod to its end. */
  predicate IsScanned(lit: string) {
    && lit != "" && (lit[0] == '-' || IsDigit(lit[0])) && Strtod(lit, 0) == Decimal(|lit|)
    && IsDecimal(lit) && !Overflows(lit)
  }

  /** w is a way of writing the scalar v. */
  ghost predicate IsToken(v: Value, w: string) {
    match v
    case Null => w == "null"
    case Bool(b) => w == if b then "true" else "false"
    case Number(literal) => w == literal && IsScanned(literal)
    case String(text) => IsQuoted(w, text)
    case Array(_) => false
    case Object(_) => false
  }

  /** The tokens are written as they should, and names are distinct C strings. */
  ghost predicate Tokens(doc: Doc) {
    match doc
    case Leaf(v, written) => IsToken(v, written)
    case List(_, slots) => forall k :: 0 <= k < |slots| ==> Tokens(slots[k].doc)
    case Dict(_, entries) =>
      && Distinct(MembersOf(entries))
      && forall k :: 0 <= k < |entries| ==>
           IsName(entries[k].name) && IsQuoted(entries[k].quoted, entries[k].name) && Tokens(entries[k].doc)
  }

  /** White space with a comma in it. */
  ghost predicate WithComma(g: string, a: string, b: string) {
    g == a + ("," + b) && Blank(a) && Blank(b)
  }

  ghost predicate LastGap(g: string) {
    Blank(g) || exists a, b :: WithComma(g, a, b)
  }

  ghost predicate AfterGap(g: string, last: bool) {
    if last then LastGap(g) else Blank(g)
  }

  /** Every gap is white space, but for a comma after the last element or member. */
  ghost predicate Spaced(doc: Doc) {
    match doc
    case Leaf(_, _) => true
    case List(inner, slots) =>
      && Blank(inner)
      && forall k :: 0 <= k < |slots| ==>
           Blank(slots[k].before) && Spaced(slots[k].doc) && AfterGap(slots[k].after, k == |slots| - 1)
    case Dict(inner, entries) =>
      && Blank(inner)
      && forall k :: 0 <= k < |entries| ==>
           && Blank(entries[k].before) && Blank(entries[k].beforeColon) && Blank(entries[k].afterColon)
           && Spaced(entries[k].doc) && AfterGap(entries[k].after, k == |entries| - 1)
  }

  lemma {:induction false} SkipSpacesIs(s: string, i: nat, j: nat)
    requires i <= j <= |s| && Blank(s[i..j]) && !IsSpace(At(s, j))
    ensures SkipSpaces(s, i) == j
    decreases j - i
  {
    if i < j {
      assert s[i..j][0] == s[i] && s[i..j][1..] == s[i + 1..j];
      SkipSpacesIs(s, i + 1, j);
    }
  }

  /** A gap of white space and the rest of the text after it. */
  lemma SkipGap(s: string, i: nat, end: nat, gap: string, rest: string) returns (j: nat)
    requires i <= end <= |s| && s[i..end] == gap + rest
    requires Blank(gap) && rest != "" && !IsSpace(rest[0])
    ensures j == i + |gap| == SkipSpaces(s, i) && j < end && s[j..end] == rest && s[j] == rest[0]
    ensures IsSpace(s[i]) || s[i] == rest[0]
  {
    SplitSlice(s, i, end, gap, rest);
    j := i + |gap|;
    assert s[j..end][0] == s[j];
    if gap != "" { assert s[i..j][0] == s[i]; }
    SkipSpacesIs(s, i, j);
  }

  /** The characters a value can start with. */
  predicate Opens(c: char) {
    c == '{' || c == '[' || c == '\"' || c == 'f' || c == 't' || c == 'n' || c == '-' || IsDigit(c)
  }

  lemma QuotedOpens(w: string, t: string)
    requires IsQuoted(w, t)
    ensures w != "" && w[0] == '\"'
  {
    hide ArePieces, AllWritten, AllDenoted;
  }

  /** What the serializer writes is a way of writing a string. */
  lemma QuoteIsQuoted(t: string, slashes: bool)
    ensures IsQuoted(Quote(t, slashes), t)
  {
    hide AllWritten, AllDenoted, ArePieces, Escape;
    var pieces := EscapePieces(t, slashes);
    assert Quote(t, slashes) == "\"" + (AllWritten(pieces) + "\"");
  }

  lemma QuotedIsRead(s: string, i: nat, w: string, t: string)
    requires IsQuoted(w, t) && i + |w| <= |s| && s[i..i + |w|] == w
    ensures GetQuoted(s, i) == Ok(t, i + |w|)
  {
    hide GetQuoted, AllWritten, AllDenoted, ArePieces;
    var pieces :| ArePieces(pieces) && w == "\"" + (AllWritten(pieces) + "\"") && t == AllDenoted(pieces);
    LiteralIsRead(s, i, pieces);
  }

  /** A printed number is such a literal. */
  lemma NumberIsScanned(lit: string)
    requires IsNumber(lit)
    ensures IsScanned(lit)
  {
    hide Strtod, IsDecimal, Overflows, IsG17;
    assert lit[0..|lit|] == lit;
    ScanExactly(lit, 0, lit);
    OnlyExtends(lit, lit, |lit|);
  }

  lemma TextOpens(doc: Doc)
    requires Tokens(doc)
    ensures Text(doc) != "" && Opens(Text(doc)[0])
  {
    hide IsQuoted, Strtod, IsDecimal, Overflows;
    if doc.Leaf? && doc.v.String? { QuotedOpens(doc.written, doc.v.text); }
  }

  /** What comes behind is not read as part of the document: only a bare number can be carried
      on. */
  predicate Stops(doc: Doc, s: string, i: nat)
    requires i <= |s|
  {
    doc.Leaf? && doc.v.Number? ==> Strtod(s, i) == Decimal(i + |doc.v.literal|)
  }

  /** A scalar parses back, and the cursor stops right after it, if and only if it is not too
      deep and, for a number, strtod stops there; otherwise something else is parsed, or
      nothing. */
  lemma ParseScalar(s: string, i: nat, v: Value, w: string, nesting: nat)
    requires IsToken(v, w) && i + |w| <= |s| && s[i..i + |w|] == w
    ensures var r := ParseValue(s, i, nesting);
            if nesting <= MAX_NESTING && Stops(Leaf(v, w), s, i) then r == Ok(v, i + |w|)
            else r.Fail? || (r.value != v && r.next != i + |w|) || (v.Number? && Strtod(s, i) == NoNumber)
    ensures nesting > MAX_NESTING ==> ParseValue(s, i, nesting) == Fail
  {
    hide GetQuoted, Strtod, IsDecimal, Overflows, IsQuoted;
    if v.String? {
      QuotedIsRead(s, i, w, v.text);
      QuotedOpens(w, v.text);
    }
    assert w != "" ==> s[i] == s[i..i + |w|][0];
  }

  // ---------------------------------------------------------------- the parser on a layout

  lemma FirstOfSlots(slots: seq<Slot>, v: Value, tail: seq<Value>)
    requires slots != [] && v == ValueOf(slots[0].doc) && tail == ElementsOf(slots[1..])
    ensures ElementsOf(slots) == [v] + tail
    ensures ElementsDepth(ElementsOf(slots)) == Max(1 + Depth(v), ElementsDepth(tail))
    ensures |slots| == 1 ==> ElementsOf(slots) == [v] && ElementsDepth(ElementsOf(slots)) == 1 + Depth(v)
  {
    hide Depth, ValueOf, ElementsDepth;
    ConsElementsDepth(ElementsOf(slots), v, tail);
  }

  lemma FirstOfEntries(entries: seq<Entry>, item: Item<Value>, tail: seq<Item<Value>>)
    requires entries != [] && item == Item(entries[0].name, ValueOf(entries[0].doc)) && tail == MembersOf(entries[1..])
    ensures MembersOf(entries) == [item] + tail
    ensures MembersDepth(MembersOf(entries)) == Max(1 + Depth(item.value), MembersDepth(tail))
    ensures |entries| == 1 ==> MembersOf(entries) == [item] && MembersDepth(MembersOf(entries)) == 1 + Depth(item.value)
  {
    hide Depth, ValueOf, MembersDepth;
    ConsMembersDepth(MembersOf(entries), item, tail);
  }

  /** What the parser needs to know of a document. */
  ghost predicate Ready(doc: Doc) {
    Tokens(doc) && Spaced(doc)
  }

  ghost predicate SlotsReady(slots: seq<Slot>) {
    forall k :: 0 <= k < |slots| ==>
      Ready(slots[k].doc) && Blank(slots[k].before) && AfterGap(slots[k].after, k == |slots| - 1)
  }

  ghost predicate EntryReady(entry: Entry, last: bool) {
    && Ready(entry.doc) && IsName(entry.name) && IsQuoted(entry.quoted, entry.name)
    && Blank(entry.before) && Blank(entry.beforeColon) && Blank(entry.afterColon) && AfterGap(entry.after, last)
  }

  ghost predicate EntriesReady(entries: seq<Entry>) {
    forall k :: 0 <= k < |entries| ==> EntryReady(entries[k], k == |entries| - 1)
  }

  lemma ListReady(doc: Doc)
    requires doc.List?
    ensures Ready(doc) <==> Blank(doc.inner) && SlotsReady(doc.slots)
  {
    hide Blank, LastGap;
  }

  lemma DictReady(doc: Doc)
    requires doc.Dict?
    ensures Ready(doc) <==> Blank(doc.inner) && EntriesReady(doc.entries) && Distinct(MembersOf(doc.entries))
  {
    hide Blank, LastGap, IsQuoted, Distinct;
  }

  lemma FirstSlotReady(slots: seq<Slot>)
    requires slots != [] && SlotsReady(slots)
    ensures Ready(slots[0].doc) && Blank(slots[0].before) && AfterGap(slots[0].after, |slots| == 1)
    ensures SlotsReady(slots[1..])
  {
    hide Ready, Blank, AfterGap;
    forall k | 0 <= k < |slots[1..]|
      ensures var slot := slots[1..][k];
              Ready(slot.doc) && Blank(slot.before) && AfterGap(slot.after, k == |slots[1..]| - 1)
    {
      assert slots[1..][k] == slots[k + 1];
    }
  }

  lemma FirstEntryReady(entries: seq<Entry>)
    requires entries != [] && EntriesReady(entries)
    ensures EntryReady(entries[0], |entries| == 1)
    ensures EntriesReady(entries[1..])
  {
    hide EntryReady;
    forall k | 0 <= k < |entries[1..]| ensures EntryReady(entries[1..][k], k == |entries[1..]| - 1) {
      assert entries[1..][k] == entries[k + 1];
    }
  }

  /** The text of a document parses to its value, and the cursor stops right after it, if and
      only if the value's depth and the nesting around it stay within the bound and a bare
      number is not carried on; otherwise something else is parsed, or nothing. */
  lemma {:induction false} ParseDoc(s: string, i: nat, doc: Doc, nesting: nat)
    requires Ready(doc)
    requires i + |Text(doc)| <= |s| && s[i..i + |Text(doc)|] == Text(doc)
    ensures var end, r := i + |Text(doc)|, ParseValue(s, i, nesting);
            && (nesting + Depth(ValueOf(doc)) > MAX_NESTING ==> r == Fail)
            && (if nesting + Depth(ValueOf(doc)) <= MAX_NESTING && Stops(doc, s, i) then r == Ok(ValueOf(doc), end)
                else r.Fail? || (r.value != ValueOf(doc) && r.next != end))
    decreases doc, 2
  {
    hide ParseValue, SlotsText, ElementsDepth, EntriesText, MembersDepth, Ready, ElementsOf, MembersOf;
    match doc {
      case Leaf(v, written) =>
        LeafReady(doc);
        if v.Number? { ScanInPlace(s, i, written); }
        ParseScalar(s, i, v, written, nesting);
      case List(inner, slots) =>
        ListReady(doc);
        ParseList(s, i, i + |Text(doc)|, inner, slots, nesting);
      case Dict(inner, entries) =>
        DictReady(doc);
        ParseDict(s, i, i + |Text(doc)|, inner, entries, nesting);
    }
  }

  lemma LeafReady(doc: Doc)
    requires Ready(doc) && doc.Leaf?
    ensures IsToken(doc.v, doc.written) && Depth(doc.v) == 0
    ensures doc.v.Number? ==> doc.written == doc.v.literal && Strtod(doc.written, 0) == Decimal(|doc.written|)
  {
  }

  lemma {:induction false} ParseList(s: string, i: nat, end: nat, inner: string, slots: seq<Slot>, nesting: nat)
    requires Blank(inner) && SlotsReady(slots) && i <= end <= |s|
    requires s[i..end] == "[" + ((if slots == [] then inner else SlotsText(slots)) + "]")
    ensures ParseValue(s, i, nesting) ==
            if nesting + ElementsDepth(ElementsOf(slots)) <= MAX_NESTING
            then Ok(Array(ElementsOf(slots)), end) else Fail
    decreases slots, 3
  {
    hide ParseValue, ParseElements, SkipSpaces, Ready, ValueOf, FromFirst, ElementsDepth, Blank, Opens, AfterGap;
    AtArray(s, i, nesting);
    assert s[i] == s[i..end][0];
    if slots == [] {
      SplitSlice(s, i, end, "[", inner + "]");
      var j := SkipGap(s, i + 1, end, inner, "]");
      NoDepth();
    } else {
      var first := FromFirst(slots) + "]";
      SplitSlice(s, i, end, "[", SlotsText(slots) + "]");
      FromFirstOpens(slots);
      assert SlotsText(slots) + "]" == slots[0].before + first;
      var j := SkipGap(s, i + 1, end, slots[0].before, first);
      ParseSlots(s, j, end, slots, nesting + 1, [], ElementsOf(slots));
      FirstOfSlots(slots, ValueOf(slots[0].doc), ElementsOf(slots[1..]));
    }
  }

  lemma FromFirstOpens(slots: seq<Slot>)
    requires slots != [] && SlotsReady(slots)
    ensures FromFirst(slots) != "" && Opens(FromFirst(slots)[0])
    ensures !IsSpace(FromFirst(slots)[0]) && FromFirst(slots)[0] !in {']', '}', ',', '\0'}
  {
    hide SlotsText, Text, Tokens, Spaced, AfterGap;
    TextOpens(slots[0].doc);
  }

  /** A text, the white space after it, and what follows. */
  lemma AfterText(s: string, i: nat, end: nat, t: string, gap: string, rest: string) returns (j: nat)
    requires i <= end <= |s| && s[i..end] == t + (gap + rest) && Blank(gap)
    requires rest != "" && !IsSpace(rest[0]) && !Extends(rest[0])
    ensures i + |t| <= j < end && s[i..i + |t|] == t && s[j..end] == rest && s[j] == rest[0]
    ensures j == SkipSpaces(s, i + |t|) && !Extends(s[i + |t|])
  {
    hide Blank, SkipSpaces;
    SplitSlice(s, i, end, t, gap + rest);
    j := SkipGap(s, i + |t|, end, gap, rest);
  }

  /** White space, a comma or a bracket carries no number on. */
  lemma LeafStops(doc: Doc, s: string, i: nat)
    requires Tokens(doc) && i + |Text(doc)| <= |s| && s[i..i + |Text(doc)|] == Text(doc)
    requires !Extends(At(s, i + |Text(doc)|))
    ensures Stops(doc, s, i)
  {
    hide Strtod, Extends, IsDecimal, Overflows, IsQuoted;
    if doc.Leaf? && doc.v.Number? { ScanInPlace(s, i, doc.written); }
  }

  /** An element or a member's value, parsed, and the gap after it. */
  lemma {:induction false} ParseItem(s: string, i: nat, end: nat, doc: Doc, nesting: nat, gap: string, rest: string)
    returns (j: nat)
    requires Ready(doc) && Blank(gap) && i <= end <= |s| && s[i..end] == Text(doc) + (gap + rest)
    requires rest != "" && !IsSpace(rest[0]) && !Extends(rest[0])
    ensures i < j < end && s[i] != '\0' && s[j..end] == rest && s[j] == rest[0]
    ensures var pv := ParseValue(s, i, nesting);
            if nesting + Depth(ValueOf(doc)) <= MAX_NESTING
            then pv.Ok? && pv.value == ValueOf(doc) && SkipSpaces(s, pv.next) == j
            else pv == Fail
    decreases doc, 3
  {
    hide ParseValue, SkipSpaces, Spaced, Tokens, ValueOf, Text, Depth, Extends, Stops, Blank;
    TextOpens(doc);
    j := AfterText(s, i, end, Text(doc), gap, rest);
    assert s[i] == s[i..i + |Text(doc)|][0];
    LeafStops(doc, s, i);
    ParseDoc(s, i, doc, nesting);
  }

  /** The gap after the last element with the closing bracket: blank, or with a comma. */
  lemma LastGapForms(g: string, close: string) returns (a: string, rest: string, b: Option<string>)
    requires LastGap(g)
    ensures Blank(a) && g + close == a + rest && (b.Some? ==> Blank(b.value))
    ensures rest == if b.None? then close else "," + (b.value + close)
  {
    if Blank(g) {
      a, rest, b := g, close, None;
    } else {
      var c, d :| WithComma(g, c, d);
      a, rest, b := c, "," + (d + close), Some(d);
    }
  }

  /** The last element, a comma perhaps, and the closing bracket. */
  lemma {:induction false} ParseLastSlot(s: string, i: nat, end: nat, slot: Slot, nesting: nat, parsed: seq<Value>)
    requires Ready(slot.doc) && LastGap(slot.after)
    requires i <= end <= |s| && s[i..end] == Text(slot.doc) + (slot.after + "]")
    ensures var v := ValueOf(slot.doc);
            ParseElements(s, i, nesting, parsed) ==
            if nesting + Depth(v) <= MAX_NESTING then Ok(parsed + [v], end) else Fail
    decreases slot.doc, 4
  {
    hide ParseValue, ParseElements, SkipSpaces, Ready, ValueOf, Text, Blank, Depth, LastGap;
    var v := ValueOf(slot.doc);
    var a, rest, b := LastGapForms(slot.after, "]");
    var j := ParseItem(s, i, end, slot.doc, nesting, a, rest);
    if nesting + Depth(v) > MAX_NESTING {
      BadElement(s, i, nesting, parsed);
    } else if b.None? {
      LastElement(s, i, nesting, parsed, j);
    } else {
      var k := AfterComma(s, j, end, b.value, "]");
      TrailingElement(s, i, nesting, parsed, j, k);
    }
  }

  /** From a comma over white space to what follows. */
  lemma AfterComma(s: string, j: nat, end: nat, gap: string, rest: string) returns (k: nat)
    requires j <= end <= |s| && s[j..end] == "," + (gap + rest) && Blank(gap) && rest != "" && !IsSpace(rest[0])
    ensures j < end && s[j] == ',' && k == SkipSpaces(s, j + 1) && k < end && s[k..end] == rest && s[k] == rest[0]
    ensures |rest| == 1 ==> k + 1 == end
  {
    hide Blank, SkipSpaces;
    SplitSlice(s, j, end, ",", gap + rest);
    assert s[j] == s[j..j + 1][0];
    k := SkipGap(s, j + 1, end, gap, rest);
  }

  /** The element loop, from an element's first token to the closing bracket. */
  lemma {:induction false} ParseSlots(s: string, i: nat, end: nat, slots: seq<Slot>, nesting: nat, parsed: seq<Value>,
                                      all: seq<Value>)
    requires slots != [] && nesting > 0 && SlotsReady(slots) && all == parsed + ElementsOf(slots)
    requires i <= end <= |s| && s[i..end] == FromFirst(slots) + "]"
    ensures ParseElements(s, i, nesting, parsed) ==
            if nesting - 1 + ElementsDepth(ElementsOf(slots)) <= MAX_NESTING
            then Ok(all, end) else Fail
    decreases slots, 2
  {
    hide ParseValue, ParseElements, SkipSpaces, Ready, SlotsReady, ValueOf, SlotsText, ElementsDepth, Blank, Depth;
    hide ElementsOf, Text, LastGap, Opens;
    FirstSlotReady(slots);
    var v, tail := ValueOf(slots[0].doc), ElementsOf(slots[1..]);
    FirstOfSlots(slots, v, tail);
    Reassociate(parsed, v, tail, ElementsOf(slots), all);
    if |slots| == 1 {
      assert FromFirst(slots) + "]" == Text(slots[0].doc) + (slots[0].after + "]");
      ParseLastSlot(s, i, end, slots[0], nesting, parsed);
    } else {
      var rest := "," + (slots[1].before + (FromFirst(slots[1..]) + "]"));
      SlotText(slots, rest);
      var j := ParseItem(s, i, end, slots[0].doc, nesting, slots[0].after, rest);
      if nesting + Depth(v) > MAX_NESTING {
        BadElement(s, i, nesting, parsed);
      } else {
        FromFirstOpens(slots[1..]);
        FirstSlotReady(slots[1..]);
        var k := AfterComma(s, j, end, slots[1].before, FromFirst(slots[1..]) + "]");
        NextElement(s, i, nesting, parsed, j, k);
        ParseSlots(s, k, end, slots[1..], nesting, parsed + [v], all);
      }
    }
  }

  lemma SlotText(slots: seq<Slot>, rest: string)
    requires |slots| > 1 && rest == "," + (slots[1].before + (FromFirst(slots[1..]) + "]"))
    ensures FromFirst(slots) + "]" == Text(slots[0].doc) + (slots[0].after + rest)
  {
    hide Text;
    var t, a, b, x := Text(slots[0].doc), slots[0].after, slots[1].before, FromFirst(slots[1..]);
    assert FromFirst(slots) == t + (a + ("," + (b + x)));
    Outermost(t, a + ("," + (b + x)), "]");
    Outermost(a, "," + (b + x), "]");
    Outermost(",", b + x, "]");
    Outermost(b, x, "]");
  }

  /** A member's name, the colon, and the gaps up to the value. */
  lemma ParseEntryName(s: string, i: nat, end: nat, entry: Entry, rest: string) returns (j: nat)
    requires i <= end <= |s| && IsName(entry.name) && IsQuoted(entry.quoted, entry.name)
    requires Blank(entry.beforeColon) && Blank(entry.afterColon)
    requires s[i..end] == entry.quoted + (entry.beforeColon + (":" + (entry.afterColon + rest)))
    requires rest != "" && Opens(rest[0])
    ensures i < j < end && s[i] == '\"' && s[j..end] == rest
    ensures ParseName(s, i).Ok? && ParseName(s, i).value == entry.name
    ensures SkipSpaces(s, ParseName(s, i).next) == j && ParseName(s, i).next <= j
  {
    hide IsQuoted, GetQuoted, Blank, SkipSpaces, IsName, Opens;
    var q := entry.quoted;
    SplitSlice(s, i, end, q, entry.beforeColon + (":" + (entry.afterColon + rest)));
    QuotedOpens(q, entry.name);
    assert s[i] == s[i..i + |q|][0];
    QuotedIsRead(s, i, q, entry.name);
    j := ParseColon(s, i + |q|, end, entry, rest);
  }

  lemma ParseColon(s: string, i: nat, end: nat, entry: Entry, rest: string) returns (j: nat)
    requires i <= end <= |s| && Blank(entry.beforeColon) && Blank(entry.afterColon)
    requires s[i..end] == entry.beforeColon + (":" + (entry.afterColon + rest))
    requires rest != "" && Opens(rest[0])
    ensures var c := SkipSpaces(s, i);
            c < end && s[c] == ':' && j < end && j == SkipSpaces(s, c + 1) && s[j..end] == rest
  {
    hide Blank, SkipSpaces;
    var fromColon := ":" + (entry.afterColon + rest);
    var c := SkipGap(s, i, end, entry.beforeColon, fromColon);
    SplitSlice(s, c, end, ":", entry.afterColon + rest);
    j := SkipGap(s, c + 1, end, entry.afterColon, rest);
  }

  /** The parser skips white space in front of a value. */
  lemma ParseValueSkips(s: string, i: nat, nesting: nat)
    requires i <= |s|
    ensures ParseValue(s, i, nesting) == ParseValue(s, SkipSpaces(s, i), nesting)
  {
    SkipSpacesIs(s, SkipSpaces(s, i), SkipSpaces(s, i));
  }

  /** A member and the gap after it. */
  lemma {:induction false} ParseEntry(s: string, i: nat, end: nat, entry: Entry, nesting: nat, gap: string,
                                      rest: string)
    returns (j: nat)
    requires Ready(entry.doc) && IsName(entry.name) && IsQuoted(entry.quoted, entry.name)
    requires Blank(entry.beforeColon) && Blank(entry.afterColon) && Blank(gap) && i <= end <= |s|
    requires s[i..end] ==
             entry.quoted + (entry.beforeColon + (":" + (entry.afterColon + (Text(entry.doc) + (gap + rest)))))
    requires rest != "" && !IsSpace(rest[0]) && !Extends(rest[0])
    ensures i < j < end && s[i] == '\"' && s[j..end] == rest && s[j] == rest[0]
    ensures ParseName(s, i).Ok? && ParseName(s, i).value == entry.name
    ensures var pv := ParseValue(s, ParseName(s, i).next, nesting);
            if nesting + Depth(ValueOf(entry.doc)) <= MAX_NESTING
            then pv.Ok? && pv.value == ValueOf(entry.doc) && SkipSpaces(s, pv.next) == j
            else pv == Fail
    decreases entry.doc, 4
  {
    hide ParseValue, ParseName, SkipSpaces, Spaced, Tokens, ValueOf, Blank, Text, Depth, Extends;
    hide IsName, IsQuoted, Opens;
    TextOpens(entry.doc);
    var m := ParseEntryName(s, i, end, entry, Text(entry.doc) + (gap + rest));
    j := ParseItem(s, m, end, entry.doc, nesting, gap, rest);
    ParseValueSkips(s, ParseName(s, i).next, nesting);
  }

  /** The last member, a comma perhaps, and the closing brace. */
  lemma {:induction false} ParseLastEntry(s: string, i: nat, end: nat, entry: Entry, nesting: nat,
                                          parsed: seq<Item<Value>>)
    requires EntryReady(entry, true) && !Has(parsed, entry.name) && i <= end <= |s|
    requires s[i..end] ==
             entry.quoted + (entry.beforeColon + (":" + (entry.afterColon + (Text(entry.doc) + (entry.after + "}")))))
    ensures var item := Item(entry.name, ValueOf(entry.doc));
            ParseMembers(s, i, nesting, parsed) ==
            if nesting + Depth(item.value) <= MAX_NESTING then Ok(parsed + [item], end) else Fail
    decreases entry.doc, 5
  {
    hide ParseValue, ParseMembers, ParseName, SkipSpaces, Ready, ValueOf, Blank, Has, Depth, IsName;
    hide IsQuoted, Text, LastGap;
    var v := ValueOf(entry.doc);
    var a, rest, b := LastGapForms(entry.after, "}");
    var j := ParseEntry(s, i, end, entry, nesting, a, rest);
    if nesting + Depth(v) > MAX_NESTING {
      BadMember(s, i, nesting, parsed);
    } else if b.None? {
      LastMember(s, i, nesting, parsed, j);
    } else {
      var k := AfterComma(s, j, end, b.value, "}");
      TrailingMember(s, i, nesting, parsed, j, k);
    }
  }

  lemma FromNameOpens(entries: seq<Entry>)
    requires entries != [] && EntriesReady(entries)
    ensures FromName(entries) != "" && FromName(entries)[0] == '\"'
  {
    hide FromValue, IsQuoted, Ready;
    assert EntryReady(entries[0], |entries| == 1);
    QuotedOpens(entries[0].quoted, entries[0].name);
  }

  lemma {:induction false} ParseDict(s: string, i: nat, end: nat, inner: string, entries: seq<Entry>, nesting: nat)
    requires Blank(inner) && EntriesReady(entries) && Distinct(MembersOf(entries)) && i <= end <= |s|
    requires s[i..end] == "{" + ((if entries == [] then inner else EntriesText(entries)) + "}")
    ensures ParseValue(s, i, nesting) ==
            if nesting + MembersDepth(MembersOf(entries)) <= MAX_NESTING
            then Ok(Object(MembersOf(entries)), end) else Fail
    decreases entries, 3
  {
    hide ParseValue, ParseMembers, SkipSpaces, Ready, ValueOf, FromName, MembersDepth, Blank, Distinct;
    hide IsQuoted, AfterGap;
    AtObject(s, i, nesting);
    assert s[i] == s[i..end][0];
    if entries == [] {
      SplitSlice(s, i, end, "{", inner + "}");
      var j := SkipGap(s, i + 1, end, inner, "}");
      NoDepth();
    } else {
      var first := FromName(entries) + "}";
      SplitSlice(s, i, end, "{", EntriesText(entries) + "}");
      FromNameOpens(entries);
      FirstEntryReady(entries);
      assert EntriesText(entries) + "}" == entries[0].before + first;
      var j := SkipGap(s, i + 1, end, entries[0].before, first);
      ParseEntries(s, j, end, entries, nesting + 1, [], MembersOf(entries));
      FirstOfEntries(entries, Item(entries[0].name, ValueOf(entries[0].doc)), MembersOf(entries[1..]));
    }
  }

  /** The member loop, from a member's name to the closing brace. */
  lemma {:induction false} ParseEntries(s: string, i: nat, end: nat, entries: seq<Entry>, nesting: nat,
                                        parsed: seq<Item<Value>>, all: seq<Item<Value>>)
    requires entries != [] && nesting > 0 && EntriesReady(entries)
    requires all == parsed + MembersOf(entries) && Distinct(all)
    requires i <= end <= |s| && s[i..end] == FromName(entries) + "}"
    ensures ParseMembers(s, i, nesting, parsed) ==
            if nesting - 1 + MembersDepth(MembersOf(entries)) <= MAX_NESTING
            then Ok(all, end) else Fail
    decreases entries, 2
  {
    hide ParseValue, ParseMembers, ParseName, SkipSpaces, Ready, ValueOf, EntriesText, FromName, MembersDepth, Blank;
    hide Distinct, Has, Depth, MembersOf, IsName, IsQuoted, Text, EntriesReady, LastGap;
    FirstEntryReady(entries);
    var entry, v, tail := entries[0], ValueOf(entries[0].doc), MembersOf(entries[1..]);
    var item := Item(entry.name, v);
    FirstOfEntries(entries, item, tail);
    Reassociate(parsed, item, tail, MembersOf(entries), all);
    NotYetParsed(parsed, item, tail, all);
    if |entries| == 1 {
      LastEntryText(entries);
      ParseLastEntry(s, i, end, entry, nesting, parsed);
    } else {
      var rest := "," + (entries[1].before + (FromName(entries[1..]) + "}"));
      EntryText(entries, rest);
      var j := ParseEntry(s, i, end, entry, nesting, entry.after, rest);
      if nesting + Depth(v) > MAX_NESTING {
        BadMember(s, i, nesting, parsed);
      } else {
        FromNameOpens(entries[1..]);
        FirstEntryReady(entries[1..]);
        var k := AfterComma(s, j, end, entries[1].before, FromName(entries[1..]) + "}");
        NextMember(s, i, nesting, parsed, j, k);
        ParseEntries(s, k, end, entries[1..], nesting, parsed + [item], all);
      }
    }
  }

  /** The text from the last member's name on, token by token. */
  lemma LastEntryText(entries: seq<Entry>)
    requires |entries| == 1
    ensures var e := entries[0];
            FromName(entries) + "}"
            == e.quoted + (e.beforeColon + (":" + (e.afterColon + (Text(e.doc) + (e.after + "}")))))
  {
    hide Text;
    var e, t := entries[0], Text(entries[0].doc);
    assert FromValue(entries) == t + (e.after + "") && e.after + "" == e.after;
    CloseEntry(e, t, e.after, "}");
  }

  lemma EntryText(entries: seq<Entry>, rest: string)
    requires |entries| > 1 && rest == "," + (entries[1].before + (FromName(entries[1..]) + "}"))
    ensures var e := entries[0];
            FromName(entries) + "}"
            == e.quoted + (e.beforeColon + (":" + (e.afterColon + (Text(e.doc) + (e.after + rest)))))
  {
    hide Text;
    var e, t, b, x := entries[0], Text(entries[0].doc), entries[1].before, FromName(entries[1..]);
    assert FromValue(entries) == t + (e.after + ("," + (b + x)));
    CloseEntry(e, t, e.after + ("," + (b + x)), "}");
    Outermost(e.after, "," + (b + x), "}");
    Outermost(",", b + x, "}");
    Outermost(b, x, "}");
  }

  lemma CloseEntry(e: Entry, t: string, tail: string, close: string)
    ensures e.quoted + (e.beforeColon + (":" + (e.afterColon + (t + tail)))) + close
         == e.quoted + (e.beforeColon + (":" + (e.afterColon + (t + (tail + close)))))
  {
    Outermost(e.quoted, e.beforeColon + (":" + (e.afterColon + (t + tail))), close);
    Outermost(e.beforeColon, ":" + (e.afterColon + (t + tail)), close);
    Outermost(":", e.afterColon + (t + tail), close);
    Outermost(e.afterColon, t + tail, close);
    Outermost(t, tail, close);
  }

  lemma NotYetParsed<V>(parsed: seq<Item<V>>, item: Item<V>, rest: seq<Item<V>>, all: seq<Item<V>>)
    requires all == parsed + [item] + rest && Distinct(all)
    ensures !Has(parsed, item.name)
  {
    assert all[|parsed|] == item;
    assert forall k :: 0 <= k < |parsed| ==> all[k] == parsed[k];
  }

  lemma Reassociate<T>(parsed: seq<T>, first: T, tail: seq<T>, both: seq<T>, all: seq<T>)
    requires both == [first] + tail && all == parsed + both
    ensures all == parsed + [first] + tail
    ensures tail == [] ==> all == parsed + [first]
  {
  }
}
