/** The recursive-descent parser, as functions on the text and a cursor position.

  Module Reader has the methods that move the cursor; they are proved against these.
 */
module Parser {
  import opened CText
  import opened Items
  import opened Numbers
  import opened Strings
  import opened Values

  /** parse_value: `nesting` is the number of containers around the value. */
  function ParseValue(s: string, i: nat, nesting: nat): (r: Parsed<Value>)
    requires i <= |s|
    ensures r.Ok? ==> i <= r.next <= |s|
    decreases |s| - i, 2
  {
    if nesting > MAX_NESTING then Fail
    else
      var j := SkipSpaces(s, i);
      var c := At(s, j);
      if c == '{' then ParseObject(s, j, nesting + 1)
      else if c == '[' then ParseArray(s, j, nesting + 1)
      else if c == '\"' then ParseString(s, j)
      else if c == 'f' || c == 't' then ParseBoolean(s, j)
      else if c == '-' || IsDigit(c) then
        var n := ParseNumber(s, j);
        if n.Fail? then Fail else Ok(Number(n.value), n.next)
      else if c == 'n' then ParseNull(s, j)
      else Fail
  }

  function ParseString(s: string, i: nat): (r: Parsed<Value>)
    requires i <= |s|
    ensures r.Ok? ==> i <= r.next <= |s|
  {
    var q := GetQuoted(s, i);
    if q.Fail? then Fail else Ok(String(q.value), q.next)
  }

  function ParseBoolean(s: string, i: nat): (r: Parsed<Value>)
    requires i <= |s|
    ensures r.Ok? ==> i <= r.next <= |s|
  {
    if StartsWith(s, i, "true") then Ok(Bool(true), i + 4)
    else if StartsWith(s, i, "false") then Ok(Bool(false), i + 5)
    else Fail
  }

  function ParseNull(s: string, i: nat): (r: Parsed<Value>)
    requires i <= |s|
    ensures r.Ok? ==> i <= r.next <= |s|
  {
    if StartsWith(s, i, "null") then Ok(Null, i + 4) else Fail
  }

  /** parse_array_value at the opening bracket. */
  function ParseArray(s: string, i: nat, nesting: nat): (r: Parsed<Value>)
    requires i < |s|
    ensures r.Ok? ==> i <= r.next <= |s|
    decreases |s| - i, 1
  {
    var j := SkipSpaces(s, i + 1);
    if At(s, j) == ']' then Ok(Array([]), j + 1)
    else
      var e := ParseElements(s, j, nesting, []);
      if e.Fail? then Fail else Ok(Array(e.value), e.next)
  }

  /** The loop of parse_array_value, with `parsed` already added, up to and including the
      closing bracket. A comma may come before it. */
  function ParseElements(s: string, i: nat, nesting: nat, parsed: seq<Value>): (r: Parsed<seq<Value>>)
    requires i <= |s|
    ensures r.Ok? ==> i <= r.next <= |s|
    decreases |s| - i, 3
  {
    if At(s, i) == '\0' then CloseBracket(s, i, ']', parsed)
    else
      var v := ParseValue(s, i, nesting);
      if v.Fail? then Fail
      else
        var j := SkipSpaces(s, v.next);
        if At(s, j) != ',' then CloseBracket(s, j, ']', parsed + [v.value])
        else
          var k := SkipSpaces(s, j + 1);
          if At(s, k) == ']' then CloseBracket(s, k, ']', parsed + [v.value])
          else ParseElements(s, k, nesting, parsed + [v.value])
  }

  /** What follows the loops: white space and the closing bracket. */
  function CloseBracket<T>(s: string, i: nat, close: char, result: T): (r: Parsed<T>)
    requires i <= |s| && close != '\0'
    ensures r.Ok? ==> i <= r.next <= |s|
  {
    var j := SkipSpaces(s, i);
    if At(s, j) == close then Ok(result, j + 1) else Fail
  }

  /** parse_object_value at the opening brace. */
  function ParseObject(s: string, i: nat, nesting: nat): (r: Parsed<Value>)
    requires i < |s|
    ensures r.Ok? ==> i <= r.next <= |s|
    decreases |s| - i, 1
  {
    var j := SkipSpaces(s, i + 1);
    if At(s, j) == '}' then Ok(Object([]), j + 1)
    else
      var m := ParseMembers(s, j, nesting, []);
      if m.Fail? then Fail else Ok(Object(m.value), m.next)
  }

  /** A member's name and the colon after it; a name with an embedded NUL is refused. */
  function ParseName(s: string, i: nat): (r: Parsed<string>)
    requires i <= |s|
    ensures r.Ok? ==> i < r.next <= |s|
  {
    var q := GetQuoted(s, i);
    if q.Fail? || !IsName(q.value) then Fail
    else
      var j := SkipSpaces(s, q.next);
      if At(s, j) == ':' then Ok(q.value, j + 1) else Fail
  }

  /** The loop of parse_object_value, up to and including the closing brace. A name that
      occurs twice makes parsing fail. */
  function ParseMembers(s: string, i: nat, nesting: nat, parsed: seq<Item<Value>>): (r: Parsed<seq<Item<Value>>>)
    requires i <= |s|
    ensures r.Ok? ==> i <= r.next <= |s|
    decreases |s| - i, 3
  {
    if At(s, i) == '\0' then CloseBracket(s, i, '}', parsed)
    else
      var name := ParseName(s, i);
      if name.Fail? then Fail
      else
        var v := ParseValue(s, name.next, nesting);
        if v.Fail? then Fail
        else
          var added := Add(parsed, name.value, v.value);
          if added.None? then Fail
          else
            var j := SkipSpaces(s, v.next);
            if At(s, j) != ',' then CloseBracket(s, j, '}', added.value)
            else
              var k := SkipSpaces(s, j + 1);
              if At(s, k) == '}' then CloseBracket(s, k, '}', added.value)
              else ParseMembers(s, k, nesting, added.value)
  }

  /** The byte order mark of UTF-8. */
  const BOM: string := [0xEF as char, 0xBB as char, 0xBF as char]

  /** json_parse_string: a byte order mark is skipped, and text after the first value is
      ignored. */
  function ParseText(s: string): Option<Value> {
    var v := ParseValue(s, if StartsWith(s, 0, BOM) then 3 else 0, 0);
    if v.Fail? then None else Some(v.value)
  }

  // ---------------------------------------------------------------- rounds that succeed

  lemma SkipTwice(s: string, i: nat)
    requires i <= |s|
    ensures SkipSpaces(s, SkipSpaces(s, i)) == SkipSpaces(s, i)
    ensures At(s, i) == '\0' ==> SkipSpaces(s, i) == i
  {
  }

  /** What a round of the element loop has done when parsing succeeds. */
  lemma ElementsRound(s: string, i: nat, nesting: nat, parsed: seq<Value>)
    requires i <= |s| && ParseElements(s, i, nesting, parsed).Ok?
    ensures At(s, i) != '\0' && ParseValue(s, i, nesting).Ok?
    ensures var v, r := ParseValue(s, i, nesting), ParseElements(s, i, nesting, parsed);
            var j := SkipSpaces(s, v.next);
            if At(s, j) != ',' then At(s, j) == ']' && r == Ok(parsed + [v.value], j + 1)
            else
              var k := SkipSpaces(s, j + 1);
              if At(s, k) == ']' then r == Ok(parsed + [v.value], k + 1)
              else ParseElements(s, k, nesting, parsed + [v.value]) == r
  {
    hide ParseValue, SkipSpaces;
    SkipTwice(s, i);
    var v := ParseValue(s, i, nesting);
    if v.Ok? {
      var j := SkipSpaces(s, v.next);
      SkipTwice(s, v.next);
      SkipTwice(s, if At(s, j) == ',' then j + 1 else j);
    }
  }

  lemma MembersRound(s: string, i: nat, nesting: nat, parsed: seq<Item<Value>>)
    requires i <= |s| && ParseMembers(s, i, nesting, parsed).Ok?
    ensures At(s, i) != '\0' && ParseName(s, i).Ok? && ParseValue(s, ParseName(s, i).next, nesting).Ok?
    ensures !Has(parsed, ParseName(s, i).value)
    ensures var name, r := ParseName(s, i), ParseMembers(s, i, nesting, parsed);
            var v := ParseValue(s, name.next, nesting);
            var j, all := SkipSpaces(s, v.next), parsed + [Item(name.value, v.value)];
            if At(s, j) != ',' then At(s, j) == '}' && r == Ok(all, j + 1)
            else
              var k := SkipSpaces(s, j + 1);
              if At(s, k) == '}' then r == Ok(all, k + 1) else ParseMembers(s, k, nesting, all) == r
  {
    hide ParseValue, ParseName, SkipSpaces, Find;
    SkipTwice(s, i);
    var name := ParseName(s, i);
    if name.Ok? && ParseValue(s, name.next, nesting).Ok? {
      var v := ParseValue(s, name.next, nesting);
      var j := SkipSpaces(s, v.next);
      SkipTwice(s, v.next);
      SkipTwice(s, if At(s, j) == ',' then j + 1 else j);
    }
  }

  // ---------------------------------------------------------------- single steps

  /** A member name with a NUL in it, however it is written, is refused. */
  lemma NulNameRefused(s: string, i: nat, nesting: nat, parsed: seq<Item<Value>>)
    requires i < |s| && GetQuoted(s, i).Ok? && '\0' in GetQuoted(s, i).value
    ensures ParseName(s, i) == Fail && ParseMembers(s, i, nesting, parsed) == Fail
  {
    hide GetQuoted, ParseValue;
    QuoteThere(s, i);
  }

  lemma QuoteThere(s: string, i: nat)
    requires i < |s| && GetQuoted(s, i).Ok?
    ensures s[i] == '\"'
  {
  }

  lemma AtNumber(s: string, i: nat, nesting: nat)
    requires i < |s| && IsDigit(s[i]) && nesting <= MAX_NESTING
    ensures ParseValue(s, i, nesting) ==
            match ParseNumber(s, i) case Ok(literal, next) => Ok(Number(literal), next) case Fail => Fail
  {
    hide ParseNumber;
    assert SkipSpaces(s, i) == i;
  }

  lemma AtArray(s: string, i: nat, nesting: nat)
    requires i < |s| && s[i] == '['
    ensures ParseValue(s, i, nesting) == if nesting <= MAX_NESTING then ParseArray(s, i, nesting + 1) else Fail
  {
    hide ParseArray;
  }

  lemma AtObject(s: string, i: nat, nesting: nat)
    requires i < |s| && s[i] == '{'
    ensures ParseValue(s, i, nesting) == if nesting <= MAX_NESTING then ParseObject(s, i, nesting + 1) else Fail
  {
    hide ParseObject;
  }

  /** One element followed by a comma and another element. */
  lemma NextElement(s: string, i: nat, nesting: nat, parsed: seq<Value>, j: nat, k: nat)
    requires i < |s| && s[i] != '\0' && ParseValue(s, i, nesting).Ok?
    requires j == SkipSpaces(s, ParseValue(s, i, nesting).next) && At(s, j) == ','
    requires k == SkipSpaces(s, j + 1) && At(s, k) != ']'
    ensures ParseElements(s, i, nesting, parsed)
            == ParseElements(s, k, nesting, parsed + [ParseValue(s, i, nesting).value])
  {
    hide ParseValue, SkipSpaces;
  }

  /** The last element, with the closing bracket at j. */
  lemma LastElement(s: string, i: nat, nesting: nat, parsed: seq<Value>, j: nat)
    requires i < |s| && s[i] != '\0' && ParseValue(s, i, nesting).Ok?
    requires j == SkipSpaces(s, ParseValue(s, i, nesting).next) && At(s, j) == ']'
    ensures ParseElements(s, i, nesting, parsed) == Ok(parsed + [ParseValue(s, i, nesting).value], j + 1)
  {
    hide ParseValue;
    assert SkipSpaces(s, j) == j;
  }

  /** The last element, with a comma at j and the closing bracket at k. */
  lemma TrailingElement(s: string, i: nat, nesting: nat, parsed: seq<Value>, j: nat, k: nat)
    requires i < |s| && s[i] != '\0' && ParseValue(s, i, nesting).Ok?
    requires j == SkipSpaces(s, ParseValue(s, i, nesting).next) && At(s, j) == ','
    requires k == SkipSpaces(s, j + 1) && At(s, k) == ']'
    ensures ParseElements(s, i, nesting, parsed) == Ok(parsed + [ParseValue(s, i, nesting).value], k + 1)
  {
    hide ParseValue;
    assert SkipSpaces(s, k) == k;
  }

  lemma BadElement(s: string, i: nat, nesting: nat, parsed: seq<Value>)
    requires i < |s| && s[i] != '\0' && ParseValue(s, i, nesting).Fail?
    ensures ParseElements(s, i, nesting, parsed) == Fail
  {
  }

  lemma NextMember(s: string, i: nat, nesting: nat, parsed: seq<Item<Value>>, j: nat, k: nat)
    requires i < |s| && s[i] != '\0' && ParseName(s, i).Ok? && ParseValue(s, ParseName(s, i).next, nesting).Ok?
    requires var name, v := ParseName(s, i), ParseValue(s, ParseName(s, i).next, nesting);
             !Has(parsed, name.value) && j == SkipSpaces(s, v.next) && At(s, j) == ','
    requires k == SkipSpaces(s, j + 1) && At(s, k) != '}'
    ensures var name, v := ParseName(s, i), ParseValue(s, ParseName(s, i).next, nesting);
            ParseMembers(s, i, nesting, parsed) == ParseMembers(s, k, nesting, parsed + [Item(name.value, v.value)])
  {
    hide ParseValue, ParseName, SkipSpaces, CloseBracket, Find;
  }

  lemma LastMember(s: string, i: nat, nesting: nat, parsed: seq<Item<Value>>, j: nat)
    requires i < |s| && s[i] != '\0' && ParseName(s, i).Ok? && ParseValue(s, ParseName(s, i).next, nesting).Ok?
    requires var name, v := ParseName(s, i), ParseValue(s, ParseName(s, i).next, nesting);
             !Has(parsed, name.value) && j == SkipSpaces(s, v.next) && At(s, j) == '}'
    ensures var name, v := ParseName(s, i), ParseValue(s, ParseName(s, i).next, nesting);
            ParseMembers(s, i, nesting, parsed) == Ok(parsed + [Item(name.value, v.value)], j + 1)
  {
    hide ParseValue, ParseName, Has;
    assert SkipSpaces(s, j) == j;
  }

  lemma TrailingMember(s: string, i: nat, nesting: nat, parsed: seq<Item<Value>>, j: nat, k: nat)
    requires i < |s| && s[i] != '\0' && ParseName(s, i).Ok? && ParseValue(s, ParseName(s, i).next, nesting).Ok?
    requires var name, v := ParseName(s, i), ParseValue(s, ParseName(s, i).next, nesting);
             !Has(parsed, name.value) && j == SkipSpaces(s, v.next) && At(s, j) == ','
    requires k == SkipSpaces(s, j + 1) && At(s, k) == '}'
    ensures var name, v := ParseName(s, i), ParseValue(s, ParseName(s, i).next, nesting);
            ParseMembers(s, i, nesting, parsed) == Ok(parsed + [Item(name.value, v.value)], k + 1)
  {
    hide ParseValue, ParseName, Find;
    assert SkipSpaces(s, k) == k;
  }

  lemma BadMember(s: string, i: nat, nesting: nat, parsed: seq<Item<Value>>)
    requires i < |s| && s[i] != '\0' && ParseName(s, i).Ok? && ParseValue(s, ParseName(s, i).next, nesting).Fail?
    ensures ParseMembers(s, i, nesting, parsed) == Fail
  {
  }
}
