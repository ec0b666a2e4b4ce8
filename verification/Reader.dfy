/** The parser as it runs: methods that move a cursor over the text, fill an output buffer
    for strings, and build each object in a hash table. Each is proved against the function
    of the same name in modules Strings and Parser.
 */
module Reader {
  import opened Bits
  import opened CText
  import opened Items
  import opened Numbers
  import opened Strings
  import opened Values
  import opened Utf8
  import Spec = Parser
  import T = ObjectTable

  /** What a parsing method leaves behind, against what its specification returns. */
  ghost predicate Agrees<V>(r: Option<V>, pos: nat, spec: Parsed<V>) {
    if spec.Fail? then r == None else r == Some(spec.value) && pos == spec.next
  }

  /** How a round of the member loop ends. */
  datatype Round = Refused | LastOne | Another

  class Reader {
    const text: string
    var pos: nat

    ghost predicate Valid()
      reads this
    {
      pos <= |text|
    }

    constructor (text: string, pos: nat)
      requires pos <= |text|
      ensures Valid() && this.text == text && this.pos == pos
    {
      this.text := text;
      this.pos := pos;
    }

    method SkipWhitespace()
      requires Valid()
      modifies this
      ensures Valid() && pos == SkipSpaces(text, old(pos))
    {
      while IsSpace(At(text, pos))
        invariant Valid() && SkipSpaces(text, pos) == SkipSpaces(text, old(pos))
        decreases |text| - pos
      {
        pos := pos + 1;
      }
    }

    /** skip_quotes. */
    method SkipQuotedString() returns (ok: bool)
      requires Valid()
      modifies this
      ensures Valid() && ok == SkipQuotes(text, old(pos)).Ok?
      ensures ok ==> pos == SkipQuotes(text, old(pos)).next
    {
      if At(text, pos) != '\"' {
        return false;
      }
      pos := pos + 1;
      while At(text, pos) != '\"'
        invariant Valid() && SkipBody(text, pos) == SkipQuotes(text, old(pos))
        decreases |text| - pos
      {
        if At(text, pos) == '\0' {
          return false;
        } else if At(text, pos) == '\\' {
          pos := pos + 1;
          if At(text, pos) == '\0' {
            return false;
          }
        }
        pos := pos + 1;
      }
      pos := pos + 1;
      ok := true;
    }

    /** parse_utf16 at the `u` in position p, writing from output[at] on: the number of bytes
        written and the position of the last hex digit. */
    method ParseUtf16(p: nat, output: array<char>, at: nat) returns (ok: bool, n: nat, last: nat)
      requires p < |text|
      requires Utf16(text, p).Ok? ==> at + |Utf16(text, p).value| <= output.Length
      modifies output
      ensures ok == Utf16(text, p).Ok?
      ensures ok ==> n == |Utf16(text, p).value| && last == Utf16(text, p).next
      ensures ok ==> output[..at + n] == old(output[..at]) + Utf16(text, p).value
    {
      hide Hex4, TrailUnit, Combine, Encode;
      ok, n, last := false, 0, p;
      var hex := Hex4(text, p + 1);
      if hex.Fail? {
        return;
      }
      Hex4Is(text, p + 1);
      var cp := hex.value;
      last := p + 4;
      if cp >= 0xD800 && cp <= 0xDBFF {
        var trail := TrailUnit(text, p + 5);
        if trail.Fail? {
          return;
        }
        CombineExact(cp, trail.value);
        cp := Combine(cp, trail.value);
        last := p + 10;
      } else if cp >= 0xDC00 && cp <= 0xDFFF {
        return;
      }
      n := WriteUtf8(cp, output, at);
      ok := true;
    }

    /** The quote at `end` closes the string read from i on. */
    ghost predicate Closes(i: nat, end: nat)
      requires i <= |text|
    {
      SkipBody(text, i).Ok? && SkipBody(text, i).next == end + 1
    }

    /** The switch of process_string on what follows a backslash: the new positions in the
        text and in the output. */
    method ProcessEscape(i: nat, end: nat, output: array<char>, o: nat) returns (ok: bool, i': nat, o': nat)
      requires i < end < |text| && text[i] == '\\' && Closes(i, end) && o + (end - i) < output.Length
      modifies output
      ensures !ok ==> Process(text, i, end, old(output[..o])).Fail?
      ensures ok ==> i < i' <= end && o < o' <= o + (i' - i) && Closes(i', end)
      ensures ok ==> Process(text, i, end, old(output[..o])) == Process(text, i', end, output[..o'])
    {
      hide Utf16, Unescape;
      ok, i', o' := false, i, o;
      var c := At(text, i + 1);
      if c == 'u' {
        if Utf16(text, i + 1).Ok? {
          SkipUtf16(text, i + 1);
        }
        var done, n, last := ParseUtf16(i + 1, output, o);
        if done {
          ok, i', o' := true, last + 1, o + n;
        }
      } else {
        var e := Unescape(c);
        if e.Ok? {
          PutByte(output, o, e.value);
          ok, i', o' := true, i + 2, o + 1;
        }
      }
    }

    /** process_string over text[input..input + inputLen], between the quotes that skip_quotes
        found: the output buffer of inputLen + 1 bytes is never overrun, and the result is a
        C string of its own. */
    method ProcessString(input: nat, inputLen: nat) returns (ok: bool, result: array<char>)
      requires input <= |text| && Closes(input, input + inputLen)
      ensures ok == Process(text, input, input + inputLen, "").Ok?
      ensures fresh(result)
      ensures ok ==> result[..] == Process(text, input, input + inputLen, "").value + "\0"
    {
      hide Utf16, Unescape;
      var end := input + inputLen;
      var output := new char[inputLen + 1];
      var i: nat, o: nat := input, 0;
      result := output;
      while At(text, i) != '\0' && i < end
        invariant input <= i && i <= end < |text| && o <= i - input
        invariant Closes(i, end)
        invariant Process(text, i, end, output[..o]) == Process(text, input, end, "")
        decreases |text| - i
      {
        if text[i] == '\\' {
          var good, j, k := ProcessEscape(i, end, output, o);
          if !good {
            return false, output;
          }
          i, o := j, k;
        } else if text[i] < ' ' {
          return false, output;
        } else {
          PutByte(output, o, text[i]);
          o, i := o + 1, i + 1;
        }
      }
      PutByte(output, o, '\0');
      result := new char[o + 1](k requires 0 <= k <= o reads output => output[k]);
      ok := true;
    }

    /** get_quoted_string. */
    method GetQuotedString() returns (r: Option<string>)
      requires Valid()
      modifies this
      ensures Valid() && Agrees(r, pos, GetQuoted(text, old(pos)))
    {
      hide Process, SkipBody;
      var start := pos;
      var ok := SkipQuotedString();
      if !ok {
        return None;
      }
      assert SkipQuotes(text, start) == SkipBody(text, start + 1);
      var done, result := ProcessString(start + 1, pos - start - 2);
      if !done {
        return None;
      }
      assert result[..][..result.Length - 1] == Process(text, start + 1, pos - 1, "").value;
      r := Some(result[..result.Length - 1]);
    }

    /** parse_value. */
    method ParseValue(nesting: nat) returns (r: Option<Value>)
      requires Valid()
      modifies this
      ensures Valid() && Agrees(r, pos, Spec.ParseValue(text, old(pos), nesting))
      decreases |text| - pos, 3
    {
      hide Spec.ParseObject, Spec.ParseArray, Spec.ParseString, Spec.ParseBoolean, Spec.ParseNull, ParseNumber;
      if nesting > MAX_NESTING {
        return None;
      }
      SkipWhitespace();
      var c := At(text, pos);
      if c == '{' {
        r := ParseObject(nesting + 1);
      } else if c == '[' {
        r := ParseArray(nesting + 1);
      } else if c == '\"' {
        r := ParseString();
      } else if c == 'f' || c == 't' {
        r := ParseBoolean();
      } else if c == '-' || IsDigit(c) {
        r := ParseNumberValue();
      } else if c == 'n' {
        r := ParseNull();
      } else {
        r := None;
      }
    }

    method ParseString() returns (r: Option<Value>)
      requires Valid()
      modifies this
      ensures Valid() && Agrees(r, pos, Spec.ParseString(text, old(pos)))
    {
      hide GetQuoted;
      var q := GetQuotedString();
      r := if q.None? then None else Some(String(q.value));
    }

    method ParseBoolean() returns (r: Option<Value>)
      requires Valid()
      modifies this
      ensures Valid() && Agrees(r, pos, Spec.ParseBoolean(text, old(pos)))
    {
      if StartsWith(text, pos, "true") {
        pos := pos + 4;
        return Some(Bool(true));
      } else if StartsWith(text, pos, "false") {
        pos := pos + 5;
        return Some(Bool(false));
      }
      r := None;
    }

    method ParseNull() returns (r: Option<Value>)
      requires Valid()
      modifies this
      ensures Valid() && Agrees(r, pos, Spec.ParseNull(text, old(pos)))
    {
      if StartsWith(text, pos, "null") {
        pos := pos + 4;
        return Some(Null);
      }
      r := None;
    }

    /** parse_number_value. */
    method ParseNumberValue() returns (r: Option<Value>)
      requires Valid()
      modifies this
      ensures Valid()
      ensures var n := ParseNumber(text, old(pos));
              Agrees(r, pos, if n.Fail? then Fail else Ok(Number(n.value), n.next))
    {
      hide Strtod, IsDecimal, Overflows;
      match Strtod(text, pos) {
        case NoNumber =>
          r := Some(Number("0"));
        case Decimal(end) =>
          var literal := text[pos..end];
          if Overflows(literal) || !IsDecimal(literal) {
            return None;
          }
          pos := end;
          r := Some(Number(literal));
        case _ =>
          r := None;
      }
    }

    /** parse_array_value. */
    method ParseArray(nesting: nat) returns (r: Option<Value>)
      requires Valid() && pos < |text|
      modifies this
      ensures Valid() && Agrees(r, pos, Spec.ParseArray(text, old(pos), nesting))
      decreases |text| - pos, 2
    {
      hide Spec.ParseElements;
      pos := pos + 1;
      SkipWhitespace();
      if At(text, pos) == ']' {
        pos := pos + 1;
        return Some(Array([]));
      }
      var elements := ParseElements(nesting);
      r := if elements.None? then None else Some(Array(elements.value));
    }

    /** The loop of parse_array_value and what follows it. */
    method ParseElements(nesting: nat) returns (r: Option<seq<Value>>)
      requires Valid()
      modifies this
      ensures Valid() && Agrees(r, pos, Spec.ParseElements(text, old(pos), nesting, []))
      decreases |text| - pos, 4
    {
      hide Spec.ParseValue, SkipSpaces;
      var elements := [];
      while At(text, pos) != '\0'
        invariant Valid() && old(pos) <= pos
        invariant Spec.ParseElements(text, pos, nesting, elements) == Spec.ParseElements(text, old(pos), nesting, [])
        decreases |text| - pos
      {
        var v := ParseValue(nesting);
        if v.None? {
          return None;
        }
        elements := elements + [v.value];
        SkipWhitespace();
        if At(text, pos) != ',' {
          r := Close(']', elements);
          return;
        }
        pos := pos + 1;
        SkipWhitespace();
        if At(text, pos) == ']' {
          r := Close(']', elements);
          return;
        }
      }
      r := Close(']', elements);
    }

    /** What follows both loops: white space and the closing bracket. */
    method Close<V>(close: char, result: V) returns (r: Option<V>)
      requires Valid() && close != '\0'
      modifies this
      ensures Valid() && Agrees(r, pos, Spec.CloseBracket(text, old(pos), close, result))
    {
      SkipWhitespace();
      if At(text, pos) != close {
        return None;
      }
      pos := pos + 1;
      r := Some(result);
    }

    /** parse_object_value. */
    method ParseObject(nesting: nat) returns (r: Option<Value>)
      requires Valid() && pos < |text|
      modifies this
      ensures Valid() && Agrees(r, pos, Spec.ParseObject(text, old(pos), nesting))
      decreases |text| - pos, 2
    {
      hide Spec.ParseMembers;
      pos := pos + 1;
      SkipWhitespace();
      if At(text, pos) == '}' {
        pos := pos + 1;
        return Some(Object([]));
      }
      var members := ParseMembers(nesting);
      r := if members.None? then None else Some(Object(members.value));
    }

    method ParseName() returns (r: Option<string>)
      requires Valid()
      modifies this
      ensures Valid() && Agrees(r, pos, Spec.ParseName(text, old(pos)))
    {
      hide GetQuoted;
      var name := GetQuotedString();
      if name.None? || !IsName(name.value) {
        return None;
      }
      SkipWhitespace();
      if At(text, pos) != ':' {
        return None;
      }
      pos := pos + 1;
      r := name;
    }

    /** One name and value, added to the table. */
    method ParseMember(nesting: nat, table: T.ObjectTable<Value>) returns (ok: bool)
      requires Valid() && At(text, pos) != '\0' && table.Valid()
      modifies this, table.Repr()
      ensures Valid() && table.Valid() && fresh(table.Repr() - old(table.Repr()))
      ensures MemberAgrees(ok, old(pos), nesting, old(table.items), table.items)
      ensures ok ==> old(pos) < pos
      decreases |text| - pos, 3
    {
      hide Spec.ParseValue, Spec.ParseName, T.Consistent, T.IsCapacity, Find;
      ok := false;
      var name := ParseName();
      if name.None? {
        return;
      }
      var v := ParseValue(nesting);
      if v.None? {
        return;
      }
      ok := table.Add(name.value, v.value);
    }

    /** One round of the loop of parse_object_value succeeds or fails as in ParseMembers. */
    ghost predicate MemberAgrees(ok: bool, i: nat, nesting: nat, before: seq<Item<Value>>, after: seq<Item<Value>>)
      requires i <= |text|
      reads this
    {
      var name := Spec.ParseName(text, i);
      && ok == (name.Ok? && var v := Spec.ParseValue(text, name.next, nesting);
                v.Ok? && Add(before, name.value, v.value).Some?)
      && (ok ==> var v := Spec.ParseValue(text, name.next, nesting);
                 pos == v.next && after == Add(before, name.value, v.value).value)
    }

    /** What ParseMembers does next, after a member that ends at pos. */
    lemma MemberStep(ok: bool, i: nat, nesting: nat, before: seq<Item<Value>>, after: seq<Item<Value>>)
      requires i <= |text| && At(text, i) != '\0' && MemberAgrees(ok, i, nesting, before, after)
      ensures !ok ==> Spec.ParseMembers(text, i, nesting, before) == Fail
      ensures ok ==> pos <= |text|
      ensures ok ==> Spec.ParseMembers(text, i, nesting, before) == AfterMember(pos, nesting, after)
    {
      hide Spec.ParseValue, Spec.ParseName, SkipSpaces, Add;
    }

    ghost function AfterMember(p: nat, nesting: nat, parsed: seq<Item<Value>>): Parsed<seq<Item<Value>>>
      requires p <= |text|
    {
      var j := SkipSpaces(text, p);
      if At(text, j) != ',' then Spec.CloseBracket(text, j, '}', parsed)
      else
        var k := SkipSpaces(text, j + 1);
        if At(text, k) == '}' then Spec.CloseBracket(text, k, '}', parsed)
        else Spec.ParseMembers(text, k, nesting, parsed)
    }

    /** The loop of parse_object_value and what follows it: members go into a hash table. */
    method ParseMembers(nesting: nat) returns (r: Option<seq<Item<Value>>>)
      requires Valid()
      modifies this
      ensures Valid() && Agrees(r, pos, Spec.ParseMembers(text, old(pos), nesting, []))
      decreases |text| - pos, 5
    {
      hide Spec.ParseMembers, Spec.CloseBracket, SkipSpaces, T.Consistent, T.IsCapacity, T.Separate, Find, Add;
      var table := new T.ObjectTable<Value>(0);
      while At(text, pos) != '\0'
        invariant Valid() && old(pos) <= pos
        invariant table.Valid() && fresh(table.Repr())
        invariant Spec.ParseMembers(text, pos, nesting, table.items) == Spec.ParseMembers(text, old(pos), nesting, [])
        decreases |text| - pos
      {
        var round := ParseRound(nesting, table);
        if round == Refused {
          return None;
        } else if round == LastOne {
          r := CloseObject(table);
          return;
        }
      }
      EndOfText(nesting, table.items);
      r := CloseObject(table);
    }

    /** One round of the loop: a member and the comma after it. */
    method ParseRound(nesting: nat, table: T.ObjectTable<Value>) returns (round: Round)
      requires Valid() && At(text, pos) != '\0' && table.Valid()
      modifies this, table.Repr()
      ensures Valid() && table.Valid() && fresh(table.Repr() - old(table.Repr()))
      ensures Spec.ParseMembers(text, old(pos), nesting, old(table.items)) ==
              match round
              case Refused => Fail
              case LastOne => Spec.CloseBracket(text, pos, '}', table.items)
              case Another => Spec.ParseMembers(text, pos, nesting, table.items)
      ensures round != Refused ==> old(pos) < pos
      decreases |text| - pos, 4
    {
      hide Spec.ParseMembers, Spec.CloseBracket, SkipSpaces, T.Consistent, T.IsCapacity, T.Separate, Find, Add;
      hide MemberAgrees, AfterMember;
      ghost var start, before := pos, table.items;
      var added := ParseMember(nesting, table);
      MemberStep(added, start, nesting, before, table.items);
      if !added {
        return Refused;
      }
      var more := PassComma(nesting, table.items);
      round := if more then Another else LastOne;
    }

    /** The comma after a member, if there is one: whether another member follows. */
    method PassComma(nesting: nat, ghost parsed: seq<Item<Value>>) returns (more: bool)
      requires Valid()
      modifies this
      ensures Valid() && old(pos) <= pos
      ensures AfterMember(old(pos), nesting, parsed)
           == if more then Spec.ParseMembers(text, pos, nesting, parsed) else Spec.CloseBracket(text, pos, '}', parsed)
    {
      hide Spec.ParseMembers, Spec.CloseBracket, SkipSpaces;
      SkipWhitespace();
      if At(text, pos) != ',' {
        return false;
      }
      pos := pos + 1;
      SkipWhitespace();
      more := At(text, pos) != '}';
    }

    lemma EndOfText(nesting: nat, parsed: seq<Item<Value>>)
      requires pos <= |text| && At(text, pos) == '\0'
      ensures Spec.ParseMembers(text, pos, nesting, parsed) == Spec.CloseBracket(text, pos, '}', parsed)
    {
    }

    /** The closing brace; the result is what the table holds. */
    method CloseObject(table: T.ObjectTable<Value>) returns (r: Option<seq<Item<Value>>>)
      requires Valid() && table.Valid()
      modifies this
      ensures Valid() && Agrees(r, pos, Spec.CloseBracket(text, old(pos), '}', table.items))
    {
      hide T.Consistent, T.IsCapacity;
      var members := table.Snapshot();
      r := Close('}', members);
    }
  }

  /** One byte at the write pointer. */
  method PutByte(output: array<char>, o: nat, c: char)
    requires o < output.Length
    modifies output
    ensures output[..o + 1] == old(output[..o]) + [c]
  {
    output[o] := c;
  }

  /** The bytes of a code point, one assignment each. */
  method WriteUtf8(cp: nat, output: array<char>, at: nat) returns (n: nat)
    requires cp <= 0x10FFFF && at + |Encode(cp)| <= output.Length
    modifies output
    ensures n == |Encode(cp)| && output[..at + n] == old(output[..at]) + Encode(cp)
  {
    hide And, Or, Shr;
    if cp < 0x80 {
      output[at] := cp as char;
      n := 1;
    } else if cp < 0x800 {
      output[at] := Or(And(Shr(cp, 6), 0x1F), 0xC0) as char;
      output[at + 1] := Or(And(cp, 0x3F), 0x80) as char;
      n := 2;
    } else if cp < 0x10000 {
      output[at] := Or(And(Shr(cp, 12), 0x0F), 0xE0) as char;
      output[at + 1] := Or(And(Shr(cp, 6), 0x3F), 0x80) as char;
      output[at + 2] := Or(And(cp, 0x3F), 0x80) as char;
      n := 3;
    } else {
      output[at] := Or(And(Shr(cp, 18), 0x07), 0xF0) as char;
      output[at + 1] := Or(And(Shr(cp, 12), 0x3F), 0x80) as char;
      output[at + 2] := Or(And(Shr(cp, 6), 0x3F), 0x80) as char;
      output[at + 3] := Or(And(cp, 0x3F), 0x80) as char;
      n := 4;
    }
  }

  /** json_parse_string. */
  method ParseText(s: string) returns (r: Option<Value>)
    ensures r == Spec.ParseText(s)
  {
    hide Spec.ParseValue;
    var reader := new Reader(s, if StartsWith(s, 0, Spec.BOM) then 3 else 0);
    r := reader.ParseValue(0);
  }
}
