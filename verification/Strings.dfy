/** JSON strings: the escapes the serializer writes and the parser reads. */
module Strings {
  import opened Bits
  import opened CText
  import opened Utf8

  // ---------------------------------------------------------------- writing

  function HexChar(d: nat): char
    requires d < 16
  {
    "0123456789abcdef"[d]
  }

  /** The token json_serialize_string appends for one byte. */
  function EscapeChar(c: char, escapeSlashes: bool): (e: string)
    ensures 1 <= |e| <= 6
  {
    if c == '\"' then "\\\""
    else if c == '\\' then "\\\\"
    else if c == '\U{08}' then "\\b"
    else if c == '\U{0C}' then "\\f"
    else if c == '\n' then "\\n"
    else if c == '\r' then "\\r"
    else if c == '\t' then "\\t"
    else if c < ' ' then "\\u00" + [HexChar(c as int / 16), HexChar(c as int % 16)]
    else if c == '/' && escapeSlashes then "\\/"
    else [c]
  }

  function Escape(t: string, escapeSlashes: bool): string {
    if t == "" then "" else EscapeChar(t[0], escapeSlashes) + Escape(t[1..], escapeSlashes)
  }

  function Quote(t: string, escapeSlashes: bool): string {
    "\"" + Escape(t, escapeSlashes) + "\""
  }

  // ---------------------------------------------------------------- finding the end

  /** The loop of skip_quotes: the position after the closing quote. */
  function SkipBody(s: string, i: nat): (r: Parsed<()>)
    requires i <= |s|
    ensures r.Ok? ==> i < r.next <= |s| && s[r.next - 1] == '\"'
    decreases |s| - i
  {
    var c := At(s, i);
    if c == '\"' then Ok((), i + 1)
    else if c == '\0' then Fail
    else if c == '\\' then
      if At(s, i + 1) == '\0' then Fail else SkipBody(s, i + 2)
    else SkipBody(s, i + 1)
  }

  function SkipQuotes(s: string, i: nat): (r: Parsed<()>)
    requires i <= |s|
    ensures r.Ok? ==> i + 1 < r.next <= |s| && s[i] == s[r.next - 1] == '\"'
  {
    if At(s, i) != '\"' then Fail else SkipBody(s, i + 1)
  }

  // ---------------------------------------------------------------- reading

  function HexValue(c: char): (x: int)
    ensures -1 <= x < 16
  {
    if '0' <= c <= '9' then c as int - '0' as int
    else if 'a' <= c <= 'f' then c as int - 'a' as int + 10
    else if 'A' <= c <= 'F' then c as int - 'A' as int + 10
    else -1
  }

  /** parse_utf16_hex: four hex digits at q. */
  function Hex4(s: string, q: nat): (r: Parsed<nat>)
    requires q <= |s|
    ensures r.Ok? ==> r.next == q + 4 <= |s| && forall k :: q <= k < q + 4 ==> HexValue(s[k]) >= 0
  {
    if At(s, q) == '\0' || At(s, q + 1) == '\0' || At(s, q + 2) == '\0' || At(s, q + 3) == '\0' then Fail
    else
      var x1, x2, x3, x4 := HexValue(s[q]), HexValue(s[q + 1]), HexValue(s[q + 2]), HexValue(s[q + 3]);
      if x1 == -1 || x2 == -1 || x3 == -1 || x4 == -1 then Fail
      else Ok(Or(Or(Or(Shl(x1, 12), Shl(x2, 8)), Shl(x3, 4)), x4), q + 4)
  }

  lemma Hex4Is(s: string, q: nat)
    requires q <= |s| && Hex4(s, q).Ok?
    ensures Hex4(s, q).value ==
            HexValue(s[q]) * 4096 + HexValue(s[q + 1]) * 256 + HexValue(s[q + 2]) * 16 + HexValue(s[q + 3])
    ensures Hex4(s, q).value < 0x10000
  {
    hide Or, Shl, HexValue;
    var x1, x2, x3, x4 := HexValue(s[q]), HexValue(s[q + 1]), HexValue(s[q + 2]), HexValue(s[q + 3]);
    SmallPowers();
    ShlIsTimes(x1, 12);
    ShlIsTimes(x2, 8);
    ShlIsTimes(x3, 4);
    OrDisjoint(x1, x2 * 256, 12);
    ShlIsTimes(x1 * 16 + x2, 8);
    OrDisjoint(x1 * 16 + x2, x3 * 16, 8);
    ShlIsTimes(x1 * 256 + x2 * 16 + x3, 4);
    OrDisjoint(x1 * 256 + x2 * 16 + x3, x4, 4);
  }

  /** The escape of a trail surrogate at q. */
  function TrailUnit(s: string, q: nat): (r: Parsed<nat>)
    requires q <= |s|
    ensures r.Ok? ==> r.next == q + 6 <= |s| && IsTrail(r.value)
  {
    if At(s, q) != '\\' || At(s, q + 1) != 'u' then Fail
    else
      var trail := Hex4(s, q + 2);
      if trail.Fail? || trail.value < 0xDC00 || trail.value > 0xDFFF then Fail else trail
  }

  /** parse_utf16 at the `u` in position p: the bytes written and the position of the last
      hex digit read. */
  function Utf16(s: string, p: nat): (r: Parsed<string>)
    requires p < |s|
    ensures r.Ok? ==> p + 4 <= r.next < |s| && 1 <= |r.value| <= 4
  {
    var hex := Hex4(s, p + 1);
    if hex.Fail? then Fail
    else
      var cp := (Hex4Is(s, p + 1); hex.value);
      if cp < 0xD800 || cp > 0xDFFF then Ok(Encode(cp), p + 4)
      else if cp <= 0xDBFF then
        var trail := TrailUnit(s, p + 5);
        if trail.Fail? then Fail
        else
          CombineExact(cp, trail.value);
          Ok(Encode(Combine(cp, trail.value)), p + 10)
      else Fail
  }

  /** The byte a two-character escape stands for. */
  function Unescape(c: char): (r: Parsed<char>)
    ensures r.Ok? ==> r.value as int < 0x80 && 0 < c as int < 0x80 && c != 'u'
  {
    if c == '\"' || c == '\\' || c == '/' then Ok(c, 0)
    else if c == 'b' then Ok('\U{08}', 0)
    else if c == 'f' then Ok('\U{0C}', 0)
    else if c == 'n' then Ok('\n', 0)
    else if c == 'r' then Ok('\r', 0)
    else if c == 't' then Ok('\t', 0)
    else Fail
  }

  /** process_string from input position i on, with `out` written so far; `next` is where
      the input pointer stops. */
  function Process(s: string, i: nat, end: nat, out: string): (r: Parsed<string>)
    requires i <= |s|
    ensures r.Ok? ==> i <= r.next <= |s|
    decreases |s| - i
  {
    if At(s, i) == '\0' || i >= end then Ok(out, i)
    else if s[i] == '\\' then
      var c := At(s, i + 1);
      if c == 'u' then
        var u := Utf16(s, i + 1);
        if u.Fail? then Fail else Process(s, u.next + 1, end, out + u.value)
      else
        var e := Unescape(c);
        if e.Fail? then Fail else Process(s, i + 2, end, out + [e.value])
    else if s[i] < ' ' then Fail
    else Process(s, i + 1, end, out + [s[i]])
  }

  /** get_quoted_string. */
  function GetQuoted(s: string, i: nat): (r: Parsed<string>)
    requires i <= |s|
    ensures r.Ok? ==> i + 1 < r.next <= |s| && s[i] == s[r.next - 1] == '\"'
  {
    var q := SkipQuotes(s, i);
    if q.Fail? then Fail
    else
      var p := Process(s, i + 1, q.next - 1, "");
      if p.Fail? then Fail else Ok(p.value, q.next)
  }

  // ---------------------------------------------------------------- alignment

  /** Four hex digits are passed one by one. */
  lemma SkipHex(s: string, q: nat)
    requires q <= |s| && Hex4(s, q).Ok?
    ensures SkipBody(s, q) == SkipBody(s, q + 4)
  {
    assert SkipBody(s, q) == SkipBody(s, q + 1);
    assert SkipBody(s, q + 1) == SkipBody(s, q + 2);
    assert SkipBody(s, q + 2) == SkipBody(s, q + 3);
  }

  /** A unicode escape, surrogate pair or not, is passed whole. */
  lemma SkipUtf16(s: string, p: nat)
    requires p < |s| && s[p] == 'u' && Utf16(s, p).Ok?
    ensures SkipBody(s, p + 1) == SkipBody(s, Utf16(s, p).next + 1)
    ensures |Utf16(s, p).value| <= Utf16(s, p).next - p
  {
    hide Hex4, Encode;
    SkipHex(s, p + 1);
    if Utf16(s, p).next == p + 10 {
      assert SkipBody(s, p + 5) == SkipBody(s, p + 7);
      SkipHex(s, p + 7);
    }
  }

  /** process_string stops exactly at the closing quote that skip_quotes found, even inside
      unicode escapes, and writes no more bytes than it reads. */
  lemma {:induction false} ProcessAligned(s: string, i: nat, out: string)
    requires i <= |s| && SkipBody(s, i).Ok?
    requires Process(s, i, SkipBody(s, i).next - 1, out).Ok?
    ensures var end, r := SkipBody(s, i).next - 1, Process(s, i, SkipBody(s, i).next - 1, out);
            r.next == end && |out| <= |r.value| <= |out| + (end - i)
    decreases |s| - i
  {
    hide Utf16, Unescape;
    var end := SkipBody(s, i).next - 1;
    if i < end {
      if s[i] == '\\' {
        var c := s[i + 1];
        if c == 'u' {
          var u := Utf16(s, i + 1);
          SkipUtf16(s, i + 1);
          ProcessAligned(s, u.next + 1, out + u.value);
        } else {
          ProcessAligned(s, i + 2, out + [Unescape(c).value]);
        }
      } else {
        ProcessAligned(s, i + 1, out + [s[i]]);
      }
    }
  }

  // ---------------------------------------------------------------- round trip

  /** The three forms an escaped byte takes. */
  lemma EscapeForms(c: char, slashes: bool)
    ensures var e := EscapeChar(c, slashes);
            || (|e| == 1 && e[0] == c >= ' ' && c != '\"' && c != '\\')
            || (|e| == 2 && e[0] == '\\' && Unescape(e[1]) == Ok(c, 0))
            || (|e| == 6 && c < ' ' && e == "\\u00" + [HexChar(c as int / 16), HexChar(c as int % 16)])
  {
  }

  /** Reading back one escaped byte. */
  lemma ReadEscaped(s: string, i: nat, c: char, slashes: bool, end: nat, out: string)
    requires var e := EscapeChar(c, slashes);
             i + |e| <= end <= |s| && s[i..i + |e|] == e
    ensures var e := EscapeChar(c, slashes);
            && SkipBody(s, i) == SkipBody(s, i + |e|)
            && Process(s, i, end, out) == Process(s, i + |e|, end, out + [c])
  {
    hide EscapeChar, Unescape, Utf16;
    var e := EscapeChar(c, slashes);
    EscapeForms(c, slashes);
    assert s[i] == e[0];
    if |e| == 2 {
      assert s[i + 1] == e[1];
    } else if |e| == 6 {
      ReadControl(s, i, c);
    }
  }

  lemma ReadControl(s: string, i: nat, c: char)
    requires c < ' ' && i + 6 <= |s|
    requires s[i..i + 6] == "\\u00" + [HexChar(c as int / 16), HexChar(c as int % 16)]
    ensures s[i] == '\\' && s[i + 1] == 'u'
    ensures Utf16(s, i + 1) == Ok([c], i + 5) && SkipBody(s, i) == SkipBody(s, i + 6)
  {
    hide Hex4, HexChar, Utf8.Encode, Utf8.Combine;
    var e := "\\u00" + [HexChar(c as int / 16), HexChar(c as int % 16)];
    assert forall k :: 0 <= k < 6 ==> s[i + k] == e[k];
    ControlHex(s, i + 2, c);
    EncodeAscii(c as int);
    SkipEscape(s, i);
    SkipHex(s, i + 2);
  }

  lemma SkipEscape(s: string, i: nat)
    requires i + 2 <= |s| && s[i] == '\\' && s[i + 1] != '\0'
    ensures SkipBody(s, i) == SkipBody(s, i + 2)
  {
  }

  lemma EncodeAscii(cp: nat)
    requires cp < 0x80
    ensures Utf8.Encode(cp) == [cp as char]
  {
  }

  lemma ControlHex(s: string, q: nat, c: char)
    requires c < ' ' && q + 4 <= |s| && s[q] == s[q + 1] == '0'
    requires s[q + 2] == HexChar(c as int / 16) && s[q + 3] == HexChar(c as int % 16)
    ensures Hex4(s, q).Ok? && Hex4(s, q).value == c as int
  {
    hide Or, Shl;
    HexDigit(c as int / 16);
    HexDigit(c as int % 16);
    Hex4Is(s, q);
  }

  lemma HexDigit(d: nat)
    requires d < 16
    ensures HexValue(HexChar(d)) == d && HexChar(d) != '\0'
  {
  }

  lemma ReadClosingQuote(s: string, i: nat, out: string)
    requires i < |s| && s[i] == '\"'
    ensures SkipBody(s, i) == Ok((), i + 1) && Process(s, i, i, out) == Ok(out, i)
  {
  }

  lemma {:induction false} ReadEscape(s: string, i: nat, t: string, slashes: bool, out: string)
    requires var n := |Escape(t, slashes)|;
             i + n < |s| && s[i..i + n] == Escape(t, slashes) && s[i + n] == '\"'
    ensures var n := |Escape(t, slashes)|;
            SkipBody(s, i) == Ok((), i + n + 1) && Process(s, i, i + n, out) == Ok(out + t, i + n)
    decreases |t|
  {
    hide EscapeChar, SkipBody, Process;
    var n := |Escape(t, slashes)|;
    if t == "" {
      ReadClosingQuote(s, i, out);
      assert out + t == out;
    } else {
      var e := EscapeChar(t[0], slashes);
      SplitSlice(s, i, i + n, e, Escape(t[1..], slashes));
      ReadEscaped(s, i, t[0], slashes, i + n, out);
      ReadEscape(s, i + |e|, t[1..], slashes, out + [t[0]]);
      assert out + [t[0]] + t[1..] == out + t;
    }
  }

  /** Reading back a quoted string recovers it, whatever bytes it holds and whether or not
      slashes are escaped, and stops right after the closing quote. */
  lemma GetQuotedQuote(s: string, i: nat, t: string, slashes: bool)
    requires var q := Quote(t, slashes);
             i + |q| <= |s| && s[i..i + |q|] == q
    ensures SkipQuotes(s, i) == Ok((), i + |Quote(t, slashes)|)
    ensures GetQuoted(s, i) == Ok(t, i + |Quote(t, slashes)|)
  {
    hide Escape, SkipBody, Process;
    var e, q := Escape(t, slashes), Quote(t, slashes);
    assert s[i] == q[0] && s[i + |q| - 1] == q[|q| - 1];
    assert q == "\"" + (e + "\"");
    SplitSlice(s, i, i + |q|, "\"", e + "\"");
    SplitSlice(s, i + 1, i + |q|, e, "\"");
    ReadEscape(s, i + 1, t, slashes, "");
    assert "" + t == t;
  }

  // ---------------------------------------------------------------- encoding validity

  /** Dropping ASCII bytes from the front of valid text leaves valid text. */
  lemma {:induction false} ValidAfterAscii(s: string, i: nat, j: nat)
    requires i <= j <= |s| && Valid(s[i..])
    requires forall k :: i <= k < j ==> s[k] as int < 0x80
    ensures Valid(s[j..])
    decreases j - i
  {
    hide Valid;
    if i < j {
      ValidSplit(s[i..], 0);
      assert s[i..][1..] == s[i + 1..];
      ValidAfterAscii(s, i + 1, j);
    }
  }

  /** The bytes a unicode escape stands for are valid, and it is written in ASCII. */
  lemma Utf16Valid(s: string, p: nat)
    requires p < |s| && s[p] == 'u' && Utf16(s, p).Ok?
    ensures Valid(Utf16(s, p).value)
    ensures forall k :: p <= k <= Utf16(s, p).next ==> s[k] as int < 0x80
  {
    hide Or, Shl, And, Shr, Encode, Valid, WellFormed;
    var cp := Hex4(s, p + 1).value;
    Hex4Is(s, p + 1);
    if cp < 0xD800 || cp > 0xDFFF {
      EncodeDecodes(cp);
      OneSequence(Encode(cp));
    } else {
      var trail := Hex4(s, p + 7).value;
      CombineExact(cp, trail);
      EncodeDecodes(Combine(cp, trail));
      OneSequence(Encode(Combine(cp, trail)));
    }
  }

  /** If what is written, followed by what is still to be read, is valid UTF-8, then so it is
      when process_string stops. */
  lemma {:induction false} ProcessValid(s: string, i: nat, end: nat, out: string)
    requires i <= |s| && Process(s, i, end, out).Ok? && Valid(out + s[i..])
    ensures var r := Process(s, i, end, out);
            Valid(r.value + s[r.next..])
    decreases |s| - i
  {
    hide Utf16, Unescape, Valid;
    if At(s, i) != '\0' && i < end {
      if s[i] == '\\' {
        ValidSplit(out + s[i..], |out|);
        assert (out + s[i..])[..|out|] == out && (out + s[i..])[|out| + 1..] == s[i + 1..];
        if s[i + 1] == 'u' {
          var u := Utf16(s, i + 1);
          Utf16Valid(s, i + 1);
          ValidAfterAscii(s, i + 1, u.next + 1);
          Resume(s, u.next + 1, out, u.value);
          ProcessValid(s, u.next + 1, end, out + u.value);
        } else {
          var e := Unescape(s[i + 1]);
          ValidAfterAscii(s, i + 1, i + 2);
          AsciiValid(e.value);
          Resume(s, i + 2, out, [e.value]);
          ProcessValid(s, i + 2, end, out + [e.value]);
        }
      } else {
        assert out + s[i..] == out + [s[i]] + s[i + 1..];
        ProcessValid(s, i + 1, end, out + [s[i]]);
      }
    }
  }

  lemma AsciiValid(c: char)
    requires c as int < 0x80
    ensures Valid([c])
  {
    OneSequence([c]);
  }

  lemma Resume(s: string, i: nat, out: string, more: string)
    requires i <= |s| && Valid(s[i..]) && Valid(out) && Valid(more)
    ensures Valid(out + more + s[i..])
  {
    hide Valid;
    ValidConcat(out, more);
    ValidConcat(out + more, s[i..]);
  }

  /** Strings read from valid UTF-8 text are valid UTF-8. */
  lemma GetQuotedValid(s: string, i: nat)
    requires i <= |s| && Valid(s) && GetQuoted(s, i).Ok?
    ensures Valid(GetQuoted(s, i).value)
  {
    hide Process, Valid, SkipBody;
    var end := SkipQuotes(s, i).next - 1;
    ValidSplit(s, i);
    assert "" + s[i + 1..] == s[i + 1..];
    ProcessValid(s, i + 1, end, "");
    ProcessAligned(s, i + 1, "");
    var t := GetQuoted(s, i).value;
    ValidSplit(t + s[end..], |t|);
    assert (t + s[end..])[..|t|] == t;
  }
}
