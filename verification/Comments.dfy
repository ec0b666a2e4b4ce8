/** Comment stripping before parsing: an in-place scanner that overwrites comments with
    spaces and must agree with the parser on where strings begin and end.
 */
module Comments {
  import opened CText
  import opened Items
  import opened Strings
  import opened Values
  import opened Layout
  import opened Literals
  import opened Magnitudes
  import opened Numbers
  import Parser
  import Printer
  import Reader

  /** The two passes: block comments, then line comments. */
  datatype Pass = Block | Line

  function Open(pass: Pass): (t: string)
    ensures |t| == 2 && t[0] == '/'
  {
    if pass == Block then "/*" else "//"
  }

  function Close(pass: Pass): (t: string)
    ensures 1 <= |t| <= 2
  {
    if pass == Block then "*/" else "\n"
  }

  /** strstr from position i on: the first occurrence, or None. */
  function FindToken(s: string, i: nat, token: string): (r: Option<nat>)
    requires i <= |s| && token != ""
    ensures r.Some? ==> i <= r.value <= |s| && StartsWith(s, r.value, token)
    ensures r.Some? ==> forall j :: i <= j < r.value ==> !StartsWith(s, j, token)
    decreases |s| - i
  {
    if StartsWith(s, i, token) then Some(i)
    else if i == |s| then None
    else FindToken(s, i + 1, token)
  }

  function Spaces(n: nat): (t: string)
    ensures |t| == n && forall k :: 0 <= k < n ==> t[k] == ' '
  {
    seq(n, _ => ' ')
  }

  /** remove_comments on the text still ahead. */
  function Strip(s: string, pass: Pass, inString: bool, escaped: bool): (r: string)
    ensures |r| == |s|
    decreases |s|
  {
    if s == "" then ""
    else if s[0] == '\\' && !escaped then [s[0]] + Strip(s[1..], pass, inString, true)
    else if s[0] == '\"' && !escaped then [s[0]] + Strip(s[1..], pass, !inString, false)
    else if !inString && StartsWith(s, 0, Open(pass)) then
      var k := FindToken(s, 2, Close(pass));
      if k.None? then Spaces(2) + s[2..]
      else
        var end := k.value + |Close(pass)|;
        Spaces(end) + Strip(s[end..], pass, false, false)
    else [s[0]] + Strip(s[1..], pass, inString, false)
  }

  /** The stripper keeps every byte or makes it a space. */
  lemma {:induction false} OnlySpacesWritten(s: string, pass: Pass, inString: bool, escaped: bool, k: nat)
    requires k < |s|
    ensures var c := Strip(s, pass, inString, escaped)[k];
            c == s[k] || c == ' '
    decreases |s|
  {
    hide FindToken, Spaces, Strip, StateAfter, StartsWith;
    if Opens(s, pass, inString, escaped) {
      StripOpened(s, pass, escaped);
      var t := FindToken(s, 2, Close(pass));
      if t.Some? {
        var end := t.value + |Close(pass)|;
        if k >= end { OnlySpacesWritten(s[end..], pass, false, false, k - end); }
      }
    } else {
      ByteKept(s, pass, inString, escaped);
      var next := Next(s[0], inString, escaped);
      if k > 0 { OnlySpacesWritten(s[1..], pass, next.0, next.1, k - 1); }
    }
  }

  // ---------------------------------------------------------------- the scanner in place

  /** The buffer holds the C string s. */
  ghost predicate Holds(b: seq<char>, s: string) {
    b == s + "\0" && '\0' !in s
  }

  function Blotted(b: seq<char>, i: nat, n: nat): (r: seq<char>)
    requires i + n <= |b|
    ensures |r| == |b|
  {
    b[..i] + Spaces(n) + b[i + n..]
  }

  /** Overwrites n bytes from position i on. */
  method Blot(buf: array<char>, i: nat, n: nat)
    requires i + n <= buf.Length
    modifies buf
    ensures buf[..] == Blotted(old(buf[..]), i, n)
  {
    hide Spaces;
    for k := 0 to n
      invariant buf[..i] == old(buf[..i]) && buf[i + k..] == old(buf[i + k..])
      invariant forall j :: i <= j < i + k ==> buf[j] == ' '
    {
      buf[i + k] := ' ';
      assert buf[i + k + 1..] == old(buf[i + k..])[1..] == old(buf[i + k + 1..]);
    }
    assert buf[i..i + n] == Spaces(n);
    assert buf[..] == buf[..i] + buf[i..i + n] + buf[i + n..];
  }

  /** The first i bytes of the buffer are done and the rest is as it was. */
  ghost predicate Scanning(b: seq<char>, i: nat, s: string, pass: Pass, inString: bool, escaped: bool) {
    && |b| == |s| + 1 && i <= |s| && '\0' !in s && b[i..] == s[i..] + "\0"
    && b[..i] + Strip(s[i..], pass, inString, escaped) == Strip(s, pass, false, false)
  }

  lemma ScanStart(b: seq<char>, s: string, pass: Pass)
    requires Holds(b, s)
    ensures Scanning(b, 0, s, pass, false, false)
  {
    assert s[0..] == s && b[0..] == b;
    assert b[..0] + Strip(s[0..], pass, false, false) == Strip(s, pass, false, false);
  }

  lemma NotNul(s: string, i: nat)
    requires '\0' !in s && i < |s|
    ensures s[i] != '\0' && s[i..] != "" && s[i..][0] == s[i]
  {
  }

  lemma ScanEnd(b: seq<char>, i: nat, s: string, pass: Pass, inString: bool, escaped: bool)
    requires Scanning(b, i, s, pass, inString, escaped) && b[i] == '\0'
    ensures i == |s| && b == Strip(s, pass, false, false) + "\0"
  {
    assert b[i..][0] == b[i];
    if i < |s| { NotNul(s, i); }
    assert s[i..] == "" && b == b[..i] + b[i..];
  }

  /** One byte that is kept. */
  lemma ScanOne(b: seq<char>, i: nat, s: string, pass: Pass, inString: bool, escaped: bool, inString': bool,
                escaped': bool)
    requires Scanning(b, i, s, pass, inString, escaped) && i < |s|
    requires Strip(s[i..], pass, inString, escaped) == [s[i]] + Strip(s[i + 1..], pass, inString', escaped')
    ensures Scanning(b, i + 1, s, pass, inString', escaped') && i + 1 < |b|
  {
    hide Strip;
    assert b[i..][0] == s[i] && b[i..][1..] == b[i + 1..] && s[i..][1..] == s[i + 1..];
    assert b[..i + 1] == b[..i] + [s[i]];
  }

  /** The byte at the cursor is the string's. */
  lemma ScanByte(b: seq<char>, i: nat, s: string, pass: Pass, inString: bool, escaped: bool)
    requires Scanning(b, i, s, pass, inString, escaped) && b[i] != '\0'
    ensures i < |s| && b[i] == s[i] == s[i..][0] && s[i..] != "" && s[i..][1..] == s[i + 1..]
  {
    hide Strip;
    assert b[i..][0] == b[i];
  }

  /** A token is found at the same place whatever comes before the cursor. */
  lemma {:induction false} FindAhead(t: string, a: nat, u: string, i: nat, token: string)
    requires a <= |t| && t[a..] == u && i <= |u| && token != ""
    ensures FindToken(u, i, token) ==
            (var k := FindToken(t, a + i, token); if k.None? then None else Some(k.value - a))
    decreases |u| - i
  {
    hide StartsWith;
    TokenAhead(t, a, u, i, token);
    if i < |u| { FindAhead(t, a, u, i + 1, token); }
  }

  lemma TokenAhead(t: string, a: nat, u: string, i: nat, token: string)
    requires a <= |t| && t[a..] == u && i <= |u|
    ensures StartsWith(t, a + i, token) == StartsWith(u, i, token)
  {
    if i + |token| <= |u| { assert t[a..][i..i + |token|] == t[a + i..a + i + |token|]; }
  }

  /** What the scanner finds after the opening token, from text that agrees with s there. */
  lemma CommentAt(s: string, i: nat, pass: Pass, text: string)
    requires i < |s| && StartsWith(s[i..], 0, Open(pass)) && |text| == |s| && text[i + 2..] == s[i + 2..]
    ensures var close := FindToken(text, i + 2, Close(pass));
            && (close.None? ==> Strip(s[i..], pass, false, false) == Spaces(2) + s[i + 2..])
            && (close.Some? ==>
                  var end := close.value + |Close(pass)|;
                  i + 2 < end <= |s|
                  && Strip(s[i..], pass, false, false) == Spaces(end - i) + Strip(s[end..], pass, false, false))
  {
    hide Spaces, FindToken, Strip, Open, Close;
    var ahead := s[i..];
    StartsWithFirst(ahead, 0, Open(pass));
    StripOpened(ahead, pass, false);
    assert ahead[2..] == s[i + 2..];
    FindAhead(text, i + 2, ahead[2..], 0, Close(pass));
    FindAhead(ahead, 2, ahead[2..], 0, Close(pass));
    var k := FindToken(ahead, 2, Close(pass));
    if k.Some? {
      var end := k.value + |Close(pass)|;
      assert ahead[end..] == s[i + end..];
    }
  }

  /** After the comment at the cursor has been overwritten. */
  lemma ScanComment(b: seq<char>, b': seq<char>, i: nat, s: string, pass: Pass, end: nat)
    requires Scanning(b, i, s, pass, false, false) && i <= end <= |s|
    requires Strip(s[i..], pass, false, false) == Spaces(end - i) + Strip(s[end..], pass, false, false)
    requires |b| == |s| + 1 && b' == Blotted(b, i, end - i)
    ensures Scanning(b', end, s, pass, false, false) && end < |b'|
  {
    hide Strip, Spaces;
    assert b[end..] == b[i..][end - i..] == s[i..][end - i..] + "\0" == s[end..] + "\0";
    assert b'[..end] == b[..i] + Spaces(end - i);
  }

  /** The comment at the cursor: overwritten up to and including its end, or, when it has no
      end, only its opening token. The result is the position after it. */
  method StripComment(buf: array<char>, i: nat, pass: Pass, ghost s: string) returns (end: Option<nat>)
    requires Scanning(buf[..], i, s, pass, false, false)
    requires i < |s| && StartsWith(s[i..], 0, Open(pass))
    modifies buf
    ensures end.None? ==> buf[..] == Strip(s, pass, false, false) + "\0"
    ensures end.Some? ==> i < end.value < buf.Length && Scanning(buf[..], end.value, s, pass, false, false)
  {
    hide Strip, Spaces, FindToken, StartsWith, Scanning, Blotted;
    ghost var b := buf[..];
    OpeningFits(b, i, s, pass);
    Blot(buf, i, 2);
    var text := buf[..buf.Length - 1];
    ghost var b1 := buf[..];
    OpeningBlotted(b, b1, i, s, pass, text);
    var close := FindToken(text, i + 2, Close(pass));
    if close.None? {
      return None;
    }
    var after := close.value + |Close(pass)|;
    Blot(buf, i + 2, after - (i + 2));
    TwoBlots(b, b1, buf[..], i, after);
    ScanComment(b, buf[..], i, s, pass, after);
    end := Some(after);
  }

  /** Where the comment at the cursor ends, when its opening token has been overwritten. */
  lemma OpeningBlotted(b: seq<char>, b1: seq<char>, i: nat, s: string, pass: Pass, text: string)
    requires Scanning(b, i, s, pass, false, false) && i < |s| && StartsWith(s[i..], 0, Open(pass))
    requires i + 2 <= |s| && |b| == |s| + 1 && b1 == Blotted(b, i, 2) && text == b1[..|b1| - 1]
    ensures |text| == |s|
    ensures var close := FindToken(text, i + 2, Close(pass));
            && (close.None? ==> b1 == Strip(s, pass, false, false) + "\0")
            && (close.Some? ==>
                  var end := close.value + |Close(pass)|;
                  i + 2 < end <= |s|
                  && Strip(s[i..], pass, false, false) == Spaces(end - i) + Strip(s[end..], pass, false, false))
  {
    hide Strip, Spaces, FindToken, StartsWith, Scanning, Blotted;
    OpeningFits(b, i, s, pass);
    BlottedOpen(b, b1, i, s, text);
    CommentAt(s, i, pass, text);
    if FindToken(text, i + 2, Close(pass)).None? { Unterminated(b, b1, i, s, pass); }
  }

  lemma OpeningFits(b: seq<char>, i: nat, s: string, pass: Pass)
    requires Scanning(b, i, s, pass, false, false) && i < |s| && StartsWith(s[i..], 0, Open(pass))
    ensures i + 2 <= |s| && |b| == |s| + 1 && b[i..] == s[i..] + "\0"
  {
  }

  lemma BlottedOpen(b: seq<char>, b1: seq<char>, i: nat, s: string, text: string)
    requires |b| == |s| + 1 && i + 2 <= |s| && b[i..] == s[i..] + "\0"
    requires b1 == Blotted(b, i, 2) && text == b1[..|b1| - 1]
    ensures |text| == |s| && text[i + 2..] == s[i + 2..]
  {
    assert b[i + 2..] == b[i..][2..] == s[i..][2..] + "\0";
    assert b1[i + 2..] == b[i + 2..];
  }

  lemma Unterminated(b: seq<char>, b1: seq<char>, i: nat, s: string, pass: Pass)
    requires Scanning(b, i, s, pass, false, false) && i + 2 <= |s|
    requires |b| == |s| + 1 && b1 == Blotted(b, i, 2)
    requires Strip(s[i..], pass, false, false) == Spaces(2) + s[i + 2..]
    ensures b1 == Strip(s, pass, false, false) + "\0"
  {
    hide Strip, Spaces;
    assert b[i + 2..] == b[i..][2..] == s[i..][2..] + "\0";
  }

  lemma TwoBlots(b: seq<char>, b1: seq<char>, b2: seq<char>, i: nat, end: nat)
    requires i + 2 <= end <= |b|
    requires b1 == Blotted(b, i, 2) && b2 == Blotted(b1, i + 2, end - (i + 2))
    ensures b2 == Blotted(b, i, end - i)
  {
    assert b1[..i + 2] == b[..i] + Spaces(2);
    assert b1[end..] == b[end..];
  }

  /** remove_comments. */
  method RemoveComments(buf: array<char>, pass: Pass, ghost s: string)
    requires Holds(buf[..], s)
    modifies buf
    ensures buf[..] == Strip(s, pass, false, false) + "\0"
  {
    hide Strip, Scanning, StartsWith;
    var i: nat, inString, escaped := 0, false, false;
    ScanStart(buf[..], s, pass);
    while buf[i] != '\0'
      invariant i < buf.Length && Scanning(buf[..], i, s, pass, inString, escaped)
      decreases buf.Length - i
    {
      ghost var inString', escaped' := inString, escaped;
      ScanByte(buf[..], i, s, pass, inString, escaped);
      ScanToken(buf[..], i, s, pass, inString, escaped);
      if !Opens(s[i..], pass, inString, escaped) {
        ByteKept(s[i..], pass, inString, escaped);
      }
      if buf[i] == '\\' && !escaped {
        escaped := true;
        ScanOne(buf[..], i, s, pass, inString', escaped', inString, escaped);
        i := i + 1;
        continue;
      } else if buf[i] == '\"' && !escaped {
        inString := !inString;
      } else if !inString && StartsWith(buf[..], i, Open(pass)) {
        var end := StripComment(buf, i, pass, s);
        if end.None? {
          return;
        }
        i := end.value;
        escaped := false;
        continue;
      }
      escaped := false;
      ScanOne(buf[..], i, s, pass, inString', escaped', inString, escaped);
      i := i + 1;
    }
    ScanEnd(buf[..], i, s, pass, inString, escaped);
  }

  /** strncmp on the buffer sees the token where the string has it; a comment may even follow
      a backslash. */
  lemma ScanToken(b: seq<char>, i: nat, s: string, pass: Pass, inString: bool, escaped: bool)
    requires Scanning(b, i, s, pass, inString, escaped) && i < |s|
    ensures StartsWith(b, i, Open(pass)) == StartsWith(s[i..], 0, Open(pass))
    ensures StartsWith(b, i, Open(pass)) && !inString ==> Scanning(b, i, s, pass, false, false)
  {
    hide FindToken, Spaces;
    var open := Open(pass);
    assert '\0' !in open;
    if i + 2 <= |s| {
      assert b[i..i + 2] == b[i..][..2] == (s[i..] + "\0")[..2] == s[i..][0..2];
    } else {
      assert b[i..][1] == '\0' && b[i..][1] == b[i + 1];
    }
    if StartsWith(b, i, open) {
      assert s[i..][0] == s[i..][0..2][0] == '/';
    }
  }

  /** json_parse_string_with_comments; parson_strdup copies up to the first NUL, and a byte
      order mark is not skipped. */
  method ParseWithComments(input: string) returns (r: Option<Value>)
    ensures r == ParseCommented(input)
  {
    hide Strip, Parser.ParseValue;
    var s := CString(input);
    var copy := new char[|s| + 1](k requires 0 <= k <= |s| => At(s, k));
    assert copy[..] == s + "\0";
    RemoveComments(copy, Block, s);
    ghost var s1 := Strip(s, Block, false, false);
    NoNulWritten(s, Block);
    RemoveComments(copy, Line, s1);
    var reader := new Reader.Reader(copy[..|s|], 0);
    r := reader.ParseValue(0);
  }

  /** The bytes up to the first NUL. */
  function CString(s: string): (r: string)
    ensures r <= s && '\0' !in r
    ensures '\0' !in s ==> r == s
  {
    if s == "" || s[0] == '\0' then "" else [s[0]] + CString(s[1..])
  }

  /** The text json_parse_string_with_comments parses. */
  function Stripped(s: string): string {
    Strip(Strip(s, Block, false, false), Line, false, false)
  }

  function ParseCommented(s: string): Option<Value> {
    var v := Parser.ParseValue(Stripped(CString(s)), 0, 0);
    if v.Fail? then None else Some(v.value)
  }

  lemma NoNulWritten(s: string, pass: Pass)
    requires '\0' !in s
    ensures '\0' !in Strip(s, pass, false, false)
  {
    hide Strip;
    var r := Strip(s, pass, false, false);
    forall k | 0 <= k < |r| ensures r[k] != '\0' {
      OnlySpacesWritten(s, pass, false, false, k);
    }
  }

  // ---------------------------------------------------------------- comments in the gaps

  /** The stripper copies this byte, whatever follows. */
  predicate Plain(c: char) {
    c != '\"' && c != '\\' && c != '/'
  }

  /** The comment at the start of g, its end token included, has n bytes. */
  predicate IsComment(g: string, pass: Pass, n: nat) {
    && |Close(pass)| <= n <= |g| && StartsWith(g, 0, Open(pass))
    && FindToken(g, 2, Close(pass)) == Some(n - |Close(pass)|)
  }

  /** White space and comments. The block pass may also meet line comments that do no harm. */
  ghost predicate IsGap(g: string, pass: Pass)
    decreases |g|, if pass == Block then 2 else 0
  {
    || g == ""
    || (IsSpace(g[0]) && IsGap(g[1..], pass))
    || (exists n :: 0 < n <= |g| && IsComment(g, pass, n) && IsGap(g[n..], pass))
    || (pass == Block && exists n :: 0 < n <= |g| && IsGap(g[..n], Line) && Harmless(g[..n]) && IsGap(g[n..], pass))
  }

  /** White space and line comments that do no harm in the block pass: it comes out of them
      outside strings and comments, and what it leaves is still white space and line comments.
      `LineCommentExactly` and `QuotesDecide` say when. */
  ghost predicate Harmless(c: string)
    decreases |c|, 1
  {
    StateAfter(c, Block, false, false) == InText(false, false) && IsGap(Strip(c, Block, false, false), Line)
  }

  /** Where the scanner stands after some text. */
  datatype State = InText(inString: bool, escaped: bool) | InComment

  function StateAfter(s: string, pass: Pass, inString: bool, escaped: bool): State
    decreases |s|
  {
    if s == "" then InText(inString, escaped)
    else if s[0] == '\\' && !escaped then StateAfter(s[1..], pass, inString, true)
    else if s[0] == '\"' && !escaped then StateAfter(s[1..], pass, !inString, false)
    else if !inString && StartsWith(s, 0, Open(pass)) then
      var k := FindToken(s, 2, Close(pass));
      if k.None? then InComment else StateAfter(s[k.value + |Close(pass)|..], pass, false, false)
    else StateAfter(s[1..], pass, inString, false)
  }

  /** What a pass makes of a gap. */
  function Cleared(g: string, pass: Pass): string {
    Strip(g, pass, false, false)
  }

  lemma StripPlain(c: char, b: string, pass: Pass)
    requires Plain(c)
    ensures Strip([c] + b, pass, false, false) == [c] + Strip(b, pass, false, false)
  {
    assert ([c] + b)[1..] == b;
    NoSlash([c] + b, pass);
  }

  lemma NoSlash(s: string, pass: Pass)
    requires s != "" && s[0] != '/'
    ensures !StartsWith(s, 0, Open(pass))
  {
    assert |s| >= 2 ==> s[0..2][0] == s[0];
  }

  lemma CommentBefore(g: string, b: string, pass: Pass, n: nat)
    requires IsComment(g, pass, n)
    ensures IsComment(g + b, pass, n)
  {
    hide FindToken;
    FindBefore(g, b, 2, Close(pass));
    assert (g + b)[0..2] == g[0..2];
  }

  /** A comment with anything after it. */
  lemma StripOneComment(g: string, b: string, pass: Pass, n: nat)
    requires IsComment(g, pass, n)
    ensures Strip(g + b, pass, false, false) == Spaces(n) + Strip(g[n..] + b, pass, false, false)
  {
    hide Strip, Spaces, FindToken, StartsWith;
    CommentBefore(g, b, pass, n);
    OpenAt(g + b, 0, pass);
    CommentOpened(g + b, pass, false);
    assert (g + b)[n..] == g[n..] + b;
  }

  /** The first occurrence is the first occurrence. */
  lemma {:induction false} FindIs(s: string, i: nat, token: string, k: nat)
    requires i <= k <= |s| && token != "" && StartsWith(s, k, token)
    requires forall j :: i <= j < k ==> !StartsWith(s, j, token)
    ensures FindToken(s, i, token) == Some(k)
    decreases k - i
  {
    hide StartsWith;
    if i < k { FindIs(s, i + 1, token, k); }
  }

  /** An occurrence inside a prefix is the first one in the whole. */
  lemma FindBefore(g: string, b: string, i: nat, token: string)
    requires i <= |g| && token != "" && FindToken(g, i, token).Some?
    ensures FindToken(g + b, i, token) == FindToken(g, i, token)
  {
    var k := FindToken(g, i, token).value;
    forall j | i <= j <= k ensures StartsWith(g + b, j, token) == StartsWith(g, j, token) {
      assert (g + b)[j..j + |token|] == g[j..j + |token|];
    }
    FindIs(g + b, i, token, k);
  }

  lemma {:induction false} SpacesGap(n: nat, g: string, pass: Pass)
    requires IsGap(g, pass)
    ensures IsGap(Spaces(n) + g, pass)
  {
    if n == 0 {
      assert Spaces(0) + g == g;
    } else {
      SpacesGap(n - 1, g, pass);
      assert (Spaces(n) + g)[1..] == Spaces(n - 1) + g;
    }
  }

  /** Line gaps put together are a line gap. */
  lemma {:induction false} GapConcat(g: string, b: string)
    requires IsGap(g, Line) && IsGap(b, Line)
    ensures IsGap(g + b, Line)
    decreases |g|
  {
    hide IsComment, Harmless;
    if g == "" {
      assert g + b == b;
    } else if IsSpace(g[0]) && IsGap(g[1..], Line) {
      GapConcat(g[1..], b);
      assert (g + b)[1..] == g[1..] + b;
    } else {
      var n :| 0 < n <= |g| && IsComment(g, Line, n) && IsGap(g[n..], Line);
      GapConcat(g[n..], b);
      CommentBefore(g, b, Line, n);
      assert (g + b)[n..] == g[n..] + b;
      GapOfComment(g + b, Line, n);
    }
  }

  lemma {:induction false} LineGapEnd(g: string)
    requires IsGap(g, Line) && g != ""
    ensures IsSpace(g[|g| - 1])
    decreases |g|
  {
    hide FindToken, Harmless;
    if IsSpace(g[0]) && IsGap(g[1..], Line) {
      if |g| > 1 { LineGapEnd(g[1..]); }
    } else {
      var n :| 0 < n <= |g| && IsComment(g, Line, n) && IsGap(g[n..], Line);
      LineBreakLast(g, n);
      if n < |g| { LineGapEnd(g[n..]); }
    }
  }

  lemma LineBreakLast(g: string, n: nat)
    requires n <= |g| && IsComment(g, Line, n)
    ensures n > 0 && g[n - 1] == '\n'
  {
    hide FindToken;
    StartsWithFirst(g, n - 1, "\n");
  }

  /** The scanner opens a comment here. */
  predicate Opens(s: string, pass: Pass, inString: bool, escaped: bool) {
    && s != "" && !(s[0] == '\\' && !escaped) && !(s[0] == '\"' && !escaped)
    && !inString && StartsWith(s, 0, Open(pass))
  }

  /** Inside a string, and escaped, after a byte that is kept. */
  function Next(c: char, inString: bool, escaped: bool): (bool, bool) {
    if c == '\\' && !escaped then (inString, true)
    else if c == '\"' && !escaped then (!inString, false)
    else (inString, false)
  }

  lemma ByteKept(s: string, pass: Pass, inString: bool, escaped: bool)
    requires s != "" && !Opens(s, pass, inString, escaped)
    ensures var next := Next(s[0], inString, escaped);
            && Strip(s, pass, inString, escaped) == [s[0]] + Strip(s[1..], pass, next.0, next.1)
            && StateAfter(s, pass, inString, escaped) == StateAfter(s[1..], pass, next.0, next.1)
  {
    hide FindToken, Spaces, StartsWith;
  }

  /** The comment that opens at the start of s, with `n` bytes, or without an end. */
  lemma CommentOpened(s: string, pass: Pass, escaped: bool)
    requires Opens(s, pass, false, escaped)
    ensures |s| >= 2
    ensures var k := FindToken(s, 2, Close(pass));
            if k.None? then
              Strip(s, pass, false, escaped) == Spaces(2) + s[2..] && StateAfter(s, pass, false, escaped) == InComment
            else
              var n := k.value + |Close(pass)|;
              && n <= |s| && IsComment(s, pass, n)
              && Strip(s, pass, false, escaped) == Spaces(n) + Strip(s[n..], pass, false, false)
              && StateAfter(s, pass, false, escaped) == StateAfter(s[n..], pass, false, false)
  {
    hide FindToken, Spaces, Strip, StateAfter, StartsWith;
    StripOpened(s, pass, escaped);
    StateOpened(s, pass, escaped);
  }

  lemma StripOpened(s: string, pass: Pass, escaped: bool)
    requires Opens(s, pass, false, escaped)
    ensures |s| >= 2
    ensures var k := FindToken(s, 2, Close(pass));
            && (k.Some? ==> k.value + |Close(pass)| <= |s|)
            && Strip(s, pass, false, escaped) ==
               if k.None? then Spaces(2) + s[2..]
               else Spaces(k.value + |Close(pass)|) + Strip(s[k.value + |Close(pass)|..], pass, false, false)
  {
    hide FindToken, Spaces, Open, Close;
  }

  lemma StateOpened(s: string, pass: Pass, escaped: bool)
    requires Opens(s, pass, false, escaped)
    ensures |s| >= 2
    ensures var k := FindToken(s, 2, Close(pass));
            && (k.Some? ==> k.value + |Close(pass)| <= |s|)
            && StateAfter(s, pass, false, escaped) ==
               if k.None? then InComment else StateAfter(s[k.value + |Close(pass)|..], pass, false, false)
  {
    hide FindToken, Open, Close;
  }

  /** The scanner goes on from where it stands after s, unless a comment starts across the
      end of s. */
  lemma {:induction false} StripThrough(s: string, t: string, pass: Pass, inString: bool, escaped: bool)
    requires StateAfter(s, pass, inString, escaped).InText?
    requires var r := Strip(s, pass, inString, escaped); r == "" || r[|r| - 1] != '/'
    ensures var state := StateAfter(s, pass, inString, escaped);
            Strip(s + t, pass, inString, escaped)
            == Strip(s, pass, inString, escaped) + Strip(t, pass, state.inString, state.escaped)
    decreases |s|
  {
    hide Strip, StateAfter, FindToken, Spaces, Opens, IsComment;
    var st := s + t;
    if s == "" {
      NothingScanned(pass, inString, escaped);
      assert st == t;
    } else if Opens(s, pass, inString, escaped) {
      ThroughComment(s, t, pass, inString, escaped);
    } else {
      ByteKept(s, pass, inString, escaped);
      var next := Next(s[0], inString, escaped);
      assert st[0] == s[0] && st[1..] == s[1..] + t;
      StripThrough(s[1..], t, pass, next.0, next.1);
      NoOpenAcross(s, t, pass, inString, escaped);
      ByteKept(st, pass, inString, escaped);
    }
  }

  lemma NothingScanned(pass: Pass, inString: bool, escaped: bool)
    ensures Strip("", pass, inString, escaped) == ""
            && StateAfter("", pass, inString, escaped) == InText(inString, escaped)
  {
  }

  lemma NoOpenAcross(s: string, t: string, pass: Pass, inString: bool, escaped: bool)
    requires s != "" && !Opens(s, pass, inString, escaped) && (|s| == 1 ==> s[0] != '/')
    ensures !Opens(s + t, pass, inString, escaped)
  {
    if |s| == 1 {
      NoSlash(s + t, pass);
    } else {
      assert (s + t)[0..2] == s[0..2];
    }
  }

  lemma {:induction false} ThroughComment(s: string, t: string, pass: Pass, inString: bool, escaped: bool)
    requires Opens(s, pass, inString, escaped) && StateAfter(s, pass, inString, escaped).InText?
    requires var r := Strip(s, pass, inString, escaped); r == "" || r[|r| - 1] != '/'
    ensures var state := StateAfter(s, pass, inString, escaped);
            Strip(s + t, pass, inString, escaped)
            == Strip(s, pass, inString, escaped) + Strip(t, pass, state.inString, state.escaped)
    decreases |s|, 0
  {
    hide Strip, StateAfter, FindToken, Spaces, IsComment, Opens, Close;
    OpensOutside(s, pass, inString, escaped);
    CommentOpened(s, pass, escaped);
    var n := FindToken(s, 2, Close(pass)).value + |Close(pass)|;
    ghost var r, tail, st := Strip(s, pass, false, escaped), Strip(s[n..], pass, false, false), s + t;
    assert tail != "" ==> r[|r| - 1] == tail[|tail| - 1];
    StripThrough(s[n..], t, pass, false, false);
    OpensWith(s, t, pass, escaped);
    CommentOpened(st, pass, escaped);
    assert st[n..] == s[n..] + t;
  }

  /** An opened comment with its end is the same whatever follows. */
  lemma OpensWith(s: string, t: string, pass: Pass, escaped: bool)
    requires Opens(s, pass, false, escaped) && |s| >= 2 && FindToken(s, 2, Close(pass)).Some?
    ensures Opens(s + t, pass, false, escaped) && FindToken(s + t, 2, Close(pass)) == FindToken(s, 2, Close(pass))
  {
    hide FindToken;
    FindBefore(s, t, 2, Close(pass));
    assert (s + t)[0..2] == s[0..2];
  }

  lemma GapOfComment(g: string, pass: Pass, n: nat)
    requires 0 < n <= |g| && IsComment(g, pass, n) && IsGap(g[n..], pass)
    ensures IsGap(g, pass)
  {
  }

  /** A pass clears the gap g in front of b: the line pass leaves only white space, the block
      pass only what the line pass clears. */
  ghost predicate Clears(g: string, b: string, pass: Pass) {
    && Strip(g + b, pass, false, false) == Cleared(g, pass) + Strip(b, pass, false, false)
    && if pass == Line then Blank(Cleared(g, pass)) else IsGap(Cleared(g, pass), Line)
  }

  lemma ClearsAfter(g: string, b: string, pass: Pass, head: string, rest: string)
    requires Clears(rest, b, pass)
    requires Strip(g + b, pass, false, false) == head + Strip(rest + b, pass, false, false)
    requires Strip(g + "", pass, false, false) == head + Strip(rest + "", pass, false, false)
    requires pass == Line ==> Blank(head)
    requires pass == Block ==> IsGap(head + Cleared(rest, pass), Line)
    ensures Clears(g, b, pass)
  {
    hide Strip, IsGap;
    assert g + "" == g && rest + "" == rest;
  }

  lemma ClearsSpace(g: string, b: string, pass: Pass)
    requires g != "" && IsSpace(g[0]) && Clears(g[1..], b, pass)
    ensures Clears(g, b, pass)
  {
    hide Strip;
    var rest := g[1..];
    assert g + b == [g[0]] + (rest + b) && g + "" == [g[0]] + (rest + "");
    StripPlain(g[0], rest + b, pass);
    StripPlain(g[0], rest + "", pass);
    assert ([g[0]] + Cleared(rest, pass))[1..] == Cleared(rest, pass);
    ClearsAfter(g, b, pass, [g[0]], rest);
  }

  lemma ClearsComment(g: string, b: string, pass: Pass, n: nat)
    requires 0 < n <= |g| && IsComment(g, pass, n) && Clears(g[n..], b, pass)
    ensures Clears(g, b, pass)
  {
    hide Strip, FindToken, IsGap, StartsWith;
    StripOneComment(g, b, pass, n);
    StripOneComment(g, "", pass, n);
    if pass == Block { SpacesGap(n, Cleared(g[n..], pass), Line); }
    ClearsAfter(g, b, pass, Spaces(n), g[n..]);
  }

  lemma ClearsStretch(g: string, b: string, n: nat)
    requires 0 < n <= |g| && Harmless(g[..n]) && Clears(g[n..], b, Block)
    ensures Clears(g, b, Block)
  {
    hide Strip, StateAfter, IsGap;
    var c, rest := g[..n], g[n..];
    var head := Strip(c, Block, false, false);
    LineGapEnd(head);
    StripThrough(c, rest + b, Block, false, false);
    StripThrough(c, rest + "", Block, false, false);
    assert g + b == c + (rest + b) && g + "" == c + (rest + "");
    GapConcat(head, Cleared(rest, Block));
    ClearsAfter(g, b, Block, head, rest);
  }

  lemma {:induction false} StripGap(g: string, b: string, pass: Pass)
    requires IsGap(g, pass)
    ensures Clears(g, b, pass)
    decreases |g|
  {
    hide Clears, IsComment, Harmless, Strip;
    if g == "" {
      NoGap(b, pass);
    } else if IsSpace(g[0]) && IsGap(g[1..], pass) {
      StripGap(g[1..], b, pass);
      ClearsSpace(g, b, pass);
    } else if n :| 0 < n <= |g| && IsComment(g, pass, n) && IsGap(g[n..], pass) {
      StripGap(g[n..], b, pass);
      ClearsComment(g, b, pass, n);
    } else {
      var n :| 0 < n <= |g| && IsGap(g[..n], Line) && Harmless(g[..n]) && IsGap(g[n..], Block);
      StripGap(g[n..], b, Block);
      ClearsStretch(g, b, n);
    }
  }

  lemma NoGap(b: string, pass: Pass)
    ensures Clears("", b, pass)
  {
    assert "" + b == b;
  }

  // ---------------------------------------------------------------- tokens

  /** Scanning a in front of b outside strings turns it into a'. */
  ghost predicate Maps(a: string, a': string, b: string, pass: Pass) {
    Strip(a + b, pass, false, false) == a' + Strip(b, pass, false, false)
  }

  lemma MapsConcat(a1: string, a1': string, a2: string, a2': string, b: string, pass: Pass)
    requires Maps(a1, a1', a2 + b, pass) && Maps(a2, a2', b, pass)
    ensures Maps(a1 + a2, a1' + a2', b, pass)
  {
    hide Strip;
    assert (a1 + a2) + b == a1 + (a2 + b);
  }

  lemma GapMaps(g: string, b: string, pass: Pass)
    requires IsGap(g, pass)
    ensures Maps(g, Cleared(g, pass), b, pass)
    ensures if pass == Line then Blank(Cleared(g, pass)) else IsGap(Cleared(g, pass), Line)
  {
    hide Strip, IsGap;
    StripGap(g, b, pass);
  }

  lemma {:induction false} PlainMaps(a: string, b: string, pass: Pass)
    requires forall k :: 0 <= k < |a| ==> Plain(a[k])
    ensures Maps(a, a, b, pass)
  {
    hide Strip;
    if a == "" {
      assert a + b == b;
    } else {
      PlainMaps(a[1..], b, pass);
      StripPlain(a[0], a[1..] + b, pass);
      assert a + b == [a[0]] + (a[1..] + b);
    }
  }

  lemma StripInString(c: char, b: string, pass: Pass)
    requires c != '\"' && c != '\\'
    ensures Strip([c] + b, pass, true, false) == [c] + Strip(b, pass, true, false)
  {
    assert ([c] + b)[1..] == b;
  }

  lemma {:induction false} StripInside(t: string, b: string, pass: Pass)
    requires forall k :: 0 <= k < |t| ==> t[k] != '\"' && t[k] != '\\'
    ensures Strip(t + b, pass, true, false) == t + Strip(b, pass, true, false)
  {
    hide Strip;
    if t == "" {
      assert t + b == b;
    } else {
      StripInside(t[1..], b, pass);
      StripInString(t[0], t[1..] + b, pass);
      assert t + b == [t[0]] + (t[1..] + b);
    }
  }

  lemma StripPair(c: char, b: string, pass: Pass)
    ensures Strip(['\\', c] + b, pass, true, false) == ['\\', c] + Strip(b, pass, true, false)
  {
    var s := ['\\', c] + b;
    assert s[1..] == [c] + b && s[1..][1..] == b;
    assert Strip(s[1..], pass, true, true) == [c] + Strip(b, pass, true, false);
  }

  lemma HexInside(h: string)
    requires IsHex4(h)
    ensures forall k :: 0 <= k < |h| ==> h[k] != '\"' && h[k] != '\\'
  {
    hide Place;
    forall k | 0 <= k < |h| ensures h[k] != '\"' && h[k] != '\\' { PlaceIsHexValue(h[k]); }
  }

  lemma StripUnit(hex: string, b: string, pass: Pass)
    requires IsHex4(hex)
    ensures Strip("\\u" + hex + b, pass, true, false) == "\\u" + hex + Strip(b, pass, true, false)
  {
    hide Strip, IsHex4;
    HexInside(hex);
    StripPair('u', hex + b, pass);
    StripInside(hex, b, pass);
    assert "\\u" + hex + b == ['\\', 'u'] + (hex + b);
  }

  /** Inside a string literal, however it is written, every byte is kept. */
  lemma StripPiece(p: Piece, b: string, pass: Pass)
    requires IsPiece(p)
    ensures Strip(Written(p) + b, pass, true, false) == Written(p) + Strip(b, pass, true, false)
  {
    hide Strip, HexNumber, IsHex4;
    match p {
      case Raw(c) => StripInString(c, b, pass);
      case Short(c) => StripPair(c, b, pass);
      case Unit(hex) => StripUnit(hex, b, pass);
      case Surrogates(lead, trail) =>
        StripUnit(lead, "\\u" + trail + b, pass);
        StripUnit(trail, b, pass);
        assert Written(p) + b == "\\u" + lead + ("\\u" + trail + b);
    }
  }

  lemma {:induction false} StripPieces(pieces: seq<Piece>, b: string, pass: Pass)
    requires ArePieces(pieces)
    ensures Strip(AllWritten(pieces) + b, pass, true, false) == AllWritten(pieces) + Strip(b, pass, true, false)
  {
    hide Strip, Written, IsPiece;
    if pieces == [] {
      assert AllWritten(pieces) + b == b;
    } else {
      var w, more := Written(pieces[0]), AllWritten(pieces[1..]);
      StripPieces(pieces[1..], b, pass);
      StripPiece(pieces[0], more + b, pass);
      assert (w + more) + b == w + (more + b);
    }
  }

  /** The stripper and the parser agree on where a string literal ends, however it is written. */
  lemma LiteralMaps(pieces: seq<Piece>, b: string, pass: Pass)
    requires ArePieces(pieces)
    ensures var w := "\"" + (AllWritten(pieces) + "\""); Maps(w, w, b, pass)
  {
    hide AllWritten, ArePieces;
    var e := AllWritten(pieces);
    StripPieces(pieces, "\"" + b, pass);
    assert ("\"" + b)[1..] == b;
    assert Strip("\"" + b, pass, true, false) == "\"" + Strip(b, pass, false, false);
    var s := "\"" + (e + "\"") + b;
    assert s[1..] == e + ("\"" + b);
  }

  lemma QuotedMaps(w: string, t: string, b: string, pass: Pass)
    requires IsQuoted(w, t)
    ensures Maps(w, w, b, pass)
  {
    hide AllWritten, AllDenoted, ArePieces, Maps;
    var pieces :| ArePieces(pieces) && w == "\"" + (AllWritten(pieces) + "\"") && t == AllDenoted(pieces);
    LiteralMaps(pieces, b, pass);
  }

  lemma NumberPlain(literal: string)
    requires Strtod(literal, 0) == Decimal(|literal|)
    ensures forall k :: 0 <= k < |literal| ==> Plain(literal[k])
  {
    hide Strtod;
    ScannedChars(literal);
    forall k | 0 <= k < |literal| ensures Plain(literal[k]) { assert InNumber(literal[k]); }
  }

  lemma TokenMaps(v: Value, w: string, b: string, pass: Pass)
    requires IsToken(v, w)
    ensures Maps(w, w, b, pass)
  {
    hide IsQuoted, Strtod, IsDecimal, Overflows, Maps;
    if v.String? {
      QuotedMaps(w, v.text, b, pass);
    } else {
      if v.Number? { NumberPlain(w); }
      PlainMaps(w, b, pass);
    }
  }

  // ---------------------------------------------------------------- documents

  ghost predicate CommaGap(g: string, a: string, c: string, pass: Pass) {
    g == a + ("," + c) && IsGap(a, pass) && IsGap(c, pass)
  }

  /** The gap after an element or a member; the last may have a comma in it. */
  ghost predicate IsTail(g: string, pass: Pass, last: bool) {
    IsGap(g, pass) || (last && exists a, c :: CommaGap(g, a, c, pass))
  }

  /** Every gap is white space and comments. */
  ghost predicate Commented(doc: Doc, pass: Pass) {
    match doc
    case Leaf(_, _) => true
    case List(inner, slots) =>
      IsGap(inner, pass) && forall k :: 0 <= k < |slots| ==> SlotCommented(slots[k], pass, k == |slots| - 1)
    case Dict(inner, entries) =>
      IsGap(inner, pass) && forall k :: 0 <= k < |entries| ==> EntryCommented(entries[k], pass, k == |entries| - 1)
  }

  ghost predicate SlotCommented(slot: Slot, pass: Pass, last: bool) {
    IsGap(slot.before, pass) && Commented(slot.doc, pass) && IsTail(slot.after, pass, last)
  }

  ghost predicate EntryCommented(entry: Entry, pass: Pass, last: bool) {
    && IsGap(entry.before, pass) && IsGap(entry.beforeColon, pass) && IsGap(entry.afterColon, pass)
    && Commented(entry.doc, pass) && IsTail(entry.after, pass, last)
  }

  /** The same tokens with every gap cleared. */
  function ClearDoc(doc: Doc, pass: Pass): Doc {
    match doc
    case Leaf(_, _) => doc
    case List(inner, slots) => List(Cleared(inner, pass), ClearSlots(slots, pass))
    case Dict(inner, entries) => Dict(Cleared(inner, pass), ClearEntries(entries, pass))
  }

  function ClearSlot(slot: Slot, pass: Pass): Slot {
    Slot(Cleared(slot.before, pass), ClearDoc(slot.doc, pass), Cleared(slot.after, pass))
  }

  function ClearSlots(slots: seq<Slot>, pass: Pass): (r: seq<Slot>)
    ensures |r| == |slots|
  {
    if slots == [] then [] else [ClearSlot(slots[0], pass)] + ClearSlots(slots[1..], pass)
  }

  function ClearEntry(entry: Entry, pass: Pass): Entry {
    Entry(Cleared(entry.before, pass), entry.name, entry.quoted, Cleared(entry.beforeColon, pass),
          Cleared(entry.afterColon, pass), ClearDoc(entry.doc, pass), Cleared(entry.after, pass))
  }

  function ClearEntries(entries: seq<Entry>, pass: Pass): (r: seq<Entry>)
    ensures |r| == |entries|
  {
    if entries == [] then [] else [ClearEntry(entries[0], pass)] + ClearEntries(entries[1..], pass)
  }

  /** A document a pass can clear. */
  ghost predicate In(doc: Doc, pass: Pass) {
    Tokens(doc) && Commented(doc, pass)
  }

  ghost predicate SlotIn(slot: Slot, pass: Pass, last: bool) {
    In(slot.doc, pass) && IsGap(slot.before, pass) && IsTail(slot.after, pass, last)
  }

  ghost predicate EntryIn(entry: Entry, pass: Pass, last: bool) {
    && In(entry.doc, pass) && IsName(entry.name) && IsQuoted(entry.quoted, entry.name)
    && IsGap(entry.before, pass) && IsGap(entry.beforeColon, pass) && IsGap(entry.afterColon, pass)
    && IsTail(entry.after, pass, last)
  }

  ghost predicate SlotsIn(slots: seq<Slot>, pass: Pass) {
    forall k :: 0 <= k < |slots| ==> SlotIn(slots[k], pass, k == |slots| - 1)
  }

  ghost predicate EntriesIn(entries: seq<Entry>, pass: Pass) {
    forall k :: 0 <= k < |entries| ==> EntryIn(entries[k], pass, k == |entries| - 1)
  }

  lemma ListIn(doc: Doc, pass: Pass)
    requires doc.List?
    ensures In(doc, pass) <==> IsGap(doc.inner, pass) && SlotsIn(doc.slots, pass)
  {
    hide IsGap, IsTail;
    if IsGap(doc.inner, pass) && SlotsIn(doc.slots, pass) {
      forall k | 0 <= k < |doc.slots|
        ensures Tokens(doc.slots[k].doc) && SlotCommented(doc.slots[k], pass, k == |doc.slots| - 1)
      {
        assert SlotIn(doc.slots[k], pass, k == |doc.slots| - 1);
      }
    }
    if In(doc, pass) {
      forall k | 0 <= k < |doc.slots| ensures SlotIn(doc.slots[k], pass, k == |doc.slots| - 1) {
        assert SlotCommented(doc.slots[k], pass, k == |doc.slots| - 1);
      }
    }
  }

  lemma DictIn(doc: Doc, pass: Pass)
    requires doc.Dict?
    ensures In(doc, pass) <==>
            IsGap(doc.inner, pass) && EntriesIn(doc.entries, pass) && Distinct(MembersOf(doc.entries))
  {
    hide IsGap, IsTail, IsQuoted, Distinct;
    var n := |doc.entries|;
    if IsGap(doc.inner, pass) && EntriesIn(doc.entries, pass) {
      forall k | 0 <= k < n
        ensures var e := doc.entries[k];
                && IsName(e.name) && IsQuoted(e.quoted, e.name) && Tokens(e.doc)
                && EntryCommented(e, pass, k == n - 1)
      {
        assert EntryIn(doc.entries[k], pass, k == n - 1);
      }
    }
    if In(doc, pass) {
      forall k | 0 <= k < n ensures EntryIn(doc.entries[k], pass, k == n - 1) {
        assert EntryCommented(doc.entries[k], pass, k == n - 1);
      }
    }
  }

  lemma FirstSlotIn(slots: seq<Slot>, pass: Pass)
    requires slots != [] && SlotsIn(slots, pass)
    ensures SlotIn(slots[0], pass, |slots| == 1) && SlotsIn(slots[1..], pass)
  {
    hide SlotIn;
    forall k | 0 <= k < |slots[1..]| ensures SlotIn(slots[1..][k], pass, k == |slots[1..]| - 1) {
      assert slots[1..][k] == slots[k + 1];
    }
  }

  lemma FirstEntryIn(entries: seq<Entry>, pass: Pass)
    requires entries != [] && EntriesIn(entries, pass)
    ensures EntryIn(entries[0], pass, |entries| == 1) && EntriesIn(entries[1..], pass)
  {
    hide EntryIn;
    forall k | 0 <= k < |entries[1..]| ensures EntryIn(entries[1..][k], pass, k == |entries[1..]| - 1) {
      assert entries[1..][k] == entries[k + 1];
    }
  }

  /** The gap after an element, with its comma if there is one. */
  lemma TailMaps(g: string, last: bool, b: string, pass: Pass)
    requires IsTail(g, pass, last)
    ensures Maps(g, Cleared(g, pass), b, pass)
    ensures if pass == Line then AfterGap(Cleared(g, pass), last) else IsTail(Cleared(g, pass), Line, last)
  {
    hide IsGap, Maps, Cleared, Blank;
    if IsGap(g, pass) {
      GapMaps(g, b, pass);
    } else {
      var a, c :| CommaGap(g, a, c, pass);
      CommaGapMaps(a, c, b, pass);
      CommaGapMaps(a, c, "", pass);
      ClearedIs(g, Cleared(a, pass) + ("," + Cleared(c, pass)), pass);
      GapMaps(a, "", pass);
      GapMaps(c, "", pass);
      if pass == Line {
        assert WithComma(Cleared(g, pass), Cleared(a, pass), Cleared(c, pass));
      } else {
        assert CommaGap(Cleared(g, pass), Cleared(a, pass), Cleared(c, pass), Line);
      }
    }
  }

  lemma CommaGapMaps(a: string, c: string, b: string, pass: Pass)
    requires IsGap(a, pass) && IsGap(c, pass)
    ensures Maps(a + ("," + c), Cleared(a, pass) + ("," + Cleared(c, pass)), b, pass)
  {
    hide IsGap, Maps, Cleared;
    GapMaps(c, b, pass);
    PlainMaps(",", c + b, pass);
    MapsConcat(",", ",", c, Cleared(c, pass), b, pass);
    GapMaps(a, ("," + c) + b, pass);
    MapsConcat(a, Cleared(a, pass), "," + c, "," + Cleared(c, pass), b, pass);
  }

  lemma ClearedIs(g: string, g': string, pass: Pass)
    requires Maps(g, g', "", pass)
    ensures Cleared(g, pass) == g'
  {
    hide Strip;
    NothingScanned(pass, false, false);
    assert g + "" == g && g' + "" == g';
  }

  /** Clearing keeps the value and the tokens and leaves gaps the next stage can deal with. */
  ghost predicate ClearedWell(doc: Doc, doc': Doc, pass: Pass) {
    ValueOf(doc') == ValueOf(doc) && if pass == Line then Ready(doc') else In(doc', Line)
  }

  lemma {:induction false} ClearDocKeeps(doc: Doc, pass: Pass)
    requires In(doc, pass)
    ensures ClearedWell(doc, ClearDoc(doc, pass), pass)
    decreases doc, 1
  {
    hide IsGap, Cleared, In, Ready, Blank, Distinct;
    var doc' := ClearDoc(doc, pass);
    match doc {
      case Leaf(_, _) => LeafIn(doc, pass);
      case List(inner, slots) =>
        ListIn(doc, pass);
        GapMaps(inner, "", pass);
        ClearSlotsKeeps(slots, pass);
        ListIn(doc', Line);
        ListReady(doc');
      case Dict(inner, entries) =>
        DictIn(doc, pass);
        GapMaps(inner, "", pass);
        ClearEntriesKeeps(entries, pass);
        DictIn(doc', Line);
        DictReady(doc');
    }
  }

  lemma LeafIn(doc: Doc, pass: Pass)
    requires doc.Leaf? && In(doc, pass)
    ensures In(doc, Line) && Ready(doc)
  {
  }

  lemma {:induction false} ClearSlotsKeeps(slots: seq<Slot>, pass: Pass)
    requires SlotsIn(slots, pass)
    ensures var r := ClearSlots(slots, pass);
            ElementsOf(r) == ElementsOf(slots) && if pass == Line then SlotsReady(r) else SlotsIn(r, Line)
    decreases slots, 0
  {
    hide IsGap, Cleared, ValueOf, ClearDoc, In, Ready, Blank, IsTail, AfterGap;
    if slots != [] {
      var r, last := ClearSlots(slots, pass), |slots| == 1;
      FirstSlotIn(slots, pass);
      ClearDocKeeps(slots[0].doc, pass);
      GapMaps(slots[0].before, "", pass);
      TailMaps(slots[0].after, last, "", pass);
      ClearSlotsKeeps(slots[1..], pass);
      assert r[1..] == ClearSlots(slots[1..], pass);
      forall k | 0 < k < |r| ensures r[k] == r[1..][k - 1] { }
    }
  }

  lemma {:induction false} ClearEntriesKeeps(entries: seq<Entry>, pass: Pass)
    requires EntriesIn(entries, pass)
    ensures var r := ClearEntries(entries, pass);
            MembersOf(r) == MembersOf(entries) && if pass == Line then EntriesReady(r) else EntriesIn(r, Line)
    decreases entries, 0
  {
    hide IsGap, Cleared, ValueOf, ClearDoc, In, Ready, Blank, IsTail, AfterGap, IsQuoted, IsName;
    if entries != [] {
      var entry, r, last := entries[0], ClearEntries(entries, pass), |entries| == 1;
      FirstEntryIn(entries, pass);
      ClearDocKeeps(entry.doc, pass);
      GapMaps(entry.before, "", pass);
      GapMaps(entry.beforeColon, "", pass);
      GapMaps(entry.afterColon, "", pass);
      TailMaps(entry.after, last, "", pass);
      ClearEntriesKeeps(entries[1..], pass);
      assert r[1..] == ClearEntries(entries[1..], pass);
      forall k | 0 < k < |r| ensures r[k] == r[1..][k - 1] { }
    }
  }

  /** A pass over the text of a document gives the text of the cleared document: no token
      changes, strings included. */
  lemma {:induction false} DocMaps(doc: Doc, b: string, pass: Pass)
    requires In(doc, pass)
    ensures Maps(Text(doc), Text(ClearDoc(doc, pass)), b, pass)
    decreases doc, 1
  {
    hide IsGap, Cleared, SlotsText, EntriesText, Maps, In, IsToken, Distinct;
    match doc {
      case Leaf(v, written) =>
        LeafToken(doc, pass);
        TokenMaps(v, written, b, pass);
      case List(inner, slots) =>
        ListIn(doc, pass);
        var body := if slots == [] then inner else SlotsText(slots);
        var body' := if slots == [] then Cleared(inner, pass) else SlotsText(ClearSlots(slots, pass));
        if slots == [] { GapMaps(inner, "]" + b, pass); } else { SlotsMap(slots, "]" + b, pass); }
        Bracketed("[", body, body', "]", b, pass);
      case Dict(inner, entries) =>
        DictIn(doc, pass);
        var body := if entries == [] then inner else EntriesText(entries);
        var body' := if entries == [] then Cleared(inner, pass) else EntriesText(ClearEntries(entries, pass));
        if entries == [] { GapMaps(inner, "}" + b, pass); } else { EntriesMap(entries, "}" + b, pass); }
        Bracketed("{", body, body', "}", b, pass);
    }
  }

  lemma LeafToken(doc: Doc, pass: Pass)
    requires doc.Leaf? && In(doc, pass)
    ensures IsToken(doc.v, doc.written)
  {
  }

  lemma Bracketed(open: string, body: string, body': string, close: string, b: string, pass: Pass)
    requires Maps(body, body', close + b, pass)
    requires |open| == |close| == 1 && Plain(open[0]) && Plain(close[0])
    ensures Maps(open + (body + close), open + (body' + close), b, pass)
  {
    hide Maps;
    PlainMaps(close, b, pass);
    MapsConcat(body, body', close, close, b, pass);
    PlainMaps(open, (body + close) + b, pass);
    MapsConcat(open, open, body + close, body' + close, b, pass);
  }

  /** What follows an element or a member: a comma and the rest, or nothing. */
  lemma MoreMaps(last: bool, more: string, more': string, b: string, pass: Pass)
    requires !last ==> Maps(more, more', b, pass)
    ensures Maps(if last then "" else "," + more, if last then "" else "," + more', b, pass)
  {
    hide Maps;
    if last {
      PlainMaps("", b, pass);
    } else {
      PlainMaps(",", more + b, pass);
      MapsConcat(",", ",", more, more', b, pass);
    }
  }

  /** A document, the gap after it, and the tail. */
  lemma ItemMaps(t: string, t': string, after: string, last: bool, tail: string, tail': string, b: string, pass: Pass)
    requires IsTail(after, pass, last) && Maps(tail, tail', b, pass) && Maps(t, t', (after + tail) + b, pass)
    ensures Maps(t + (after + tail), t' + (Cleared(after, pass) + tail'), b, pass)
  {
    hide Maps, IsTail, Cleared;
    TailMaps(after, last, tail + b, pass);
    MapsConcat(after, Cleared(after, pass), tail, tail', b, pass);
    MapsConcat(t, t', after + tail, Cleared(after, pass) + tail', b, pass);
  }

  lemma {:induction false} SlotsMap(slots: seq<Slot>, b: string, pass: Pass)
    requires slots != [] && SlotsIn(slots, pass)
    ensures Maps(SlotsText(slots), SlotsText(ClearSlots(slots, pass)), b, pass)
    decreases slots, 0
  {
    hide Maps, In, IsGap, Cleared, Text, ClearDoc, SlotsIn, IsTail;
    FirstSlotIn(slots, pass);
    var slot, cs, last := slots[0], ClearSlots(slots, pass), |slots| == 1;
    var more := if last then "" else SlotsText(slots[1..]);
    var more' := if last then "" else SlotsText(cs[1..]);
    assert cs[0] == ClearSlot(slot, pass);
    if !last {
      assert cs[1..] == ClearSlots(slots[1..], pass);
      SlotsMap(slots[1..], b, pass);
    }
    MoreMaps(last, more, more', b, pass);
    var tail, tail' := if last then "" else "," + more, if last then "" else "," + more';
    DocMaps(slot.doc, (slot.after + tail) + b, pass);
    ItemMaps(Text(slot.doc), Text(cs[0].doc), slot.after, last, tail, tail', b, pass);
    GapMaps(slot.before, FromFirst(slots) + b, pass);
    MapsConcat(slot.before, cs[0].before, FromFirst(slots), FromFirst(cs), b, pass);
  }

  lemma {:induction false} EntriesMap(entries: seq<Entry>, b: string, pass: Pass)
    requires entries != [] && EntriesIn(entries, pass)
    ensures Maps(EntriesText(entries), EntriesText(ClearEntries(entries, pass)), b, pass)
    decreases entries, 0
  {
    hide Maps, In, IsGap, Cleared, Text, ClearDoc, EntriesIn, IsTail, IsQuoted, IsName;
    FirstEntryIn(entries, pass);
    var entry, cs, last := entries[0], ClearEntries(entries, pass), |entries| == 1;
    var more := if last then "" else EntriesText(entries[1..]);
    var more' := if last then "" else EntriesText(cs[1..]);
    assert cs[0] == ClearEntry(entry, pass);
    if !last {
      assert cs[1..] == ClearEntries(entries[1..], pass);
      EntriesMap(entries[1..], b, pass);
    }
    MoreMaps(last, more, more', b, pass);
    var tail, tail' := if last then "" else "," + more, if last then "" else "," + more';
    DocMaps(entry.doc, (entry.after + tail) + b, pass);
    ItemMaps(Text(entry.doc), Text(cs[0].doc), entry.after, last, tail, tail', b, pass);
    NameMaps(entry, cs[0], FromValue(entries), FromValue(cs), b, pass);
  }

  /** The gaps and tokens in front of a member's value. */
  lemma NameMaps(entry: Entry, entry': Entry, value: string, value': string, b: string, pass: Pass)
    requires IsGap(entry.before, pass) && IsGap(entry.beforeColon, pass) && IsGap(entry.afterColon, pass)
    requires IsQuoted(entry.quoted, entry.name)
    requires entry'.before == Cleared(entry.before, pass) && entry'.quoted == entry.quoted
    requires entry'.beforeColon == Cleared(entry.beforeColon, pass)
             && entry'.afterColon == Cleared(entry.afterColon, pass)
    requires Maps(value, value', b, pass)
    ensures Maps(entry.before + (entry.quoted + (entry.beforeColon + (":" + (entry.afterColon + value)))),
                 entry'.before + (entry.quoted + (entry'.beforeColon + (":" + (entry'.afterColon + value')))),
                 b, pass)
  {
    hide Maps, IsGap, Cleared, IsQuoted;
    var q := entry.quoted;
    var s1, s1' := entry.afterColon + value, entry'.afterColon + value';
    GapMaps(entry.afterColon, value + b, pass);
    MapsConcat(entry.afterColon, entry'.afterColon, value, value', b, pass);
    PlainMaps(":", s1 + b, pass);
    MapsConcat(":", ":", s1, s1', b, pass);
    var s2, s2' := ":" + s1, ":" + s1';
    GapMaps(entry.beforeColon, s2 + b, pass);
    MapsConcat(entry.beforeColon, entry'.beforeColon, s2, s2', b, pass);
    var s3, s3' := entry.beforeColon + s2, entry'.beforeColon + s2';
    QuotedMaps(q, entry.name, s3 + b, pass);
    MapsConcat(q, q, s3, s3', b, pass);
    GapMaps(entry.before, (q + s3) + b, pass);
    MapsConcat(entry.before, entry'.before, q + s3, q + s3', b, pass);
  }

  // ---------------------------------------------------------------- transparency

  /** Comments between tokens do not change what is parsed: for any text of a value with
      white space and comments in its gaps and in front, json_parse_string_with_comments gives
      the value, exactly when it is not nested too deeply and what follows, stripped, does not
      carry it on. */
  lemma CommentsAreTransparent(lead: string, doc: Doc, rest: string)
    requires In(doc, Block) && IsGap(lead, Block)
    requires '\0' !in lead + Text(doc) + rest
    ensures var v, r := ValueOf(doc), ParseCommented(lead + Text(doc) + rest);
            && (r == Some(v) <==> Depth(v) <= MAX_NESTING && Printer.Separate(v, Stripped(rest)))
            && (Depth(v) > MAX_NESTING ==> r == None)
  {
    hide Strip, IsGap, Commented, Tokens, Spaced, ValueOf, Text, Depth, Parser.ParseValue, CString;
    hide ClearDoc;
    hide Printer.Separate;
    var s := lead + Text(doc) + rest;
    assert CString(s) == s;
    PassClears(lead, doc, rest, Block);
    LinePassParses(Cleared(lead, Block), ClearDoc(doc, Block), Strip(rest, Block, false, false));
  }

  /** From the line pass on. */
  lemma LinePassParses(lead: string, doc: Doc, rest: string)
    requires In(doc, Line) && IsGap(lead, Line)
    ensures var s := Strip(lead + Text(doc) + rest, Line, false, false);
            var v, r := ValueOf(doc), Parser.ParseValue(s, 0, 0);
            && (r.Ok? && r.value == v <==>
                  Depth(v) <= MAX_NESTING && Printer.Separate(v, Strip(rest, Line, false, false)))
            && (Depth(v) > MAX_NESTING ==> r.Fail?)
  {
    hide Strip, IsGap, Commented, Tokens, Spaced, ValueOf, Text, Depth, Parser.ParseValue, ClearDoc;
    hide Printer.Separate;
    PassClears(lead, doc, rest, Line);
    ParseAfterGap(Cleared(lead, Line), ClearDoc(doc, Line), Strip(rest, Line, false, false));
  }

  /** Without a block comment anywhere in the text, line comments may hold whatever they like. */
  lemma LineCommentsAlone(lead: string, doc: Doc, rest: string)
    requires In(doc, Line) && IsGap(lead, Line)
    requires '\0' !in lead + Text(doc) + rest
    requires var s := lead + Text(doc) + rest; forall k :: 0 <= k <= |s| ==> !StartsWith(s, k, "/*")
    ensures var v, r := ValueOf(doc), ParseCommented(lead + Text(doc) + rest);
            && (r == Some(v) <==>
                  Depth(v) <= MAX_NESTING && Printer.Separate(v, Strip(rest, Line, false, false)))
            && (Depth(v) > MAX_NESTING ==> r == None)
  {
    hide Strip, IsGap, Commented, Tokens, Spaced, ValueOf, Text, Depth, Parser.ParseValue, CString;
    hide StartsWith;
    hide Printer.Separate;
    var s := lead + Text(doc) + rest;
    assert CString(s) == s;
    NothingToStrip(s, Block, false, false);
    LinePassParses(lead, doc, rest);
  }

  /** Text without an opening token is left alone. */
  lemma {:induction false} NothingToStrip(s: string, pass: Pass, inString: bool, escaped: bool)
    requires forall k :: 0 <= k <= |s| ==> !StartsWith(s, k, Open(pass))
    ensures Strip(s, pass, inString, escaped) == s
    ensures StateAfter(s, pass, inString, escaped).InText?
    decreases |s|
  {
    hide FindToken, StartsWith;
    if s != "" {
      assert !StartsWith(s, 0, Open(pass));
      forall k | 0 <= k <= |s[1..]| ensures !StartsWith(s[1..], k, Open(pass)) {
        TokenAhead(s, 1, s[1..], k, Open(pass));
      }
      var esc := s[0] == '\\' && !escaped;
      var quote := s[0] == '\"' && !escaped;
      NothingToStrip(s[1..], pass, if quote then !inString else inString, esc);
    }
  }

  /** One pass over the whole text. */
  lemma PassClears(lead: string, doc: Doc, rest: string, pass: Pass)
    requires In(doc, pass) && IsGap(lead, pass)
    ensures var doc', lead' := ClearDoc(doc, pass), Cleared(lead, pass);
            && Strip(lead + Text(doc) + rest, pass, false, false)
               == lead' + Text(doc') + Strip(rest, pass, false, false)
            && ValueOf(doc') == ValueOf(doc)
            && if pass == Line then Ready(doc') && Blank(lead') else In(doc', Line) && IsGap(lead', Line)
  {
    hide Strip, IsGap, Commented, Tokens, Spaced, ValueOf, Text, ClearDoc;
    var t, t' := Text(doc), Text(ClearDoc(doc, pass));
    ClearDocKeeps(doc, pass);
    DocMaps(doc, rest, pass);
    GapMaps(lead, t + rest, pass);
    MapsConcat(lead, Cleared(lead, pass), t, t', rest, pass);
  }

  lemma ParseAfterGap(lead: string, doc: Doc, rest: string)
    requires Ready(doc) && Blank(lead)
    ensures var v, r := ValueOf(doc), Parser.ParseValue(lead + Text(doc) + rest, 0, 0);
            && (r.Ok? && r.value == v <==> Depth(v) <= MAX_NESTING && Printer.Separate(v, rest))
            && (Depth(v) > MAX_NESTING ==> r.Fail?)
  {
    hide Tokens, Spaced, ValueOf, Text, Depth, Parser.ParseValue, Stops, Printer.Separate;
    var t := Text(doc);
    var s := lead + t + rest;
    assert s[0..|s|] == lead + (t + rest) && s[|lead|..|lead| + |t|] == t;
    assert s[|lead|..] == t + rest;
    TextOpens(doc);
    assert (t + rest)[0] == t[0];
    var j := SkipGap(s, 0, |s|, lead, t + rest);
    ParseValueSkips(s, 0, 0);
    ParseDoc(s, j, doc, 0);
    Printer.StopsIsSeparate(doc, s, |lead|, rest);
  }

  /** Commented text of a value parses like the serializer's own text of it. */
  lemma CommentedLikePrinted(lead: string, doc: Doc, rest: string, level: nat, pretty: bool, slashes: bool)
    requires In(doc, Block) && IsGap(lead, Block) && Printer.Separate(ValueOf(doc), Stripped(rest))
    requires WellFormed(ValueOf(doc))
    requires '\0' !in lead + Text(doc) + rest
    ensures ParseCommented(lead + Text(doc) + rest)
         == Parser.ParseText(Printer.Print(ValueOf(doc), level, pretty, slashes))
  {
    hide IsGap, Commented, WellFormed, ValueOf, Text, Depth, Parser.ParseValue, CString, Printer.Print, Strip, Tokens;
    hide Printer.Separate;
    var v := ValueOf(doc);
    CommentsAreTransparent(lead, doc, rest);
    Printer.NothingBehind(v);
    Printer.PrintParses(v, level, pretty, slashes, "");
    Printer.NoByteOrderMark(v, level, pretty, slashes, "");
    assert Printer.Print(v, level, pretty, slashes) + "" == Printer.Print(v, level, pretty, slashes);
  }

  // ---------------------------------------------------------------- the byte order mark

  /** Text that starts with a byte order mark never parses this way. */
  lemma MarkRefused(s: string)
    requires StartsWith(s, 0, Parser.BOM)
    ensures ParseCommented(s) == None
  {
    hide CString, Strip, Parser.BOM;
    MarkFirst(s);
    CStringKeeps(s);
    KeepsFirst(CString(s), Block);
    KeepsFirst(Strip(CString(s), Block, false, false), Line);
    MarkIsNoValue(Stripped(CString(s)));
  }

  lemma MarkFirst(s: string)
    requires StartsWith(s, 0, Parser.BOM)
    ensures s != "" && s[0] == 0xEF as char
  {
    StartsWithFirst(s, 0, Parser.BOM);
  }

  lemma CStringKeeps(s: string)
    requires s != "" && s[0] != '\0'
    ensures CString(s) != "" && CString(s)[0] == s[0]
  {
  }

  lemma KeepsFirst(s: string, pass: Pass)
    requires s != "" && Plain(s[0])
    ensures var r := Strip(s, pass, false, false); r != "" && r[0] == s[0]
  {
    hide Strip;
    StripPlain(s[0], s[1..], pass);
    assert s == [s[0]] + s[1..];
  }

  lemma MarkIsNoValue(s: string)
    requires s != "" && s[0] == 0xEF as char
    ensures Parser.ParseValue(s, 0, 0) == Fail
  {
    assert SkipSpaces(s, 0) == 0;
  }

  /** Text without comments parses alike through both entry points, if and only if it does not
      start with a byte order mark, or does not parse at all. */
  lemma WithoutCommentsAlike(s: string)
    requires '\0' !in s && forall k, pass :: 0 <= k <= |s| ==> !StartsWith(s, k, Open(pass))
    ensures ParseCommented(s) == Parser.ParseText(s) <==> !StartsWith(s, 0, Parser.BOM) || Parser.ParseText(s) == None
  {
    hide CString, Strip, Parser.ParseValue, StartsWith;
    assert CString(s) == s;
    NothingToStrip(s, Block, false, false);
    NothingToStrip(s, Line, false, false);
    if StartsWith(s, 0, Parser.BOM) { MarkRefused(s); }
  }

  /** An example: a byte order mark and a digit. */
  lemma MarkedText()
    ensures var s := [0xEF as char, 0xBB as char, 0xBF as char] + "1";
            Parser.ParseText(s) == Some(Number("1")) && ParseCommented(s) == None
  {
    hide ParseCommented, Strtod, IsDecimal, Overflows, Parser.ParseValue;
    var s := [0xEF as char, 0xBB as char, 0xBF as char] + "1";
    assert s[0..3] == Parser.BOM && s[3..4] == "1";
    Parser.AtNumber(s, 3, 0);
    MarkRefused(s);
    OneIsNumber();
    ScanExactly(s, 3, "1");
    OnlyExtends("1", s, 4);
  }

  // ---------------------------------------------------------------- which line comments do harm

  /** The block pass does not open a comment at the second slash, and comes out of the line
      comment outside strings and comments. */
  predicate Survives(g: string) {
    |g| >= 1 && !StartsWith(g, 1, "/*") && StateAfter(g, Block, false, false) == InText(false, false)
  }

  /** Exactly the line comments that survive the block pass are removed whatever follows. */
  lemma LineCommentExactly(g: string)
    requires IsComment(g, Line, |g|)
    ensures (forall t :: Stripped(g + t) == Spaces(|g|) + Stripped(t)) <==> Survives(g)
  {
    hide Strip, StateAfter, IsComment, Spaces;
    LineEnds(g);
    if Survives(g) {
      forall t ensures Stripped(g + t) == Spaces(|g|) + Stripped(t) { SurvivorIsRemoved(g, t, false); }
    } else if StartsWith(g, 1, "/*") {
      SlashStays(g);
    } else if StateAfter(g, Block, false, false).InText? {
      NotEscaped(g, Block, false, false);
      QuoteLeftOpen(g);
    } else {
      CommentLeftOpen(g);
    }
  }

  lemma NewlineAt(g: string, k: nat)
    requires k < |g|
    ensures StartsWith(g, k, "\n") <==> g[k] == '\n'
  {
    assert g[k..k + 1] == [g[k]];
  }

  lemma LineEnds(g: string)
    requires IsComment(g, Line, |g|)
    ensures |g| >= 3 && g[0] == g[1] == '/' && g[|g| - 1] == '\n' && forall k :: 0 <= k < |g| - 1 ==> g[k] != '\n'
  {
    hide FindToken;
    OpenAt(g, 0, Line);
    NewlineAt(g, |g| - 1);
    forall k | 2 <= k < |g| - 1 ensures g[k] != '\n' { NewlineAt(g, k); }
  }

  /** A line comment is what starts with two slashes and has its one line feed at the end. */
  lemma LineCommentIs(g: string)
    requires |g| >= 3 && g[0] == g[1] == '/' && g[|g| - 1] == '\n' && forall k :: 2 <= k < |g| - 1 ==> g[k] != '\n'
    ensures IsComment(g, Line, |g|)
  {
    hide FindToken, StartsWith;
    OpenAt(g, 0, Line);
    NewlineAt(g, |g| - 1);
    forall k | 2 <= k < |g| - 1 ensures !StartsWith(g, k, "\n") { NewlineAt(g, k); }
    FindIs(g, 2, "\n", |g| - 1);
  }

  /** Text that does not end with a backslash leaves no escape pending. */
  lemma {:induction false} NotEscaped(s: string, pass: Pass, inString: bool, escaped: bool)
    requires s != "" && s[|s| - 1] != '\\'
    ensures var state := StateAfter(s, pass, inString, escaped); state.InText? ==> !state.escaped
    decreases |s|
  {
    hide Strip, StateAfter, FindToken, Spaces, Opens, IsComment;
    if Opens(s, pass, inString, escaped) {
      OpensOutside(s, pass, inString, escaped);
      CommentOpened(s, pass, escaped);
      var k := FindToken(s, 2, Close(pass));
      if k.Some? {
        var rest := s[k.value + |Close(pass)|..];
        if rest == "" { NothingScanned(pass, false, false); } else { NotEscaped(rest, pass, false, false); }
      }
    } else {
      ByteKept(s, pass, inString, escaped);
      var next := Next(s[0], inString, escaped);
      if |s| == 1 { NothingScanned(pass, next.0, next.1); } else { NotEscaped(s[1..], pass, next.0, next.1); }
    }
  }

  lemma OpensOutside(s: string, pass: Pass, inString: bool, escaped: bool)
    requires Opens(s, pass, inString, escaped)
    ensures !inString
  {
  }

  /** The block pass keeps the last byte, outside comments, unless it is a slash. */
  lemma {:induction false} LastKept(s: string, inString: bool, escaped: bool)
    requires s != "" && s[|s| - 1] != '/' && StateAfter(s, Block, inString, escaped).InText?
    ensures var r := Strip(s, Block, inString, escaped); r[|r| - 1] == s[|s| - 1]
    decreases |s|
  {
    hide Strip, StateAfter, FindToken, Spaces, Opens, StartsWith;
    if Opens(s, Block, inString, escaped) {
      OpensOutside(s, Block, inString, escaped);
      CommentOpened(s, Block, escaped);
      var n := FindToken(s, 2, "*/").value + 2;
      CloseEnds(s, n);
      LastKept(s[n..], false, false);
    } else {
      ByteKept(s, Block, inString, escaped);
      var next := Next(s[0], inString, escaped);
      if |s| > 1 { LastKept(s[1..], next.0, next.1); }
    }
  }

  lemma CloseEnds(s: string, n: nat)
    requires 2 <= n <= |s| && StartsWith(s, n - 2, "*/")
    ensures s[n - 1] == '/'
  {
    assert s[n - 2..n][1] == s[n - 1];
  }

  /** What the block pass makes of a line comment it comes out of is a line comment. */
  lemma StaysComment(g: string)
    requires IsComment(g, Line, |g|) && !StartsWith(g, 1, "/*") && StateAfter(g, Block, false, false).InText?
    ensures var r := Strip(g, Block, false, false); IsComment(r, Line, |r|) && r[|r| - 1] == '\n'
  {
    hide IsComment, StateAfter;
    LineEnds(g);
    var r := Strip(g, Block, false, false);
    SlashesKept(g);
    LastKept(g, false, false);
    forall k | 2 <= k < |r| - 1 ensures r[k] != '\n' {
      OnlySpacesWritten(g, Block, false, false, k);
    }
    LineCommentIs(r);
  }

  lemma SlashesKept(g: string)
    requires |g| >= 3 && g[0] == g[1] == '/' && !StartsWith(g, 1, "/*")
    ensures var r := Strip(g, Block, false, false); r[0] == r[1] == '/'
  {
    hide FindToken, Spaces;
    OpenAt(g, 0, Block);
    OpenAt(g, 1, Block);
    OpenAt(g[1..], 0, Block);
    assert g[1..][0] == g[1] && g[1..][1] == g[2];
  }

  /** Past a line comment that the block pass comes out of, inside a string or not. */
  lemma SurvivorIsRemoved(g: string, t: string, inString: bool)
    requires IsComment(g, Line, |g|) && !StartsWith(g, 1, "/*")
    requires StateAfter(g, Block, false, false) == InText(inString, false)
    ensures Stripped(g + t) == Spaces(|g|) + Strip(Strip(t, Block, inString, false), Line, false, false)
  {
    hide Strip, StateAfter, IsComment, Spaces;
    var r, u := Strip(g, Block, false, false), Strip(t, Block, inString, false);
    StaysComment(g);
    StripThrough(g, t, Block, false, false);
    StripOneComment(r, u, Line, |r|);
    assert r[|r|..] + u == u;
  }

  /** A block comment that opens at the second slash leaves the first one standing. */
  lemma SlashStays(g: string)
    requires |g| >= 3 && g[0] == g[1] == '/' && StartsWith(g, 1, "/*")
    ensures Stripped(g + "") != Spaces(|g|) + Stripped("")
  {
    hide FindToken, Strip, Spaces, StartsWith, StateAfter, IsComment;
    OpenAt(g, 0, Block);
    OpenAt(g, 1, Block);
    OpenAt(g[1..], 0, Block);
    ByteKept(g, Block, false, false);
    CommentOpened(g[1..], Block, false);
    var r := Strip(g, Block, false, false);
    assert r[0] == '/' && r[1] == ' ';
    OpenAt(r, 0, Line);
    ByteKept(r, Line, false, false);
    assert g + "" == g && Strip(r, Line, false, false)[0] == '/' && (Spaces(|g|) + Stripped(""))[0] == ' ';
  }

  /** A quote left open makes the block pass take what follows for a string. */
  lemma QuoteLeftOpen(g: string)
    requires IsComment(g, Line, |g|) && !StartsWith(g, 1, "/*")
    requires StateAfter(g, Block, false, false) == InText(true, false)
    ensures Stripped(g + "/* c */") != Spaces(|g|) + Stripped("/* c */")
  {
    hide Strip, StateAfter, IsComment, Spaces;
    var u := "/* c */";
    SurvivorIsRemoved(g, u, true);
    StripAllInString(u, Block);
    forall k | 0 <= k <= |u| ensures !StartsWith(u, k, "//") { OpenAt(u, k, Line); }
    NothingToStrip(u, Line, false, false);
    BlockCommentGoes(u);
    assert (Spaces(|g|) + u)[|g|] == '/';
    assert (Spaces(|g|) + Stripped(u))[|g|] == Stripped(u)[0] == ' ';
  }

  lemma BlockCommentGoes(u: string)
    requires |u| >= 2 && u[0] == '/' && u[1] == '*'
    ensures Stripped(u)[0] == ' '
  {
    hide FindToken;
    OpenAt(u, 0, Block);
    assert Strip(u, Block, false, false)[0] == ' ';
    OnlySpacesWritten(Strip(u, Block, false, false), Line, false, false, 0);
  }

  /** A block comment left open swallows what follows. */
  lemma CommentLeftOpen(g: string)
    requires g != "" && g[|g| - 1] == '\n' && StateAfter(g, Block, false, false).InComment?
    ensures Stripped(g + "*/") != Spaces(|g|) + Stripped("*/")
  {
    hide Strip, StateAfter, Spaces;
    var t := "*/";
    OpenSwallows(g, false, false);
    var r := Strip(g + t, Block, false, false);
    OnlySpacesWritten(r, Line, false, false, |g|);
    forall k, pass | 0 <= k <= |t| ensures !StartsWith(t, k, Open(pass)) { OpenAt(t, k, pass); }
    NothingToStrip(t, Block, false, false);
    NothingToStrip(t, Line, false, false);
    assert (Spaces(|g|) + Stripped(t))[|g|] == '*';
  }

  lemma {:induction false} OpenSwallows(s: string, inString: bool, escaped: bool)
    requires s != "" && s[|s| - 1] == '\n' && StateAfter(s, Block, inString, escaped).InComment?
    ensures Strip(s + "*/", Block, inString, escaped)[|s|] == ' '
    decreases |s|
  {
    hide Strip, StateAfter, FindToken, Spaces, Opens, StartsWith;
    var st := s + "*/";
    if Opens(s, Block, inString, escaped) {
      SwallowAt(s, inString, escaped);
    } else {
      ByteKept(s, Block, inString, escaped);
      var next := Next(s[0], inString, escaped);
      NothingScanned(Block, next.0, next.1);
      assert st[0] == s[0] && st[1..] == s[1..] + "*/";
      OpenSwallows(s[1..], next.0, next.1);
      NoOpenAcross(s, "*/", Block, inString, escaped);
      ByteKept(st, Block, inString, escaped);
    }
  }

  lemma {:induction false} SwallowAt(s: string, inString: bool, escaped: bool)
    requires Opens(s, Block, inString, escaped) && s[|s| - 1] == '\n'
             && StateAfter(s, Block, inString, escaped).InComment?
    ensures Strip(s + "*/", Block, inString, escaped)[|s|] == ' '
    decreases |s|, 0
  {
    hide Strip, StateAfter, FindToken, StartsWith;
    var st := s + "*/";
    CommentOpened(s, Block, escaped);
    OpensMore(s, "*/", escaped);
    CommentOpened(st, Block, escaped);
    var k := FindToken(s, 2, "*/");
    if k.Some? {
      var n := k.value + 2;
      OpensWith(s, "*/", Block, escaped);
      CloseEnds(s, n);
      assert st[n..] == s[n..] + "*/";
      OpenSwallows(s[n..], false, false);
    } else {
      FoundBehind(s);
    }
  }

  lemma OpensMore(s: string, t: string, escaped: bool)
    requires Opens(s, Block, false, escaped)
    ensures Opens(s + t, Block, false, escaped)
  {
    assert (s + t)[0..2] == s[0..2];
  }

  lemma CloseAt(s: string, k: nat)
    requires k <= |s|
    ensures StartsWith(s, k, "*/") <==> k + 1 < |s| && s[k] == '*' && s[k + 1] == '/'
  {
    if k + 2 <= |s| { assert s[k..k + 2] == [s[k], s[k + 1]]; }
  }

  /** The end token is found where it is put. */
  lemma FoundBehind(s: string)
    requires |s| >= 2 && s[|s| - 1] == '\n' && FindToken(s, 2, "*/").None?
    ensures FindToken(s + "*/", 2, "*/") == Some(|s|)
  {
    hide FindToken, StartsWith;
    var st := s + "*/";
    NotFound(s, 2, "*/");
    forall j | 2 <= j < |s| ensures !StartsWith(st, j, "*/") {
      CloseAt(st, j);
      CloseAt(s, j);
    }
    CloseAt(st, |s|);
    FindIs(st, 2, "*/", |s|);
  }

  lemma {:induction false} NotFound(s: string, i: nat, token: string)
    requires i <= |s| && token != "" && FindToken(s, i, token).None?
    ensures forall j :: i <= j <= |s| ==> !StartsWith(s, j, token)
    decreases |s| - i
  {
    if i < |s| { NotFound(s, i + 1, token); }
  }

  /** The number of quotes that no backslash escapes. */
  function Quotes(s: string, escaped: bool): nat {
    if s == "" then 0
    else if s[0] == '\\' && !escaped then Quotes(s[1..], true)
    else if s[0] == '\"' && !escaped then 1 + Quotes(s[1..], false)
    else Quotes(s[1..], false)
  }

  /** Without an opening token, being inside a string is a matter of counting quotes. */
  lemma {:induction false} QuotesCounted(s: string, pass: Pass, inString: bool, escaped: bool)
    requires forall k :: 0 <= k <= |s| ==> !StartsWith(s, k, Open(pass))
    ensures var state := StateAfter(s, pass, inString, escaped);
            state.InText? && (state.inString <==> inString == (Quotes(s, escaped) % 2 == 0))
    decreases |s|
  {
    hide FindToken, StartsWith;
    if s != "" {
      assert !StartsWith(s, 0, Open(pass));
      forall k | 0 <= k <= |s[1..]| ensures !StartsWith(s[1..], k, Open(pass)) {
        TokenAhead(s, 1, s[1..], k, Open(pass));
      }
      var esc := s[0] == '\\' && !escaped;
      var quote := s[0] == '\"' && !escaped;
      QuotesCounted(s[1..], pass, if quote then !inString else inString, esc);
    }
  }

  /** White space and line comments without a block comment's opening token do no harm exactly
      if they hold an even number of unescaped quotes. */
  lemma QuotesDecide(c: string)
    requires IsGap(c, Line) && forall k :: 0 <= k <= |c| ==> !StartsWith(c, k, "/*")
    ensures Harmless(c) <==> Quotes(c, false) % 2 == 0
  {
    hide StateAfter, Strip, IsGap, StartsWith;
    QuotesCounted(c, Block, false, false);
    NothingToStrip(c, Block, false, false);
    if c != "" {
      LineGapEnd(c);
      NotEscaped(c, Block, false, false);
    } else {
      EmptyState();
    }
  }

  lemma EmptyState()
    ensures StateAfter("", Block, false, false) == InText(false, false)
  {
  }

  /** The exact law for such a line comment: it is removed whatever follows if and only if its
      unescaped quotes are even in number. */
  lemma QuotesExactly(g: string)
    requires IsComment(g, Line, |g|) && forall k :: 0 <= k <= |g| ==> !StartsWith(g, k, "/*")
    ensures (forall t :: Stripped(g + t) == Spaces(|g|) + Stripped(t)) <==> Quotes(g, false) % 2 == 0
  {
    hide StateAfter, Strip, StartsWith, Spaces, IsComment;
    LineEnds(g);
    LineCommentExactly(g);
    QuotesCounted(g, Block, false, false);
    NotEscaped(g, Block, false, false);
  }

  /** A surviving line comment is a gap, so `CommentsAreTransparent` covers it. */
  lemma SurvivorIsGap(g: string)
    requires IsComment(g, Line, |g|)
    ensures Survives(g) ==> IsGap(g, Block)
  {
    hide StateAfter, Strip, StartsWith, IsComment;
    LineEnds(g);
    if Survives(g) {
      StaysComment(g);
      var r := Strip(g, Block, false, false);
      OneCommentGap(g);
      OneCommentGap(r);
      assert g[..|g|] == g && g[|g|..] == "";
    }
  }

  lemma OneCommentGap(g: string)
    requires IsComment(g, Line, |g|)
    ensures IsGap(g, Line)
  {
    assert g[|g|..] == "" && IsGap(g[|g|..], Line);
  }

  lemma {:induction false} StripAllInString(t: string, pass: Pass)
    requires forall k :: 0 <= k < |t| ==> t[k] != '\"' && t[k] != '\\'
    ensures Strip(t, pass, true, false) == t
  {
    if t != "" { StripAllInString(t[1..], pass); }
  }

  lemma OpenAt(s: string, k: nat, pass: Pass)
    requires k <= |s|
    ensures StartsWith(s, k, Open(pass)) <==> k + 1 < |s| && s[k] == '/' && s[k + 1] == Open(pass)[1]
  {
    if k + 2 <= |s| {
      assert s[k..k + 2] == [s[k], s[k + 1]];
      assert Open(pass) == [Open(pass)[0], Open(pass)[1]];
    }
  }

  /** An example: an open quote in a line comment makes the block pass leave a comment in that
      the parser then meets. */
  lemma QuoteInLineComment()
    ensures ParseCommented("// \"\n/* c */1") == None
  {
    hide Strip, Spaces, CString, Parser.ParseValue, StartsWith, StateAfter;
    var g, u := "// \"\n", "/* c */1";
    LineCommentIs(g);
    OpenAt(g, 1, Block);
    OpenQuote(g);
    SurvivorIsRemoved(g, u, true);
    StripAllInString(u, Block);
    forall k | 0 <= k <= |u| ensures !StartsWith(u, k, "//") { OpenAt(u, k, Line); }
    NothingToStrip(u, Line, false, false);
    SlashRefused(Spaces(5), u);
    assert g + u == "// \"\n/* c */1" && CString(g + u) == g + u;
  }

  lemma OpenQuote(g: string)
    requires g == "// \"\n"
    ensures StateAfter(g, Block, false, false) == InText(true, false)
  {
    hide StartsWith, FindToken, StateAfter;
    forall k | 0 <= k <= |g| ensures !StartsWith(g, k, "/*") { OpenAt(g, k, Block); }
    QuotesCounted(g, Block, false, false);
    NotEscaped(g, Block, false, false);
    OneQuote(g);
  }

  lemma OneQuote(g: string)
    requires g == "// \"\n"
    ensures Quotes(g, false) == 1
  {
    var g1, g2, g3, g4 := g[1..], g[2..], g[3..], g[4..];
    assert g1[1..] == g2 && g2[1..] == g3 && g3[1..] == g4 && g4[1..] == "";
    assert Quotes(g4, false) == 0;
    assert Quotes(g3, false) == 1;
    assert Quotes(g2, false) == 1 && Quotes(g1, false) == 1;
  }

  lemma SlashRefused(lead: string, u: string)
    requires Blank(lead) && u != "" && u[0] == '/'
    ensures Parser.ParseValue(lead + u, 0, 0) == Fail
  {
    hide SkipSpaces;
    assert (lead + u)[0..|lead|] == lead;
    SkipSpacesIs(lead + u, 0, |lead|);
  }
}
