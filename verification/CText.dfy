/** C strings: a sequence of characters, one per byte, with an implicit NUL after the last. */
module CText {

  /** What a parsing function returns: a value and the cursor after it, or failure (a NULL
      pointer or JSONFailure). */
  datatype Parsed<+T> = Fail | Ok(value: T, next: nat)

  /** The byte `i` positions into the string; the terminator can be read, nothing past it. */
  function At(s: string, i: nat): char
    requires i <= |s|
  {
    if i == |s| then '\0' else s[i]
  }

  /** isspace in the C locale. */
  predicate IsSpace(c: char) {
    c == ' ' || '\t' <= c <= '\r'
  }

  /** isspace, spelled out. */
  lemma SpaceIs(c: char)
    ensures IsSpace(c) <==> c in [' ', 9 as char, 10 as char, 11 as char, 12 as char, 13 as char]
    ensures IsSpace(c) <==> c in " \t\n\U{0B}\U{0C}\r"
  {
  }

  predicate IsDigit(c: char) {
    '0' <= c <= '9'
  }

  ghost predicate Blank(s: string) {
    forall i :: 0 <= i < |s| ==> IsSpace(s[i])
  }

  /** SKIP_WHITESPACES: the first position from `i` on that is not white space. */
  function SkipSpaces(s: string, i: nat): (j: nat)
    requires i <= |s|
    ensures i <= j <= |s| && !IsSpace(At(s, j)) && Blank(s[i..j])
    decreases |s| - i
  {
    if IsSpace(At(s, i)) then SkipSpaces(s, i + 1) else i
  }

  /** strncmp(s + i, token, strlen(token)) == 0. */
  predicate StartsWith(s: string, i: nat, token: string)
    requires i <= |s|
  {
    i + |token| <= |s| && s[i..i + |token|] == token
  }

  /** A slice that is a concatenation splits into the slices that are its parts. */
  lemma SplitSlice<T>(s: seq<T>, i: nat, j: nat, a: seq<T>, b: seq<T>)
    requires i <= j <= |s| && s[i..j] == a + b
    ensures i + |a| <= j && s[i..i + |a|] == a && s[i + |a|..j] == b
  {
    assert s[i..j][..|a|] == a && s[i..j][|a|..] == b;
  }

  lemma SliceOfSlice<T>(s: seq<T>, i: nat, j: nat, a: nat, b: nat)
    requires i <= j <= |s| && a <= b <= j - i
    ensures s[i..j][a..b] == s[i + a..i + b]
  {
    var t, x, y := s[i..j], s[i..j][a..b], s[i + a..i + b];
    assert forall k :: 0 <= k < |x| ==> x[k] == t[a + k] == s[i + a + k] == y[k];
  }

  lemma StartsWithFirst(s: string, i: nat, token: string)
    requires i <= |s| && token != "" && StartsWith(s, i, token)
    ensures s[i] == token[0]
  {
    assert s[i..i + |token|][0] == s[i];
  }

  lemma Outermost<T>(a: seq<T>, b: seq<T>, c: seq<T>)
    ensures (a + b) + c == a + (b + c)
  {
  }
}
