/** What JSON string literals mean: any mix of raw bytes and escapes is read as what its pieces
    denote, one after the other, and nothing else is read as a string.
 */
module Literals {
  import opened CText
  import opened Strings
  import Utf8

  datatype Piece =
    | Raw(c: char)                         // a byte as it is
    | Short(c: char)                       // a backslash and one character
    | Unit(hex: string)                    // \uXXXX outside the surrogates
    | Surrogates(lead: string, trail: string)

  const LOWER := "0123456789abcdef"

  const UPPER := "0123456789ABCDEF"

  /** Where c first occurs in t, or the length of t. */
  function IndexOf(t: string, c: char): (k: nat)
    ensures k <= |t| && (k < |t| ==> t[k] == c) && forall j :: 0 <= j < k ==> t[j] != c
  {
    if t == "" || t[0] == c then 0 else 1 + IndexOf(t[1..], c)
  }

  /** The place of a hex digit in one of the tables, or 16. */
  function Place(c: char): (d: nat)
    ensures d <= 16
  {
    if IndexOf(LOWER, c) < 16 then IndexOf(LOWER, c) else IndexOf(UPPER, c)
  }

  predicate IsHex4(h: string) {
    |h| == 4 && forall k :: 0 <= k < 4 ==> Place(h[k]) < 16
  }

  /** The number that four digits spell, the first place counting most. */
  function HexNumber(h: string): (n: nat)
    requires IsHex4(h)
    ensures n < 0x10000
  {
    ((Place(h[0]) * 16 + Place(h[1])) * 16 + Place(h[2])) * 16 + Place(h[3])
  }

  predicate IsPiece(p: Piece) {
    match p
    case Raw(c) => c >= ' ' && c != '\"' && c != '\\'
    case Short(c) => c in "\"\\/bfnrt"
    case Unit(hex) => IsHex4(hex) && !Utf8.IsLead(HexNumber(hex)) && !Utf8.IsTrail(HexNumber(hex))
    case Surrogates(lead, trail) =>
      IsHex4(lead) && IsHex4(trail) && Utf8.IsLead(HexNumber(lead)) && Utf8.IsTrail(HexNumber(trail))
  }

  function Written(p: Piece): string {
    match p
    case Raw(c) => [c]
    case Short(c) => ['\\', c]
    case Unit(hex) => "\\u" + hex
    case Surrogates(lead, trail) => "\\u" + (lead + ("\\u" + trail))
  }

  /** The bytes a piece stands for: a code point stands for its UTF-8 encoding. */
  function Denoted(p: Piece): string
    requires IsPiece(p)
  {
    match p
    case Raw(c) => [c]
    case Short(c) =>
      if c == 'b' then "\U{08}" else if c == 'f' then "\U{0C}" else if c == 'n' then "\n"
      else if c == 'r' then "\r" else if c == 't' then "\t" else [c]
    case Unit(hex) => Utf8.Encode(HexNumber(hex))
    case Surrogates(lead, trail) =>
      Utf8.CombineExact(HexNumber(lead), HexNumber(trail));
      Utf8.Encode(Utf8.Combine(HexNumber(lead), HexNumber(trail)))
  }

  predicate ArePieces(pieces: seq<Piece>) {
    forall k :: 0 <= k < |pieces| ==> IsPiece(pieces[k])
  }

  function AllWritten(pieces: seq<Piece>): string {
    if pieces == [] then "" else Written(pieces[0]) + AllWritten(pieces[1..])
  }

  function AllDenoted(pieces: seq<Piece>): string
    requires ArePieces(pieces)
  {
    if pieces == [] then "" else Denoted(pieces[0]) + AllDenoted(pieces[1..])
  }

  // ---------------------------------------------------------------- reading a piece

  lemma Tables(d: nat)
    requires d < 16
    ensures |LOWER| == |UPPER| == 16
    ensures LOWER[d] as int == if d < 10 then '0' as int + d else 'a' as int + d - 10
    ensures UPPER[d] as int == if d < 10 then '0' as int + d else 'A' as int + d - 10
  {
  }

  lemma FirstAt(t: string, c: char, d: nat)
    requires d < |t| && t[d] == c && forall j :: 0 <= j < d ==> t[j] != c
    ensures IndexOf(t, c) == d
  {
  }

  /** hex_char_to_int gives the place in the tables. */
  lemma PlaceIsHexValue(c: char)
    ensures HexValue(c) == if Place(c) < 16 then Place(c) else -1
    ensures Place(c) < 16 ==> c != '\0'
  {
    hide IndexOf, LOWER, UPPER;
    forall d: nat | d < 16
      ensures |LOWER| == |UPPER| == 16
      ensures LOWER[d] as int == if d < 10 then '0' as int + d else 'a' as int + d - 10
      ensures UPPER[d] as int == if d < 10 then '0' as int + d else 'A' as int + d - 10
    {
      Tables(d);
    }
    if HexValue(c) >= 0 {
      Tables(HexValue(c));
      if 'A' <= c <= 'F' {
        FirstAt(UPPER, c, HexValue(c));
      } else {
        FirstAt(LOWER, c, HexValue(c));
      }
    }
  }

  lemma HexAt(s: string, q: nat, h: string)
    requires q + 4 <= |s| && s[q..q + 4] == h
    ensures IsHex4(h) <==> Hex4(s, q).Ok?
    ensures IsHex4(h) ==> Hex4(s, q) == Ok(HexNumber(h), q + 4)
  {
    hide HexValue, Place;
    forall k | 0 <= k < 4 ensures s[q + k] == h[k] && HexValue(h[k]) == (if Place(h[k]) < 16 then Place(h[k]) else -1)
      && (Place(h[k]) < 16 ==> h[k] != '\0')
    {
      PlaceIsHexValue(h[k]);
    }
    HexDigitsAt(s, q);
  }

  lemma HexDigitsAt(s: string, q: nat)
    requires q + 4 <= |s|
    ensures Hex4(s, q).Ok? <==> forall k :: q <= k < q + 4 ==> s[k] != '\0' && HexValue(s[k]) >= 0
    ensures Hex4(s, q).Ok? ==>
              Hex4(s, q).value ==
              ((HexValue(s[q]) * 16 + HexValue(s[q + 1])) * 16 + HexValue(s[q + 2])) * 16 + HexValue(s[q + 3])
  {
    hide HexValue;
    if Hex4(s, q).Ok? { Hex4Is(s, q); }
  }

  lemma ShortIs(c: char)
    ensures c in "\"\\/bfnrt" <==> Unescape(c).Ok?
    ensures c in "\"\\/bfnrt" ==> [Unescape(c).value] == Denoted(Short(c)) && c != '\0' && c != 'u'
  {
  }

  /** Both scanners pass a piece whole, and its meaning is appended. */
  lemma ReadPiece(s: string, i: nat, p: Piece, end: nat, out: string)
    requires IsPiece(p) && i + |Written(p)| <= end <= |s| && s[i..i + |Written(p)|] == Written(p)
    ensures SkipBody(s, i) == SkipBody(s, i + |Written(p)|)
    ensures Process(s, i, end, out) == Process(s, i + |Written(p)|, end, out + Denoted(p))
  {
    hide Utf16, Unescape, Hex4, HexNumber, HexValue;
    var w := Written(p);
    assert forall k :: 0 <= k < |w| ==> s[i + k] == w[k];
    match p {
      case Raw(c) =>
        assert s[i] == w[0];
      case Short(c) =>
        assert s[i] == w[0] && s[i + 1] == w[1];
        ShortIs(c);
      case Unit(hex) =>
        ReadUnit(s, i, hex);
      case Surrogates(lead, trail) =>
        ReadSurrogates(s, i, lead, trail);
    }
  }

  lemma ReadUnit(s: string, i: nat, hex: string)
    requires IsPiece(Unit(hex)) && i + 6 <= |s| && s[i..i + 6] == "\\u" + hex
    ensures s[i] == '\\' && s[i + 1] == 'u' && Utf16(s, i + 1) == Ok(Denoted(Unit(hex)), i + 5)
    ensures SkipBody(s, i) == SkipBody(s, i + 6)
  {
    hide Hex4, HexNumber;
    SplitSlice(s, i, i + 6, "\\u", hex);
    assert s[i] == s[i..i + 2][0] && s[i + 1] == s[i..i + 2][1];
    HexAt(s, i + 2, hex);
    SkipUtf16(s, i + 1);
  }

  lemma ReadSurrogates(s: string, i: nat, lead: string, trail: string)
    requires IsPiece(Surrogates(lead, trail)) && i + 12 <= |s|
    requires s[i..i + 12] == "\\u" + (lead + ("\\u" + trail))
    ensures s[i] == '\\' && s[i + 1] == 'u' && Utf16(s, i + 1) == Ok(Denoted(Surrogates(lead, trail)), i + 11)
    ensures SkipBody(s, i) == SkipBody(s, i + 12)
  {
    hide Hex4, HexNumber, Utf8.Combine, Utf8.Encode;
    SplitSlice(s, i, i + 12, "\\u", lead + ("\\u" + trail));
    SplitSlice(s, i + 2, i + 12, lead, "\\u" + trail);
    SplitSlice(s, i + 6, i + 12, "\\u", trail);
    assert s[i] == s[i..i + 2][0] && s[i + 1] == s[i..i + 2][1];
    assert s[i + 6] == s[i + 6..i + 8][0] && s[i + 7] == s[i + 6..i + 8][1];
    HexAt(s, i + 2, lead);
    HexAt(s, i + 8, trail);
    SkipUtf16(s, i + 1);
  }

  // ---------------------------------------------------------------- reading literals

  lemma {:induction false} ReadPieces(s: string, i: nat, pieces: seq<Piece>, out: string)
    requires ArePieces(pieces)
    requires var n := |AllWritten(pieces)|; i + n < |s| && s[i..i + n] == AllWritten(pieces) && s[i + n] == '\"'
    ensures var n := |AllWritten(pieces)|;
            SkipBody(s, i) == Ok((), i + n + 1) && Process(s, i, i + n, out) == Ok(out + AllDenoted(pieces), i + n)
    decreases |pieces|
  {
    hide Written, Denoted, IsPiece, SkipBody, Process;
    var n := |AllWritten(pieces)|;
    if pieces == [] {
      ReadClosingQuote(s, i, out);
      assert out + "" == out;
    } else {
      var p, more := pieces[0], pieces[1..];
      SplitSlice(s, i, i + n, Written(p), AllWritten(more));
      ReadPiece(s, i, p, i + n, out);
      ReadPieces(s, i + |Written(p)|, more, out + Denoted(p));
      assert AllDenoted(pieces) == Denoted(p) + AllDenoted(more);
      Outermost(out, Denoted(p), AllDenoted(more));
    }
  }

  /** A literal made of any mix of pieces is read as what they denote, and the cursor stops
      right behind it. */
  lemma LiteralIsRead(s: string, i: nat, pieces: seq<Piece>)
    requires ArePieces(pieces)
    requires var t := "\"" + (AllWritten(pieces) + "\""); i + |t| <= |s| && s[i..i + |t|] == t
    ensures GetQuoted(s, i) == Ok(AllDenoted(pieces), i + |AllWritten(pieces)| + 2)
  {
    hide AllWritten, AllDenoted, SkipBody, Process;
    var e := AllWritten(pieces);
    var t := "\"" + (e + "\"");
    SplitSlice(s, i, i + |t|, "\"", e + "\"");
    SplitSlice(s, i + 1, i + |t|, e, "\"");
    assert s[i] == s[i..i + 1][0] && s[i + |t| - 1] == s[i + |t| - 1..i + |t|][0];
    ReadPieces(s, i + 1, pieces, "");
    assert "" + AllDenoted(pieces) == AllDenoted(pieces);
  }

  /** The piece at i, when process_string gets past it. */
  lemma PieceAt(s: string, i: nat, end: nat, out: string) returns (p: Piece)
    requires i < end < |s| && SkipBody(s, i).Ok? && SkipBody(s, i).next == end + 1 && Process(s, i, end, out).Ok?
    ensures IsPiece(p) && i + |Written(p)| <= end && s[i..i + |Written(p)|] == Written(p)
  {
    hide Utf16, Unescape, Hex4, HexNumber, IsHex4;
    if s[i] != '\\' {
      p := Raw(s[i]);
    } else if s[i + 1] == 'u' {
      SkipUtf16(s, i + 1);
      p := EscapeAt(s, i, end);
    } else {
      p := Short(s[i + 1]);
      ShortIs(s[i + 1]);
    }
  }

  lemma EscapeAt(s: string, i: nat, end: nat) returns (p: Piece)
    requires i + 1 < |s| && s[i] == '\\' && s[i + 1] == 'u' && Utf16(s, i + 1).Ok? && Utf16(s, i + 1).next < end <= |s|
    ensures IsPiece(p) && i + |Written(p)| <= end && s[i..i + |Written(p)|] == Written(p)
  {
    hide Hex4, HexNumber, IsHex4, Utf8.Combine, Utf8.Encode;
    var lead := s[i + 2..i + 6];
    HexAt(s, i + 2, lead);
    assert s[i..i + 6] == "\\u" + lead;
    if Utf8.IsLead(HexNumber(lead)) {
      var trail := s[i + 8..i + 12];
      HexAt(s, i + 8, trail);
      p := Surrogates(lead, trail);
      assert s[i..i + 12] == "\\u" + (lead + ("\\u" + trail));
    } else {
      p := Unit(lead);
    }
  }

  lemma {:induction false} PiecesOf(s: string, i: nat, end: nat, out: string) returns (pieces: seq<Piece>)
    requires i <= end < |s| && SkipBody(s, i).Ok? && SkipBody(s, i).next == end + 1 && Process(s, i, end, out).Ok?
    ensures ArePieces(pieces) && s[i..end] == AllWritten(pieces)
    ensures Process(s, i, end, out).value == out + AllDenoted(pieces)
    decreases end - i
  {
    hide Written, Denoted, IsPiece, SkipBody, Process;
    if i == end {
      pieces := [];
      NothingLeft(s, i, out);
      assert out + "" == out;
    } else {
      var p := PieceAt(s, i, end, out);
      WrittenSome(p);
      ReadPiece(s, i, p, end, out);
      var j := i + |Written(p)|;
      var more := PiecesOf(s, j, end, out + Denoted(p));
      pieces := [p] + more;
      assert s[i..end] == s[i..j] + s[j..end];
      assert out + Denoted(p) + AllDenoted(more) == out + (Denoted(p) + AllDenoted(more));
    }
  }

  lemma NothingLeft(s: string, i: nat, out: string)
    requires i <= |s|
    ensures Process(s, i, i, out) == Ok(out, i)
  {
  }

  lemma WrittenSome(p: Piece)
    ensures |Written(p)| > 0
  {
  }

  /** Conversely, whatever is read as a string is such a mix, and is read as what it denotes. */
  lemma OnlyPiecesAreRead(s: string, i: nat) returns (pieces: seq<Piece>)
    requires i <= |s| && GetQuoted(s, i).Ok?
    ensures var q := GetQuoted(s, i);
            && ArePieces(pieces) && s[i..q.next] == "\"" + (AllWritten(pieces) + "\"")
            && q.value == AllDenoted(pieces)
  {
    hide AllWritten, AllDenoted, SkipBody, Process;
    var end := GetQuoted(s, i).next - 1;
    pieces := PiecesOf(s, i + 1, end, "");
    assert "" + AllDenoted(pieces) == AllDenoted(pieces);
    assert s[i..end + 1] == [s[i]] + (s[i + 1..end] + [s[end]]);
  }

  // ---------------------------------------------------------------- unicode escapes

  /** One place of a number, in either case. */
  predicate IsDigitOf(c: char, d: nat)
    requires d < 16
  {
    c == "0123456789abcdef"[d] || c == "0123456789ABCDEF"[d]
  }

  /** Four places, in any mix of cases, spell n. */
  predicate Spells(h: string, n: nat) {
    && n < 0x10000 && |h| == 4
    && IsDigitOf(h[0], n / 4096) && IsDigitOf(h[1], n / 256 % 16) && IsDigitOf(h[2], n / 16 % 16)
    && IsDigitOf(h[3], n % 16)
  }

  lemma DigitPlace(c: char, d: nat)
    requires d < 16 && IsDigitOf(c, d)
    ensures Place(c) == d
  {
    hide IndexOf;
    forall j: nat | j < 16
      ensures LOWER[j] as int == if j < 10 then '0' as int + j else 'a' as int + j - 10
      ensures UPPER[j] as int == if j < 10 then '0' as int + j else 'A' as int + j - 10
    {
      Tables(j);
    }
    Tables(d);
    PlaceIsHexValue(c);
  }

  lemma SpellsNumber(h: string, n: nat)
    requires Spells(h, n)
    ensures IsHex4(h) && HexNumber(h) == n
  {
    hide Place, IsDigitOf;
    DigitPlace(h[0], n / 4096);
    DigitPlace(h[1], n / 256 % 16);
    DigitPlace(h[2], n / 16 % 16);
    DigitPlace(h[3], n % 16);
    assert n == ((n / 4096 * 16 + n / 256 % 16) * 16 + n / 16 % 16) * 16 + n % 16;
  }

  lemma OnePiece(p: Piece)
    requires IsPiece(p)
    ensures ArePieces([p]) && AllWritten([p]) == Written(p) && AllDenoted([p]) == Denoted(p)
  {
    hide IsPiece, Written, Denoted;
    assert [p][1..] == [];
    assert AllWritten([p]) == Written(p) + "" && AllDenoted([p]) == Denoted(p) + "";
  }

  /** An escape of a code point outside the surrogates is read as the code point's UTF-8
      sequence, whatever the case of its digits. */
  lemma UnicodeIsRead(s: string, i: nat, h: string, n: nat)
    requires Spells(h, n) && !(0xD800 <= n <= 0xDFFF)
    requires i + 8 <= |s| && s[i..i + 8] == "\"" + ("\\u" + h + "\"")
    ensures Utf8.IsScalar(n) && GetQuoted(s, i) == Ok(Utf8.Encode(n), i + 8)
    ensures Utf8.WellFormed(Utf8.Encode(n)) && Utf8.Decode(Utf8.Encode(n)) == n
  {
    hide Spells, IsHex4, HexNumber, GetQuoted, Utf8.Encode, Utf8.WellFormed, Utf8.Decode;
    SpellsNumber(h, n);
    OnePiece(Unit(h));
    LiteralIsRead(s, i, [Unit(h)]);
    Utf8.EncodeDecodes(n);
  }

  /** The same for the two halves of a code point beyond U+FFFF. */
  lemma PairIsRead(s: string, i: nat, lead: string, trail: string, n: nat)
    requires 0x10000 <= n <= 0x10FFFF
    requires Spells(lead, 0xD800 + (n - 0x10000) / 0x400) && Spells(trail, 0xDC00 + (n - 0x10000) % 0x400)
    requires i + 14 <= |s| && s[i..i + 14] == "\"" + (("\\u" + (lead + ("\\u" + trail))) + "\"")
    ensures Utf8.IsScalar(n) && GetQuoted(s, i) == Ok(Utf8.Encode(n), i + 14)
    ensures Utf8.WellFormed(Utf8.Encode(n)) && Utf8.Decode(Utf8.Encode(n)) == n
  {
    hide Spells, IsHex4, HexNumber, GetQuoted, Utf8.Encode, Utf8.Combine, Utf8.WellFormed, Utf8.Decode;
    SpellsNumber(lead, 0xD800 + (n - 0x10000) / 0x400);
    SpellsNumber(trail, 0xDC00 + (n - 0x10000) % 0x400);
    Utf8.CombineReachesAll(n);
    FourLong(lead, trail);
    OnePiece(Surrogates(lead, trail));
    LiteralIsRead(s, i, [Surrogates(lead, trail)]);
    Utf8.EncodeDecodes(n);
  }

  lemma FourLong(lead: string, trail: string)
    requires IsHex4(lead) && IsHex4(trail)
    ensures |lead| == |trail| == 4
  {
  }

  lemma StartsEscape(s: string, i: nat)
    requires i + 3 <= |s| && s[i..i + 3] == "\"\\u" && Utf16(s, i + 2).Fail?
    ensures GetQuoted(s, i).Fail?
  {
    hide Utf16, Unescape;
    assert s[i] == s[i..i + 3][0] && s[i + 1] == s[i..i + 3][1] && s[i + 2] == s[i..i + 3][2];
  }

  /** An escape with a character in it that is in neither table is refused. */
  lemma NoDigitFails(s: string, i: nat, k: nat)
    requires k < 4 && i + 3 + k < |s| && s[i..i + 3] == "\"\\u"
    requires s[i + 3 + k] !in "0123456789abcdef" && s[i + 3 + k] !in "0123456789ABCDEF"
    ensures GetQuoted(s, i).Fail?
  {
    hide Utf16, GetQuoted;
    var c := s[i + 3 + k];
    PlaceIsHexValue(c);
    assert LOWER == "0123456789abcdef" && UPPER == "0123456789ABCDEF";
    assert Place(c) == 16;
    NoHexFour(s, i + 3, k);
    FailsFirst(s, i + 2);
    StartsEscape(s, i);
  }

  lemma NoHexFour(s: string, q: nat, k: nat)
    requires k < 4 && q + k < |s| && HexValue(s[q + k]) < 0
    ensures Hex4(s, q).Fail?
  {
  }

  lemma FailsFirst(s: string, p: nat)
    requires p < |s| && Hex4(s, p + 1).Fail?
    ensures Utf16(s, p).Fail?
  {
  }

  /** The escape of a trail surrogate is at q. */
  ghost predicate TrailHere(s: string, q: nat) {
    exists h, n :: Spells(h, n) && 0xDC00 <= n <= 0xDFFF && q + 6 <= |s| && s[q..q + 6] == "\\u" + h
  }

  lemma TrailIsHere(s: string, q: nat)
    requires q + 6 <= |s| && s[q] == '\\' && s[q + 1] == 'u'
    requires Hex4(s, q + 2).Ok? && 0xDC00 <= Hex4(s, q + 2).value <= 0xDFFF
    ensures TrailHere(s, q)
  {
    hide Spells, IsHex4, HexNumber, Hex4;
    var h := s[q + 2..q + 6];
    HexAt(s, q + 2, h);
    NumberSpells(h);
    assert s[q..q + 6] == "\\u" + h;
  }

  /** So is half a surrogate pair: a trail by itself, or a lead without a trail behind it. */
  lemma HalfPairFails(s: string, i: nat, h: string, n: nat)
    requires Spells(h, n) && 0xD800 <= n <= 0xDFFF && i + 7 <= |s| && s[i..i + 7] == "\"\\u" + h
    requires n < 0xDC00 ==> !TrailHere(s, i + 7)
    ensures GetQuoted(s, i).Fail?
  {
    hide Utf16, GetQuoted, Spells, IsHex4, HexNumber, Hex4;
    SplitSlice(s, i, i + 7, "\"\\u", h);
    SpellsNumber(h, n);
    HexAt(s, i + 3, h);
    if Utf16(s, i + 2).Ok? {
      TrailFollows(s, i + 2, n);
      TrailIsHere(s, i + 7);
    }
    StartsEscape(s, i);
  }

  lemma TrailFollows(s: string, p: nat, n: nat)
    requires p < |s| && Hex4(s, p + 1) == Ok(n, p + 5) && 0xD800 <= n <= 0xDFFF && Utf16(s, p).Ok?
    ensures n < 0xDC00 && p + 11 <= |s| && s[p + 5] == '\\' && s[p + 6] == 'u'
    ensures Hex4(s, p + 7).Ok? && 0xDC00 <= Hex4(s, p + 7).value <= 0xDFFF
  {
    hide Hex4, Utf8.Encode, Utf8.Combine;
  }

  lemma NumberSpells(h: string)
    requires IsHex4(h)
    ensures Spells(h, HexNumber(h))
  {
    hide Place, IsDigitOf;
    forall k | 0 <= k < 4 ensures IsDigitOf(h[k], Place(h[k])) { PlaceDigit(h[k]); }
    FourPlaces(Place(h[0]), Place(h[1]), Place(h[2]), Place(h[3]));
  }

  lemma FourPlaces(a: nat, b: nat, c: nat, d: nat)
    requires a < 16 && b < 16 && c < 16 && d < 16
    ensures var n := ((a * 16 + b) * 16 + c) * 16 + d;
            n < 0x10000 && n / 4096 == a && n / 256 % 16 == b && n / 16 % 16 == c && n % 16 == d
  {
  }

  lemma PlaceDigit(c: char)
    requires Place(c) < 16
    ensures IsDigitOf(c, Place(c))
  {
  }

  /** No control character stands in a literal that is read. */
  lemma NoControlInside(s: string, i: nat)
    requires i <= |s| && GetQuoted(s, i).Ok?
    ensures forall k :: i <= k < GetQuoted(s, i).next ==> s[k] as int >= 0x20
  {
    hide GetQuoted, ArePieces, AllWritten, AllDenoted;
    var next := GetQuoted(s, i).next;
    var pieces := OnlyPiecesAreRead(s, i);
    WrittenAbove(pieces);
    var t := "\"" + (AllWritten(pieces) + "\"");
    forall k | i <= k < next ensures s[k] as int >= 0x20 {
      assert s[i..next][k - i] == s[k];
    }
  }

  lemma {:induction false} WrittenAbove(pieces: seq<Piece>)
    requires ArePieces(pieces)
    ensures forall k :: 0 <= k < |AllWritten(pieces)| ==> AllWritten(pieces)[k] as int >= 0x20
  {
    hide Written, IsPiece;
    if pieces != [] {
      PieceAbove(pieces[0]);
      WrittenAbove(pieces[1..]);
    }
  }

  lemma PieceAbove(p: Piece)
    requires IsPiece(p)
    ensures forall k :: 0 <= k < |Written(p)| ==> Written(p)[k] as int >= 0x20
  {
    hide HexNumber, Place;
    if p.Unit? { HexAbove(p.hex); }
    if p.Surrogates? {
      HexAbove(p.lead);
      HexAbove(p.trail);
    }
  }

  lemma HexAbove(h: string)
    requires IsHex4(h)
    ensures forall k :: 0 <= k < |h| ==> h[k] as int >= 0x20
  {
    hide Place;
    forall k | 0 <= k < |h| ensures h[k] as int >= 0x20 { PlaceIsHexValue(h[k]); }
  }

  /** An example: E9 in upper case. */
  lemma UpperCaseIsRead()
    ensures GetQuoted("\"\\u00E9\"", 0) == Ok([0xC3 as char, 0xA9 as char], 8)
  {
    hide GetQuoted, Utf8.Encode;
    var s := "\"\\u00E9\"";
    assert s[0..8] == "\"" + ("\\u" + "00E9" + "\"");
    UnicodeIsRead(s, 0, "00E9", 0xE9);
    var q := [0xC3 as char, 0xA9 as char];
    assert Utf8.WellFormed(q) && Utf8.Decode(q) == 0xE9;
    Utf8.DecodeEncodes(q);
  }

  // ---------------------------------------------------------------- what the serializer writes

  /** The pieces json_serialize_string writes. */
  lemma {:induction false} EscapePieces(t: string, slashes: bool) returns (pieces: seq<Piece>)
    ensures ArePieces(pieces) && AllWritten(pieces) == Escape(t, slashes) && AllDenoted(pieces) == t
  {
    hide EscapeChar, Written, Denoted, IsPiece;
    if t == "" {
      pieces := [];
    } else {
      var p := EscapePiece(t[0], slashes);
      var more := EscapePieces(t[1..], slashes);
      pieces := [p] + more;
      assert pieces[1..] == more && t == [t[0]] + t[1..];
    }
  }

  /** How a byte is to be written: a quote or a backslash behind a backslash, and so a slash when
      slashes are escaped; the five control characters that have a letter with it; the others
      with four lower-case hex digits; everything else as it is. */
  ghost predicate WrittenAs(c: char, slashes: bool, p: Piece) {
    if c in "\"\\" || (c == '/' && slashes) then p == Short(c)
    else if c in CONTROLS then exists k :: 0 <= k < 5 && c == CONTROLS[k] && p == Short(LETTERS[k])
    else if c as int < 0x20 then
      p == Unit("00" + ["0123456789abcdef"[c as int / 16], "0123456789abcdef"[c as int % 16]])
    else p == Raw(c)
  }

  /** Backspace, form feed, line feed, carriage return and tab, and their letters. */
  const CONTROLS: string := [8 as char, 12 as char, 10 as char, 13 as char, 9 as char]

  const LETTERS: string := "bfnrt"

  /** json_serialize_string writes each byte so, one after the other. */
  lemma {:induction false} EscapeExactly(t: string, slashes: bool) returns (pieces: seq<Piece>)
    ensures |pieces| == |t| && forall k :: 0 <= k < |t| ==> WrittenAs(t[k], slashes, pieces[k])
    ensures Escape(t, slashes) == AllWritten(pieces)
  {
    hide EscapeChar, Written, WrittenAs;
    if t == "" {
      pieces := [];
    } else {
      var p := EscapeByte(t[0], slashes);
      var more := EscapeExactly(t[1..], slashes);
      pieces := [p] + more;
      assert pieces[1..] == more;
    }
  }

  lemma EscapeByte(c: char, slashes: bool) returns (p: Piece)
    ensures WrittenAs(c, slashes, p) && EscapeChar(c, slashes) == Written(p)
  {
    assert CONTROLS[0] == 8 as char && CONTROLS[1] == 12 as char && CONTROLS[2] == 10 as char;
    assert CONTROLS[3] == 13 as char && CONTROLS[4] == 9 as char;
    if c in "\"\\" || (c == '/' && slashes) {
      p := Short(c);
    } else if c in CONTROLS {
      var k :| 0 <= k < 5 && c == CONTROLS[k];
      p := Short(LETTERS[k]);
    } else if c as int < 0x20 {
      p := Unit("00" + [HexChar(c as int / 16), HexChar(c as int % 16)]);
    } else {
      p := Raw(c);
    }
  }

  /** Text without quotes, backslashes and control characters is written as it is, unless it has
      a slash and slashes are escaped. */
  lemma {:induction false} PlainIsUnchanged(t: string, slashes: bool)
    requires forall k :: 0 <= k < |t| ==> t[k] as int >= 0x20 && t[k] != '\"' && t[k] != '\\'
    requires slashes ==> '/' !in t
    ensures Escape(t, slashes) == t && Quote(t, slashes) == "\"" + t + "\""
  {
    if t != "" {
      PlainIsUnchanged(t[1..], slashes);
      assert t == [t[0]] + t[1..];
    }
  }

  /** Every slash stands right behind a backslash. */
  ghost predicate SlashesEscaped(t: string) {
    forall k :: 0 <= k < |t| && t[k] == '/' ==> k > 0 && t[k - 1] == '\\'
  }

  /** With escaping on, that is so in every string literal that is written. */
  lemma {:induction false} QuoteEscapesSlashes(t: string)
    ensures SlashesEscaped(Escape(t, true)) && SlashesEscaped(Quote(t, true))
  {
    if t != "" {
      QuoteEscapesSlashes(t[1..]);
      BothEscaped(EscapeChar(t[0], true), Escape(t[1..], true));
    }
    BothEscaped("\"", Escape(t, true));
    BothEscaped("\"" + Escape(t, true), "\"");
  }

  lemma BothEscaped(a: string, b: string)
    requires SlashesEscaped(a) && SlashesEscaped(b)
    ensures SlashesEscaped(a + b)
  {
    forall k | 0 <= k < |a + b| && (a + b)[k] == '/' ensures k > 0 && (a + b)[k - 1] == '\\' {
      if k >= |a| { assert b[k - |a|] == '/'; }
    }
  }

  lemma EscapePiece(c: char, slashes: bool) returns (p: Piece)
    ensures IsPiece(p) && Written(p) == EscapeChar(c, slashes) && Denoted(p) == [c]
  {
    hide EscapeChar;
    var e := EscapeChar(c, slashes);
    EscapeForms(c, slashes);
    if |e| == 1 {
      p := Raw(c);
    } else if |e| == 2 {
      p := Short(e[1]);
      ShortIs(e[1]);
      assert e == ['\\', e[1]];
    } else {
      p := Unit(['0', '0', HexChar(c as int / 16), HexChar(c as int % 16)]);
      ControlUnit(c);
    }
  }

  lemma ControlUnit(c: char)
    requires c < ' '
    ensures var hex := ['0', '0', HexChar(c as int / 16), HexChar(c as int % 16)];
            && IsHex4(hex) && HexNumber(hex) == c as int && IsPiece(Unit(hex)) && Denoted(Unit(hex)) == [c]
            && Written(Unit(hex)) == "\\u00" + [HexChar(c as int / 16), HexChar(c as int % 16)]
  {
    hide Place, HexValue, HexChar, Utf8.Encode;
    HexDigit(c as int / 16);
    HexDigit(c as int % 16);
    PlaceIsHexValue(HexChar(c as int / 16));
    PlaceIsHexValue(HexChar(c as int % 16));
    ZeroPlace();
    EncodeAscii(c as int);
  }

  lemma ZeroPlace()
    ensures Place('0') == 0
  {
    FirstAt(LOWER, '0', 0);
  }
}
