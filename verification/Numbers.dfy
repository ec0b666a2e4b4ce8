/** JSON numbers, each standing for the double its literal denotes.

  `Strtod` is the scan of strtod in the C locale, and `IsG17` a grammar of what `%1.17g`
  prints for a finite double. That strtod gives back the double that `%1.17g` printed is the
  one assumption about floating point; a double is therefore represented by the literal.
 */
module Numbers {
  import opened CText

  // ---------------------------------------------------------------- scanning

  /** The first position from i on that is not a digit. */
  function DigitsEnd(s: string, i: nat): (j: nat)
    requires i <= |s|
    ensures i <= j <= |s| && !IsDigit(At(s, j)) && AllDigits(s[i..j])
    decreases |s| - i
  {
    if IsDigit(At(s, i)) then DigitsEnd(s, i + 1) else i
  }

  predicate AllDigits(t: string) {
    forall k :: 0 <= k < |t| ==> IsDigit(t[k])
  }

  predicate IsHexDigit(c: char) {
    IsDigit(c) || 'a' <= c <= 'f' || 'A' <= c <= 'F'
  }

  function Lower(c: char): char {
    if 'A' <= c <= 'Z' then (c as int + 32) as char else c
  }

  /** The three letters at i, in either case. */
  predicate Letters(s: string, i: nat, w: string)
    requires i <= |s| && |w| == 3
  {
    i + 3 <= |s| && Lower(s[i]) == w[0] && Lower(s[i + 1]) == w[1] && Lower(s[i + 2]) == w[2]
  }

  datatype Scan =
    | NoNumber             // no conversion: nothing is consumed and the result is 0
    | Decimal(end: nat)
    | HexFloat             // 0x..., longer than the "0"
    | InfOrNan

  /** The end of the exponent at i, or i when there is none. */
  function ExponentEnd(s: string, i: nat): (j: nat)
    requires i <= |s|
    ensures i <= j <= |s|
  {
    if At(s, i) != 'e' && At(s, i) != 'E' then i
    else
      var k := if At(s, i + 1) == '+' || At(s, i + 1) == '-' then i + 2 else i + 1;
      if IsDigit(At(s, k)) then DigitsEnd(s, k) else i
  }

  /** The end of the fraction at i, or i when there is none. */
  function FractionEnd(s: string, i: nat): (j: nat)
    requires i <= |s|
    ensures i <= j <= |s|
  {
    if At(s, i) == '.' then DigitsEnd(s, i + 1) else i
  }

  /** The longest prefix of s[i..] that strtod converts. */
  function Strtod(s: string, i: nat): (r: Scan)
    requires i <= |s|
    ensures r.Decimal? ==> i < r.end <= |s|
  {
    var j := if At(s, i) == '-' then i + 1 else i;
    if Letters(s, j, "inf") || Letters(s, j, "nan") then InfOrNan
    else if At(s, j) == '0' && (At(s, j + 1) == 'x' || At(s, j + 1) == 'X')
            && (IsHexDigit(At(s, j + 2)) || (At(s, j + 2) == '.' && IsHexDigit(At(s, j + 3))))
    then HexFloat
    else
      var a := DigitsEnd(s, j);
      var b := FractionEnd(s, a);
      if b <= j + 1 && a == j then NoNumber  // neither digits before the point nor after it
      else Decimal(ExponentEnd(s, b))
  }

  /** is_decimal; strchr finds the terminator of "xX" too. */
  predicate IsDecimal(t: string) {
    && !(|t| > 1 && t[0] == '0' && t[1] != '.')
    && !(|t| > 2 && t[..2] == "-0" && t[2] != '.')
    && forall k :: 0 <= k < |t| ==> t[k] != 'x' && t[k] != 'X' && t[k] != '\0'
  }

  // ---------------------------------------------------------------- meaning

  function DigitsValue(t: string): nat
    requires AllDigits(t)
  {
    if t == "" then 0 else 10 * DigitsValue(t[..|t| - 1]) + (t[|t| - 1] as int - '0' as int)
  }

  function Pow10(e: int): real
    decreases if e < 0 then -e else e
  {
    if e == 0 then 1.0 else if e > 0 then 10.0 * Pow10(e - 1) else Pow10(e + 1) / 10.0
  }

  function Shifted(digits: nat, e: int): real {
    digits as real * Pow10(e)
  }

  /** The real number a decimal literal denotes. */
  function Meaning(lit: string): real {
    var j := if At(lit, 0) == '-' then 1 else 0;
    var a := DigitsEnd(lit, j);
    var b := FractionEnd(lit, a);
    var e := ExponentEnd(lit, b);
    var fraction := if b > a then lit[a + 1..b] else "";
    var digits := DigitsValue(lit[j..a] + fraction);
    var k := if e > b && (At(lit, b + 1) == '+' || At(lit, b + 1) == '-') then b + 2 else b + 1;
    var exponent := if e <= b then 0
                    else if At(lit, b + 1) == '-' then -(DigitsValue(lit[k..e]) as int)
                    else DigitsValue(lit[k..e]);
    var magnitude := Shifted(digits, exponent - |fraction|);
    if j == 1 then -magnitude else magnitude
  }

  /** 2^1024 - 2^970: decimals from here on round to infinity, and strtod reports ERANGE. */
  const HUGE: int := 0x3F_FFFF_FFFF_FFFF * 0x400 * W4 * W4 * W4 * W * W * W

  const W: int := 0x1_0000_0000_0000_0000

  const W4: int := 0x1_0000_0000_0000_0000_0000_0000_0000_0000_0000_0000_0000_0000_0000_0000_0000_0000

  predicate Overflows(lit: string) {
    var x := Meaning(lit);
    x >= HUGE as real || x <= -(HUGE as real)
  }

  /** parse_number_value: the literal of the number and the cursor after it. */
  function ParseNumber(s: string, i: nat): (r: Parsed<string>)
    requires i <= |s|
    ensures r.Ok? ==> i <= r.next <= |s|
  {
    match Strtod(s, i)
    case NoNumber => Ok("0", i)
    case Decimal(end) => if Overflows(s[i..end]) || !IsDecimal(s[i..end]) then Fail else Ok(s[i..end], end)
    case HexFloat => Fail  // is_decimal refuses it: 0 followed by something other than a point
    case InfOrNan => Fail  // json_value_init_number refuses it
  }

  // ---------------------------------------------------------------- what %1.17g prints

  /** The zeros that digits start with. */
  function LeadingZeros(t: string): (k: nat)
    ensures k <= |t|
  {
    if t == "" || t[0] != '0' then 0 else 1 + LeadingZeros(t[1..])
  }

  /** Trailing zeros are not printed, nor a point with nothing behind it. */
  predicate NoTrailingZero(fraction: string) {
    fraction == "" || fraction[|fraction| - 1] != '0'
  }

  /** At most 17 significant digits, the first of them at most four places behind the point. */
  ghost predicate IsFixed(integer: string, fraction: string) {
    && AllDigits(integer) && AllDigits(fraction) && NoTrailingZero(fraction)
    && |integer| >= 1 && (integer[0] == '0' ==> |integer| == 1)
    && if integer == "0" then LeadingZeros(fraction) <= 3 && |fraction| <= 17 + LeadingZeros(fraction)
       else |integer| + |fraction| <= 17
  }

  /** At most 17 digits, and an exponent of two or three digits that is out of reach of the fixed form. */
  ghost predicate IsScientific(integer: string, fraction: string, exponent: string) {
    && AllDigits(integer) && AllDigits(fraction) && NoTrailingZero(fraction)
    && |integer| == 1 && integer[0] != '0' && |fraction| <= 16
    && exponent != "" && IsExponent(exponent)
    && (|exponent| == 5 ==> exponent[2] != '0')
    && DigitsValue(exponent[2..]) >= if exponent[1] == '-' then 5 else 17
  }

  predicate IsExponent(e: string) {
    e == "" || (4 <= |e| <= 5 && e[0] == 'e' && (e[1] == '+' || e[1] == '-') && AllDigits(e[2..]))
  }

  /** The two ways a printed number is put together. */
  ghost predicate IsParts(integer: string, fraction: string, exponent: string) {
    (exponent == "" && IsFixed(integer, fraction)) || IsScientific(integer, fraction, exponent)
  }

  function Literal(negative: bool, integer: string, fraction: string, exponent: string): string {
    (if negative then "-" else "") + (integer + ((if fraction == "" then "" else "." + fraction) + exponent))
  }

  ghost predicate IsG17(lit: string) {
    exists negative, integer, fraction, exponent ::
      lit == Literal(negative, integer, fraction, exponent) && IsParts(integer, fraction, exponent)
  }

  /** A number the library can hold and print: a finite double. */
  ghost predicate IsNumber(lit: string) {
    IsG17(lit) && !Overflows(lit)
  }

  /** An exponent with at least one digit starts at j. */
  predicate ExponentFollows(s: string, j: nat)
    requires j <= |s|
  {
    (At(s, j) == 'e' || At(s, j) == 'E') &&
    IsDigit(At(s, if At(s, j + 1) == '+' || At(s, j + 1) == '-' then j + 2 else j + 1))
  }

  /** The x of a hexadecimal float, with what makes strtod read on, is at j. */
  predicate HexFollows(s: string, j: nat)
    requires j <= |s|
  {
    (At(s, j) == 'x' || At(s, j) == 'X') &&
    (IsHexDigit(At(s, j + 1)) || (At(s, j + 1) == '.' && IsHexDigit(At(s, j + 2))))
  }

  /** strtod, having read the literal up to position j, does not stop there. */
  predicate CarriesOn(lit: string, s: string, j: nat)
    requires j <= |s|
  {
    || IsDigit(At(s, j))
    || ('e' !in lit && ExponentFollows(s, j))
    || ('e' !in lit && '.' !in lit && At(s, j) == '.')
    || (lit in ["0", "-0"] && HexFollows(s, j))
  }

  /** The characters that can carry a literal on. */
  predicate Extends(c: char) {
    IsDigit(c) || c == '.' || c == 'e' || c == 'E' || c == 'x' || c == 'X'
  }

  lemma OnlyExtends(lit: string, s: string, j: nat)
    requires j <= |s| && !Extends(At(s, j))
    ensures !CarriesOn(lit, s, j)
  {
  }

  /** Whether a literal is carried on depends on what follows it only. */
  lemma CarriesOnAlike(lit: string, s: string, j: nat, rest: string)
    requires j <= |s| && s[j..] == rest
    ensures CarriesOn(lit, s, j) <==> CarriesOn(lit, rest, 0)
  {
    assert forall k :: 0 <= k < |rest| ==> rest[k] == s[j + k];
  }

  lemma {:induction false} DigitsEndIs(s: string, i: nat, j: nat)
    requires i <= j <= |s| && AllDigits(s[i..j]) && !IsDigit(At(s, j))
    ensures DigitsEnd(s, i) == j
    decreases j - i
  {
    if i < j {
      assert s[i..j][0] == s[i] && s[i..j][1..] == s[i + 1..j];
      DigitsEndIs(s, i + 1, j);
    }
  }

  lemma G17Short(lit: string)
    requires IsG17(lit)
    ensures 1 <= |lit| <= 24
  {
  }

  /** A printed number is scanned exactly to its end if and only if what follows does not carry
      it on; it is accepted by is_decimal and starts like a number. */
  lemma ScanExactly(s: string, i: nat, lit: string)
    requires IsG17(lit) && i + |lit| <= |s| && s[i..i + |lit|] == lit
    ensures Strtod(s, i) == Decimal(i + |lit|) <==> !CarriesOn(lit, s, i + |lit|)
    ensures Strtod(s, i) != NoNumber && IsDecimal(lit) && lit != "" && (s[i] == '-' || IsDigit(s[i]))
  {
    hide Strtod, IsDecimal, IsParts, IsG17, Literal, ExponentFollows, HexFollows, IsDigit;
    var negative, integer, fraction, exponent := PartsOf(lit);
    LiteralIsDecimal(negative, integer, fraction, exponent);
    LiteralMarks(negative, integer, fraction, exponent);
    ScanParts(s, i, negative, integer, fraction, exponent);
  }

  lemma PartsOf(lit: string) returns (negative: bool, integer: string, fraction: string, exponent: string)
    requires IsG17(lit)
    ensures lit == Literal(negative, integer, fraction, exponent) && IsParts(integer, fraction, exponent)
  {
    negative, integer, fraction, exponent :|
      lit == Literal(negative, integer, fraction, exponent) && IsParts(integer, fraction, exponent);
  }

  /** The parts of a literal can be told from its characters. */
  lemma LiteralMarks(negative: bool, integer: string, fraction: string, exponent: string)
    requires IsParts(integer, fraction, exponent)
    ensures var lit := Literal(negative, integer, fraction, exponent);
            && integer != ""
            && ('e' in lit <==> exponent != "") && ('.' in lit <==> fraction != "")
            && (lit in ["0", "-0"] <==> integer == "0" && fraction == "" && exponent == "")
  {
    var sign := if negative then "-" else "";
    var point := if fraction == "" then "" else "." + fraction;
    var lit := Literal(negative, integer, fraction, exponent);
    assert lit == sign + (integer + (point + exponent));
    assert 'e' !in sign + integer + point && '.' !in sign + integer;
    if exponent != "" {
      assert exponent == exponent[..2] + exponent[2..];
      assert 'e' == exponent[0] && exponent[0] in exponent && '.' !in exponent;
    }
    if fraction != "" { assert '.' == point[0] && point[0] in point; }
    ZeroLiteral(sign, integer, point + exponent, lit);
  }

  lemma ZeroLiteral(sign: string, integer: string, more: string, lit: string)
    requires lit == sign + (integer + more) && sign in ["", "-"] && integer != "" && AllDigits(integer)
    ensures lit in ["0", "-0"] <==> integer == "0" && more == ""
  {
    assert lit[|sign|] == integer[0] && IsDigit(integer[0]);
    assert sign == "-" ==> lit[0] == '-';
    assert |lit| == |sign| + |integer| + |more|;
    if lit == "0" || lit == "-0" {
      assert lit[|lit| - 1] == '0';
      assert |integer| == 1 && integer == [integer[0]];
    }
  }

  lemma {:induction false} DigitsEndBeyond(s: string, i: nat, j: nat)
    requires i <= j <= |s| && AllDigits(s[i..j])
    ensures DigitsEnd(s, i) >= j && (IsDigit(At(s, j)) ==> DigitsEnd(s, i) > j)
    decreases j - i
  {
    if i < j {
      assert s[i..j][0] == s[i] && s[i..j][1..] == s[i + 1..j];
      DigitsEndBeyond(s, i + 1, j);
    }
  }

  /** A run of digits ends at j exactly if no digit follows. */
  lemma DigitsEndExactly(s: string, i: nat, j: nat)
    requires i <= j <= |s| && AllDigits(s[i..j])
    ensures DigitsEnd(s, i) == j <==> !IsDigit(At(s, j))
    ensures DigitsEnd(s, i) >= j
  {
    hide DigitsEnd, IsDigit, AllDigits;
    DigitsEndBeyond(s, i, j);
    if !IsDigit(At(s, j)) { DigitsEndIs(s, i, j); }
  }

  /** An exponent in its place, and what follows it. */
  lemma ScanExponent(s: string, b: nat, e: string)
    requires b + |e| <= |s| && s[b..b + |e|] == e && IsExponent(e)
    ensures ExponentEnd(s, b) >= b + |e|
    ensures ExponentEnd(s, b) == b + |e| <==> if e == "" then !ExponentFollows(s, b) else !IsDigit(At(s, b + |e|))
    ensures e != "" ==> At(s, b) == 'e'
  {
    if e != "" {
      assert s[b] == e[0] && s[b + 1] == e[1] && s[b + 2] == e[2];
      assert s[b + 2..b + |e|] == e[2..];
      DigitsEndExactly(s, b + 2, b + |e|);
      assert e[2..][0] == e[2];
    }
  }

  /** A fraction in its place, and what follows it. */
  lemma ScanFraction(s: string, a: nat, fraction: string, b: nat)
    requires a <= b <= |s| && AllDigits(fraction) && s[a..b] == (if fraction == "" then "" else "." + fraction)
    ensures FractionEnd(s, a) >= b
    ensures FractionEnd(s, a) == b <==> if fraction == "" then At(s, b) != '.' else !IsDigit(At(s, b))
    ensures fraction != "" ==> At(s, a) == '.'
  {
    hide AllDigits, IsDigit, DigitsEnd;
    if fraction != "" {
      SplitSlice(s, a, b, ".", fraction);
      assert s[a..a + 1][0] == s[a];
      DigitsEndExactly(s, a + 1, b);
    }
  }

  /** No literal contains what is_decimal refuses. */
  lemma LiteralIsDecimal(negative: bool, integer: string, fraction: string, exponent: string)
    requires IsParts(integer, fraction, exponent)
    ensures IsDecimal(Literal(negative, integer, fraction, exponent))
  {
    var lit := Literal(negative, integer, fraction, exponent);
    var n := if negative then 1 else 0;
    var point := if fraction == "" then "" else "." + fraction;
    assert lit[n] == integer[0];
    assert lit == (if negative then "-" else "") + integer + point + exponent;
    assert exponent != "" ==> exponent == exponent[..2] + exponent[2..];
    if integer[0] == '0' && |lit| > n + 1 {
      assert point != "" && lit[n + 1] == point[0];
    }
    if |lit| > 2 && lit[..2] == "-0" {
      assert lit[..2][1] == lit[1];
    }
  }

  lemma SplitFour(s: string, i: nat, end: nat, t: string, u: string, v: string, w: string)
    returns (j: nat, a: nat, b: nat)
    requires i <= end <= |s| && s[i..end] == t + (u + (v + w))
    ensures i <= j <= a <= b <= end
    ensures s[i..j] == t && s[j..a] == u && s[a..b] == v && s[b..end] == w
  {
    j := i + |t|;
    SplitSlice(s, i, end, t, u + (v + w));
    a := j + |u|;
    SplitSlice(s, j, end, u, v + w);
    b := a + |v|;
    SplitSlice(s, a, end, v, w);
  }

  /** Where the parts of a literal stand in a text. */
  lemma SplitLiteral(s: string, i: nat, end: nat, negative: bool, integer: string, fraction: string, exponent: string)
    returns (j: nat, a: nat, b: nat)
    requires i <= end <= |s| && s[i..end] == Literal(negative, integer, fraction, exponent)
    requires IsParts(integer, fraction, exponent)
    ensures i <= j < a <= b <= end && j == (if negative then i + 1 else i) && (s[i] == '-' <==> negative)
    ensures s[j] == integer[0] && IsDigit(s[j]) && (j + 1 < a ==> IsDigit(s[j + 1]))
    ensures s[j..a] == integer && AllDigits(integer) && AllDigits(fraction)
    ensures s[a..b] == (if fraction == "" then "" else "." + fraction)
    ensures s[b..end] == exponent && IsExponent(exponent)
  {
    var sign := if negative then "-" else "";
    var point := if fraction == "" then "" else "." + fraction;
    j, a, b := SplitFour(s, i, end, sign, integer, point, exponent);
    PartsAreDigits(integer, fraction, exponent);
    assert s[j] == s[j..a][0] == integer[0];
    assert negative ==> s[i] == s[i..j][0];
    assert j + 1 < a ==> s[j + 1] == s[j..a][1];
  }

  lemma PartsAreDigits(integer: string, fraction: string, exponent: string)
    requires IsParts(integer, fraction, exponent)
    ensures integer != "" && AllDigits(integer) && AllDigits(fraction) && IsExponent(exponent)
  {
  }

  /** The scan of a literal. */
  lemma ScanParts(s: string, i: nat, negative: bool, integer: string, fraction: string, exponent: string)
    requires IsParts(integer, fraction, exponent)
    requires var lit := Literal(negative, integer, fraction, exponent); i + |lit| <= |s| && s[i..i + |lit|] == lit
    ensures var lit := Literal(negative, integer, fraction, exponent);
            var end := i + |lit|;
            && lit != "" && (s[i] == '-' || IsDigit(s[i])) && Strtod(s, i) != NoNumber
            && (Strtod(s, i) == Decimal(end) <==>
                  && !IsDigit(At(s, end)) && (exponent == "" ==> !ExponentFollows(s, end))
                  && (exponent == "" && fraction == "" ==> At(s, end) != '.')
                  && (integer == "0" && fraction == "" && exponent == "" ==> !HexFollows(s, end)))
  {
    hide Strtod, DigitsEnd, ExponentEnd, FractionEnd, ExponentFollows, HexFollows, IsParts, Literal, IsDigit, AllDigits;
    var end := i + |Literal(negative, integer, fraction, exponent)|;
    var j, a, b := SplitLiteral(s, i, end, negative, integer, fraction, exponent);
    ScanExponent(s, b, exponent);
    ScanFraction(s, a, fraction, b);
    DigitsEndExactly(s, j, a);
    StrtodExactly(s, i, negative, a, b, end);
    if |integer| == 1 { assert integer == [integer[0]]; }
  }

  /** strtod on digits from j to a, a fraction to b and an exponent to `end`. */
  lemma StrtodExactly(s: string, i: nat, negative: bool, a: nat, b: nat, end: nat)
    requires var j := if negative then i + 1 else i;
             && j < a <= b <= end <= |s| && (negative <==> s[i] == '-') && IsDigit(s[j])
             && DigitsEnd(s, j) >= a && (DigitsEnd(s, j) == a <==> !IsDigit(At(s, a)))
             && (j + 1 < a ==> IsDigit(s[j + 1]))
    requires FractionEnd(s, a) >= b && (b > a ==> At(s, a) == '.')
    requires FractionEnd(s, a) == b <==> if b == a then At(s, b) != '.' else !IsDigit(At(s, b))
    requires ExponentEnd(s, b) >= end && (end > b ==> At(s, b) == 'e')
    requires ExponentEnd(s, b) == end <==> if end == b then !ExponentFollows(s, b) else !IsDigit(At(s, end))
    ensures Strtod(s, i) != NoNumber
    ensures var j := if negative then i + 1 else i;
            Strtod(s, i) == Decimal(end) <==>
              && !IsDigit(At(s, end)) && (end == b ==> !ExponentFollows(s, end)) && (end == a ==> At(s, end) != '.')
              && (end == j + 1 && s[j] == '0' ==> !HexFollows(s, end))
  {
    hide DigitsEnd, ExponentEnd, FractionEnd, ExponentFollows;
    if end > b { NotDigit(s, b); }
    if b > a { NotDigit(s, a); }
  }

  lemma NotDigit(s: string, k: nat)
    requires k <= |s|
    ensures At(s, k) == 'e' || At(s, k) == '.' ==> !IsDigit(At(s, k)) && !HexFollows(s, k)
  {
  }

  // ---------------------------------------------------------------- literals in and out of place

  /** Digits of a literal that stands at i in s. */
  lemma DigitsWithin(s: string, i: nat, lit: string, k: nat)
    requires i + |lit| <= |s| && s[i..i + |lit|] == lit && k <= |lit|
    ensures var e := DigitsEnd(lit, k);
            && DigitsEnd(s, i + k) >= i + e
            && (e < |lit| || !IsDigit(At(s, i + |lit|)) ==> DigitsEnd(s, i + k) == i + e)
  {
    hide DigitsEnd, AllDigits, IsDigit;
    var e := DigitsEnd(lit, k);
    SliceOfSlice(s, i, i + |lit|, k, e);
    assert e < |lit| ==> s[i + e] == lit[e];
    DigitsEndExactly(s, i + k, i + e);
  }

  lemma FractionWithin(s: string, i: nat, lit: string, a: nat)
    requires i + |lit| <= |s| && s[i..i + |lit|] == lit && a <= |lit|
    ensures var b := FractionEnd(lit, a);
            && (a < |lit| ==> FractionEnd(s, i + a) >= i + b)
            && (b < |lit| || !Extends(At(s, i + |lit|)) ==> FractionEnd(s, i + a) == i + b)
  {
    hide DigitsEnd;
    assert a < |lit| ==> s[i + a] == lit[a];
    if At(lit, a) == '.' { DigitsWithin(s, i, lit, a + 1); }
  }

  lemma ExponentWithin(s: string, i: nat, lit: string, b: nat)
    requires i + |lit| <= |s| && s[i..i + |lit|] == lit && b <= |lit| && ExponentEnd(lit, b) == |lit|
    requires !Extends(At(s, i + |lit|))
    ensures ExponentEnd(s, i + b) == i + |lit|
  {
    hide DigitsEnd;
    assert forall k :: 0 <= k < |lit| ==> s[i + k] == lit[k];
    if b < |lit| {
      var k := if At(lit, b + 1) == '+' || At(lit, b + 1) == '-' then b + 2 else b + 1;
      DigitsWithin(s, i, lit, k);
    }
  }

  lemma ExponentBeyond(s: string, i: nat, lit: string, b: nat)
    requires i + |lit| <= |s| && s[i..i + |lit|] == lit && b < |lit| && ExponentEnd(lit, b) == |lit|
    ensures ExponentEnd(s, i + b) >= i + |lit|
  {
    hide DigitsEnd;
    assert forall k :: 0 <= k < |lit| ==> s[i + k] == lit[k];
    var k := if At(lit, b + 1) == '+' || At(lit, b + 1) == '-' then b + 2 else b + 1;
    DigitsWithin(s, i, lit, k);
  }

  /** How strtod gets through a literal to its end. */
  lemma ScanSteps(lit: string) returns (j: nat, a: nat, b: nat)
    requires Strtod(lit, 0) == Decimal(|lit|)
    ensures j == (if At(lit, 0) == '-' then 1 else 0) && j < |lit| && (IsDigit(lit[j]) || lit[j] == '.')
    ensures a == DigitsEnd(lit, j) && b == FractionEnd(lit, a) && ExponentEnd(lit, b) == |lit|
    ensures (b > j + 1 || a > j) && !(j + 1 < |lit| && lit[j] == '0' && (lit[j + 1] == 'x' || lit[j + 1] == 'X'))
  {
    j := if At(lit, 0) == '-' then 1 else 0;
    a := DigitsEnd(lit, j);
    b := FractionEnd(lit, a);
  }

  /** A literal that strtod reads to its end, in a text: something is read there, and just the
      literal when what follows cannot carry it on. */
  lemma ScanInPlace(s: string, i: nat, lit: string)
    requires Strtod(lit, 0) == Decimal(|lit|) && i + |lit| <= |s| && s[i..i + |lit|] == lit
    ensures Strtod(s, i) != NoNumber && Strtod(s, i) != InfOrNan
    ensures Strtod(s, i).Decimal? ==> Strtod(s, i).end >= i + |lit|
    ensures !Extends(At(s, i + |lit|)) ==> Strtod(s, i) == Decimal(i + |lit|)
  {
    hide DigitsEnd, FractionEnd, ExponentEnd;
    var j, a, b := ScanSteps(lit);
    assert forall k :: 0 <= k < |lit| ==> s[i + k] == lit[k];
    DigitsWithin(s, i, lit, j);
    FractionWithin(s, i, lit, a);
    NotInWord(s, i + j);
    if !Extends(At(s, i + |lit|)) { ExponentWithin(s, i, lit, b); }
    if b < |lit| { ExponentBeyond(s, i, lit, b); }
    SomeDigits(s, i + j, lit[j]);
  }

  lemma NotInWord(s: string, k: nat)
    requires k < |s| && (IsDigit(s[k]) || s[k] == '.')
    ensures !Letters(s, k, "inf") && !Letters(s, k, "nan")
  {
  }

  lemma SomeDigits(s: string, k: nat, c: char)
    requires k < |s| && s[k] == c
    ensures IsDigit(c) ==> DigitsEnd(s, k) > k
    ensures !IsDigit(c) ==> DigitsEnd(s, k) == k
  {
  }

  /** What strtod reads in a text, taken out of it. */
  lemma ScanAlone(s: string, i: nat, end: nat)
    requires i <= |s| && Strtod(s, i) == Decimal(end)
    ensures end <= |s| && i < end && Strtod(s[i..end], 0) == Decimal(end - i)
  {
    hide DigitsEnd, FractionEnd, ExponentEnd;
    var lit := s[i..end];
    var j := if At(s, i) == '-' then i + 1 else i;
    var a := DigitsEnd(s, j);
    var b := FractionEnd(s, a);
    assert forall k :: 0 <= k < |lit| ==> lit[k] == s[i + k];
    DigitsAlone(s, i, end, j);
    FractionAlone(s, i, end, a);
    ExponentAlone(s, i, end, b);
  }

  lemma DigitsAlone(s: string, i: nat, end: nat, k: nat)
    requires i <= k <= end <= |s| && DigitsEnd(s, k) <= end
    ensures DigitsEnd(s[i..end], k - i) == DigitsEnd(s, k) - i
  {
    hide DigitsEnd, AllDigits, IsDigit;
    var lit, e := s[i..end], DigitsEnd(s, k);
    SliceOfSlice(s, i, end, k - i, e - i);
    assert e < end ==> lit[e - i] == s[e];
    DigitsEndExactly(lit, k - i, e - i);
  }

  lemma FractionAlone(s: string, i: nat, end: nat, a: nat)
    requires i <= a <= end <= |s| && FractionEnd(s, a) <= end
    ensures FractionEnd(s[i..end], a - i) == FractionEnd(s, a) - i
  {
    hide DigitsEnd;
    assert a < end ==> s[i..end][a - i] == s[a];
    if At(s, a) == '.' && a < end { DigitsAlone(s, i, end, a + 1); }
  }

  lemma ExponentAlone(s: string, i: nat, end: nat, b: nat)
    requires i <= b <= end <= |s| && ExponentEnd(s, b) == end
    ensures ExponentEnd(s[i..end], b - i) == end - i
  {
    hide DigitsEnd;
    assert forall k :: i <= k < end ==> s[i..end][k - i] == s[k];
    if b < end {
      var k := if At(s, b + 1) == '+' || At(s, b + 1) == '-' then b + 2 else b + 1;
      DigitsAlone(s, i, end, k);
    }
  }

  lemma {:induction false} DigitsShift(s: string, i: nat, x: string, k: nat)
    requires i <= |s| && s[i..] == x && k <= |x|
    ensures DigitsEnd(s, i + k) == i + DigitsEnd(x, k)
    decreases |x| - k
  {
    assert k < |x| ==> s[i + k] == x[k];
    if k < |x| && IsDigit(x[k]) { DigitsShift(s, i, x, k + 1); }
  }

  lemma FractionShift(s: string, i: nat, x: string, a: nat)
    requires i <= |s| && s[i..] == x && a <= |x|
    ensures FractionEnd(s, i + a) == i + FractionEnd(x, a)
  {
    hide DigitsEnd;
    assert a < |x| ==> s[i + a] == x[a];
    if a < |x| { DigitsShift(s, i, x, a + 1); }
  }

  lemma ExponentShift(s: string, i: nat, x: string, b: nat)
    requires i <= |s| && s[i..] == x && b <= |x|
    ensures ExponentEnd(s, i + b) == i + ExponentEnd(x, b)
  {
    hide DigitsEnd;
    assert forall k :: 0 <= k < |x| ==> s[i + k] == x[k];
    if b < |x| {
      var k := if At(x, b + 1) == '+' || At(x, b + 1) == '-' then b + 2 else b + 1;
      if k <= |x| { DigitsShift(s, i, x, k); }
    }
  }

  /** strtod sees what is ahead only. */
  lemma ScanAhead(s: string, i: nat, x: string)
    requires i <= |s| && s[i..] == x
    ensures Strtod(s, i) == match Strtod(x, 0) case Decimal(end) => Decimal(i + end) case r => r
  {
    hide DigitsEnd, FractionEnd, ExponentEnd;
    assert forall k :: 0 <= k < |x| ==> s[i + k] == x[k];
    var j := if At(x, 0) == '-' then 1 else 0;
    DigitsShift(s, i, x, j);
    var a := DigitsEnd(x, j);
    FractionShift(s, i, x, a);
    ExponentShift(s, i, x, FractionEnd(x, a));
  }

  /** The characters of a literal that strtod reads to its end. */
  predicate InNumber(c: char) {
    IsDigit(c) || c == '.' || c == 'e' || c == 'E' || c == '+' || c == '-'
  }

  lemma ScannedChars(lit: string)
    requires Strtod(lit, 0) == Decimal(|lit|)
    ensures forall k :: 0 <= k < |lit| ==> InNumber(lit[k])
  {
    hide DigitsEnd, IsDigit;
    var j, a, b := ScanSteps(lit);
    forall k | j <= k < a ensures IsDigit(lit[k]) { assert lit[j..a][k - j] == lit[k]; }
    forall k | a < k < b ensures IsDigit(lit[k]) { assert lit[a + 1..b][k - (a + 1)] == lit[k]; }
    if b < |lit| {
      var e := if At(lit, b + 1) == '+' || At(lit, b + 1) == '-' then b + 2 else b + 1;
      forall k | e <= k < |lit| ensures IsDigit(lit[k]) { assert lit[e..|lit|][k - e] == lit[k]; }
    }
  }
}
