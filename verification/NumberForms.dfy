/** Which texts are numbers: what strtod takes, and what is_decimal and the range check leave of
    it.
 */
module NumberForms {
  import opened CText
  import opened Numbers

  /** A decimal number for strtod: a minus sign, digits, a point with digits, an exponent. */
  datatype Form = Form(negative: bool, integer: string, point: bool, fraction: string, exponent: string)

  /** There is a digit before or behind the point. */
  predicate IsForm(f: Form) {
    && AllDigits(f.integer) && AllDigits(f.fraction) && (f.integer != "" || f.fraction != "")
    && (!f.point ==> f.fraction == "")
    && (f.exponent == "" || IsPower(f.exponent))
  }

  /** The letter e in either case, a sign or none, and digits. */
  predicate IsPower(e: string) {
    && |e| >= 2 && e[0] in "eE"
    && var k := if e[1] in "+-" then 2 else 1; k < |e| && AllDigits(e[k..])
  }

  function FormText(f: Form): string {
    (if f.negative then "-" else "") + (f.integer + ((if f.point then "." + f.fraction else "") + f.exponent))
  }

  /** A zero in front is followed by the point, or by nothing. */
  predicate NoLeadingZero(f: Form) {
    f.integer != "" && f.integer[0] == '0' ==> |f.integer| == 1 && (f.point || f.exponent == "")
  }

  lemma FormSplit(f: Form) returns (j: nat, a: nat, b: nat)
    requires IsForm(f)
    ensures var t := FormText(f);
            && j == (if f.negative then 1 else 0) && j <= a <= b <= |t|
            && t[j..a] == f.integer && t[a..b] == (if f.point then "." + f.fraction else "") && t[b..] == f.exponent
            && (f.negative ==> t[0] == '-')
  {
    hide AllDigits, IsPower;
    var t := FormText(f);
    var sign, dot := if f.negative then "-" else "", if f.point then "." + f.fraction else "";
    assert t[0..|t|] == t;
    j, a, b := SplitFour(t, 0, |t|, sign, f.integer, dot, f.exponent);
    assert f.negative ==> t[0..1][0] == t[0];
  }

  lemma FormFirst(f: Form, j: nat, a: nat, b: nat)
    requires IsForm(f) && j <= a <= b <= |FormText(f)|
    requires var t := FormText(f);
             t[j..a] == f.integer && t[a..b] == (if f.point then "." + f.fraction else "") && t[b..] == f.exponent
    ensures var t := FormText(f);
            && j < |t| && (IsDigit(t[j]) || t[j] == '.') && (a == j ==> b > a + 1)
            && (if f.point then At(t, a) == '.' else b == a)
            && (if f.exponent == "" then b == |t| else At(t, b) in "eE")
            && (a > j ==> t[j] == f.integer[0])
  {
    hide FormText;
    var t := FormText(f);
    assert a > j ==> t[j..a][0] == t[j];
    assert f.point ==> t[a..b][0] == t[a];
    assert f.exponent != "" ==> t[b..][0] == t[b];
  }

  lemma PowerEnds(t: string, b: nat)
    requires b <= |t| && (t[b..] == "" || IsPower(t[b..]))
    ensures ExponentEnd(t, b) == |t|
  {
    hide DigitsEnd, AllDigits;
    if b < |t| {
      var e := t[b..];
      assert e[0] == t[b] && e[1] == t[b + 1];
      var k := if e[1] in "+-" then 2 else 1;
      TailOfTail(t, b, k);
      SomeDigit(e[k..]);
      assert e[k..][0] == t[b + k];
      DigitsEndIs(t, b + k, |t|);
    }
  }

  lemma TailOfTail(t: string, b: nat, k: nat)
    requires b + k <= |t|
    ensures t[b..][k..] == t[b + k..] == t[b + k..|t|]
  {
  }

  lemma SomeDigit(d: string)
    requires d != "" && AllDigits(d)
    ensures IsDigit(d[0]) && d[0] != '+' && d[0] != '-'
  {
  }

  lemma PointEnds(t: string, a: nat, b: nat, f: Form)
    requires IsForm(f) && a <= b <= |t| && t[a..b] == (if f.point then "." + f.fraction else "")
    requires !IsDigit(At(t, b)) && (b == a ==> At(t, a) != '.')
    ensures FractionEnd(t, a) == b
  {
    hide DigitsEnd, IsPower;
    if f.point {
      SplitSlice(t, a, b, ".", f.fraction);
      assert t[a..a + 1][0] == t[a];
      DigitsEndIs(t, a + 1, b);
    }
  }

  /** strtod takes every such text to its end. */
  lemma FormIsScanned(f: Form)
    requires IsForm(f)
    ensures Strtod(FormText(f), 0) == Decimal(|FormText(f)|)
  {
    hide DigitsEnd, FractionEnd, ExponentEnd, FormText, IsPower, IsDigit, AllDigits;
    var t := FormText(f);
    var j, a, b := FormSplit(f);
    FormFirst(f, j, a, b);
    Marks(t, a);
    Marks(t, b);
    DigitsEndIs(t, j, a);
    PointEnds(t, a, b, f);
    PowerEnds(t, b);
    NotInWord(t, j);
    SignOnly(f, t, j);
    NoX(f);
    assert j + 1 < |t| ==> t[j + 1] in t;
  }

  lemma Marks(t: string, k: nat)
    requires k <= |t|
    ensures At(t, k) in "eE" || At(t, k) == '.' || k == |t| ==> !IsDigit(At(t, k))
    ensures At(t, k) in "eE" || k == |t| ==> At(t, k) != '.'
  {
  }

  lemma SignOnly(f: Form, t: string, j: nat)
    requires j < |t| && (IsDigit(t[j]) || t[j] == '.') && j == (if f.negative then 1 else 0)
    requires f.negative ==> t[0] == '-'
    ensures At(t, 0) == '-' <==> f.negative
  {
  }

  lemma NoX(f: Form)
    requires IsForm(f)
    ensures 'x' !in FormText(f) && 'X' !in FormText(f) && '\0' !in FormText(f)
  {
    PowerChars(f.exponent);
  }

  lemma PowerChars(e: string)
    requires e == "" || IsPower(e)
    ensures 'x' !in e && 'X' !in e && '\0' !in e
  {
    if e != "" {
      var k := if e[1] in "+-" then 2 else 1;
      assert e == e[..k] + e[k..];
    }
  }

  /** And takes nothing else to its end. */
  lemma ScannedIsForm(t: string) returns (f: Form)
    requires Strtod(t, 0) == Decimal(|t|)
    ensures IsForm(f) && t == FormText(f)
  {
    hide DigitsEnd, FractionEnd, ExponentEnd, IsDigit, AllDigits, IsPower, FormText, Strtod;
    var j, a, b := ScanSteps(t);
    f := Form(j == 1, t[j..a], b > a, if b > a then t[a + 1..b] else "", t[b..]);
    DigitsFrom(t, j);
    FractionShape(t, a);
    PowerShape(t, b);
    FormIs(f, t, j, a, b);
  }

  lemma DigitsFrom(t: string, j: nat)
    requires j <= |t|
    ensures AllDigits(t[j..DigitsEnd(t, j)]) && AllDigits("")
  {
    hide DigitsEnd;
  }

  lemma FormIs(f: Form, t: string, j: nat, a: nat, b: nat)
    requires j <= a <= b <= |t| && j <= 1 && (j == 1 ==> t[0] == '-')
    requires f == Form(j == 1, t[j..a], b > a, if b > a then t[a + 1..b] else "", t[b..])
    requires b > a ==> t[a..b] == "." + t[a + 1..b]
    ensures t == FormText(f)
  {
    Cut4(t, j, a, b);
    assert t[..j] == if f.negative then "-" else "";
    assert t[a..b] == if f.point then "." + f.fraction else "";
  }

  lemma Cut4(t: string, j: nat, a: nat, b: nat)
    requires j <= a <= b <= |t|
    ensures t == t[..j] + (t[j..a] + (t[a..b] + t[b..]))
  {
  }

  lemma FractionShape(t: string, a: nat)
    requires a <= |t|
    ensures var b := FractionEnd(t, a);
            && (b > a ==> t[a] == '.' && AllDigits(t[a + 1..b]) && t[a..b] == "." + t[a + 1..b])
  {
  }

  lemma PowerShape(t: string, b: nat)
    requires b <= |t| && ExponentEnd(t, b) == |t|
    ensures t[b..] == "" || IsPower(t[b..])
  {
    hide DigitsEnd, AllDigits;
    if b < |t| {
      var e := t[b..];
      assert e[0] == t[b];
      assert |e| > 1 ==> e[1] == t[b + 1];
      var k := if At(t, b + 1) == '+' || At(t, b + 1) == '-' then 2 else 1;
      TailOfTail(t, b, k);
      DigitsFrom(t, b + k);
    }
  }

  // ---------------------------------------------------------------- what is accepted

  lemma DecimalForm(f: Form)
    requires IsForm(f)
    ensures IsDecimal(FormText(f)) <==> NoLeadingZero(f)
  {
    hide AllDigits, IsPower, FormText, NoLeadingZero;
    var t := FormText(f);
    var j, a, b := FormSplit(f);
    FormFirst(f, j, a, b);
    NoX(f);
    SignOnly(f, t, j);
    ZeroFirst(f, t, j, a, b);
    assert forall k :: 0 <= k < |t| ==> t[k] in t;
    assert |t| > 2 ==> (t[..2] == "-0" <==> t[0] == '-' && t[1] == '0') by {
      if |t| > 2 { assert t[..2] == [t[0], t[1]]; }
    }
  }

  /** What comes right behind a leading zero. */
  lemma ZeroFirst(f: Form, t: string, j: nat, a: nat, b: nat)
    requires IsForm(f) && j <= a <= b <= |t| && j < |t| && t[j..a] == f.integer
    requires (IsDigit(t[j]) || t[j] == '.') && (a > j ==> t[j] == f.integer[0]) && t[b..] == f.exponent
    requires if f.point then At(t, a) == '.' else b == a
    requires if f.exponent == "" then b == |t| else At(t, b) in "eE"
    ensures t[j] == '0' ==> a > j
    ensures NoLeadingZero(f) <==> !(t[j] == '0' && |t| > j + 1 && t[j + 1] != '.')
  {
    hide IsPower;
    if a == j {
      assert t[j] != '0' by { Marks(t, a); }
    } else if a > j + 1 {
      assert t[j..a][1] == t[j + 1] && IsDigit(t[j..a][1]);
    }
  }

  ghost predicate IsNumberText(t: string) {
    exists f :: IsForm(f) && NoLeadingZero(f) && t == FormText(f)
  }

  /** strtod takes a text to its end and is_decimal lets it pass, if and only if it has this
      form and no leading zero. */
  lemma AcceptedExactly(t: string)
    ensures Strtod(t, 0) == Decimal(|t|) && IsDecimal(t) <==> IsNumberText(t)
  {
    hide Strtod, IsForm, FormText, NoLeadingZero, IsDecimal;
    if Strtod(t, 0) == Decimal(|t|) && IsDecimal(t) {
      var f := ScannedIsForm(t);
      DecimalForm(f);
    }
    if f :| IsForm(f) && NoLeadingZero(f) && t == FormText(f) {
      FormIsScanned(f);
      DecimalForm(f);
    }
  }

  // ---------------------------------------------------------------- numbers in a text

  /** A text of the form starts at i. */
  ghost predicate FormAt(s: string, i: nat, n: nat)
    requires i <= |s|
  {
    i + n <= |s| && exists f :: IsForm(f) && s[i..i + n] == FormText(f)
  }

  /** A hexadecimal number starts at i. */
  predicate HexAt(s: string, i: nat)
    requires i <= |s|
  {
    var j := if At(s, i) == '-' then i + 1 else i;
    && At(s, j) == '0' && At(s, j + 1) in "xX"
    && var k := if At(s, j + 2) == '.' then j + 3 else j + 2;
       At(s, k) in "0123456789abcdefABCDEF"
  }

  lemma HexDigitIs(c: char)
    ensures IsHexDigit(c) <==> c in "0123456789abcdefABCDEF"
  {
    var t := "0123456789abcdefABCDEF";
    if c in t {
      var d :| 0 <= d < |t| && t[d] == c;
      HexTable(d);
    }
    if '0' <= c <= '9' { HexTable(c as int - '0' as int); }
    if 'a' <= c <= 'f' { HexTable(10 + (c as int - 'a' as int)); }
    if 'A' <= c <= 'F' { HexTable(16 + (c as int - 'A' as int)); }
  }

  lemma HexTable(d: nat)
    requires d < 22
    ensures var t := "0123456789abcdefABCDEF";
            |t| == 22 && t[d] in t && t[d] as int ==
            if d < 10 then '0' as int + d else if d < 16 then 'a' as int + d - 10 else 'A' as int + d - 16
  {
  }

  /** inf or nan stands at j, in any mix of cases. */
  predicate WordAt(s: string, j: nat)
    requires j <= |s|
  {
    j + 3 <= |s|
    && (|| (s[j] in "iI" && s[j + 1] in "nN" && s[j + 2] in "fF")
        || (s[j] in "nN" && s[j + 1] in "aA" && s[j + 2] in "nN"))
  }

  lemma WordIs(s: string, j: nat)
    requires j <= |s|
    ensures WordAt(s, j) <==> Letters(s, j, "inf") || Letters(s, j, "nan")
  {
  }

  /** What strtod finds: a word, a hexadecimal number, or the longest decimal number. */
  lemma ScanIsLongest(s: string, i: nat)
    requires i <= |s|
    ensures Strtod(s, i) == InfOrNan <==> WordAt(s, if At(s, i) == '-' then i + 1 else i)
    ensures Strtod(s, i) == HexFloat <==> HexAt(s, i)
    ensures Strtod(s, i).Decimal? ==> i < Strtod(s, i).end && FormAt(s, i, Strtod(s, i).end - i) && !HexAt(s, i)
    ensures !HexAt(s, i) ==>
              forall n :: FormAt(s, i, n) ==> Strtod(s, i).Decimal? && i + n <= Strtod(s, i).end
    ensures Strtod(s, i) == NoNumber <==>
              && !WordAt(s, if At(s, i) == '-' then i + 1 else i) && !HexAt(s, i)
              && forall n :: !FormAt(s, i, n)
  {
    hide Strtod, IsForm, FormText, WordAt, HexAt;
    WordOrHex(s, i);
    if Strtod(s, i).Decimal? {
      var e := Strtod(s, i).end;
      ScanAlone(s, i, e);
      var f := ScannedIsForm(s[i..e]);
    }
    forall n | FormAt(s, i, n) && !HexAt(s, i) ensures Strtod(s, i).Decimal? && i + n <= Strtod(s, i).end {
      var f :| IsForm(f) && s[i..i + n] == FormText(f);
      FormIsScanned(f);
      ScanInPlace(s, i, FormText(f));
    }
  }

  lemma WordOrHex(s: string, i: nat)
    requires i <= |s|
    ensures Strtod(s, i) == InfOrNan <==> WordAt(s, if At(s, i) == '-' then i + 1 else i)
    ensures Strtod(s, i) == HexFloat <==> HexAt(s, i)
  {
    hide DigitsEnd, FractionEnd, ExponentEnd, IsHexDigit, WordAt;
    var j := if At(s, i) == '-' then i + 1 else i;
    WordIs(s, j);
    if At(s, j) == '0' {
      NoWordAtZero(s, j);
      if At(s, j + 1) in "xX" {
        HexDigitIs(At(s, j + 2));
        if At(s, j + 2) == '.' { HexDigitIs(At(s, j + 3)); }
        assert '.' !in "0123456789abcdefABCDEF";
      }
    }
  }

  lemma NoWordAtZero(s: string, j: nat)
    requires j < |s| && s[j] == '0'
    ensures !WordAt(s, j)
  {
  }

  // ---------------------------------------------------------------- the range

  function Two(k: nat): nat {
    if k == 0 then 1 else 2 * Two(k - 1)
  }

  lemma {:induction false} TwoSum(a: nat, b: nat)
    ensures Two(a + b) == Two(a) * Two(b)
  {
    if b > 0 { TwoSum(a, b - 1); }
  }

  lemma SmallTwos()
    ensures Two(5) == 0x20 && Two(6) == 0x40 && Two(8) == 0x100
  {
  }

  /** The bound of the range check is 2^1024 - 2^970. */
  lemma HugeIs()
    ensures HUGE == Two(1024) - Two(970)
  {
    hide Two;
    Powers();
    TwoSum(512, 256);
    TwoSum(768, 192);
    TwoSum(960, 10);
    TwoSum(970, 54);
  }

  lemma Powers()
    ensures Two(10) == 0x400 && Two(54) == 0x40_0000_0000_0000 && Two(192) == W * W * W
    ensures Two(256) == W4 && Two(512) == W4 * W4
  {
    hide Two;
    SmallTwos();
    TwoSum(5, 5);
    TwoSum(8, 8);
    TwoSum(16, 16);
    TwoSum(32, 16);
    TwoSum(48, 6);
    TwoSum(32, 32);
    TwoSum(64, 64);
    TwoSum(128, 64);
    TwoSum(128, 128);
    TwoSum(256, 256);
  }

  /** parse_number_value gives a literal and moves on, if and only if the longest decimal number
      there has no leading zero and is below 2^1024 - 2^970 in magnitude, and no hexadecimal
      number is there. */
  lemma NumberExactly(s: string, i: nat, lit: string, next: nat)
    requires i <= |s|
    ensures ParseNumber(s, i) == Ok(lit, next) && next > i <==>
              && i < next <= |s| && lit == s[i..next] && IsNumberText(lit) && !HexAt(s, i)
              && (forall n :: FormAt(s, i, n) ==> i + n <= next)
              && -((Two(1024) - Two(970)) as real) < Meaning(lit) < (Two(1024) - Two(970)) as real
  {
    hide Strtod, IsForm, FormText, NoLeadingZero, IsDecimal, HexAt, WordAt, Meaning, Two, HUGE;
    HugeIs();
    ScanIsLongest(s, i);
    if i < next <= |s| { TakenExactly(s, i, next); }
  }

  /** A number that strtod takes, by itself and in its text. */
  lemma TakenExactly(s: string, i: nat, next: nat)
    requires i < next <= |s|
    ensures Strtod(s, i) == Decimal(next) ==> (IsDecimal(s[i..next]) <==> IsNumberText(s[i..next]))
    ensures IsNumberText(s[i..next]) ==> FormAt(s, i, next - i)
  {
    hide Strtod, IsForm, FormText, NoLeadingZero, IsDecimal;
    AcceptedExactly(s[i..next]);
    if Strtod(s, i) == Decimal(next) { ScanAlone(s, i, next); }
  }
}
