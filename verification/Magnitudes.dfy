/** What the literals of numbers denote, part by part, and how densely they lie. */
module Magnitudes {
  import opened CText
  import opened Numbers

  function Ten(k: nat): (n: nat)
    ensures n >= 1
  {
    if k == 0 then 1 else 10 * Ten(k - 1)
  }

  lemma Tens()
    ensures Ten(3) == 1000 && Ten(6) == 1_000_000 && Ten(7) == 10_000_000 && Ten(10) == 10_000_000_000
  {
    assert Ten(5) == 100_000;
  }

  lemma {:induction false} TenSum(a: nat, b: nat)
    ensures Ten(a + b) == Ten(a) * Ten(b)
  {
    if b > 0 { TenSum(a, b - 1); }
  }

  lemma {:induction false} Pow10Sum(e: int, k: nat)
    ensures Pow10(e + k) == Pow10(e) * (Ten(k) as real)
  {
    if k > 0 {
      Pow10Sum(e, k - 1);
      assert Pow10(e + k) == 10.0 * Pow10(e + k - 1);
    }
  }

  lemma {:induction false} Pow10Positive(e: int)
    ensures Pow10(e) > 0.0
    decreases if e < 0 then -e else e
  {
    if e != 0 { Pow10Positive(if e > 0 then e - 1 else e + 1); }
  }

  // ---------------------------------------------------------------- digits

  lemma {:induction false} DigitsBound(t: string)
    requires AllDigits(t)
    ensures DigitsValue(t) < Ten(|t|)
  {
    if t != "" { DigitsBound(t[..|t| - 1]); }
  }

  lemma {:induction false} DigitsLower(t: string)
    requires t != "" && AllDigits(t)
    ensures DigitsValue(t) >= (t[0] as int - '0' as int) * Ten(|t| - 1)
  {
    var front := t[..|t| - 1];
    if front != "" {
      DigitsLower(front);
      TimesTen(t[0] as int - '0' as int, Ten(|front| - 1));
    } else {
      assert DigitsValue(front) == 0;
    }
  }

  lemma TimesTen(d: int, n: int)
    ensures 10 * (d * n) == d * (10 * n)
  {
  }

  function Zeros(k: nat): (t: string)
    ensures |t| == k && AllDigits(t) && forall i :: 0 <= i < k ==> t[i] == '0'
  {
    seq(k, _ => '0')
  }

  lemma {:induction false} LeadingZerosAddNothing(k: nat, t: string)
    requires AllDigits(t)
    ensures AllDigits(Zeros(k) + t) && DigitsValue(Zeros(k) + t) == DigitsValue(t)
    decreases k + |t|
  {
    var all := Zeros(k) + t;
    if t != "" {
      LeadingZerosAddNothing(k, t[..|t| - 1]);
      assert all[..|all| - 1] == Zeros(k) + t[..|t| - 1];
    } else if k > 0 {
      LeadingZerosAddNothing(k - 1, t);
      assert all[..|all| - 1] == Zeros(k - 1) + t;
    }
  }

  /** The digits of a natural number. */
  function Digits(n: nat): (t: string)
    ensures t != "" && AllDigits(t)
  {
    var digit := (n % 10 + '0' as int) as char;
    if n < 10 then [digit] else Digits(n / 10) + [digit]
  }

  lemma {:induction false} DigitsShape(n: nat, k: nat)
    requires n < Ten(k) && k > 0
    ensures |Digits(n)| <= k && (Digits(n)[0] == '0' ==> n == 0 && |Digits(n)| == 1)
    ensures DigitsValue(Digits(n)) == n
    ensures Digits(n)[|Digits(n)| - 1] as int - '0' as int == n % 10
  {
    if n < 10 {
      assert Digits(n)[..0] == "" && DigitsValue("") == 0;
    } else {
      DigitsShape(n / 10, k - 1);
      assert Digits(n)[..|Digits(n)| - 1] == Digits(n / 10);
    }
  }

  // ---------------------------------------------------------------- what a literal denotes

  function ExponentOf(exponent: string): int
    requires IsExponent(exponent)
  {
    if exponent == "" then 0
    else if exponent[1] == '-' then -(DigitsValue(exponent[2..]) as int)
    else DigitsValue(exponent[2..])
  }

  /** The real number that the parts denote, without the sign. */
  function MagnitudeOf(integer: string, fraction: string, exponent: string): real
    requires AllDigits(integer) && AllDigits(fraction) && IsExponent(exponent)
  {
    Shifted(DigitsValue(integer + fraction), ExponentOf(exponent) - |fraction|)
  }

  lemma MagnitudePositive(integer: string, fraction: string, exponent: string)
    requires AllDigits(integer) && AllDigits(fraction) && IsExponent(exponent)
    ensures MagnitudeOf(integer, fraction, exponent) >= 0.0
  {
    hide DigitsValue, Pow10;
    Pow10Positive(ExponentOf(exponent) - |fraction|);
  }

  /** The parts of a literal are where Meaning looks for them. */
  lemma PartsInPlace(negative: bool, integer: string, fraction: string, exponent: string)
    returns (j: nat, a: nat, b: nat)
    requires IsParts(integer, fraction, exponent)
    ensures var lit := Literal(negative, integer, fraction, exponent);
            && j <= a <= b <= |lit| && j == (if negative then 1 else 0) && (At(lit, 0) == '-' <==> negative)
            && DigitsEnd(lit, j) == a && FractionEnd(lit, a) == b && ExponentEnd(lit, b) == |lit|
            && lit[j..a] == integer && lit[b..] == exponent
            && lit[a..b] == if fraction == "" then "" else "." + fraction
  {
    hide DigitsEnd, ExponentEnd, FractionEnd, ExponentFollows, HexFollows, IsParts, Literal, IsDigit, AllDigits;
    var lit := Literal(negative, integer, fraction, exponent);
    assert lit[0..|lit|] == lit;
    j, a, b := SplitLiteral(lit, 0, |lit|, negative, integer, fraction, exponent);
    assert lit[b..|lit|] == lit[b..];
    ScanExponent(lit, b, exponent);
    ScanFraction(lit, a, fraction, b);
    DigitsEndExactly(lit, j, a);
    NotDigit(lit, a);
    NotDigit(lit, b);
    NothingFollows(lit);
  }

  lemma NothingFollows(s: string)
    ensures !ExponentFollows(s, |s|) && !IsDigit(At(s, |s|)) && At(s, |s|) != '.'
  {
  }

  lemma MeaningOfParts(negative: bool, integer: string, fraction: string, exponent: string)
    requires IsParts(integer, fraction, exponent)
    ensures AllDigits(integer) && AllDigits(fraction) && IsExponent(exponent)
    ensures var m := MagnitudeOf(integer, fraction, exponent);
            Meaning(Literal(negative, integer, fraction, exponent)) == if negative then -m else m
  {
    hide DigitsEnd, ExponentEnd, FractionEnd, DigitsValue, Shifted, Literal, IsParts, IsExponent, IsDigit, AllDigits;
    var lit := Literal(negative, integer, fraction, exponent);
    var j, a, b := PartsInPlace(negative, integer, fraction, exponent);
    PartsAreDigits(integer, fraction, exponent);
    FractionAt(lit, a, b, fraction);
    ExponentAt(lit, b, exponent);
    assert (exponent == "" <==> |lit| <= b) && lit[j..a] + fraction == integer + fraction;
  }

  lemma FractionAt(lit: string, a: nat, b: nat, fraction: string)
    requires a <= b <= |lit| && lit[a..b] == if fraction == "" then "" else "." + fraction
    ensures fraction == if b > a then lit[a + 1..b] else ""
  {
    if b > a { SplitSlice(lit, a, b, ".", fraction); }
  }

  lemma ExponentAt(lit: string, b: nat, exponent: string)
    requires b <= |lit| && lit[b..] == exponent && IsExponent(exponent)
    ensures exponent != "" ==> |exponent| >= 3 && b + 2 < |lit| && lit[b + 1] == exponent[1]
                               && (exponent[1] == '+' || exponent[1] == '-') && lit[b + 2..|lit|] == exponent[2..]
  {
    if exponent != "" {
      assert lit[b..][1] == lit[b + 1] && lit[b..][2..] == lit[b + 2..|lit|];
    }
  }

  /** An integer of up to ten digits. */
  lemma IntegerMeans(negative: bool, n: nat)
    requires n < Ten(10)
    ensures var lit := Literal(negative, Digits(n), "", "");
            IsG17(lit) && Meaning(lit) == if negative then -(n as real) else n as real
  {
    hide Digits, DigitsValue, Literal, Meaning, IsParts, Ten, AllDigits;
    DigitsShape(n, 10);
    Alone(Digits(n));
    MeaningOfParts(negative, Digits(n), "", "");
    assert Pow10(0) == 1.0;
  }

  lemma OneIsNumber()
    ensures IsNumber("1")
  {
    hide Meaning, IsG17, DigitsValue;
    Tens();
    IntegerMeans(false, 1);
    assert Digits(1) == "1" && Literal(false, "1", "", "") == "1";
  }

  lemma Alone(t: string)
    requires t != "" && AllDigits(t) && |t| <= 17 && (t[0] == '0' ==> |t| == 1)
    ensures IsParts(t, "", "") && AllDigits("") && t + "" == t
  {
  }

  // ---------------------------------------------------------------- how densely numbers lie

  lemma {:induction false} LeadingZerosOf(k: nat, t: string)
    requires t != "" && t[0] != '0'
    ensures LeadingZeros(Zeros(k) + t) == k
  {
    if k > 0 {
      LeadingZerosOf(k - 1, t);
      assert (Zeros(k) + t)[1..] == Zeros(k - 1) + t;
    } else {
      assert Zeros(0) + t == t;
    }
  }

  lemma Pow10Inverse(p: int)
    requires p >= 0
    ensures Pow10(-p) == 1.0 / Ten(p) as real
  {
    Pow10Sum(-p, p);
  }

  lemma SmallExponent(q: int) returns (exponent: string)
    requires 5 <= q <= 9
    ensures exponent == "e-0" + [(q + '0' as int) as char] && IsExponent(exponent) && |exponent| == 4
    ensures ExponentOf(exponent) == -q && DigitsValue(exponent[2..]) == q
  {
    var c := (q + '0' as int) as char;
    exponent := "e-0" + [c];
    assert exponent[2..] == ['0', c] && ['0', c][..1] == ['0'] && ['0'][..0] == "";
    assert DigitsValue(['0']) == 0;
  }

  /** The literal of n / 10^p where the last of n's digits t is not a zero. */
  lemma PlaceDigits(n: nat, p: int, t: string) returns (integer: string, fraction: string, exponent: string)
    requires 0 < p <= 7 && t != "" && AllDigits(t) && |t| <= 10 + p && DigitsValue(t) == n
    requires t[0] != '0' && t[|t| - 1] != '0'
    ensures IsParts(integer, fraction, exponent) && AllDigits(integer) && AllDigits(fraction) && IsExponent(exponent)
    ensures DigitsValue(integer + fraction) == n && ExponentOf(exponent) - |fraction| == -p
  {
    hide DigitsValue, LeadingZeros;
    exponent := "";
    if |t| > p {
      integer, fraction := t[..|t| - p], t[|t| - p..];
      assert integer + fraction == t;
    } else if p - |t| <= 3 {
      integer, fraction := "0", Zeros(p - |t|) + t;
      LeadingZerosOf(p - |t|, t);
      LeadingZerosAddNothing(p - |t| + 1, t);
      LeadingZerosAddNothing(p - |t|, t);
      assert integer + fraction == Zeros(p - |t| + 1) + t;
    } else {
      integer, fraction := t[..1], t[1..];
      exponent := SmallExponent(p - |t| + 1);
      assert integer + fraction == t;
    }
  }

  lemma {:induction false} GridParts(n: nat, p: int) returns (integer: string, fraction: string, exponent: string)
    requires 0 <= p <= 7 && n <= Ten(10 + p)
    ensures IsParts(integer, fraction, exponent) && AllDigits(integer) && AllDigits(fraction) && IsExponent(exponent)
    ensures MagnitudeOf(integer, fraction, exponent) == n as real * Pow10(-p)
    decreases p
  {
    hide IsParts, MagnitudeOf, Pow10, AllDigits, IsExponent;
    if p > 0 && n % 10 == 0 {
      integer, fraction, exponent := GridParts(n / 10, p - 1);
      Pow10Sum(-p, 1);
      assert n as real == 10.0 * ((n / 10) as real);
    } else {
      integer, fraction, exponent := GridDigits(n, p);
    }
  }

  lemma Ten11(p: nat, n: nat)
    requires n <= Ten(10 + p)
    ensures n < Ten(11 + p) && (n < Ten(10 + p) || (p > 0 ==> n % 10 == 0))
  {
    assert Ten(10 + p) == 10 * Ten(9 + p);
  }

  lemma GridDigits(n: nat, p: int) returns (integer: string, fraction: string, exponent: string)
    requires 0 <= p <= 7 && n <= Ten(10 + p) && (p > 0 ==> n % 10 != 0)
    ensures IsParts(integer, fraction, exponent) && AllDigits(integer) && AllDigits(fraction) && IsExponent(exponent)
    ensures MagnitudeOf(integer, fraction, exponent) == n as real * Pow10(-p)
  {
    hide DigitsValue, Digits, Pow10, IsParts, AllDigits, Ten;
    Ten11(p, n);
    DigitsShape(n, 11 + p);
    var t := Digits(n);
    if p == 0 {
      integer, fraction, exponent := t, "", "";
      Alone(t);
    } else {
      DigitsShape(n, 10 + p);
      integer, fraction, exponent := PlaceDigits(n, p, t);
    }
  }

  /** Up to ten thousand million there is a number at every multiple of 0.0000001. */
  lemma FineGrid(k: int) returns (lit: string)
    requires -100_000_000_000_000_000 <= k <= 100_000_000_000_000_000
    ensures IsNumber(lit) && Meaning(lit) == k as real / 10_000_000.0
  {
    hide Meaning, IsParts, Literal, MagnitudeOf, Ten;
    var n: nat := if k < 0 then -k else k;
    Tens();
    TenSum(10, 7);
    var integer, fraction, exponent := GridParts(n, 7);
    Pow10Inverse(7);
    MeaningOfParts(k < 0, integer, fraction, exponent);
    lit := Literal(k < 0, integer, fraction, exponent);
  }

  /** From there on, there are numbers at multiples of 0.000001 only. */
  lemma CoarseGrid(lit: string) returns (m: int)
    requires IsG17(lit) && (Meaning(lit) >= 10_000_000_000.0 || Meaning(lit) <= -10_000_000_000.0)
    ensures Meaning(lit) == m as real / 1_000_000.0
  {
    hide Meaning, IsParts, Literal, MagnitudeOf;
    var negative, integer, fraction, exponent := PartsOf(lit);
    MeaningOfParts(negative, integer, fraction, exponent);
    MagnitudePositive(integer, fraction, exponent);
    var n := CoarseMagnitude(integer, fraction, exponent);
    m := if negative then -n else n;
  }

  /** A number with w digits before the point. */
  lemma BelowTen(d: nat, w: nat, f: int, q: int)
    requires f >= 0 && q >= 0 && d < Ten(w + f)
    ensures d as real * Pow10(-f - q) < Ten(w) as real
  {
    hide Pow10, Ten;
    TenSum(w, f);
    Pow10Inverse(f);
    Pow10Sum(-f - q, q);
    Pow10Positive(-f - q);
    var x, y := Pow10(-f - q), Pow10(-f);
    Increase(x, Ten(q) as real);
    Scale(d as real, x, y);
    assert y * Ten(f) as real == 1.0;
    Strictly(d as real, Ten(w) as real, Ten(f) as real, y);
  }

  lemma Increase(x: real, t: real)
    requires x > 0.0 && t >= 1.0
    ensures x <= x * t
  {
  }

  lemma Scale(d: real, x: real, y: real)
    requires d >= 0.0 && x <= y
    ensures d * x <= d * y
  {
  }

  lemma Strictly(d: real, t: real, u: real, y: real)
    requires d < t * u && y * u == 1.0 && u >= 1.0
    ensures d * y < t
  {
    assert y > 0.0;
    assert d * y < t * u * y == t;
  }

  lemma TenGrows(a: nat, b: nat)
    requires a <= b
    ensures Ten(a) <= Ten(b)
  {
    TenSum(a, b - a);
  }

  lemma CoarseMagnitude(integer: string, fraction: string, exponent: string) returns (n: int)
    requires IsParts(integer, fraction, exponent) && AllDigits(integer) && AllDigits(fraction) && IsExponent(exponent)
    requires MagnitudeOf(integer, fraction, exponent) >= 10_000_000_000.0
    ensures MagnitudeOf(integer, fraction, exponent) == n as real / 1_000_000.0
  {
    hide DigitsValue, Pow10, Ten, LeadingZeros;
    var d, e := DigitsValue(integer + fraction), ExponentOf(exponent) - |fraction|;
    Tens();
    if ExponentOf(exponent) <= 0 {
      assert ExponentOf(exponent) == 0 || |integer| == 1;
      DigitsBound(integer + fraction);
      BelowTen(d, |integer|, |fraction|, -ExponentOf(exponent));
      if |integer| <= 10 { TenGrows(|integer|, 10); }
    }
    n := d * Ten(e + 6);
    Pow10Sum(-6, e + 6);
    Pow10Inverse(6);
    Regroup(d as real, Ten(e + 6) as real);
  }

  lemma Regroup(d: real, t: real)
    ensures d * (1.0 / 1_000_000.0 * t) == d * t / 1_000_000.0
  {
  }
}
