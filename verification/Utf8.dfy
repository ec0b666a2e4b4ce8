/** UTF-8 as parson checks and writes it, against section 4 of RFC 3629. */
module Utf8 {
  import opened Bits
  import opened CText

  // ---------------------------------------------------------------- the standard

  predicate Tail(c: char) {
    0x80 as char <= c <= 0xBF as char
  }

  predicate Between(lo: int, c: char, hi: int) {
    lo <= c as int <= hi
  }

  /** UTF8-char of RFC 3629: one to four bytes that encode one scalar value. */
  predicate WellFormed(q: string) {
    match |q|
    case 1 => q[0] as int <= 0x7F
    case 2 => Between(0xC2, q[0], 0xDF) && Tail(q[1])
    case 3 =>
      && Tail(q[2])
      && (|| (q[0] as int == 0xE0 && Between(0xA0, q[1], 0xBF))
          || (Between(0xE1, q[0], 0xEC) && Tail(q[1]))
          || (q[0] as int == 0xED && Between(0x80, q[1], 0x9F))
          || (Between(0xEE, q[0], 0xEF) && Tail(q[1])))
    case 4 =>
      && Tail(q[2]) && Tail(q[3])
      && (|| (q[0] as int == 0xF0 && Between(0x90, q[1], 0xBF))
          || (Between(0xF1, q[0], 0xF3) && Tail(q[1]))
          || (q[0] as int == 0xF4 && Between(0x80, q[1], 0x8F)))
    case _ => false
  }

  /** The code point a well-formed sequence encodes (section 3 of RFC 3629). */
  function Decode(q: string): int
    requires WellFormed(q)
  {
    match |q|
    case 1 => q[0] as int
    case 2 => (q[0] as int - 0xC0) * 64 + (q[1] as int - 0x80)
    case 3 => (q[0] as int - 0xE0) * 4096 + (q[1] as int - 0x80) * 64 + (q[2] as int - 0x80)
    case _ => (q[0] as int - 0xF0) * 0x4_0000 + (q[1] as int - 0x80) * 4096
              + (q[2] as int - 0x80) * 64 + (q[3] as int - 0x80)
  }

  predicate IsScalar(cp: int) {
    0 <= cp <= 0x10FFFF && !(0xD800 <= cp <= 0xDFFF)
  }

  /** Length of the well-formed sequence a text starts with; 0 when it starts with none. */
  function Lead(s: string): (n: nat)
    ensures n <= |s| && n <= 4 && (n > 0 ==> WellFormed(s[..n]))
  {
    if |s| >= 1 && WellFormed(s[..1]) then 1
    else if |s| >= 2 && WellFormed(s[..2]) then 2
    else if |s| >= 3 && WellFormed(s[..3]) then 3
    else if |s| >= 4 && WellFormed(s[..4]) then 4
    else 0
  }

  /** Valid UTF-8: a concatenation of well-formed sequences. */
  predicate Valid(s: string) {
    s == [] || (Lead(s) > 0 && Valid(s[Lead(s)..]))
  }

  /** A text starts with at most one well-formed sequence. */
  lemma LeadIs(q: string, rest: string)
    requires WellFormed(q)
    ensures Lead(q + rest) == |q|
  {
    var s := q + rest;
    assert s[..|q|] == q;
    if |q| > 1 { assert s[..1][0] == q[0]; }
    if |q| > 2 { assert s[..2][0] == q[0]; }
    if |q| > 3 { assert s[..3][0] == q[0]; }
  }

  /** The bytes of a sequence longer than one byte are all outside ASCII. */
  lemma HighBytes(s: string, n: nat)
    requires 1 < n <= |s| && WellFormed(s[..n])
    ensures forall i :: 0 <= i < n ==> s[i] as int >= 0x80
  {
    assert forall i :: 0 <= i < n ==> s[i] == s[..n][i];
  }

  lemma OneSequence(q: string)
    requires WellFormed(q)
    ensures Valid(q)
  {
    hide WellFormed;
    assert q + [] == q;
    LeadIs(q, []);
  }

  lemma {:induction false} ValidConcat(a: string, b: string)
    requires Valid(a) && Valid(b)
    ensures Valid(a + b)
  {
    hide WellFormed;
    if a == [] {
      assert a + b == b;
    } else {
      var n := Lead(a);
      ValidConcat(a[n..], b);
      assert a + b == a[..n] + (a[n..] + b);
      LeadIs(a[..n], a[n..] + b);
    }
  }

  /** An ASCII byte is a boundary: what precedes it and what follows it are valid too. */
  lemma {:induction false} ValidSplit(s: string, p: nat)
    requires p < |s| && s[p] as int < 0x80 && Valid(s)
    ensures Valid(s[..p]) && Valid(s[p + 1..])
    decreases p
  {
    hide WellFormed, Valid, Lead;
    if p == 0 {
      AsciiFirst(s);
    } else {
      var n := Lead(s);
      FirstBefore(s, p);
      FirstLead(s);
      var r := s[n..];
      assert r[p - n] == s[p];
      ValidSplit(r, p - n);
      assert r[p - n + 1..] == s[p + 1..];
      PrefixValid(s[..n], r[..p - n], s[..p]);
    }
  }

  /** The first sequence ends at an ASCII byte at the latest. */
  lemma FirstBefore(s: string, p: nat)
    requires p < |s| && s[p] as int < 0x80 && Valid(s)
    ensures 0 < Lead(s) && (p > 0 ==> Lead(s) <= p) && (p == 0 ==> Lead(s) == 1)
  {
    hide WellFormed, Valid;
    assert Lead(s) > 0 by { FirstLead(s); }
    if Lead(s) > 1 { HighBytes(s, Lead(s)); }
  }

  lemma FirstLead(s: string)
    requires s != [] && Valid(s)
    ensures Lead(s) > 0 && Valid(s[Lead(s)..]) && WellFormed(s[..Lead(s)])
  {
    hide WellFormed;
  }

  lemma AsciiFirst(s: string)
    requires s != [] && s[0] as int < 0x80 && Valid(s)
    ensures Valid(s[..0]) && Valid(s[1..])
  {
    hide WellFormed;
    FirstBefore(s, 0);
  }

  lemma PrefixValid(q: string, rest: string, all: string)
    requires WellFormed(q) && Valid(rest) && all == q + rest
    ensures Valid(all)
  {
    hide WellFormed;
    LeadIs(q, rest);
    assert all[|q|..] == rest;
  }

  // ---------------------------------------------------------------- verification

  /** IS_CONT, on an unsigned char. */
  predicate IsCont(c: char) {
    c as int < 256 && And(c as int, 0xC0) == 0x80
  }

  function NumBytes(c: char): (n: nat)
    ensures n <= 4
  {
    var b := c as int;
    if b == 0xC0 || b == 0xC1 || b > 0xF4 || IsCont(c) then 0
    else if And(b, 0x80) == 0 then 1
    else if And(b, 0xE0) == 0xC0 then 2
    else if And(b, 0xF0) == 0xE0 then 3
    else if And(b, 0xF8) == 0xF0 then 4
    else 0
  }

  /** cp = (cp << 6) | (b & 0x3F). */
  function Extend(cp: nat, b: char): nat {
    Or(Shl(cp, 6), And(b as int, 0x3F))
  }

  /** The checks on the code point of a sequence of length len. */
  predicate Acceptable(cp: nat, len: nat) {
    && !(cp < 0x80 && len > 1) && !(cp < 0x800 && len > 2) && !(cp < 0x10000 && len > 3)
    && !(cp > 0x10FFFF)
    && !(cp >= 0xD800 && cp <= 0xDFFF)
  }

  lemma ContIsTail(c: char)
    ensures IsCont(c) <==> Tail(c)
    ensures !IsCont('\0')
  {
    hide And;
    if c as int < 256 { HighMasks(c as int); }
    HighMasks(0);
  }

  /** verify_utf8_sequence at position i: the sequence's length, or 0 for failure. A
      continuation byte is not the terminator, so no read goes past the terminator. */
  function Verify(s: string, i: nat): (len: nat)
    requires i < |s|
  {
    ContIsTail('\0');
    var len, b := NumBytes(s[i]), s[i] as int;
    if len == 1 then
      if Acceptable(b, 1) then 1 else 0
    else if len == 2 && IsCont(At(s, i + 1)) then
      if Acceptable(Extend(And(b, 0x1F), s[i + 1]), 2) then 2 else 0
    else if len == 3 && IsCont(At(s, i + 1)) && IsCont(At(s, i + 2)) then
      if Acceptable(Extend(Extend(And(b, 0xF), s[i + 1]), s[i + 2]), 3) then 3 else 0
    else if len == 4 && IsCont(At(s, i + 1)) && IsCont(At(s, i + 2)) && IsCont(At(s, i + 3)) then
      if Acceptable(Extend(Extend(Extend(And(b, 0x7), s[i + 1]), s[i + 2]), s[i + 3]), 4) then 4 else 0
    else 0
  }

  lemma NumBytesIs(c: char)
    ensures var b := c as int;
            NumBytes(c) == if b < 0x80 then 1 else if b < 0xC2 then 0 else if b < 0xE0 then 2
                           else if b < 0xF0 then 3 else if b <= 0xF4 then 4 else 0
  {
    hide And, IsCont;
    ContIsTail(c);
    if c as int < 256 { HighMasks(c as int); }
  }

  lemma ExtendIs(cp: nat, b: char)
    ensures Extend(cp, b) == cp * 64 + b as int % 64
  {
    LowMasks(b as int);
    Shifts(cp);
    SmallPowers();
    OrDisjoint(cp, b as int % 64, 6);
  }

  /** What the code point computed for the first len bytes is, and that it is acceptable
      exactly when the sequence is well formed. */
  lemma VerifyTwo(q: string)
    requires |q| == 2 && NumBytes(q[0]) == 2 && IsCont(q[1])
    ensures Acceptable(Extend(And(q[0] as int, 0x1F), q[1]), 2) <==> WellFormed(q)
  {
    hide Extend, IsCont, NumBytes, And;
    NumBytesIs(q[0]);
    ContIsTail(q[1]);
    LowMasks(q[0] as int);
    ExtendIs(And(q[0] as int, 0x1F), q[1]);
  }

  lemma VerifyThree(q: string)
    requires |q| == 3 && NumBytes(q[0]) == 3 && IsCont(q[1]) && IsCont(q[2])
    ensures Acceptable(Extend(Extend(And(q[0] as int, 0xF), q[1]), q[2]), 3) <==> WellFormed(q)
  {
    hide Extend, IsCont, NumBytes, And;
    NumBytesIs(q[0]);
    ContIsTail(q[1]);
    ContIsTail(q[2]);
    LowMasks(q[0] as int);
    var cp := And(q[0] as int, 0xF);
    ExtendIs(cp, q[1]);
    ExtendIs(Extend(cp, q[1]), q[2]);
  }

  lemma VerifyFour(q: string)
    requires |q| == 4 && NumBytes(q[0]) == 4 && IsCont(q[1]) && IsCont(q[2]) && IsCont(q[3])
    ensures Acceptable(Extend(Extend(Extend(And(q[0] as int, 0x7), q[1]), q[2]), q[3]), 4) <==> WellFormed(q)
  {
    hide Extend, IsCont, NumBytes, And;
    NumBytesIs(q[0]);
    ContIsTail(q[1]);
    ContIsTail(q[2]);
    ContIsTail(q[3]);
    LowMasks(q[0] as int);
    var cp := And(q[0] as int, 0x7);
    ExtendIs(cp, q[1]);
    ExtendIs(Extend(cp, q[1]), q[2]);
    ExtendIs(Extend(Extend(cp, q[1]), q[2]), q[3]);
  }

  /** A well-formed sequence announces its length and continues with tails. */
  lemma WellFormedShape(q: string)
    requires WellFormed(q)
    ensures NumBytes(q[0]) == |q|
    ensures forall i :: 0 < i < |q| ==> IsCont(q[i])
    ensures |q| == 1 ==> Acceptable(q[0] as int, 1)
  {
    hide IsCont, NumBytes;
    NumBytesIs(q[0]);
    forall i | 0 < i < |q| ensures IsCont(q[i]) { ContIsTail(q[i]); }
  }

  lemma VerifySound(s: string, i: nat)
    requires i < |s| && Verify(s, i) > 0
    ensures i + Verify(s, i) <= |s| && WellFormed(s[i..i + Verify(s, i)])
  {
    hide Extend, IsCont, NumBytes, And, Acceptable;
    var v := Verify(s, i);
    var at := (k: nat) => if i + k < |s| then s[i + k] else '\0';
    ContIsTail(at(1));
    ContIsTail(at(2));
    ContIsTail(at(3));
    NumBytesIs(s[i]);
    var q := s[i..i + v];
    if v == 2 { VerifyTwo(q); }
    if v == 3 { VerifyThree(q); }
    if v == 4 { VerifyFour(q); }
  }

  lemma VerifyComplete(s: string, i: nat, n: nat)
    requires i < i + n <= |s| && WellFormed(s[i..i + n])
    ensures Verify(s, i) == n
  {
    hide Extend, IsCont, NumBytes, And, Acceptable;
    var q := s[i..i + n];
    WellFormedShape(q);
    assert forall k :: 0 <= k < n ==> q[k] == At(s, i + k);
    if n == 2 { VerifyTwo(q); }
    if n == 3 { VerifyThree(q); }
    if n == 4 { VerifyFour(q); }
  }

  /** verify_utf8_sequence accepts exactly the well-formed sequences of RFC 3629. */
  lemma VerifyExact(s: string, i: nat, n: nat)
    requires i < |s| && n > 0
    ensures Verify(s, i) == n <==> i + n <= |s| && WellFormed(s[i..i + n])
  {
    hide Verify, WellFormed;
    if i + n <= |s| && WellFormed(s[i..i + n]) {
      VerifyComplete(s, i, n);
    }
    if Verify(s, i) > 0 {
      VerifySound(s, i);
    }
  }

  // ---------------------------------------------------------------- whole strings

  /** is_valid_utf8 from position i on. */
  predicate ValidFrom(s: string, i: nat, len: nat)
    requires len <= |s|
    decreases len - i
  {
    i >= len || (Verify(s, i) > 0 && ValidFrom(s, i + Verify(s, i), len))
  }

  method IsValidUtf8(s: string, len: nat) returns (valid: bool)
    requires len <= |s|
    ensures valid == ValidFrom(s, 0, len)
  {
    var i := 0;
    while i < len
      invariant ValidFrom(s, i, len) == ValidFrom(s, 0, len)
      decreases len - i
    {
      var n := Verify(s, i);
      if n == 0 {
        return false;
      }
      i := i + n;
    }
    valid := true;
  }

  /** The text is valid up to m, and runs past `len` only by finishing a sequence. */
  ghost predicate RunsTo(s: string, i: nat, len: nat, m: nat)
    requires i <= len <= |s|
  {
    len <= m <= |s| && Valid(s[i..m]) && forall k :: len <= k < m ==> IsCont(s[k])
  }

  /** A sequence that starts before `len` ends after it. */
  ghost predicate CutAt(s: string, len: nat)
    requires len <= |s|
  {
    exists m :: len < m && RunsTo(s, 0, len, m)
  }

  lemma JoinSlices(s: string, i: nat, j: nat, k: nat)
    requires i <= j <= k <= |s|
    ensures s[i..j] + s[j..k] == s[i..k]
  {
  }

  lemma {:induction false} ValidFromRuns(s: string, i: nat, len: nat) returns (m: nat)
    requires i <= len <= |s| && ValidFrom(s, i, len)
    ensures RunsTo(s, i, len, m)
    decreases len - i
  {
    hide WellFormed, Verify, IsCont, NumBytes;
    if i == len {
      return len;
    }
    var n := Verify(s, i);
    VerifySound(s, i);
    var q := s[i..i + n];
    OneSequence(q);
    WellFormedShape(q);
    if i + n >= len {
      m := i + n;
      forall k | len <= k < m ensures IsCont(s[k]) {
        assert q[k - i] == s[k] && IsCont(q[k - i]);
      }
    } else {
      m := ValidFromRuns(s, i + n, len);
      ValidConcat(q, s[i + n..m]);
      JoinSlices(s, i, i + n, m);
    }
  }

  lemma {:induction false} RunsValidFrom(s: string, i: nat, len: nat, m: nat)
    requires i <= len <= |s| && RunsTo(s, i, len, m)
    ensures ValidFrom(s, i, len)
    decreases len - i
  {
    hide WellFormed, Verify, IsCont;
    if i < len {
      var r := s[i..m];
      var n := Lead(r);
      assert r[..n] == s[i..i + n] && r[n..] == s[i + n..m];
      VerifyComplete(s, i, n);
      if i + n < len {
        RunsValidFrom(s, i + n, len, m);
      }
    }
  }

  lemma {:induction false} ValidSuffix(a: string, b: string)
    requires Valid(a) && Valid(a + b)
    ensures Valid(b)
    decreases |a|
  {
    hide WellFormed;
    if a == [] {
      assert a + b == b;
    } else {
      var n := Lead(a);
      assert a + b == a[..n] + (a[n..] + b);
      LeadIs(a[..n], a[n..] + b);
      ValidSuffix(a[n..], b);
    }
  }

  lemma ContIsNoLead(s: string)
    requires s != [] && IsCont(s[0])
    ensures !Valid(s)
  {
    ContIsTail(s[0]);
  }

  /** is_valid_utf8 answers "valid" exactly for valid UTF-8 and for text whose last sequence
      is cut by `len`, which it completes from the bytes behind; never both. */
  lemma ValidFromExact(s: string, len: nat)
    requires len <= |s|
    ensures ValidFrom(s, 0, len) <==> Valid(s[..len]) || CutAt(s, len)
    ensures !(Valid(s[..len]) && CutAt(s, len))
    ensures !IsCont(At(s, len)) ==> !CutAt(s, len)
  {
    hide IsCont, ValidFrom, Valid;
    if ValidFrom(s, 0, len) {
      var m := ValidFromRuns(s, 0, len);
      assert s[0..m] == s[..m];
    }
    if Valid(s[..len]) {
      assert s[0..len] == s[..len];
      RunsValidFrom(s, 0, len, len);
    }
    if CutAt(s, len) {
      var m :| len < m && RunsTo(s, 0, len, m);
      RunsValidFrom(s, 0, len, m);
      if Valid(s[..len]) {
        assert s[0..m] == s[..len] + s[len..m];
        ValidSuffix(s[..len], s[len..m]);
        ContIsNoLead(s[len..m]);
      }
    }
  }

  /** One byte of a two-byte sequence is taken for valid when the next byte is in memory. */
  lemma CutTextIsAccepted()
    ensures var s := [0xC3 as char, 0xA9 as char];
            ValidFrom(s, 0, 1) && !Valid(s[..1])
  {
    var s := [0xC3 as char, 0xA9 as char];
    VerifyComplete(s, 0, 2);
  }

  // ---------------------------------------------------------------- encoding

  /** The bytes parse_utf16 writes for a code point. */
  function Encode(cp: nat): (q: string)
    requires cp <= 0x10FFFF
    ensures 1 <= |q| <= 4
  {
    if cp < 0x80 then [cp as char]
    else if cp < 0x800 then
      [Or(And(Shr(cp, 6), 0x1F), 0xC0) as char, Or(And(cp, 0x3F), 0x80) as char]
    else if cp < 0x10000 then
      [Or(And(Shr(cp, 12), 0x0F), 0xE0) as char, Or(And(Shr(cp, 6), 0x3F), 0x80) as char,
       Or(And(cp, 0x3F), 0x80) as char]
    else
      [Or(And(Shr(cp, 18), 0x07), 0xF0) as char, Or(And(Shr(cp, 12), 0x3F), 0x80) as char,
       Or(And(Shr(cp, 6), 0x3F), 0x80) as char, Or(And(cp, 0x3F), 0x80) as char]
  }

  /** A lead byte's mark, or a tail's, in front of the bits below it. */
  lemma Mark(x: nat, mask: nat, m: nat, mark: nat)
    requires (mask, m, mark) in {(0x3F, 64, 0x80), (0x1F, 32, 0xC0), (0x0F, 16, 0xE0), (0x07, 8, 0xF0)}
    ensures Or(And(x, mask), mark) == mark + x % m
  {
    hide And, Or;
    LowMasks(x);
    SmallPowers();
    assert Shl(2, 6) == 0x80 && Shl(6, 5) == 0xC0 && Shl(14, 4) == 0xE0 && Shl(30, 3) == 0xF0;
    OrDisjoint(2, x % 64, 6);
    OrDisjoint(6, x % 32, 5);
    OrDisjoint(14, x % 16, 4);
    OrDisjoint(30, x % 8, 3);
  }

  /** The bit distribution of section 3 of RFC 3629. */
  function Sequence(cp: nat): (q: string)
    requires cp <= 0x10FFFF
  {
    if cp < 0x80 then [cp as char]
    else if cp < 0x800 then [(0xC0 + cp / 64) as char, (0x80 + cp % 64) as char]
    else if cp < 0x10000 then [(0xE0 + cp / 4096) as char, (0x80 + cp / 64 % 64) as char, (0x80 + cp % 64) as char]
    else [(0xF0 + cp / 0x4_0000) as char, (0x80 + cp / 4096 % 64) as char, (0x80 + cp / 64 % 64) as char,
          (0x80 + cp % 64) as char]
  }

  lemma EncodeTwo(cp: nat)
    requires 0x80 <= cp < 0x800
    ensures Encode(cp) == Sequence(cp)
  {
    hide And, Or, Shr;
    Shifts(cp);
    Mark(cp, 0x3F, 64, 0x80);
    Mark(cp / 64, 0x1F, 32, 0xC0);
    assert cp / 64 % 32 == cp / 64;
  }

  lemma EncodeThree(cp: nat)
    requires 0x800 <= cp < 0x10000
    ensures Encode(cp) == Sequence(cp)
  {
    hide And, Or, Shr;
    Shifts(cp);
    Mark(cp, 0x3F, 64, 0x80);
    Mark(cp / 64, 0x3F, 64, 0x80);
    Mark(cp / 4096, 0x0F, 16, 0xE0);
    assert cp / 4096 % 16 == cp / 4096;
  }

  lemma EncodeFour(cp: nat)
    requires 0x10000 <= cp <= 0x10FFFF
    ensures Encode(cp) == Sequence(cp)
  {
    hide And, Or, Shr;
    Shifts(cp);
    Mark(cp, 0x3F, 64, 0x80);
    Mark(cp / 64, 0x3F, 64, 0x80);
    Mark(cp / 4096, 0x3F, 64, 0x80);
    Mark(cp / 0x4_0000, 0x07, 8, 0xF0);
    assert cp / 0x4_0000 % 8 == cp / 0x4_0000;
  }

  lemma EncodeIsSequence(cp: nat)
    requires cp <= 0x10FFFF
    ensures Encode(cp) == Sequence(cp)
  {
    if 0x80 <= cp < 0x800 {
      EncodeTwo(cp);
    } else if 0x800 <= cp < 0x10000 {
      EncodeThree(cp);
    } else if 0x10000 <= cp {
      EncodeFour(cp);
    }
  }

  lemma SequenceDecodes(cp: nat)
    requires IsScalar(cp)
    ensures WellFormed(Sequence(cp)) && Decode(Sequence(cp)) == cp
  {
    if 0x800 <= cp < 0x10000 {
      SequenceThree(cp);
    } else if 0x10000 <= cp {
      SequenceFour(cp);
    }
  }

  lemma SequenceThree(cp: nat)
    requires IsScalar(cp) && 0x800 <= cp < 0x10000
    ensures WellFormed(Sequence(cp)) && Decode(Sequence(cp)) == cp
  {
    assert cp == cp / 4096 * 4096 + cp / 64 % 64 * 64 + cp % 64;
  }

  lemma SequenceFour(cp: nat)
    requires 0x10000 <= cp <= 0x10FFFF
    ensures WellFormed(Sequence(cp)) && Decode(Sequence(cp)) == cp
  {
    var c := cp / 64;
    Quotients(cp);
    assert cp == c * 64 + cp % 64 && c == c / 64 * 64 + c % 64 && c / 64 == c / 64 / 64 * 64 + c / 64 % 64;
  }

  lemma LastField(n: nat, d: nat)
    requires d < 64
    ensures (n * 64 + d) / 64 == n && (n * 64 + d) % 64 == d
  {
  }

  lemma Quotients(cp: nat)
    ensures cp / 4096 == cp / 64 / 64 && cp / 0x4_0000 == cp / 64 / 64 / 64
  {
  }

  /** A code point from its four fields. */
  lemma Fields(a: nat, b: nat, c: nat, d: nat)
    requires b < 64 && c < 64 && d < 64
    ensures var cp := a * 0x4_0000 + b * 4096 + c * 64 + d;
            cp / 0x4_0000 == a && cp / 4096 % 64 == b && cp / 64 % 64 == c && cp % 64 == d
            && cp / 4096 == a * 64 + b && cp / 64 == a * 4096 + b * 64 + c
  {
    LastField(a, b);
    LastField(a * 64 + b, c);
    LastField((a * 64 + b) * 64 + c, d);
    Quotients(((a * 64 + b) * 64 + c) * 64 + d);
  }

  lemma DecodeSequence(q: string)
    requires WellFormed(q)
    ensures IsScalar(Decode(q)) && Sequence(Decode(q)) == q
  {
    if |q| == 2 {
      Fields(0, 0, q[0] as int - 0xC0, q[1] as int - 0x80);
    } else if |q| == 3 {
      DecodeThree(q);
    } else if |q| == 4 {
      DecodeFour(q);
    }
  }

  lemma DecodeThree(q: string)
    requires WellFormed(q) && |q| == 3
    ensures IsScalar(Decode(q)) && Sequence(Decode(q)) == q
  {
    Fields(0, q[0] as int - 0xE0, q[1] as int - 0x80, q[2] as int - 0x80);
  }

  lemma DecodeFour(q: string)
    requires WellFormed(q) && |q| == 4
    ensures IsScalar(Decode(q)) && Sequence(Decode(q)) == q
  {
    Fields(q[0] as int - 0xF0, q[1] as int - 0x80, q[2] as int - 0x80, q[3] as int - 0x80);
  }

  /** Every scalar value is written as a well-formed sequence that decodes to it. */
  lemma EncodeDecodes(cp: nat)
    requires IsScalar(cp)
    ensures WellFormed(Encode(cp)) && Decode(Encode(cp)) == cp
  {
    hide Encode, Sequence;
    EncodeIsSequence(cp);
    SequenceDecodes(cp);
  }

  /** Every well-formed sequence is what is written for the scalar value it decodes to. */
  lemma DecodeEncodes(q: string)
    requires WellFormed(q)
    ensures IsScalar(Decode(q)) && Encode(Decode(q)) == q
  {
    hide Encode, Sequence;
    DecodeSequence(q);
    EncodeIsSequence(Decode(q));
  }

  /** The code point of a surrogate pair, as parse_utf16 combines the two halves. */
  function Combine(lead: nat, trail: nat): nat
    requires 0xD800 <= lead && 0xDC00 <= trail
  {
    Or(Shl(And(lead - 0xD800, 0x3FF), 10), And(trail - 0xDC00, 0x3FF)) + 0x010000
  }

  predicate IsLead(u: nat) { 0xD800 <= u <= 0xDBFF }

  predicate IsTrail(u: nat) { 0xDC00 <= u <= 0xDFFF }

  /** Section 2.2 of RFC 2781, both ways: pairs of halves and U+10000..U+10FFFF are in
      one-to-one correspondence. */
  lemma CombineExact(lead: nat, trail: nat)
    requires IsLead(lead) && IsTrail(trail)
    ensures 0x10000 <= Combine(lead, trail) <= 0x10FFFF
    ensures lead == 0xD800 + (Combine(lead, trail) - 0x10000) / 0x400
    ensures trail == 0xDC00 + (Combine(lead, trail) - 0x10000) % 0x400
  {
    hide And, Or, Shl;
    TenBits(lead - 0xD800, trail - 0xDC00);
  }

  lemma TenBits(a: nat, b: nat)
    requires a < 0x400 && b < 0x400
    ensures Or(Shl(And(a, 0x3FF), 10), And(b, 0x3FF)) == a * 0x400 + b
  {
    hide And, Or, Shl, Pow2;
    TenIsPower();
    AndLowMask(a, 10);
    AndLowMask(b, 10);
    ShlIsTimes(a, 10);
    OrDisjoint(a, b, 10);
    assert a % 0x400 == a && b % 0x400 == b;
  }

  lemma TenIsPower()
    ensures Pow2(10) == 0x400
  {
    assert Pow2(5) == 32;
  }

  lemma CombineReachesAll(cp: nat)
    requires 0x10000 <= cp <= 0x10FFFF
    ensures var lead, trail := 0xD800 + (cp - 0x10000) / 0x400, 0xDC00 + (cp - 0x10000) % 0x400;
            IsLead(lead) && IsTrail(trail) && Combine(lead, trail) == cp
  {
    var lead, trail := 0xD800 + (cp - 0x10000) / 0x400, 0xDC00 + (cp - 0x10000) % 0x400;
    CombineExact(lead, trail);
  }
}
