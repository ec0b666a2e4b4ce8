/** Bitwise operations on naturals.

  The table masks hashes with `capacity - 1` and the string codec takes UTF-8 and UTF-16
  apart with masks, shifts and ors. Both are written here with these functions; the
  lemmas turn a mask of low bits into a remainder and an or of disjoint bits into a sum.
 */
module Bits {

  function Pow2(k: nat): (p: nat)
    ensures p > 0
  {
    if k == 0 then 1 else 2 * Pow2(k - 1)
  }

  function And(x: nat, y: nat): (r: nat)
    ensures r <= x && r <= y
  {
    if x == 0 || y == 0 then 0
    else (if x % 2 == 1 && y % 2 == 1 then 1 else 0) + 2 * And(x / 2, y / 2)
  }

  function Or(x: nat, y: nat): (r: nat)
    ensures x <= r && y <= r <= x + y
    decreases x + y
  {
    if x == 0 then y else if y == 0 then x
    else (if x % 2 == 1 then 1 else y % 2) + 2 * Or(x / 2, y / 2)
  }

  function Shl(x: nat, k: nat): nat {
    if k == 0 then x else 2 * Shl(x, k - 1)
  }

  function Shr(x: nat, k: nat): nat {
    if k == 0 then x else Shr(x / 2, k - 1)
  }

  /** Masking with k low ones is the remainder modulo 2^k. */
  lemma {:induction false} AndLowMask(x: nat, k: nat)
    ensures And(x, Pow2(k) - 1) == x % Pow2(k)
  {
    if k == 0 {
    } else if x == 0 {
    } else {
      var p := Pow2(k - 1);
      AndLowMask(x / 2, k - 1);
      assert (2 * p - 1) % 2 == 1 && (2 * p - 1) / 2 == p - 1;
      DivideEven(x, p);
    }
  }

  /** x mod 2p, from the low bit of x and the rest mod p. */
  lemma DivideEven(x: nat, p: nat)
    requires p > 0
    ensures x % (2 * p) == x % 2 + 2 * ((x / 2) % p)
  {
    var q, r := (x / 2) / p, (x / 2) % p;
    assert x == 2 * (q * p + r) + x % 2;
    assert x == q * (2 * p) + (2 * r + x % 2) by {
      assert 2 * (q * p) == q * (2 * p);
    }
    ModUnique(x, 2 * p, q, 2 * r + x % 2);
  }

  lemma ModUnique(x: int, m: int, q: int, r: int)
    requires 0 <= r < m && x == q * m + r
    ensures x % m == r
  {
    var d := x / m - q;
    var r' := x % m;
    assert d * m == r - r' by {
      assert x == (x / m) * m + r';
      assert (x / m) * m == q * m + d * m by { Distribute(q, d, m); }
    }
    NoMultipleBetween(d, m, r - r');
  }

  lemma Distribute(a: int, b: int, m: int)
    ensures (a + b) * m == a * m + b * m
  {
  }

  lemma NoMultipleBetween(d: int, m: int, t: int)
    requires d * m == t && -m < t < m
    ensures d == 0
  {
    if d >= 1 {
      AtLeast(d, m);
    } else if d <= -1 {
      AtLeast(-d, m);
    }
  }

  lemma AtLeast(d: int, m: int)
    requires d >= 1 && m >= 0
    ensures d * m >= m && -d * m <= -m
  {
    Distribute(d - 1, 1, m);
    assert (d - 1) * m >= 0;
  }

  lemma {:induction false} ShlIsTimes(x: nat, k: nat)
    ensures Shl(x, k) == x * Pow2(k)
  {
    if k > 0 {
      ShlIsTimes(x, k - 1);
      assert x * (2 * Pow2(k - 1)) == 2 * (x * Pow2(k - 1));
    }
  }

  lemma {:induction false} ShrIsDiv(x: nat, k: nat)
    ensures Shr(x, k) == x / Pow2(k)
  {
    if k > 0 {
      ShrIsDiv(x / 2, k - 1);
      DivDiv(x, Pow2(k - 1));
    }
  }

  lemma DivDiv(x: nat, q: nat)
    requires q > 0
    ensures x / 2 / q == x / (2 * q)
  {
    var d := x / 2 / q;
    assert x / 2 == d * q + (x / 2) % q;
    assert x == d * (2 * q) + (2 * ((x / 2) % q) + x % 2) by {
      assert 2 * (d * q) == d * (2 * q);
    }
    DivUnique(x, 2 * q, d, 2 * ((x / 2) % q) + x % 2);
  }

  lemma DivUnique(x: int, m: int, q: int, r: int)
    requires 0 <= r < m && x == q * m + r
    ensures x / m == q
  {
    ModUnique(x, m, q, r);
    assert (x / m - q) * m == 0 by { Distribute(x / m, -q, m); }
    NoMultipleBetween(x / m - q, m, 0);
  }

  /** An or of a number shifted up by k and a number below 2^k is their sum. */
  lemma {:induction false} OrDisjoint(hi: nat, lo: nat, k: nat)
    requires lo < Pow2(k)
    ensures Or(Shl(hi, k), lo) == Shl(hi, k) + lo && Or(lo, Shl(hi, k)) == Shl(hi, k) + lo
  {
    if k > 0 {
      OrDisjoint(hi, lo / 2, k - 1);
    }
  }

  lemma AndDouble(x: nat, y: nat)
    ensures And(x, 2 * y) == 2 * And(x / 2, y)
  {
    assert (2 * y) % 2 == 0 && (2 * y) / 2 == y;
  }

  /** A mask shifted up by k sees only the bits from k on. */
  lemma {:induction false} AndShifted(x: nat, y: nat, k: nat)
    ensures And(x, Shl(y, k)) == Shl(And(Shr(x, k), y), k)
  {
    if k > 0 {
      AndShifted(x / 2, y, k - 1);
      AndDouble(x, Shl(y, k - 1));
    }
  }

  // ---------------------------------------------------------------- the codec's masks

  lemma SmallPowers()
    ensures Pow2(1) == 2 && Pow2(2) == 4 && Pow2(3) == 8 && Pow2(4) == 16 && Pow2(5) == 32
    ensures Pow2(6) == 64 && Pow2(7) == 128 && Pow2(10) == 1024 && Pow2(12) == 4096 && Pow2(18) == 0x4_0000
  {
    assert Pow2(6) == 64;
    assert Pow2(10) == 1024;
    assert Pow2(14) == 0x4000;
    assert Pow2(18) == 0x4_0000;
  }

  lemma LowMasks(x: nat)
    ensures And(x, 0x07) == x % 8 && And(x, 0x0F) == x % 16 && And(x, 0x1F) == x % 32
    ensures And(x, 0x3F) == x % 64 && And(x, 0x3FF) == x % 1024
  {
    SmallPowers();
    AndLowMask(x, 3);
    AndLowMask(x, 4);
    AndLowMask(x, 5);
    AndLowMask(x, 6);
    AndLowMask(x, 10);
  }

  lemma Shifts(x: nat)
    ensures Shr(x, 6) == x / 64 && Shr(x, 12) == x / 4096 && Shr(x, 18) == x / 0x4_0000
    ensures Shl(x, 6) == x * 64 && Shl(x, 10) == x * 1024
  {
    SmallPowers();
    ShrIsDiv(x, 6);
    ShrIsDiv(x, 12);
    ShrIsDiv(x, 18);
    ShlIsTimes(x, 6);
    ShlIsTimes(x, 10);
  }

  /** n ones shifted up by k select n bits from bit k on. */
  lemma FieldMask(x: nat, k: nat, n: nat)
    ensures And(x, Shl(Pow2(n) - 1, k)) == (x / Pow2(k)) % Pow2(n) * Pow2(k)
  {
    AndShifted(x, Pow2(n) - 1, k);
    AndLowMask(Shr(x, k), n);
    ShrIsDiv(x, k);
    ShlIsTimes(Shr(x, k) % Pow2(n), k);
  }

  /** The q - 1 ones from bit k up, where q * 2^k is 256, drop the low k bits of a byte. */
  lemma HighMask(x: nat, k: nat, n: nat, p: nat, q: nat)
    requires x < 256 && p == Pow2(k) && q == Pow2(n) && p * q == 256
    ensures And(x, Shl(q - 1, k)) == x - x % p
  {
    FieldMask(x, k, n);
    TopField(x, p, q);
  }

  lemma TopField(x: nat, p: nat, q: nat)
    requires p > 0 && x < p * q
    ensures (x / p) % q * p == x - x % p
  {
    var d := x / p;
    QuotientBelow(x, p, q);
    ModUnique(d, q, 0, d);
  }

  lemma QuotientBelow(x: nat, p: nat, q: nat)
    requires p > 0 && x < p * q
    ensures x / p < q
  {
    var d := x / p;
    assert d * p <= x;
    NoProductBelow(d, q, p);
  }

  lemma NoProductBelow(d: nat, q: nat, p: nat)
    requires d * p < q * p
    ensures d < q
  {
  }

  lemma HighMasks(x: nat)
    requires x < 256
    ensures And(x, 0x80) == x - x % 128 && And(x, 0xC0) == x - x % 64 && And(x, 0xE0) == x - x % 32
    ensures And(x, 0xF0) == x - x % 16 && And(x, 0xF8) == x - x % 8
  {
    SmallPowers();
    assert Shl(1, 7) == 0x80 && Shl(3, 6) == 0xC0 && Shl(7, 5) == 0xE0;
    assert Shl(15, 4) == 0xF0 && Shl(31, 3) == 0xF8;
    HighMask(x, 7, 1, 128, 2);
    HighMask(x, 6, 2, 64, 4);
    HighMask(x, 5, 3, 32, 8);
    HighMask(x, 4, 4, 16, 16);
    HighMask(x, 3, 5, 8, 32);
  }
}
