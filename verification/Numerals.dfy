/** Decimal numerals: the specification of the integer conversions. */
module Numerals {

  function Digit(d: nat): char
    requires d < 10
  {
    ('0' as int + d) as char
  }

  /** The decimal form of a number, without leading zeros. */
  function Decimal(n: nat): string {
    if n < 10 then [Digit(n)] else Decimal(n / 10) + [Digit(n % 10)]
  }

  /** The last `k` digits of a number, with leading zeros. */
  function Padded(n: nat, k: nat): (r: string)
    ensures |r| == k
    decreases k
  {
    if k == 0 then "" else Padded(n / 10, k - 1) + [Digit(n % 10)]
  }

  function Pow10(k: nat): (r: nat)
    ensures r > 0
  {
    if k == 0 then 1 else 10 * Pow10(k - 1)
  }

  // ----- Numerals ----------------------------------------------------------------------

  predicate IsNumeral(s: string) {
    s != "" && (forall i :: 0 <= i < |s| ==> '0' <= s[i] <= '9') && (s[0] == '0' ==> |s| == 1)
  }

  function Value(s: string): nat
    requires forall i :: 0 <= i < |s| ==> '0' <= s[i] <= '9'
  {
    if s == "" then 0 else Value(s[..|s| - 1]) * 10 + (s[|s| - 1] as int - '0' as int)
  }

  lemma {:induction false} DecimalIsNumeral(n: nat)
    ensures IsNumeral(Decimal(n)) && Value(Decimal(n)) == n
    ensures n > 0 ==> Decimal(n)[0] != '0'
  {
    if n < 10 {
      assert Decimal(n)[..0] == "";
    } else {
      DecimalIsNumeral(n / 10);
      assert Decimal(n)[..|Decimal(n)| - 1] == Decimal(n / 10);
    }
  }

  lemma {:induction false} NumeralIsDecimal(s: string)
    requires IsNumeral(s)
    ensures s == Decimal(Value(s))
  {
    var t := s[..|s| - 1];
    if |s| == 1 {
      assert t == "";
      assert s == [s[0]];
    } else {
      NumeralIsDecimal(t);
      assert Value(t) > 0 by {
        NumeralPositive(t);
      }
      assert s == t + [s[|s| - 1]];
      assert Value(s) / 10 == Value(t) && Value(s) % 10 == s[|s| - 1] as int - '0' as int;
    }
  }

  lemma {:induction false} NumeralPositive(s: string)
    requires s != "" && s[0] != '0' && forall i :: 0 <= i < |s| ==> '0' <= s[i] <= '9'
    ensures Value(s) > 0
  {
    if |s| > 1 {
      NumeralPositive(s[..|s| - 1]);
    } else {
      assert s[..0] == "";
    }
  }

  /** The decimal form is the one and only numeral of a number. */
  lemma DecimalIsTheNumeral(s: string, n: nat)
    ensures s == Decimal(n) <==> IsNumeral(s) && Value(s) == n
  {
    DecimalIsNumeral(n);
    if IsNumeral(s) {
      NumeralIsDecimal(s);
    }
  }

  /** Different numbers have different decimal forms. */
  lemma DecimalInjective(m: nat, n: nat)
    requires Decimal(m) == Decimal(n)
    ensures m == n
  {
    DecimalIsNumeral(m);
    DecimalIsNumeral(n);
  }

  // ----- Gluing ------------------------------------------------------------------------

  lemma AtLeastOnce(x: int, p: int)
    requires x >= 1 && p >= 0
    ensures x * p >= p
  {
  }

  lemma SmallMultiple(x: int, p: int)
    requires -p < x * p < p
    ensures x == 0
  {
    if x >= 1 {
      AtLeastOnce(x, p);
    } else if x <= -1 {
      AtLeastOnce(-x, p);
    }
  }

  /** Division with remainder is unique. */
  lemma Split(q: nat, p: nat, r: nat)
    requires r < p
    ensures (q * p + r) / p == q && (q * p + r) % p == r
  {
    var n := q * p + r;
    SameQuotient(n / p, n % p, q, r, p);
  }

  lemma SameQuotient(a: nat, b: nat, q: nat, r: nat, p: nat)
    requires a * p + b == q * p + r && b < p && r < p
    ensures a == q && b == r
  {
    assert (a - q) * p == a * p - q * p == r - b;
    SmallMultiple(a - q, p);
  }

  lemma PaddedStep(n: nat, k: nat)
    requires k > 0
    ensures Padded(n, k) == Padded(n / 10, k - 1) + [Digit(n % 10)]
  {
  }

  /** One digit off the end of a number that is glued together. */
  lemma GlueStep(q: nat, r: nat, k: nat)
    requires k > 0 && r < Pow10(k)
    ensures var n := q * Pow10(k) + r;
      n / 10 == q * Pow10(k - 1) + r / 10 && n % 10 == r % 10 && r / 10 < Pow10(k - 1)
  {
    var p := Pow10(k - 1);
    assert Pow10(k) == 10 * p;
    hide Pow10;
    TenTimes(q, p);
    TenMore(q * p, r);
  }

  lemma TenTimes(q: nat, p: nat)
    ensures q * (10 * p) == 10 * (q * p)
  {
  }

  lemma TenMore(x: nat, r: nat)
    ensures (10 * x + r) / 10 == x + r / 10 && (10 * x + r) % 10 == r % 10
  {
  }

  lemma NothingToGlue(q: nat, j: nat, r: nat)
    requires r < Pow10(0)
    ensures Padded(q * Pow10(0) + r, j) == Padded(q, j) + Padded(r, 0)
  {
  }

  lemma {:induction false} PaddedGlue(q: nat, j: nat, r: nat, k: nat)
    requires r < Pow10(k)
    ensures Padded(q * Pow10(k) + r, j + k) == Padded(q, j) + Padded(r, k)
    decreases k
  {
    hide Pow10, Padded;
    if k == 0 {
      NothingToGlue(q, j, r);
    } else {
      var n := q * Pow10(k) + r;
      GlueStep(q, r, k);
      PaddedGlue(q, j, r / 10, k - 1);
      PaddedStep(n, j + k);
      PaddedStep(r, k);
      Regrouped(Padded(n, j + k), Padded(q, j), Padded(r / 10, k - 1), Padded(r, k), n, r);
    }
  }

  lemma Regrouped(all: string, front: string, back: string, padded: string, n: nat, r: nat)
    requires all == (front + back) + [Digit(n % 10)] && padded == back + [Digit(r % 10)] && n % 10 == r % 10
    ensures all == front + padded
  {
  }

  lemma DecimalStep(n: nat)
    requires n / 10 > 0
    ensures Decimal(n) == Decimal(n / 10) + [Digit(n % 10)]
  {
  }

  lemma {:induction false} DecimalGlue(q: nat, r: nat, k: nat)
    requires q > 0 && r < Pow10(k)
    ensures Decimal(q * Pow10(k) + r) == Decimal(q) + Padded(r, k)
    decreases k
  {
    if k == 0 {
      assert Decimal(q) + Padded(r, 0) == Decimal(q);
    } else {
      hide Pow10;
      var n := q * Pow10(k) + r;
      GlueStep(q, r, k);
      AtLeastOnce(q, Pow10(k - 1));
      DecimalGlue(q, r / 10, k - 1);
      DecimalStep(n);
      PaddedStep(r, k);
    }
  }

  /** A number with exactly `k` digits needs no padding. */
  lemma {:induction false} PaddedIsDecimal(n: nat, k: nat)
    requires k > 0 && n < Pow10(k) && (k > 1 ==> Pow10(k - 1) <= n)
    ensures Padded(n, k) == Decimal(n)
    decreases k
  {
    if k == 1 {
      assert Padded(n / 10, 0) + [Digit(n % 10)] == [Digit(n)];
    } else {
      if k > 2 {
        assert Pow10(k - 1) == 10 * Pow10(k - 2);
      }
      PaddedIsDecimal(n / 10, k - 1);
    }
  }

  // ----- Hexadecimal -------------------------------------------------------------------

  const LOWER: string := "0123456789abcdef"
  const UPPER: string := "0123456789ABCDEF"

  /** The hexadecimal form, in the digits of the table. */
  function Hex(n: nat, table: string): (r: string)
    requires |table| == 16
    ensures r != ""
  {
    if n < 16 then [table[n]] else Hex(n / 16, table) + [table[n % 16]]
  }

  function Pow16(k: nat): (r: nat)
    ensures r > 0
  {
    if k == 0 then 1 else 16 * Pow16(k - 1)
  }

  lemma {:induction false} HexLength(n: nat, table: string, k: nat)
    requires |table| == 16 && k >= 1 && n < Pow16(k)
    ensures |Hex(n, table)| <= k
  {
    if n >= 16 {
      assert k >= 2 && Pow16(1) == 16;
      HexLength(n / 16, table, k - 1);
    }
  }
}
