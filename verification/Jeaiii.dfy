/** `itoa_jeaiii`: conversion through a 32.32 fixed-point number whose upper half shows the next two digits. */
module Jeaiii {
  import opened Numerals

  const WORD: nat := 0x1_0000_0000
  const LONG: nat := 0x1_0000_0000_0000_0000

  // ----- Reading digits off a fixed-point number -----------------------------------------

  /** `t` is `u / p` in 32.32 fixed point, close enough from above to show all its digits. */
  predicate Shows(u: nat, t: nat, p: nat) {
    u * WORD <= t * p < (u + 1) * WORD
  }

  /** The integer part is exact, and the fraction shows the rest. */
  lemma ReadOff(u: nat, t: nat, p: nat)
    requires p > 0 && Shows(u, t, p)
    ensures t / WORD == u / p
    ensures (u % p) * WORD <= (t % WORD) * p < (u % p + 1) * WORD
  {
    var q, f, a, r := t / WORD, t % WORD, u / p, u % p;
    assert t == q * WORD + f && u == a * p + r;
    Expand(q, f, a, r, p);
    Bounded(f, r, p);
    Gap(q, a, p * WORD, f * p, r * WORD);
  }

  lemma Expand(q: nat, f: nat, a: nat, r: nat, p: nat)
    ensures (q * WORD + f) * p == q * (p * WORD) + f * p
    ensures (a * p + r) * WORD == a * (p * WORD) + r * WORD
  {
  }

  lemma Bounded(f: nat, r: nat, p: nat)
    requires f < WORD && r < p
    ensures 0 <= f * p < p * WORD && 0 <= r * WORD && r * WORD + WORD <= p * WORD
  {
    AtLeastOnce(WORD - f, p);
    assert (WORD - f) * p == p * WORD - f * p;
  }

  /** Two numbers less than a unit apart have the same integer part. */
  lemma Gap(q: int, a: int, unit: int, x: int, y: int)
    requires 0 <= x < unit && 0 <= y && y + WORD <= unit
    requires a * unit + y <= q * unit + x < a * unit + y + WORD
    ensures q == a && y <= x < y + WORD
  {
    assert (q - a) * unit == q * unit - a * unit;
    SmallMultiple(q - a, unit);
  }

  // ----- The fixed-point number ------------------------------------------------------------

  function Pow2(k: nat): nat {
    if k == 0 then 1 else 2 * Pow2(k - 1)
  }

  /** Two to the number of bits shifted out again for 10^n. */
  function Scale(n: nat): (r: nat)
    ensures r > 0
  {
    if n < 5 then 1
    else if n == 5 then 0x1_0000
    else if n == 6 then 0x8_0000
    else if n == 7 then 0x80_0000
    else 0x400_0000
  }

  lemma ScaleIsShift(n: nat)
    requires 1 <= n <= 8
    ensures Scale(n) == Pow2(n / 5 * n * 53 / 16)
  {
    assert Pow2(10) == 1024;
    assert Pow2(16) == 0x1_0000;
    assert Pow2(19) == 0x8_0000;
    assert Pow2(23) == 0x80_0000;
    assert Pow2(26) == 0x400_0000;
    match n
    case 1 => case 2 => case 3 => case 4 => case 5 => case 6 => case 7 => case _ =>
  }

  /** The rounded-up reciprocal of 10^n, with as many bits as the shift allows. */
  function Multiplier(n: nat): int {
    WORD * Scale(n) / Pow10(n) + 1 + n / 6 - n / 8
  }

  /** The first step of a conversion: `u / 10^n` in fixed point, with the correction of its length. */
  function FixedPoint(n: nat, u: nat): int {
    Multiplier(n) * u / Scale(n) + n / 6 * 4
  }

  lemma Powers()
    ensures Pow10(1) == 10 && Pow10(2) == 100 && Pow10(3) == 1000 && Pow10(4) == 1_0000 && Pow10(5) == 10_0000
    ensures Pow10(6) == 100_0000 && Pow10(7) == 1000_0000 && Pow10(8) == 1_0000_0000 && Pow10(9) == 10_0000_0000
    ensures Pow10(10) == 100_0000_0000 && Pow10(0) == 1
  {
  }

  /** The numbers that the code converts with the multiplier for 10^n: those with n + 2 digits, and all of at
      most eight digits for n = 6. */
  predicate InRange(n: nat, u: nat) {
    1 <= n <= 8 && u < WORD && u < Pow10(n + 2) && (n != 6 ==> Pow10(n + 1) <= u)
  }

  lemma ShowsShort(u: nat)
    ensures u < 1000 ==> Shows(u, 429496730 * u, 10)
    ensures u < 1_0000 ==> Shows(u, 42949673 * u, 100)
    ensures u < 10_0000 ==> Shows(u, 4294968 * u, 1000)
    ensures u < 100_0000 ==> Shows(u, 429497 * u, 1_0000)
  {
  }

  lemma ShowsSeven(u: nat)
    requires 100_0000 <= u < 1000_0000
    ensures Shows(u, 2814749768 * u / 0x1_0000, 10_0000)
  {
  }

  lemma ShowsEight(u: nat)
    requires u < 1_0000_0000
    ensures Shows(u, 2251799815 * u / 0x8_0000 + 4, 100_0000)
  {
  }

  lemma ShowsNine(u: nat)
    requires 1_0000_0000 <= u < 10_0000_0000
    ensures Shows(u, 3602879703 * u / 0x80_0000 + 4, 1000_0000)
  {
  }

  lemma ShowsTen(u: nat)
    requires 10_0000_0000 <= u < WORD
    ensures Shows(u, 2882303762 * u / 0x400_0000 + 4, 1_0000_0000)
  {
  }

  lemma Multipliers(n: nat)
    requires 1 <= n <= 8
    ensures Multiplier(n) == if n == 1 then 429496730 else if n == 2 then 42949673 else if n == 3 then 4294968
                             else if n == 4 then 429497 else if n == 5 then 2814749768 else if n == 6 then 2251799815
                             else if n == 7 then 3602879703 else 2882303762
  {
    Powers();
  }

  /** The corrections are right: for every number in range the fixed-point number shows all its digits, and
      the product fits into 64 bits. */
  lemma FixedPointShows(n: nat, u: nat)
    requires InRange(n, u)
    ensures 0 <= Multiplier(n) * u < LONG
    ensures 0 <= FixedPoint(n, u) && Shows(u, FixedPoint(n, u), Pow10(n))
  {
    hide Pow10, Shows, Multiplier;
    Powers();
    Multipliers(n);
    if n <= 4 {
      ShowsShort(u);
    } else if n == 5 {
      ShowsSeven(u);
    } else if n == 6 {
      ShowsEight(u);
    } else if n == 7 {
      ShowsNine(u);
    } else {
      ShowsTen(u);
    }
  }

  // ----- Writing ---------------------------------------------------------------------------

  /** The fraction of `t` shows the last `r` digits of `u`. */
  predicate Rest(u: nat, t: nat, r: nat) {
    (u % Pow10(r)) * WORD <= (t % WORD) * Pow10(r) < (u % Pow10(r) + 1) * WORD
  }

  lemma Carve(u: nat, p: nat, k: nat)
    requires p > 0 && k > 0
    ensures k * p > 0
    ensures u % (k * p) / p < k && u % (k * p) % p == u % p
    ensures u / p == u / (k * p) * k + u % (k * p) / p
  {
    AtLeastOnce(k, p);
    var a, x := u / (k * p), u % (k * p);
    var c, d := x / p, x % p;
    Nest(a, k, c, p, d);
    assert u == (a * k + c) * p + d;
    Split(a * k + c, p, d);
    QuotientBelow(c, d, k, p);
  }

  lemma Nest(a: nat, k: nat, c: nat, p: nat, d: nat)
    ensures a * (k * p) + (c * p + d) == (a * k + c) * p + d
  {
  }

  lemma QuotientBelow(c: nat, d: nat, k: nat, p: nat)
    requires p > 0 && c * p + d < k * p
    ensures c < k
  {
    NotNegative(c - k, p);
    assert (c - k) * p == c * p - k * p;
  }

  lemma NotNegative(x: int, p: nat)
    ensures x >= 0 ==> x * p >= 0
  {
  }

  /** One more pair of digits, or one more digit, comes up in the integer part. */
  lemma Advance(u: nat, t: nat, r: nat, k: nat)
    requires k <= r && 1 <= k <= 2 && Rest(u, t, r)
    ensures var t' := Pow10(k) * (t % WORD);
            t' / WORD < Pow10(k) && Rest(u, t', r - k) &&
            u / Pow10(r - k) == u / Pow10(r) * Pow10(k) + t' / WORD
  {
    var p, b := Pow10(r - k), Pow10(k);
    assert Pow10(r) == b * p;
    var t' := b * (t % WORD);
    assert t' * p == (t % WORD) * (b * p);
    ReadOff(u % (b * p), t', p);
    Carve(u, p, b);
  }

  method WritePair(b: array<char>, at: nat, i: nat)
    requires at + 2 <= b.Length && i < 100
    modifies b
    ensures b[at..at + 2] == Padded(i, 2)
    ensures forall k :: 0 <= k < at || at + 2 <= k < b.Length ==> b[k] == old(b[k])
  {
    b[at] := Digit(i / 10);
    b[at + 1] := Digit(i % 10);
    assert Padded(i, 2) == Padded(i / 10, 1) + [Digit(i % 10)];
    assert Padded(i / 10, 1) == Padded(i / 100, 0) + [Digit(i / 10)];
  }

  function Quotient(u: nat, p: nat): nat
    requires p > 0
  {
    u / p
  }

  /** All but the last `r` digits of `u` stand in `pos` places of the buffer. */
  ghost predicate Written(b: array<char>, off: nat, pos: nat, u: nat, r: nat)
    requires off + pos <= b.Length
    reads b
  {
    b[off..off + pos] == Padded(Quotient(u, Pow10(r)), pos)
  }

  lemma AllWritten(b: array<char>, off: nat, pos: nat, u: nat)
    requires off + pos <= b.Length && Written(b, off, pos, u, 0)
    ensures b[off..off + pos] == Padded(u, pos)
  {
  }

  /** `D`: the next two digits. */
  method NextPair(u: nat, t: nat, ghost r: nat, b: array<char>, off: nat, pos: nat) returns (t': nat)
    requires 2 <= r && off + pos + 2 <= b.Length && Rest(u, t, r) && 100 * (t % WORD) < LONG
    requires Written(b, off, pos, u, r)
    modifies b
    ensures Rest(u, t', r - 2) && Written(b, off, pos + 2, u, r - 2)
    ensures forall k :: 0 <= k < off || off + pos + 2 <= k < b.Length ==> b[k] == old(b[k])
  {
    hide Rest, Padded;
    Powers();
    Advance(u, t, r, 2);
    t' := 100 * (t % WORD);
    WritePair(b, off + pos, t' / WORD);
    PaddedGlue(u / Pow10(r), pos, t' / WORD, 2);
    assert b[off..off + pos + 2] == b[off..off + pos] + b[off + pos..off + pos + 2];
  }

  /** `S`: the last digit of a number with an odd number of digits. */
  method LastDigit(u: nat, t: nat, b: array<char>, off: nat, pos: nat)
    requires off + pos + 1 <= b.Length && Rest(u, t, 1)
    requires Written(b, off, pos, u, 1)
    modifies b
    ensures Written(b, off, pos + 1, u, 0)
    ensures forall k :: 0 <= k < off || off + pos + 1 <= k < b.Length ==> b[k] == old(b[k])
  {
    Advance(u, t, 1, 1);
    assert Pow10(1) == 10 && Pow10(0) == 1;
    b[off + pos] := Digit(10 * (t % WORD) / WORD);
    assert b[off..off + pos + 1] == b[off..off + pos] + [Digit(u % 10)];
  }

  /** `A`: the first two digits. */
  method FirstPair(n: nat, u: nat, b: array<char>, off: nat) returns (t: nat)
    requires InRange(n, u) && off + 2 <= b.Length
    modifies b
    ensures Rest(u, t, n) && Written(b, off, 2, u, n)
    ensures forall k :: 0 <= k < off || off + 2 <= k < b.Length ==> b[k] == old(b[k])
  {
    hide FixedPoint, Rest, Pow10, Padded, InRange;
    FirstTwo(n, u);
    t := FixedPoint(n, u);
    WritePair(b, off, t / WORD);
  }

  lemma FirstTwo(n: nat, u: nat)
    requires InRange(n, u)
    ensures 0 <= FixedPoint(n, u) && Rest(u, FixedPoint(n, u), n)
    ensures FixedPoint(n, u) / WORD == u / Pow10(n) < 100
  {
    hide Multiplier, FixedPoint;
    FixedPointShows(n, u);
    ReadOff(u, FixedPoint(n, u), Pow10(n));
    TwoDigits(n, u);
  }

  lemma TwoDigits(n: nat, u: nat)
    requires u < Pow10(n + 2)
    ensures u / Pow10(n) < 100
  {
    var p := Pow10(n);
    assert Pow10(n + 2) == 10 * Pow10(n + 1) == 100 * p;
    QuotientBelow(u / p, u % p, 100, p);
  }

  /** `L` for a number of n + 1 digits; the pairs stand at even positions. */
  method WriteLength(n: nat, u: nat, b: array<char>, off: nat)
    requires n <= 9 && u < WORD && u < Pow10(n + 1) && (2 <= n != 7 ==> Pow10(n) <= u)
    requires off + n + 1 <= b.Length
    modifies b
    ensures b[off..off + n + 1] == Padded(u, n + 1)
    ensures forall k :: 0 <= k < off || off + n + 1 <= k < b.Length ==> b[k] == old(b[k])
  {
    Powers();
    hide Pow10, Padded, Rest, Written, InRange;
    if n == 0 {
      OneDigit(u);
      b[off] := Digit(u);
      return;
    }
    if n == 1 {
      WritePair(b, off, u);
      return;
    }
    FitsLength(n, u);
    var t := FirstPair(n - 1, u, b, off);
    if n >= 3 {
      t := NextPair(u, t, n - 1, b, off, 2);
    }
    if n >= 5 {
      t := NextPair(u, t, n - 3, b, off, 4);
    }
    if n >= 7 {
      t := NextPair(u, t, n - 5, b, off, 6);
    }
    if n == 9 {
      t := NextPair(u, t, 2, b, off, 8);
    }
    if n % 2 == 0 {
      LastDigit(u, t, b, off, n);
    }
    AllWritten(b, off, n + 1, u);
  }

  lemma FitsLength(n: nat, u: nat)
    requires 2 <= n <= 9 && u < WORD && u < Pow10(n + 1) && (n != 7 ==> Pow10(n) <= u)
    ensures InRange(n - 1, u)
  {
  }

  lemma OneDigit(u: nat)
    requires u < 10
    ensures Padded(u, 1) == [Digit(u)]
  {
    assert Padded(u, 1) == Padded(u / 10, 0) + [Digit(u % 10)];
  }

  // ----- The conversions -------------------------------------------------------------------

  /** `LG`: the number of digits less one, found by comparisons. */
  function Length(u: nat): nat {
    if u < 100 then if u < 10 then 0 else 1
    else if u < 1000000 then
      if u < 10000 then if u < 1000 then 2 else 3 else if u < 100000 then 4 else 5
    else if u < 100000000 then if u < 10000000 then 6 else 7
    else if u < 1000000000 then 8
    else 9
  }

  lemma LengthIsRight(u: nat)
    requires u < WORD
    ensures var n := Length(u); n <= 9 && u < Pow10(n + 1) && (n > 0 ==> Pow10(n) <= u)
    ensures Padded(u, Length(u) + 1) == Decimal(u)
  {
    Powers();
    PaddedIsDecimal(u, Length(u) + 1);
  }

  /** `u32toa_jeaiii`: the decimal form of a 32-bit number, and nothing else in the buffer. */
  method U32ToA(u: nat, b: array<char>, off: nat) returns (end: nat)
    requires u < WORD && off + |Decimal(u)| <= b.Length
    modifies b
    ensures end == off + |Decimal(u)| && b[off..end] == Decimal(u)
    ensures forall k :: 0 <= k < off || end <= k < b.Length ==> b[k] == old(b[k])
  {
    hide Pow10, Decimal, Padded;
    LengthIsRight(u);
    var n := Length(u);
    WriteLength(n, u, b, off);
    end := off + n + 1;
  }

  /** The decimal form of an integer, with a minus sign in front of the negative ones. */
  function Signed(i: int): string {
    if i < 0 then "-" + Decimal(-i) else Decimal(i)
  }

  /** Negation in an unsigned type is right for every number of the signed one. */
  lemma Negated(i: int, range: int)
    requires range > 0 && -range <= i < 0
    ensures (0 - i % range) % range == if i == -range then 0 else -i
  {
    var u := i % range;
    if i == -range {
      assert u == 0 by {
        WholeMultiple(i, range);
      }
    } else {
      RemainderOfNegative(i, range);
      RemainderOfNegative(0 - u, range);
    }
  }

  lemma WholeMultiple(i: int, range: int)
    requires range > 0 && i == -range
    ensures i % range == 0
  {
    assert i == -1 * range + 0;
  }

  lemma RemainderOfNegative(i: int, range: int)
    requires -range < i < 0
    ensures i % range == i + range
  {
    assert i == -1 * range + (i + range);
  }

  lemma Unsigned(i: int, range: int)
    requires 0 <= i < range
    ensures i % range == i
  {
  }

  /** `i32toa_jeaiii`; the magnitude is computed in unsigned arithmetic and is right down to -2^31. */
  method I32ToA(i: int, b: array<char>, off: nat) returns (end: nat)
    requires -0x8000_0000 <= i < 0x8000_0000 && off + |Signed(i)| <= b.Length
    modifies b
    ensures end == off + |Signed(i)| && b[off..end] == Signed(i)
    ensures forall k :: 0 <= k < off || end <= k < b.Length ==> b[k] == old(b[k])
  {
    hide Decimal;
    var p := off;
    var u := i % WORD;
    if i < 0 {
      Negated(i, WORD);
      b[p] := '-';
      p := p + 1;
      u := (0 - u) % WORD;
    } else {
      Unsigned(i, WORD);
    }
    end := U32ToA(u, b, p);
    assert b[off..end] == b[off..p] + b[p..end];
  }

  /** `u64toa_jeaiii`: groups of eight digits behind a leading group that is not padded. */
  method U64ToA(n: nat, b: array<char>, off: nat) returns (end: nat)
    requires n < LONG && off + |Decimal(n)| <= b.Length
    modifies b
    ensures end == off + |Decimal(n)| && b[off..end] == Decimal(n)
    ensures forall k :: 0 <= k < off || end <= k < b.Length ==> b[k] == old(b[k])
  {
    hide Pow10, Decimal, Padded;
    Powers();
    if n / WORD == 0 {
      end := U32ToA(n, b, off);
      return;
    }
    var a := n / 1_0000_0000;
    var r := n % 1_0000_0000;
    DecimalGlue(a, r, 8);
    var p;
    if a / WORD == 0 {
      p := U32ToA(a, b, off);
    } else {
      var q, m := a / 1_0000_0000, a % 1_0000_0000;
      DecimalGlue(q, m, 8);
      p := U32ToA(q, b, off);
      p := EightDigits(m, b, off, p);
    }
    end := EightDigits(r, b, off, p);
  }

  /** A padded group of eight digits behind what has been written from `off` to `p`. */
  method EightDigits(u: nat, b: array<char>, ghost off: nat, p: nat) returns (end: nat)
    requires u < 1_0000_0000 && off <= p && p + 8 <= b.Length
    modifies b
    ensures end == p + 8 && b[off..end] == old(b[off..p]) + Padded(u, 8)
    ensures forall k :: 0 <= k < off || end <= k < b.Length ==> b[k] == old(b[k])
  {
    hide Pow10, Padded;
    Powers();
    WriteLength(7, u, b, p);
    end := p + 8;
    assert b[off..end] == b[off..p] + b[p..end];
  }

  /** `i64toa_jeaiii`. */
  method I64ToA(i: int, b: array<char>, off: nat) returns (end: nat)
    requires -0x8000_0000_0000_0000 <= i < 0x8000_0000_0000_0000 && off + |Signed(i)| <= b.Length
    modifies b
    ensures end == off + |Signed(i)| && b[off..end] == Signed(i)
    ensures forall k :: 0 <= k < off || end <= k < b.Length ==> b[k] == old(b[k])
  {
    hide Decimal;
    var p := off;
    var n := i % LONG;
    if i < 0 {
      Negated(i, LONG);
      b[p] := '-';
      p := p + 1;
      n := (0 - n) % LONG;
    } else {
      Unsigned(i, LONG);
    }
    end := U64ToA(n, b, p);
    assert b[off..end] == b[off..p] + b[p..end];
  }
}
