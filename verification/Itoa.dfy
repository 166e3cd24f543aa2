/** `itoa_fwd` and `itoa_rev`: division by powers of a hundred through multiplicative inverses, with digits
    written forwards from the front or backwards from the end. */
module Itoa {
  import opened Numerals
  import Ascii
  import opened Jeaiii

  // ----- Division ------------------------------------------------------------------------

  datatype QR = QR(q: nat, r: nat)

  /** `split<2>`: the inverse of 100 for 16-bit numbers, in 32-bit arithmetic. */
  function Split2(u: nat): QR
    requires u < 0x1_0000
  {
    var q := (41943 * (u + 1)) % WORD / 0x40_0000;
    QR(q, (u - q * 100) % 0x100)
  }

  /** `split<4>`: the inverse of 10000 for 32-bit numbers, in 64-bit arithmetic. */
  function Split4(u: nat): QR
    requires u < WORD
  {
    var q := (3518437209 * u) % LONG / 0x2000_0000_0000;
    QR(q, (u - q * 10000) % 0x1_0000)
  }

  lemma Split2IsDivision(u: nat)
    requires u < 0x1_0000
    ensures Split2(u) == QR(u / 100, u % 100)
  {
    var k, r := u / 100, u % 100;
    assert u == 100 * k + r;
    assert 41943 * (u + 1) == 0x40_0000 * k + (41943 * (r + 1) - 4 * k);
  }

  lemma Split4IsDivision(u: nat)
    requires u < WORD
    ensures Split4(u) == QR(u / 10000, u % 10000)
  {
  }

  // ----- Writing in two directions ---------------------------------------------------------

  datatype Direction = Fwd | Rev

  /** `w` has been written at `p`, which has moved to `p'`; nothing else has changed. */
  ghost predicate Stored(d: Direction, before: string, after: string, p: nat, p': nat, w: string) {
    match d
    case Fwd => p + |w| == p' <= |before| && after == before[..p] + w + before[p'..]
    case Rev => p' + |w| == p <= |before| && after == before[..p'] + w + before[p..]
  }

  predicate Room(d: Direction, length: nat, p: nat, n: nat) {
    match d
    case Fwd => p + n <= length
    case Rev => n <= p <= length
  }

  /** Text written forwards goes behind, and text written backwards goes in front. */
  lemma StoredTwice(d: Direction, s0: string, s1: string, s2: string, p0: nat, p1: nat, p2: nat, v: string, w: string)
    requires Stored(d, s0, s1, p0, p1, v) && Stored(d, s1, s2, p1, p2, w)
    ensures Stored(d, s0, s2, p0, p2, if d.Fwd? then v + w else w + v)
  {
    if d.Fwd? {
      assert s1[..p1] == s0[..p0] + v && s1[p2..] == s0[p2..];
      assert s2 == s0[..p0] + (v + w) + s0[p2..];
    } else {
      assert s1[p1..] == v + s0[p0..] && s1[..p2] == s0[..p2];
      assert s2 == s0[..p2] + (w + v) + s0[p0..];
    }
  }

  method Out(d: Direction, b: array<char>, p: nat, w: string) returns (p': nat)
    requires Room(d, b.Length, p, |w|)
    modifies b
    ensures Stored(d, old(b[..]), b[..], p, p', w)
  {
    ghost var before := b[..];
    var start := p;
    if d.Rev? {
      start := p - |w|;
    }
    var i := 0;
    while i < |w|
      invariant 0 <= i <= |w|
      invariant forall j :: start <= j < start + i ==> b[j] == w[j - start]
      invariant forall j :: 0 <= j < start || start + i <= j < b.Length ==> b[j] == before[j]
    {
      b[start + i] := w[i];
      i := i + 1;
    }
    assert b[..] == before[..start] + w + before[start + |w|..];
    p' := if d.Fwd? then p + |w| else start;
  }

  // ----- Digits --------------------------------------------------------------------------

  /** `dd`: the two characters of the table at `u`. */
  function Pair(u: nat): string
    requires u < 100
  {
    [Digit(u / 10), Digit(u % 10)]
  }

  lemma PairIsPadded(u: nat)
    requires u < 100
    ensures Pair(u) == Padded(u, 2)
    ensures u >= 10 ==> Pair(u) == Decimal(u)
  {
    assert Padded(u, 2) == Padded(u / 10, 1) + [Digit(u % 10)];
    assert Padded(u / 10, 1) == Padded(u / 100, 0) + [Digit(u / 10)];
  }

  method Tail8(d: Direction, b: array<char>, p: nat, u: nat) returns (p': nat)
    requires u < 100 && Room(d, b.Length, p, 2)
    modifies b
    ensures Stored(d, old(b[..]), b[..], p, p', Padded(u, 2))
  {
    PairIsPadded(u);
    p' := Out(d, b, p, Pair(u));
  }

  method Head8(d: Direction, b: array<char>, p: nat, u: nat) returns (p': nat)
    requires u < 100 && Room(d, b.Length, p, |Decimal(u)|)
    modifies b
    ensures Stored(d, old(b[..]), b[..], p, p', Decimal(u))
  {
    hide Stored;
    if u < 10 {
      p' := Out(d, b, p, [Digit(u)]);
    } else {
      PairIsPadded(u);
      p' := Out(d, b, p, Pair(u));
    }
  }

  /** Two parts, of which the one that comes first in writing order is written first. */
  lemma TwoParts(d: Direction, s0: string, s1: string, s2: string, p0: nat, p1: nat, p2: nat, front: string,
                 back: string)
    requires Stored(d, s0, s1, p0, p1, if d.Fwd? then front else back)
    requires Stored(d, s1, s2, p1, p2, if d.Fwd? then back else front)
    ensures Stored(d, s0, s2, p0, p2, front + back)
  {
    StoredTwice(d, s0, s1, s2, p0, p1, p2, if d.Fwd? then front else back, if d.Fwd? then back else front);
  }

  lemma TwoDigitGroups(u: nat)
    ensures Padded(u, 4) == Padded(u / 100, 2) + Padded(u % 100, 2)
    ensures Padded(u, 8) == Padded(u / 10000, 4) + Padded(u % 10000, 4)
    ensures u >= 100 ==> Decimal(u) == Decimal(u / 100) + Padded(u % 100, 2)
    ensures u >= 10000 ==> Decimal(u) == Decimal(u / 10000) + Padded(u % 10000, 4)
  {
    hide Decimal, Padded;
    Powers();
    PaddedGlue(u / 100, 2, u % 100, 2);
    PaddedGlue(u / 10000, 4, u % 10000, 4);
    if u >= 100 {
      DecimalGlue(u / 100, u % 100, 2);
    }
    if u >= 10000 {
      DecimalGlue(u / 10000, u % 10000, 4);
    }
  }

  lemma AfterOut(d: Direction, s0: string, s1: string, p: nat, p': nat, w: string, n: nat)
    requires Stored(d, s0, s1, p, p', w) && Room(d, |s0|, p, |w| + n)
    ensures |s1| == |s0| && Room(d, |s1|, p', n)
  {
  }

  lemma RoomShrinks(d: Direction, length: nat, p: nat, n: nat, m: nat)
    requires Room(d, length, p, n) && m <= n
    ensures Room(d, length, p, m)
  {
  }

  method Tail16(d: Direction, b: array<char>, p: nat, u: nat) returns (p': nat)
    requires u < 10000 && Room(d, b.Length, p, 4)
    modifies b
    ensures Stored(d, old(b[..]), b[..], p, p', Padded(u, 4))
  {
    hide Stored, Split2, Padded, Room, Decimal;
    ghost var s0 := b[..];
    Split2IsDivision(u);
    var x := Split2(u);
    TwoDigitGroups(u);
    RoomShrinks(d, b.Length, p, 4, 2);
    var p1 := Tail8(d, b, p, if d.Fwd? then x.q else x.r);
    ghost var s1 := b[..];
    AfterOut(d, s0, s1, p, p1, Padded(if d.Fwd? then x.q else x.r, 2), 2);
    p' := Tail8(d, b, p1, if d.Fwd? then x.r else x.q);
    TwoParts(d, s0, s1, b[..], p, p1, p', Padded(x.q, 2), Padded(x.r, 2));
  }

  /** A quotient with its leading zeros left out, and the remainder with them. */
  method HeadParts8(d: Direction, b: array<char>, p: nat, x: QR) returns (p': nat)
    requires x.q < 100 && x.r < 100 && Room(d, b.Length, p, |Decimal(x.q)| + 2)
    modifies b
    ensures Stored(d, old(b[..]), b[..], p, p', Decimal(x.q) + Padded(x.r, 2))
  {
    hide Stored, Padded, Room, Decimal;
    ghost var s0 := b[..];
    var n := |Decimal(x.q)|;
    RoomShrinks(d, b.Length, p, n + 2, n);
    RoomShrinks(d, b.Length, p, n + 2, 2);
    var p1;
    if d.Fwd? {
      p1 := Head8(d, b, p, x.q);
    } else {
      p1 := Tail8(d, b, p, x.r);
    }
    ghost var s1 := b[..];
    AfterOut(d, s0, s1, p, p1, if d.Fwd? then Decimal(x.q) else Padded(x.r, 2), if d.Fwd? then 2 else n);
    if d.Fwd? {
      p' := Tail8(d, b, p1, x.r);
    } else {
      p' := Head8(d, b, p1, x.q);
    }
    TwoParts(d, s0, s1, b[..], p, p1, p', Decimal(x.q), Padded(x.r, 2));
  }

  method Head16(d: Direction, b: array<char>, p: nat, u: nat) returns (p': nat)
    requires u < 10000 && Room(d, b.Length, p, |Decimal(u)|)
    modifies b
    ensures Stored(d, old(b[..]), b[..], p, p', Decimal(u))
  {
    hide Stored, Split2, Padded, Room, Decimal;
    if u < 100 {
      p' := Head8(d, b, p, u);
    } else {
      Split2IsDivision(u);
      TwoDigitGroups(u);
      p' := HeadParts8(d, b, p, Split2(u));
    }
  }

  method HeadParts16(d: Direction, b: array<char>, p: nat, x: QR) returns (p': nat)
    requires x.q < 10000 && x.r < 10000 && Room(d, b.Length, p, |Decimal(x.q)| + 4)
    modifies b
    ensures Stored(d, old(b[..]), b[..], p, p', Decimal(x.q) + Padded(x.r, 4))
  {
    hide Stored, Padded, Room, Decimal;
    ghost var s0 := b[..];
    var n := |Decimal(x.q)|;
    RoomShrinks(d, b.Length, p, n + 4, n);
    RoomShrinks(d, b.Length, p, n + 4, 4);
    var p1;
    if d.Fwd? {
      p1 := Head16(d, b, p, x.q);
    } else {
      p1 := Tail16(d, b, p, x.r);
    }
    ghost var s1 := b[..];
    AfterOut(d, s0, s1, p, p1, if d.Fwd? then Decimal(x.q) else Padded(x.r, 4), if d.Fwd? then 4 else n);
    if d.Fwd? {
      p' := Tail16(d, b, p1, x.r);
    } else {
      p' := Head16(d, b, p1, x.q);
    }
    TwoParts(d, s0, s1, b[..], p, p1, p', Decimal(x.q), Padded(x.r, 4));
  }

  // ----- The conversions -------------------------------------------------------------------

  method Itoa8(d: Direction, b: array<char>, p: nat, u: nat) returns (p': nat)
    requires u < 0x100 && Room(d, b.Length, p, |Decimal(u)|)
    modifies b
    ensures Stored(d, old(b[..]), b[..], p, p', Decimal(u))
  {
    hide Stored, Padded, Room;
    if u < 10 {
      p' := Out(d, b, p, [Digit(u)]);
    } else if u < 100 {
      PairIsPadded(u);
      p' := Out(d, b, p, Pair(u));
    } else {
      ghost var s0 := b[..];
      var front, back := [Digit(u / 100)], Pair(u % 100);
      PairIsPadded(u % 100);
      TwoDigitGroups(u);
      assert Decimal(u / 100) == front;
      RoomShrinks(d, b.Length, p, 3, 2);
      RoomShrinks(d, b.Length, p, 3, 1);
      var p1 := Out(d, b, p, if d.Fwd? then front else back);
      ghost var s1 := b[..];
      AfterOut(d, s0, s1, p, p1, if d.Fwd? then front else back, if d.Fwd? then 2 else 1);
      p' := Out(d, b, p1, if d.Fwd? then back else front);
      TwoParts(d, s0, s1, b[..], p, p1, p', front, back);
    }
  }

  /** Numbers with more than twice as many digits as the inverse splits off. */
  method Large16(d: Direction, b: array<char>, p: nat, x: QR) returns (p': nat)
    requires 100 <= x.q < 10000 && x.r < 100 && Room(d, b.Length, p, |Decimal(x.q)| + 2)
    modifies b
    ensures Stored(d, old(b[..]), b[..], p, p', Decimal(x.q) + Padded(x.r, 2))
  {
    hide Stored, Padded, Room, Decimal, Split2;
    ghost var s0 := b[..];
    Split2IsDivision(x.q);
    TwoDigitGroups(x.q);
    var y, n := Split2(x.q), |Decimal(x.q)|;
    RoomShrinks(d, b.Length, p, n + 2, n);
    RoomShrinks(d, b.Length, p, n + 2, 2);
    var p1;
    if d.Fwd? {
      p1 := HeadParts8(d, b, p, y);
    } else {
      p1 := Tail8(d, b, p, x.r);
    }
    ghost var s1 := b[..];
    AfterOut(d, s0, s1, p, p1, if d.Fwd? then Decimal(x.q) else Padded(x.r, 2), if d.Fwd? then 2 else n);
    if d.Fwd? {
      p' := Tail8(d, b, p1, x.r);
    } else {
      p' := HeadParts8(d, b, p1, y);
    }
    TwoParts(d, s0, s1, b[..], p, p1, p', Decimal(x.q), Padded(x.r, 2));
  }

  method Itoa16(d: Direction, b: array<char>, p: nat, u: nat) returns (p': nat)
    requires u < 0x1_0000 && Room(d, b.Length, p, |Decimal(u)|)
    modifies b
    ensures Stored(d, old(b[..]), b[..], p, p', Decimal(u))
  {
    hide Stored, Padded, Room, Decimal, Split2;
    if u < 100 {
      p' := Head8(d, b, p, u);
    } else {
      Split2IsDivision(u);
      TwoDigitGroups(u);
      var x := Split2(u);
      if u < 10000 {
        p' := HeadParts8(d, b, p, x);
      } else {
        p' := Large16(d, b, p, x);
      }
    }
  }

  method Large32(d: Direction, b: array<char>, p: nat, x: QR) returns (p': nat)
    requires 10000 <= x.q < 1000000 && x.r < 10000 && Room(d, b.Length, p, |Decimal(x.q)| + 4)
    modifies b
    ensures Stored(d, old(b[..]), b[..], p, p', Decimal(x.q) + Padded(x.r, 4))
  {
    hide Stored, Padded, Room, Decimal, Split4;
    ghost var s0 := b[..];
    Split4IsDivision(x.q);
    TwoDigitGroups(x.q);
    var y, n := Split4(x.q), |Decimal(x.q)|;
    RoomShrinks(d, b.Length, p, n + 4, n);
    RoomShrinks(d, b.Length, p, n + 4, 4);
    var p1;
    if d.Fwd? {
      p1 := HeadParts16(d, b, p, y);
    } else {
      p1 := Tail16(d, b, p, x.r);
    }
    ghost var s1 := b[..];
    AfterOut(d, s0, s1, p, p1, if d.Fwd? then Decimal(x.q) else Padded(x.r, 4), if d.Fwd? then 4 else n);
    if d.Fwd? {
      p' := Tail16(d, b, p1, x.r);
    } else {
      p' := HeadParts16(d, b, p1, y);
    }
    TwoParts(d, s0, s1, b[..], p, p1, p', Decimal(x.q), Padded(x.r, 4));
  }

  method Itoa32(d: Direction, b: array<char>, p: nat, u: nat) returns (p': nat)
    requires u < WORD && Room(d, b.Length, p, |Decimal(u)|)
    modifies b
    ensures Stored(d, old(b[..]), b[..], p, p', Decimal(u))
  {
    hide Stored, Padded, Room, Decimal, Split4;
    if u < 10000 {
      p' := Head16(d, b, p, u);
    } else {
      Split4IsDivision(u);
      TwoDigitGroups(u);
      var x := Split4(u);
      if u < 1_0000_0000 {
        p' := HeadParts16(d, b, p, x);
      } else {
        p' := Large32(d, b, p, x);
      }
    }
  }

  /** The width of an integer in bytes. */
  datatype Width = Byte1 | Byte2 | Byte4 {
    function Range(): int {
      match this case Byte1 => 0x100 case Byte2 => 0x1_0000 case Byte4 => WORD
    }
  }

  method ItoaUnsigned(w: Width, d: Direction, b: array<char>, p: nat, u: nat) returns (p': nat)
    requires u < w.Range() && Room(d, b.Length, p, |Decimal(u)|)
    modifies b
    ensures Stored(d, old(b[..]), b[..], p, p', Decimal(u))
  {
    hide Stored, Room, Decimal;
    match w
    case Byte1 => p' := Itoa8(d, b, p, u);
    case Byte2 => p' := Itoa16(d, b, p, u);
    case Byte4 => p' := Itoa32(d, b, p, u);
  }

  /** The absolute value without a branch: twice the number unless the sign mask removes it, less the number,
      all in the unsigned type. It is right for the most negative value too. */
  function Magnitude(w: Width, i: int): nat {
    var u := i % w.Range();
    ((if i < 0 then 0 else 2 * u % w.Range()) - u) % w.Range()
  }

  lemma MagnitudeIsAbsolute(w: Width, i: int)
    requires -w.Range() <= 2 * i < w.Range()
    ensures Magnitude(w, i) == if i < 0 then -i else i
  {
    var r := w.Range();
    SmallModulo(i, r);
    SmallModulo(2 * i, r);
    SmallModulo(-i, r);
    if i < 0 {
      SmallModulo(-(i + r), r);
    }
  }

  lemma SmallModulo(x: int, r: int)
    requires -r <= x < r
    ensures x % r == if x < 0 then x + r else x
  {
    if x < 0 {
      assert (x + r) % r == x + r == x % r;
    }
  }

  lemma DecimalNotEmpty(n: nat)
    ensures |Decimal(n)| >= 1
  {
  }

  /** The sign in front of what has been written, or overwritten by it. */
  lemma WithSign(d: Direction, before: string, s1: string, s2: string, after: string, p: nat, q: nat, p1: nat,
                 p': nat, i: int, digits: string)
    requires digits != "" && Stored(d, s1, s2, q, p1, digits) && Room(d, |before|, p, |digits| + if i < 0 then 1 else 0)
    requires match d
             case Fwd => s1 == before[p := '-'] && q == (if i < 0 then p + 1 else p) && after == s2 && p' == p1
             case Rev => s1 == before && q == p && p' == (if i < 0 then p1 - 1 else p1) &&
                         after == if i < 0 then s2[p' := '-'] else s2
    ensures Stored(d, before, after, p, p', if i < 0 then "-" + digits else digits)
  {
    if d.Fwd? {
      assert s1[p1..] == before[p1..];
      assert i < 0 ==> s1[..q] == before[..p] + "-";
    } else if i < 0 {
      assert after == s2[..p'] + "-" + s2[p1..];
      assert s2[..p'] == before[..p'] && s2[p1..] == digits + before[p..];
    }
  }

  /** Forwards, the minus sign is always stored, and a number that is not negative overwrites it. */
  method ItoaSigned(w: Width, d: Direction, b: array<char>, p: nat, i: int) returns (p': nat)
    requires -w.Range() <= 2 * i < w.Range() && Room(d, b.Length, p, |Signed(i)|)
    modifies b
    ensures Stored(d, old(b[..]), b[..], p, p', Signed(i))
  {
    hide Decimal, Magnitude;
    MagnitudeIsAbsolute(w, i);
    var u := Magnitude(w, i);
    DecimalNotEmpty(u);
    ghost var before := b[..];
    var q := p;
    if d.Fwd? {
      b[p] := '-';
      if i < 0 {
        q := p + 1;
      }
    }
    ghost var s1 := b[..];
    p' := ItoaUnsigned(w, d, b, q, u);
    ghost var s2, p1 := b[..], p';
    if d.Rev? && i < 0 {
      p' := p' - 1;
      b[p'] := '-';
    }
    WithSign(d, before, s1, s2, b[..], p, q, p1, p', i, Decimal(u));
  }

  // ----- Any radix -------------------------------------------------------------------------

  /** Behind the letters the characters go on as they do in the character set, and start again at 256. */
  function RadixDigit(d: nat): char
  {
    if d < 10 then Digit(d) else (('A' as int + d - 10) % 256) as char
  }

  /** The numeral of a number in a radix. */
  function InRadix(n: nat, radix: nat): string
    requires 2 <= radix
    decreases n
  {
    if n < radix then [RadixDigit(n)]
    else
      QuotientShrinks(n, radix);
      InRadix(n / radix, radix) + [RadixDigit(n % radix)]
  }

  lemma QuotientShrinks(n: nat, radix: nat)
    requires 2 <= radix
    ensures 0 <= n / radix && (n > 0 ==> n / radix < n)
  {
    var q := n / radix;
    assert n == q * radix + n % radix;
    if q >= 1 {
      AtLeastOnce(q, radix - 2);
      assert q * radix == 2 * q + q * (radix - 2);
    }
  }

  lemma {:induction false} RadixTenIsDecimal(n: nat)
    ensures InRadix(n, 10) == Decimal(n)
  {
    if n >= 10 {
      RadixTenIsDecimal(n / 10);
    }
  }

  function Reversed(s: string): (r: string)
    ensures |r| == |s|
    ensures forall i :: 0 <= i < |s| ==> r[i] == s[|s| - 1 - i]
  {
    if s == "" then "" else Reversed(s[1..]) + [s[0]]
  }

  /** Reverse `b[lo..hi]` in place by exchanging its ends. */
  method ReverseInPlace(b: array<char>, lo: nat, hi: nat)
    requires lo <= hi <= b.Length
    modifies b
    ensures b[lo..hi] == Reversed(old(b[lo..hi]))
    ensures forall k :: 0 <= k < lo || hi <= k < b.Length ==> b[k] == old(b[k])
  {
    ghost var s := b[lo..hi];
    var p, q := lo, hi;
    while p + 1 < q
      invariant lo <= p && q <= hi && p - lo == hi - q && p <= q + 1
      invariant forall k :: lo <= k < p || q <= k < hi ==> b[k] == s[hi - 1 - k]
      invariant forall k :: p <= k < q ==> b[k] == s[k - lo]
      invariant forall k :: 0 <= k < lo || hi <= k < b.Length ==> b[k] == old(b[k])
    {
      b[p], b[q - 1] := b[q - 1], b[p];
      p, q := p + 1, q - 1;
    }
    forall k | lo <= k < hi
      ensures b[k] == s[hi - 1 - k]
    {
      assert p <= k < q ==> hi - 1 - k == k - lo;
    }
    StretchReversed(b, lo, hi, s);
  }

  lemma StretchReversed(b: array<char>, lo: nat, hi: nat, s: string)
    requires lo <= hi <= b.Length && |s| == hi - lo && forall k :: lo <= k < hi ==> b[k] == s[hi - 1 - k]
    ensures b[lo..hi] == Reversed(s)
  {
    hide Reversed;
    forall k | 0 <= k < hi - lo
      ensures b[lo..hi][k] == Reversed(s)[k]
    {
      assert b[lo..hi][k] == b[lo + k] == s[hi - 1 - (lo + k)];
    }
  }

  /** What `xtoa` writes in front of the terminating NUL. */
  function XtoaText(value: int, radix: nat, signed: bool): string
    requires 2 <= radix
  {
    if signed && radix == 10 && value < 0 then "-" + InRadix(-value, radix) else InRadix(value % LONG, radix)
  }

  /** `xtoa`, with the radix as the unsigned number that the source takes it for; the negation in the source is
      undefined for the most negative value in signed decimal. */
  method Xtoa(value: int, b: array<char>, radix: nat, signed: bool) returns (end: nat)
    requires -0x8000_0000_0000_0000 <= value < 0x8000_0000_0000_0000 && 2 <= radix < 0x1_0000_0000
    requires signed && radix == 10 ==> value > -0x8000_0000_0000_0000
    requires |XtoaText(value, radix, signed)| < b.Length
    modifies b
    ensures end == |XtoaText(value, radix, signed)| && b[..end] == XtoaText(value, radix, signed) && b[end] == '\0'
    ensures forall k :: end < k < b.Length ==> b[k] == old(b[k])
  {
    hide InRadix, Reversed;
    var start: nat, n: nat := 0, value % LONG;
    if signed && radix == 10 && value < 0 {
      b[0] := '-';
      start, n := 1, -value;
    }
    end := WriteReversed(n, b, start, radix);
    b[end] := '\0';
    ghost var digits := InRadix(n, radix);
    assert b[start..end] == Reversed(digits);
    ReverseInPlace(b, start, end);
    ReversedTwice(digits);
    assert b[..end] == b[..start] + b[start..end];
  }

  lemma ReversedTwice(s: string)
    ensures Reversed(Reversed(s)) == s
  {
  }

  /** The digits from the last to the first. */
  method WriteReversed(n: nat, b: array<char>, start: nat, radix: nat) returns (end: nat)
    requires 2 <= radix && start + |InRadix(n, radix)| < b.Length
    modifies b
    ensures end == start + |InRadix(n, radix)| && b[start..end] == Reversed(InRadix(n, radix))
    ensures forall k :: 0 <= k < start || end <= k < b.Length ==> b[k] == old(b[k])
  {
    hide InRadix;
    var rest: nat := n;
    end := start;
    ghost var done := "";
    var more := true;
    assert b[start..end] == "";
    while more
      invariant start <= end && end + (if more then |InRadix(rest, radix)| else 0) < b.Length
      invariant InRadix(n, radix) == (if more then InRadix(rest, radix) else "") + done
      invariant b[start..end] == Reversed(done)
      invariant forall k :: 0 <= k < start || end <= k < b.Length ==> b[k] == old(b[k])
      decreases more, rest
    {
      QuotientShrinks(rest, radix);
      RadixStep(rest, radix, done);
      var rem := rest % radix;
      b[end] := RadixDigit(rem);
      assert b[start..end + 1] == b[start..end] + [RadixDigit(rem)];
      done := [RadixDigit(rem)] + done;
      end := end + 1;
      rest := rest / radix;
      more := 0 < rest;
    }
  }

  lemma RadixStep(n: nat, radix: nat, done: string)
    requires 2 <= radix
    ensures 0 <= n / radix && 0 <= n % radix
    ensures var c := RadixDigit(n % radix);
            && InRadix(n, radix) + done == (if 0 < n / radix then InRadix(n / radix, radix) else "") + ([c] + done)
            && |InRadix(n, radix)| == (if 0 < n / radix then |InRadix(n / radix, radix)| else 0) + 1
            && Reversed([c] + done) == Reversed(done) + [c]
  {
    hide InRadix, RadixDigit, Reversed;
    RadixUnfold(n, radix);
    var c := RadixDigit(n % radix);
    var front := if 0 < n / radix then InRadix(n / radix, radix) else "";
    assert front + [c] + done == front + ([c] + done);
    ReversedFirst(c, done);
  }

  lemma ReversedFirst(c: char, s: string)
    ensures Reversed([c] + s) == Reversed(s) + [c]
  {
    assert ([c] + s)[1..] == s;
  }

  lemma RadixUnfold(n: nat, radix: nat)
    requires 2 <= radix
    ensures 0 <= n / radix && 0 <= n % radix
    ensures InRadix(n, radix)
         == (if 0 < n / radix then InRadix(n / radix, radix) else "") + [RadixDigit(n % radix)]
  {
    hide RadixDigit;
    QuotientShrinks(n, radix);
    QuotientPositive(n, radix);
  }

  lemma QuotientPositive(n: nat, radix: nat)
    requires 2 <= radix
    ensures 0 < n / radix <==> radix <= n
    ensures n < radix ==> n % radix == n
  {
  }

  // ----- What the digits say -----------------------------------------------------------------

  /** The digits up to radix 36. */
  lemma RadixDigitTable(d: nat)
    requires d < 36
    ensures RadixDigit(d) == if d < 10 then Ascii.DIGITS[d] else Ascii.CAPITALS[d - 10]
  {
    if d < 10 {
      Ascii.DigitAt(d);
    } else {
      Ascii.CapitalAt(d - 10);
    }
  }

  /** The number that digits denote in a radix, the most significant first. */
  function Weight(ds: seq<nat>, radix: nat): nat {
    if ds == [] then 0 else Weight(ds[..|ds| - 1], radix) * radix + ds[|ds| - 1]
  }

  /** The numeral in any radix denotes the number, and has no zero in front. */
  lemma {:induction false} InRadixDenotes(n: nat, radix: nat) returns (ds: seq<nat>)
    requires 2 <= radix
    ensures |ds| == |InRadix(n, radix)| >= 1 && Weight(ds, radix) == n && (n > 0 ==> ds[0] > 0)
    ensures forall i :: 0 <= i < |ds| ==> ds[i] < radix && InRadix(n, radix)[i] == RadixDigit(ds[i])
    decreases n
  {
    hide RadixDigit, InRadix, Weight;
    RadixUnfold(n, radix);
    var q, r := n / radix, n % radix;
    DivMod(n, radix);
    if q == 0 {
      ds := [r];
      OneDigit(r, radix);
      assert "" + [RadixDigit(r)] == [RadixDigit(r)];
    } else {
      var front := InRadixDenotes(q, radix);
      ds := front + [r];
      MoreDigits(front, r, radix);
    }
  }

  lemma DivMod(n: nat, radix: nat)
    requires 2 <= radix
    ensures n == n / radix * radix + n % radix && n % radix < radix && (n > 0 ==> n / radix < n)
  {
    QuotientShrinks(n, radix);
  }

  lemma OneDigit(n: nat, radix: nat)
    ensures Weight([n], radix) == n
  {
    assert [n][..0] == [];
  }

  lemma MoreDigits(front: seq<nat>, d: nat, radix: nat)
    ensures Weight(front + [d], radix) == Weight(front, radix) * radix + d
  {
    assert (front + [d])[..|front|] == front;
  }
}
