/** The characters and entities of tinyxml2, one by one, apart from how the code tells them. */
module XmlTables {
  import opened Optional
  import opened Ascii
  import opened Numerals
  import opened XmlText
  import opened XmlParse

  // ----- Character classes ---------------------------------------------------------------

  /** `isspace`, the characters that begin a name, and those that go on with it. */
  lemma CharacterClasses(c: char)
    ensures IsWhiteSpace(c) <==> c as int in {9, 10, 11, 12, 13, 32}
    ensures IsNameStartChar(c) <==> IsLetter(c) || c in ":_" || c as int >= 128
    ensures IsNameChar(c) <==> IsLetter(c) || c in DIGITS || c in ":_.-" || c as int >= 128
  {
    LetterPlaces(c);
    DigitPlaces(c);
  }

  /** What the printer writes for each character: in text, and in attribute values. */
  lemma EscapeTable(c: char)
    ensures Escape([c], true) ==
              if c == '&' then "&amp;" else if c == '<' then "&lt;" else if c == '>' then "&gt;" else [c]
    ensures Escape([c], false) ==
              if c == '\"' then "&quot;" else if c == '\'' then "&apos;" else Escape([c], true)
  {
    assert [c][1..] == "" && Escape("", true) == "" && Escape("", false) == "";
  }

  // ----- Character references --------------------------------------------------------------

  /** The value of each digit, in both cases, and no other character has one. */
  lemma HexDigitTable(c: char)
    ensures forall i :: 0 <= i < 16 && (c == LOWER[i] || c == UPPER[i]) ==> HexDigit(c) == Some(i)
    ensures c !in LOWER && c !in UPPER ==> HexDigit(c) == None
    ensures forall i :: 0 <= i < 10 && c == DIGITS[i] ==> DecDigit(c) == Some(i)
    ensures c !in DIGITS ==> DecDigit(c) == None
  {
    DigitPlaces(c);
    if '0' <= c <= '9' {
      assert LOWER[c as int - 48] == c;
    } else if 'a' <= c <= 'f' {
      assert LOWER[c as int - 87] == c;
    } else if 'A' <= c <= 'F' {
      assert UPPER[c as int - 55] == c;
    }
  }

  function Base(hex: bool): nat {
    if hex then 16 else 10
  }

  lemma {:induction false} NumeralSnoc(ds: string, c: char, hex: bool)
    requires Digits(ds, hex) && Digits([c], hex)
    ensures Digits(ds + [c], hex) && Numeral(ds + [c], hex) == Base(hex) * Numeral(ds, hex) + DigitValue(c, hex)
    decreases |ds|
  {
    hide Numeral, Weighted, Pow, DigitValue, HexDigit, DecDigit;
    assert forall i :: 0 <= i < |ds + [c]| ==> (ds + [c])[i] == if i < |ds| then ds[i] else [c][0];
    if ds == "" {
      assert "" + [c] == [c] && [c] + "" == [c];
      Front(c, "", hex);
      NothingCounts(hex);
    } else {
      var d, rest := ds[0], ds[1..];
      assert ds == [d] + rest && ds + [c] == [d] + (rest + [c]) && [d][0] == ds[0];
      NumeralSnoc(rest, c, hex);
      Front(d, rest, hex);
      Front(d, rest + [c], hex);
      PowStep(Base(hex), |rest|);
      Rearranged(DigitValue(d, hex), Pow(Base(hex), |rest|), Base(hex));
    }
  }

  lemma NothingCounts(hex: bool)
    ensures Digits("", hex) && Numeral("", hex) == 0 && Pow(Base(hex), 0) == 1
  {
  }

  lemma PowStep(b: nat, k: nat)
    ensures Pow(b, k + 1) == b * Pow(b, k)
  {
  }

  lemma Rearranged(v: nat, p: nat, b: nat)
    ensures v * (b * p) == b * (v * p)
  {
  }

  lemma DigitIsRight(d: nat, table: string)
    requires d < 16 && (table == LOWER || table == UPPER)
    ensures Digits([table[d]], true) && DigitValue(table[d], true) == d
    ensures d < 10 ==> Digits([Digit(d)], false) && DigitValue(Digit(d), false) == d
  {
    HexDigitTable(table[d]);
    assert d < 10 ==> DIGITS[d] == Digit(d);
    HexDigitTable(DIGITS[if d < 10 then d else 0]);
  }

  lemma {:induction false} HexNumeral(n: nat, table: string)
    requires table == LOWER || table == UPPER
    ensures Digits(Hex(n, table), true) && Numeral(Hex(n, table), true) == n
  {
    hide Numeral, HexDigit, DigitValue, Digits;
    DigitIsRight(n % 16, table);
    if n < 16 {
      NothingCounts(true);
      NumeralSnoc("", table[n], true);
      assert "" + [table[n]] == [table[n]];
    } else {
      HexNumeral(n / 16, table);
      NumeralSnoc(Hex(n / 16, table), table[n % 16], true);
    }
  }

  lemma {:induction false} DecimalNumeral(n: nat)
    ensures Digits(Decimal(n), false) && Numeral(Decimal(n), false) == n
  {
    hide Numeral, DecDigit, DigitValue;
    DigitIsRight(n % 10, LOWER);
    if n < 10 {
      NothingCounts(false);
      NumeralSnoc("", Digit(n), false);
      assert "" + [Digit(n)] == [Digit(n)];
    } else {
      DecimalNumeral(n / 10);
      NumeralSnoc(Decimal(n / 10), Digit(n % 10), false);
    }
  }

  /** The reference to a character by its number, in either case of hexadecimal or in decimal. */
  function Reference(n: nat, form: string): string
    requires form == LOWER || form == UPPER || form == DIGITS
  {
    if form == DIGITS then "&#" + Decimal(n) + ";" else "&#x" + Hex(n, form) + ";"
  }

  /** Every reference below 2^32 is read as its number. */
  lemma ReferenceIsRead(n: nat, form: string, post: string)
    requires n < UINT_RANGE && (form == LOWER || form == UPPER || form == DIGITS)
    ensures var t := Reference(n, form) + post;
            |t| >= 2 && t[0] == '&' && t[1] == '#' &&
            CharacterRef(t) == Some(Piece(|Reference(n, form)|, Utf8(n)))
  {
    hide CharacterRef, Numeral, Weighted, Hex, Decimal, Utf8, Digits;
    if form == DIGITS {
      DecimalNumeral(n);
      WeightedValue(Decimal(n), false);
      CharacterRefValue(Decimal(n), post, false);
    } else {
      HexNumeral(n, form);
      WeightedValue(Hex(n, form), true);
      CharacterRefValue(Hex(n, form), post, true);
    }
  }

  /** So it is shown as that character in UTF-8. */
  lemma ReferenceIsShown(n: nat, form: string, flags: Flags)
    requires n < UINT_RANGE && (form == LOWER || form == UPPER || form == DIGITS) && flags.entities
    ensures Decode(Reference(n, form), 0, "", flags) == Utf8(n)
  {
    hide CharacterRef, Reference, Utf8, FindEntity, Decode;
    var v := Reference(n, form);
    ReferenceIsRead(n, form, "");
    assert v + "" == v && v[0..] == v;
    OneStep(v, 0, "", flags, Piece(|v|, Utf8(n)));
    assert "" + Utf8(n) == Utf8(n);
    NothingToRead(v, Utf8(n), flags);
    assert Utf8(n) + "" == Utf8(n);
  }

  /** The byte order mark is the character U+FEFF. */
  lemma ByteOrderMark()
    ensures BOM == Utf8(0xFEFF)
  {
  }
}
