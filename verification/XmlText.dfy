/** Character data of tinyxml2: the entity escaping that the printer applies and the lazy,
    in-place decoding that `StrPair::GetStr` applies to the text the parser cut out. */
module XmlText {
  import opened Optional

  const NUL: char := '\0'
  const CR: char := '\r'
  const LF: char := '\n'

  // ----- Character classes ---------------------------------------------------

  predicate IsWhiteSpace(c: char) {
    c == ' ' || '\t' <= c <= '\r'
  }

  predicate IsDigit(c: char) {
    '0' <= c <= '9'
  }

  predicate IsNameStartChar(c: char) {
    c >= '\U{80}' || 'a' <= c <= 'z' || 'A' <= c <= 'Z' || c == ':' || c == '_'
  }

  predicate IsNameChar(c: char) {
    IsNameStartChar(c) || IsDigit(c) || c == '.' || c == '-'
  }

  // ----- Escaping ------------------------------------------------------------

  datatype Entity = Entity(pattern: string, value: char)

  const ENTITIES: seq<Entity> := [
    Entity("quot", '\"'),
    Entity("amp", '&'),
    Entity("apos", '\''),
    Entity("lt", '<'),
    Entity("gt", '>')
  ]

  /** Which characters the printer replaces: the restricted set in text, all five in attribute values. */
  predicate IsEscaped(c: char, restricted: bool) {
    c == '&' || c == '<' || c == '>' || (!restricted && (c == '\"' || c == '\''))
  }

  function Pattern(c: char): string
    requires IsEscaped(c, false)
  {
    if c == '\"' then "quot" else if c == '&' then "amp" else if c == '\'' then "apos"
    else if c == '<' then "lt" else "gt"
  }

  function EscapeChar(c: char, restricted: bool): string {
    if IsEscaped(c, restricted) then "&" + Pattern(c) + ";" else [c]
  }

  function Escape(s: string, restricted: bool): string {
    if s == "" then "" else EscapeChar(s[0], restricted) + Escape(s[1..], restricted)
  }

  // ----- Decoding ------------------------------------------------------------

  datatype Flags = Flags(entities: bool, newlines: bool, collapse: bool)

  const UINT_RANGE: nat := 0x1_0000_0000
  const ULONG_RANGE: nat := 0x1_0000_0000_0000_0000

  /** `strchr` from position `i`: the first position of `c`, or the length when there is none. */
  function IndexOf(t: string, c: char, i: nat): (r: nat)
    requires i <= |t|
    ensures i <= r <= |t|
    ensures r < |t| ==> t[r] == c
    ensures forall k :: i <= k < r ==> t[k] != c
    decreases |t| - i
  {
    if i == |t| || t[i] == c then i else IndexOf(t, c, i + 1)
  }

  function HexDigit(c: char): Option<nat> {
    if '0' <= c <= '9' then Some(c as int - '0' as int)
    else if 'a' <= c <= 'f' then Some(c as int - 'a' as int + 10)
    else if 'A' <= c <= 'F' then Some(c as int - 'A' as int + 10)
    else None
  }

  function DecDigit(c: char): Option<nat> {
    if IsDigit(c) then Some(c as int - '0' as int) else None
  }

  /** The backward scan over the digits of a reference, from position `j` down to the nearest `stop`.
      `mult` is a 32-bit and `ucs` a 64-bit unsigned variable, and both wrap around. */
  function BackScan(t: string, j: nat, hex: bool, mult: nat, ucs: nat): (r: Option<nat>)
    requires j < |t|
    requires exists k :: 0 <= k <= j && t[k] == (if hex then 'x' else '#')
    ensures r.Some? && ucs < ULONG_RANGE ==> r.value < ULONG_RANGE
    decreases j
  {
    if t[j] == (if hex then 'x' else '#') then Some(ucs)
    else
      var d := if hex then HexDigit(t[j]) else DecDigit(t[j]);
      var base := if hex then 16 else 10;
      if d.None? then None
      else BackScan(t, j - 1, hex, (mult * base) % UINT_RANGE, (ucs + (mult * d.value) % UINT_RANGE) % ULONG_RANGE)
  }

  /** A byte of the given value. */
  function Byte(b: nat): (c: char)
    requires b < 256
    ensures c as int == b
  {
    b as char
  }

  /** A continuation byte: `(input | 0x80) & 0xBF`, the low six bits of the input under the mark 10. */
  function Continuation(n: nat): char {
    Byte(0x80 + n % 64)
  }

  function Utf8(n: nat): (r: string)
    ensures |r| <= 4
  {
    if n < 0x80 then [Byte(n)]
    else if n < 0x800 then [Byte(0xC0 + n / 64), Continuation(n)]
    else if n < 0x10000 then [Byte(0xE0 + n / 4096), Continuation(n / 64), Continuation(n)]
    else if n < 0x200000 then
      [Byte(0xF0 + n / 262144), Continuation(n / 4096), Continuation(n / 64), Continuation(n)]
    else ""
  }

  /** What one decoding step reads (a count) and what it writes. */
  datatype Piece = Piece(read: nat, written: string)

  /** `GetCharacterRef` on a text that starts with `&#`; None is its null result. */
  function CharacterRef(t: string): (r: Option<Piece>)
    requires |t| >= 2 && t[0] == '&' && t[1] == '#'
    ensures r.Some? ==> 1 <= r.value.read <= |t| && |r.value.written| <= r.value.read
  {
    if |t| == 2 then Some(Piece(1, ""))
    else
      var hex := t[2] == 'x';
      var first := if hex then 3 else 2;
      if first == |t| then None
      else
        var semi := IndexOf(t, ';', first);
        if semi == |t| then None
        else
          assert t[if hex then 2 else 1] == (if hex then 'x' else '#');
          var ucs := BackScan(t, semi - 1, hex, 1, 0);
          if ucs.None? then None
          else
            assert semi == 2 ==> ucs.value == 0;
            Some(Piece(semi + 1, Utf8(ucs.value)))
  }

  /** The entity of the table that `t`, the text after `&`, starts with. */
  function FindEntity(t: string, i: nat): (r: Option<Entity>)
    requires i <= |ENTITIES|
    ensures r.Some? ==> r.value in ENTITIES && |r.value.pattern| + 1 <= |t|
    decreases |ENTITIES| - i
  {
    if i == |ENTITIES| then None
    else if ENTITIES[i].pattern + ";" <= t then Some(ENTITIES[i])
    else FindEntity(t, i + 1)
  }

  /** One step of the decoding loop at read position `p` and write position `q`. An unknown entity advances
      both positions without a store, so that the character found there is the one still in the buffer. */
  function DecodeStep(v: string, p: nat, q: nat, flags: Flags): (r: Piece)
    requires q <= p < |v|
    ensures 1 <= r.read <= |v| - p && |r.written| <= r.read
  {
    var c := v[p];
    var next := if p + 1 < |v| then v[p + 1] else NUL;
    if flags.newlines && c == CR then Piece(if next == LF then 2 else 1, [LF])
    else if flags.newlines && c == LF then Piece(if next == CR then 2 else 1, [LF])
    else if flags.entities && c == '&' then
      if next == '#' then
        var ref := CharacterRef(v[p..]);
        if ref.None? then Piece(1, [c]) else ref.value
      else
        var e := FindEntity(v[p + 1..], 0);
        if e.Some? then Piece(|e.value.pattern| + 2, [e.value.value]) else Piece(1, [v[q]])
    else Piece(1, [c])
  }

  /** The text decoded from `v[p..]` after `out` has been written. */
  function Decode(v: string, p: nat, out: string, flags: Flags): (r: string)
    requires |out| <= p <= |v|
    ensures |r| <= |v|
    decreases |v| - p
  {
    if p == |v| then out
    else
      var s := DecodeStep(v, p, |out|, flags);
      Decode(v, p + s.read, out + s.written, flags)
  }

  // ----- Decoding undoes escaping --------------------------------------------

  predicate Plain(s: string) {
    forall i :: 0 <= i < |s| ==> s[i] != CR && s[i] != NUL
  }

  lemma {:induction false} EscapeConcat(a: string, b: string, restricted: bool)
    ensures Escape(a + b, restricted) == Escape(a, restricted) + Escape(b, restricted)
  {
    if a == "" {
      assert a + b == b;
    } else {
      EscapeConcat(a[1..], b, restricted);
      assert (a + b)[1..] == a[1..] + b;
    }
  }

  /** Escaping is invisible to everything but the escaped characters: no escaped character survives, no new
      line end, NUL or white space appears, and the result starts as the text does. */
  lemma {:induction false} EscapeShape(s: string, restricted: bool)
    ensures |s| <= |Escape(s, restricted)|
    ensures forall c :: c in Escape(s, restricted) && !(c in s) ==> c == '&' || c == ';' || 'a' <= c <= 'z'
    ensures forall c :: c in Escape(s, restricted) && c != '&' ==> !IsEscaped(c, restricted)
  {
    if s != "" {
      EscapeShape(s[1..], restricted);
      var e := EscapeChar(s[0], restricted);
      assert forall c :: c in e ==> c == s[0] || c == '&' || c == ';' || 'a' <= c <= 'z';
      assert Escape(s, restricted) == e + Escape(s[1..], restricted);
    }
  }

  lemma FindEntityOfPattern(c: char, post: string)
    requires IsEscaped(c, false)
    ensures FindEntity(Pattern(c) + ";" + post, 0) == Some(Entity(Pattern(c), c))
  {
    var t := Pattern(c) + ";" + post;
    assert Pattern(c) + ";" <= t;
    assert t[0] == Pattern(c)[0] && t[1] == Pattern(c)[1];
    var i := if c == '\"' then 0 else if c == '&' then 1 else if c == '\'' then 2 else if c == '<' then 3 else 4;
    forall j | 0 <= j < i
      ensures !(ENTITIES[j].pattern + ";" <= t)
    {
      assert (ENTITIES[j].pattern + ";")[0] != t[0] || (ENTITIES[j].pattern + ";")[1] != t[1];
    }
    FindEntitySkips(t, 0, i);
  }

  lemma {:induction false} FindEntitySkips(t: string, i: nat, k: nat)
    requires i <= k < |ENTITIES|
    requires forall j :: i <= j < k ==> !(ENTITIES[j].pattern + ";" <= t)
    requires ENTITIES[k].pattern + ";" <= t
    ensures FindEntity(t, i) == Some(ENTITIES[k])
    decreases k - i
  {
    if i < k {
      FindEntitySkips(t, i + 1, k);
    }
  }

  lemma DecodeStepOfEscape(pre: string, c: char, post: string, q: nat, flags: Flags, restricted: bool)
    requires flags.entities && (flags.newlines ==> c != CR && c != LF)
    requires q <= |pre|
    ensures var e := EscapeChar(c, restricted);
            DecodeStep(pre + e + post, |pre|, q, flags) == Piece(|e|, [c])
  {
    hide DecodeStep, Pattern;
    if IsEscaped(c, restricted) {
      DecodeStepOfEntity(pre, c, post, q, flags);
    } else {
      DecodeStepOfPlain(pre, c, post, q, flags);
    }
  }

  lemma DecodeStepOfEntity(pre: string, c: char, post: string, q: nat, flags: Flags)
    requires flags.entities && q <= |pre| && IsEscaped(c, false)
    ensures DecodeStep(pre + ("&" + Pattern(c) + ";") + post, |pre|, q, flags) == Piece(|Pattern(c)| + 2, [c])
  {
    hide FindEntity, Pattern, CharacterRef;
    var v := pre + ("&" + Pattern(c) + ";") + post;
    FindEntityOfPattern(c, post);
    PatternStart(c);
    assert v[|pre| + 1..] == Pattern(c) + ";" + post;
    assert v[|pre|] == '&' && v[|pre| + 1] == Pattern(c)[0];
  }

  lemma PatternStart(c: char)
    requires IsEscaped(c, false)
    ensures |Pattern(c)| > 0 && Pattern(c)[0] != '#'
  {
  }

  lemma DecodeStepOfPlain(pre: string, c: char, post: string, q: nat, flags: Flags)
    requires q <= |pre| && c != '&' && (flags.newlines ==> c != CR && c != LF)
    ensures DecodeStep(pre + [c] + post, |pre|, q, flags) == Piece(1, [c])
  {
    hide FindEntity, CharacterRef;
    var v := pre + [c] + post;
    assert v[|pre|] == c && (post != "" ==> v[|pre| + 1] == post[0]);
  }

  /** How many characters of a line end the text starts with: a carriage return, a line feed, or both in either
      order. */
  function LineEnd(s: string): (r: nat)
    ensures r <= |s|
  {
    if s == "" || (s[0] != CR && s[0] != LF) then 0
    else if |s| > 1 && s[1] == (if s[0] == CR then LF else CR) then 2
    else 1
  }

  /** The text with a line feed for every line end. */
  function Newlines(s: string): (r: string)
    ensures |r| <= |s| && CR !in r
    decreases |s|
  {
    if s == "" then ""
    else if LineEnd(s) > 0 then [LF] + Newlines(s[LineEnd(s)..])
    else [s[0]] + Newlines(s[1..])
  }

  lemma {:induction false} NewlinesIsIdentityIff(s: string)
    ensures Newlines(s) == s <==> CR !in s
  {
    if CR !in s && s != "" {
      NewlinesIsIdentityIff(s[1..]);
      assert [s[0]] + s[1..] == s;
    }
  }

  lemma EscapeFirst(s: string, restricted: bool)
    ensures s == "" <==> Escape(s, restricted) == ""
    ensures s != "" ==> Escape(s, restricted)[0] == if IsEscaped(s[0], restricted) then '&' else s[0]
  {
    hide Pattern;
  }

  lemma NewlinesStep(s: string)
    requires s != ""
    ensures Newlines(s) == if LineEnd(s) > 0 then [LF] + Newlines(s[LineEnd(s)..]) else [s[0]] + Newlines(s[1..])
  {
  }

  /** A line end is written as it is. */
  lemma EscapeOfLineEnd(rest: string, restricted: bool)
    requires LineEnd(rest) > 0
    ensures Escape(rest, restricted) == rest[..LineEnd(rest)] + Escape(rest[LineEnd(rest)..], restricted)
  {
    hide Escape;
    var n := LineEnd(rest);
    assert rest[..n] + rest[n..] == rest;
    EscapeConcat(rest[..n], rest[n..], restricted);
    EscapeLineEnds(rest[..n], restricted);
  }

  lemma {:induction false} EscapeLineEnds(s: string, restricted: bool)
    requires forall i :: 0 <= i < |s| ==> s[i] == CR || s[i] == LF
    ensures Escape(s, restricted) == s
  {
    if s != "" {
      EscapeLineEnds(s[1..], restricted);
      assert [s[0]] + s[1..] == s;
    }
  }

  lemma LineEndStep(v: string, p: nat, q: nat, flags: Flags)
    requires flags.newlines && q <= p < |v| && LineEnd(v[p..]) > 0
    ensures DecodeStep(v, p, q, flags) == Piece(LineEnd(v[p..]), [LF])
  {
    hide FindEntity, CharacterRef;
    assert v[p..][0] == v[p] && (p + 1 < |v| ==> v[p..][1] == v[p + 1]);
  }

  lemma SameLineEnd(rest: string, restricted: bool)
    ensures LineEnd(Escape(rest, restricted)) == LineEnd(rest)
  {
    hide Pattern;
    EscapeFirst(rest, restricted);
    if LineEnd(rest) > 0 {
      assert Escape(rest, restricted) == [rest[0]] + Escape(rest[1..], restricted);
      EscapeFirst(rest[1..], restricted);
    }
  }

  /** A line end is read as one line feed. */
  lemma DecodeStepOfLineEnd(pre: string, rest: string, q: nat, flags: Flags, restricted: bool)
    requires flags.newlines && q <= |pre| && LineEnd(rest) > 0
    ensures Escape(rest, restricted) == rest[..LineEnd(rest)] + Escape(rest[LineEnd(rest)..], restricted)
    ensures Escape(rest, restricted) != ""
    ensures DecodeStep(pre + Escape(rest, restricted), |pre|, q, flags) == Piece(LineEnd(rest), [LF])
  {
    hide DecodeStep, EscapeChar;
    var v := pre + Escape(rest, restricted);
    EscapeOfLineEnd(rest, restricted);
    SameLineEnd(rest, restricted);
    assert v[|pre|..] == Escape(rest, restricted);
    LineEndStep(v, |pre|, q, flags);
  }

  lemma OneStep(v: string, p: nat, out: string, flags: Flags, s: Piece)
    requires |out| <= p < |v| && DecodeStep(v, p, |out|, flags) == s
    ensures s.read > 0 && p + s.read <= |v| && |out + s.written| <= p + s.read
    ensures Decode(v, p, out, flags) == Decode(v, p + s.read, out + s.written, flags)
  {
    hide DecodeStep;
  }

  /** The text that is read when `rest` was written. */
  function ReadBack(rest: string, flags: Flags): string {
    if flags.newlines then Newlines(rest) else rest
  }

  lemma ReadBackStep(rest: string, flags: Flags)
    requires rest != ""
    ensures ReadBack(rest, flags) ==
              if flags.newlines && LineEnd(rest) > 0 then [LF] + ReadBack(rest[LineEnd(rest)..], flags)
              else [rest[0]] + ReadBack(rest[1..], flags)
  {
  }

  lemma {:induction false} DecodeEscapeFrom(v: string, pre: string, done: string, rest: string, flags: Flags,
                                            restricted: bool)
    requires flags.entities && v == pre + Escape(rest, restricted) && |done| <= |pre|
    ensures Decode(v, |pre|, done, flags) == done + ReadBack(rest, flags)
    decreases |rest|
  {
    hide DecodeStep, EscapeChar, Decode, ReadBack;
    if rest == "" {
      NothingToRead(v, done, flags);
    } else {
      ReadBackStep(rest, flags);
      if flags.newlines && LineEnd(rest) > 0 {
        var n := LineEnd(rest);
        DecodeStepOfLineEnd(pre, rest, |done|, flags, restricted);
        assert v == pre + rest[..n] + Escape(rest[n..], restricted);
        OneStep(v, |pre|, done, flags, Piece(n, [LF]));
        DecodeEscapeFrom(v, pre + rest[..n], done + [LF], rest[n..], flags, restricted);
        assert done + ([LF] + ReadBack(rest[n..], flags)) == done + [LF] + ReadBack(rest[n..], flags);
      } else {
        DecodeOneCharacter(v, pre, done, rest, flags, restricted);
        var c, tail := rest[0], rest[1..];
        DecodeEscapeFrom(v, pre + EscapeChar(c, restricted), done + [c], tail, flags, restricted);
        assert done + ([c] + ReadBack(tail, flags)) == done + [c] + ReadBack(tail, flags);
      }
    }
  }

  lemma NothingToRead(v: string, done: string, flags: Flags)
    requires |done| <= |v|
    ensures Decode(v, |v|, done, flags) == done + ReadBack("", flags)
  {
    assert done + "" == done;
  }

  lemma DecodeOneCharacter(v: string, pre: string, done: string, rest: string, flags: Flags, restricted: bool)
    requires flags.entities && v == pre + Escape(rest, restricted) && |done| <= |pre| && rest != ""
    requires !(flags.newlines && LineEnd(rest) > 0)
    ensures var e := EscapeChar(rest[0], restricted);
            && v == pre + e + Escape(rest[1..], restricted) && |done + [rest[0]]| <= |pre + e|
            && Decode(v, |pre|, done, flags) == Decode(v, |pre + e|, done + [rest[0]], flags)
  {
    hide DecodeStep, EscapeChar, Decode;
    var c, e := rest[0], EscapeChar(rest[0], restricted);
    assert v == pre + e + Escape(rest[1..], restricted);
    DecodeStepOfEscape(pre, c, Escape(rest[1..], restricted), |done|, flags, restricted);
    OneStep(v, |pre|, done, flags, Piece(|e|, [c]));
  }

  /** Decoding what `PrintString` wrote gives the text back, for either escape set, with its line ends normalised
      if the reader does that. */
  lemma DecodeUndoesEscape(s: string, flags: Flags, restricted: bool)
    requires flags.entities
    ensures Decode(Escape(s, restricted), 0, "", flags) == if flags.newlines then Newlines(s) else s
  {
    assert Escape(s, restricted) == "" + Escape(s, restricted);
    DecodeEscapeFrom(Escape(s, restricted), "", "", s, flags, restricted);
    assert "" + ReadBack(s, flags) == ReadBack(s, flags);
  }

  /** Without entities decoding is the normalisation of line ends. */
  lemma {:induction false} DecodeRaw(v: string, p: nat, out: string, flags: Flags)
    requires !flags.entities && flags.newlines && |out| <= p <= |v|
    ensures Decode(v, p, out, flags) == out + Newlines(v[p..])
    decreases |v| - p
  {
    hide DecodeStep, Decode, Newlines;
    if p == |v| {
      NothingToRead(v, out, flags);
      assert v[p..] == "";
    } else {
      RawStep(v, p, |out|, flags);
      var s := DecodeStep(v, p, |out|, flags);
      OneStep(v, p, out, flags, s);
      DecodeRaw(v, p + s.read, out + s.written, flags);
      assert v[p..][s.read..] == v[p + s.read..];
      assert out + s.written + Newlines(v[p + s.read..]) == out + (s.written + Newlines(v[p + s.read..]));
    }
  }

  lemma RawStep(v: string, p: nat, q: nat, flags: Flags)
    requires !flags.entities && flags.newlines && q <= p < |v|
    ensures var s := DecodeStep(v, p, q, flags);
            Newlines(v[p..]) == s.written + Newlines(v[p..][s.read..])
  {
    hide FindEntity, CharacterRef;
    assert v[p..][0] == v[p] && (p + 1 < |v| ==> v[p..][1] == v[p + 1]);
  }

  /** An unknown entity behind a known one: the place of its ampersand is stepped over, and what was there, a
      letter of the known one, is left in the text. */
  lemma StaleCharacter(flags: Flags)
    requires flags.entities
    ensures Decode("&lt;&x;", 0, "", flags) == "<lx;"
  {
    hide DecodeStep;
    var v := "&lt;&x;";
    assert "" + ("&" + Pattern('<') + ";") + "&x;" == v;
    DecodeStepOfEntity("", '<', "&x;", 0, flags);
    UnknownStep(v, flags);
    assert "&lt;&" + ['x'] + ";" == v && "&lt;&x" + [';'] + "" == v;
    DecodeStepOfPlain("&lt;&", 'x', ";", 2, flags);
    DecodeStepOfPlain("&lt;&x", ';', "", 3, flags);
    assert Decode(v, 7, "<lx;", flags) == "<lx;";
    assert Decode(v, 6, "<lx", flags) == "<lx;";
    assert Decode(v, 5, "<l", flags) == "<lx;";
    assert Decode(v, 4, "<", flags) == "<lx;";
  }

  lemma UnknownStep(v: string, flags: Flags)
    requires flags.entities && v == "&lt;&x;"
    ensures DecodeStep(v, 4, 1, flags) == Piece(1, ['l'])
  {
    hide CharacterRef, FindEntity;
    assert v[4] == '&' && v[5] == 'x' && v[1] == 'l';
    NoEntity(v[5..]);
  }

  lemma NoEntity(t: string)
    requires t != "" && t[0] == 'x'
    ensures FindEntity(t, 0) == None
  {
    forall i | 0 <= i < |ENTITIES|
      ensures !(ENTITIES[i].pattern + ";" <= t)
    {
      assert (ENTITIES[i].pattern + ";")[0] != 'x';
    }
    NoneFound(t, 0);
  }

  lemma {:induction false} NoneFound(t: string, i: nat)
    requires i <= |ENTITIES| && forall j :: i <= j < |ENTITIES| ==> !(ENTITIES[j].pattern + ";" <= t)
    ensures FindEntity(t, i) == None
    decreases |ENTITIES| - i
  {
    if i < |ENTITIES| {
      NoneFound(t, i + 1);
    }
  }

  // ----- Numeric character references ----------------------------------------

  predicate Digits(ds: string, hex: bool) {
    forall i :: 0 <= i < |ds| ==> (if hex then HexDigit(ds[i]) else DecDigit(ds[i])).Some?
  }

  function DigitValue(c: char, hex: bool): nat
    requires Digits([c], hex)
  {
    assert [c][0] == c;
    if hex then HexDigit(c).value else DecDigit(c).value
  }

  function Pow(b: nat, k: nat): nat {
    if k == 0 then 1 else b * Pow(b, k - 1)
  }

  /** The number that the digits denote, most significant digit first. */
  function Numeral(ds: string, hex: bool): nat
    requires Digits(ds, hex)
  {
    if ds == "" then 0
    else
      assert Digits([ds[0]], hex);
      DigitValue(ds[0], hex) * Pow(if hex then 16 else 10, |ds| - 1) + Numeral(ds[1..], hex)
  }

  /** What the backward scan makes of the digits: each weight is taken modulo 2^32, their sum modulo 2^64. */
  function Weighted(ds: string, hex: bool): (r: nat)
    requires Digits(ds, hex)
    ensures r < ULONG_RANGE
  {
    if ds == "" then 0
    else
      assert Digits([ds[0]], hex);
      var weight := DigitValue(ds[0], hex) * Pow(if hex then 16 else 10, |ds| - 1);
      assert weight >= 0;
      (Weighted(ds[1..], hex) + weight % UINT_RANGE) % ULONG_RANGE
  }

  lemma ModProduct(a: nat, b: nat)
    ensures (a % UINT_RANGE * b) % UINT_RANGE == (a * b) % UINT_RANGE
  {
    var q := a / UINT_RANGE;
    assert a * b == (a % UINT_RANGE) * b + UINT_RANGE * (q * b);
  }

  lemma DigitTimes(d: nat, b: nat, p: nat)
    requires d < b
    ensures d * p + p <= b * p
  {
    assert b * p == (d + 1) * p + (b - d - 1) * p;
  }

  lemma {:induction false} NumeralBound(ds: string, hex: bool)
    requires Digits(ds, hex)
    ensures Numeral(ds, hex) < Pow(if hex then 16 else 10, |ds|)
  {
    if ds != "" {
      NumeralBound(ds[1..], hex);
      assert Digits([ds[0]], hex);
      var b := if hex then 16 else 10;
      DigitTimes(DigitValue(ds[0], hex), b, Pow(b, |ds| - 1));
    }
  }

  lemma {:induction false} PowSum(b: nat, i: nat, j: nat)
    ensures Pow(b, i + j) == Pow(b, i) * Pow(b, j)
  {
    if i > 0 {
      PowSum(b, i - 1, j);
      Regroup(b, Pow(b, i - 1), Pow(b, j));
    }
  }

  lemma Regroup(a: nat, b: nat, c: nat)
    ensures a * (b * c) == a * b * c
  {
  }

  lemma {:induction false} PowPositive(b: nat, k: nat)
    requires b > 0
    ensures Pow(b, k) > 0
  {
    if k > 0 {
      PowPositive(b, k - 1);
      DigitTimes(0, b, Pow(b, k - 1));
    }
  }

  lemma PowMonotonic(b: nat, i: nat, k: nat)
    requires b > 0 && i <= k
    ensures Pow(b, i) <= Pow(b, k)
  {
    hide Pow;
    PowSum(b, k - i, i);
    PowPositive(b, k - i);
    DigitTimes(0, Pow(b, k - i), Pow(b, i));
  }

  lemma SixteenToEight()
    ensures Pow(16, 8) == UINT_RANGE
  {
    PowSum(16, 4, 4);
    assert Pow(16, 4) == 65536;
  }

  lemma TenToTen()
    ensures Pow(10, 10) == 100_0000_0000
  {
    PowSum(10, 5, 5);
    assert Pow(10, 5) == 100000;
  }

  // ----- Hexadecimal references

  /** One hexadecimal digit in front of others. */
  lemma HexStep(d: nat, low: nat, k: nat)
    requires d < 16 && low < Pow(16, k)
    ensures d * Pow(16, k) >= 0
    ensures (low % UINT_RANGE + d * Pow(16, k) % UINT_RANGE) % ULONG_RANGE == (d * Pow(16, k) + low) % UINT_RANGE
  {
    hide Pow;
    var p := Pow(16, k);
    SixteenToEight();
    NotNegative(d, p);
    if k >= 8 {
      PowSum(16, k - 8, 8);
      Regroup(d, Pow(16, k - 8), UINT_RANGE);
      NotNegative(d, Pow(16, k - 8));
      Vanishes(d * Pow(16, k - 8), low);
    } else {
      PowMonotonic(16, k + 1, 8);
      PowSum(16, 1, k);
      SixteenToOne();
      DigitTimes(d, 16, p);
      SmallSum(low, d * p);
    }
  }

  lemma SixteenToOne()
    ensures Pow(16, 1) == 16
  {
    assert Pow(16, 0) == 1;
  }

  lemma Vanishes(q: nat, n: nat)
    ensures (q * UINT_RANGE) % UINT_RANGE == 0
    ensures (n % UINT_RANGE + 0) % ULONG_RANGE == (q * UINT_RANGE + n) % UINT_RANGE
  {
  }

  lemma NotNegative(d: nat, p: nat)
    ensures d * p >= 0
  {
  }

  lemma SmallSum(low: nat, x: nat)
    requires low + x < UINT_RANGE
    ensures (low % UINT_RANGE + x % UINT_RANGE) % ULONG_RANGE == (x + low) % UINT_RANGE
  {
  }

  /** Hexadecimal digits, any number of them: their value modulo 2^32. */
  lemma {:induction false} HexValue(ds: string)
    requires Digits(ds, true)
    ensures Weighted(ds, true) == Numeral(ds, true) % UINT_RANGE
  {
    hide Pow;
    if ds != "" {
      HexValue(ds[1..]);
      NumeralBound(ds[1..], true);
      assert Digits([ds[0]], true);
      HexStep(DigitValue(ds[0], true), Numeral(ds[1..], true), |ds| - 1);
    }
  }

  // ----- Decimal references

  /** No digit has a weight of 2^32 or more. */
  predicate Fits(ds: string)
    requires Digits(ds, false)
  {
    ds != "" ==>
      assert Digits([ds[0]], false);
      DigitValue(ds[0], false) * Pow(10, |ds| - 1) < UINT_RANGE && Fits(ds[1..])
  }

  lemma {:induction false} DecimalAtMost(ds: string)
    requires Digits(ds, false)
    ensures Weighted(ds, false) <= Numeral(ds, false)
    ensures Weighted(ds, false) == Numeral(ds, false) ==> Fits(ds)
  {
    hide Pow, DigitValue;
    if ds != "" {
      DecimalAtMost(ds[1..]);
      assert Digits([ds[0]], false);
      var d, p := DigitValue(ds[0], false), Pow(10, |ds| - 1);
      NotNegative(d, p);
      SumAtMost(Weighted(ds[1..], false), Numeral(ds[1..], false), d * p);
    }
  }

  lemma SumAtMost(a: nat, b: nat, w: nat)
    requires a <= b
    ensures (a + w % UINT_RANGE) % ULONG_RANGE <= w + b
    ensures (a + w % UINT_RANGE) % ULONG_RANGE == w + b ==> a == b && w < UINT_RANGE
  {
  }

  lemma {:induction false} DecimalFits(ds: string)
    requires Digits(ds, false) && Fits(ds)
    ensures Weighted(ds, false) == Numeral(ds, false) < 100_0000_0000
  {
    hide Pow, DigitValue;
    if ds != "" {
      DecimalFits(ds[1..]);
      assert Digits([ds[0]], false);
      var d, p := DigitValue(ds[0], false), Pow(10, |ds| - 1);
      NotNegative(d, p);
      TenToTen();
      if |ds| <= 10 {
        NumeralBound(ds, false);
        PowMonotonic(10, |ds|, 10);
      } else {
        PowMonotonic(10, 10, |ds| - 1);
        HighDigit(d, p);
      }
      SumFits(Weighted(ds[1..], false), d * p);
    }
  }

  lemma HighDigit(d: nat, p: nat)
    requires d * p < UINT_RANGE <= p
    ensures d * p == 0
  {
    if d > 0 {
      DigitTimes(0, d, p);
    }
  }

  lemma SumFits(a: nat, w: nat)
    requires a < 100_0000_0000 && w < UINT_RANGE
    ensures (a + w % UINT_RANGE) % ULONG_RANGE == w + a
  {
  }

  /** A number below 2^32 fits, with any number of zeros in front. */
  lemma {:induction false} SmallFits(ds: string)
    requires Digits(ds, false) && Numeral(ds, false) < UINT_RANGE
    ensures Fits(ds)
  {
    hide Pow;
    if ds != "" {
      assert Digits([ds[0]], false);
      NotNegative(DigitValue(ds[0], false), Pow(10, |ds| - 1));
      SmallFits(ds[1..]);
    }
  }

  /** What the digits of a reference stand for. */
  lemma WeightedValue(ds: string, hex: bool)
    requires Digits(ds, hex)
    ensures hex ==> Weighted(ds, hex) == Numeral(ds, hex) % UINT_RANGE
    ensures !hex ==> (Weighted(ds, hex) == Numeral(ds, hex) <==> Fits(ds))
    ensures !hex && Numeral(ds, hex) < UINT_RANGE ==> Weighted(ds, hex) == Numeral(ds, hex)
  {
    hide Weighted, Numeral, Fits;
    if hex {
      HexValue(ds);
    } else {
      DecimalAtMost(ds);
      if Fits(ds) {
        DecimalFits(ds);
      }
      if Numeral(ds, hex) < UINT_RANGE {
        SmallFits(ds);
      }
    }
  }

  lemma {:induction false} Zeros(ds: string, hex: bool)
    requires forall i :: 0 <= i < |ds| ==> ds[i] == '0'
    ensures Digits(ds, hex) && Numeral(ds, hex) == 0 && Weighted(ds, hex) == 0
  {
    if ds != "" {
      hide Pow;
      Zeros(ds[1..], hex);
      assert Digits([ds[0]], hex) && DigitValue(ds[0], hex) == 0;
    }
  }

  /** A digit in front of others. */
  lemma Front(c: char, ds: string, hex: bool)
    requires Digits([c], hex) && Digits(ds, hex)
    ensures var w := DigitValue(c, hex) * Pow(if hex then 16 else 10, |ds|);
            && w >= 0 && Digits([c] + ds, hex) && Numeral([c] + ds, hex) == w + Numeral(ds, hex)
            && Weighted([c] + ds, hex) == (Weighted(ds, hex) + w % UINT_RANGE) % ULONG_RANGE
  {
    hide Pow, DigitValue, Weighted, Numeral, HexDigit, DecDigit;
    var s := [c] + ds;
    assert s[1..] == ds && s[0] == c && [c][0] == c;
    NotNegative(DigitValue(c, hex), Pow(if hex then 16 else 10, |ds|));
    FrontValue(s, hex);
  }

  lemma FrontValue(s: string, hex: bool)
    requires s != "" && Digits(s, hex) && Digits([s[0]], hex)
    ensures var w := DigitValue(s[0], hex) * Pow(if hex then 16 else 10, |s| - 1);
            && Numeral(s, hex) == w + Numeral(s[1..], hex)
            && (w >= 0 ==> Weighted(s, hex) == (Weighted(s[1..], hex) + w % UINT_RANGE) % ULONG_RANGE)
  {
    hide Pow, DigitValue;
  }

  lemma PowersOfTen()
    ensures Pow(10, 9) == 10_0000_0000
  {
    PowSum(10, 4, 5);
    assert Pow(10, 4) == 10000 && Pow(10, 5) == 100000;
  }

  /** Five thousand million in decimal wraps around in its first digit, to a number without a UTF-8 form, so that
      the reference disappears. */
  lemma DecimalWraps()
    ensures Digits("5000000000", false)
    ensures Numeral("5000000000", false) == 50_0000_0000 && Weighted("5000000000", false) == 7_0503_2704
    ensures CharacterRef("&#" + "5000000000" + ";" + "") == Some(Piece(13, ""))
  {
    hide Pow, CharacterRef, DecDigit, HexDigit, Numeral, Weighted;
    FiveAndZeros();
    CharacterRefValue("5000000000", "", false);
  }

  lemma FiveAndZeros()
    ensures Digits("5000000000", false)
    ensures Numeral("5000000000", false) == 50_0000_0000 && Weighted("5000000000", false) == 7_0503_2704
  {
    hide Pow, Numeral, Weighted;
    Zeros("000000000", false);
    assert ['5'] + "000000000" == "5000000000";
    assert Digits(['5'], false) && DigitValue('5', false) == 5;
    Front('5', "000000000", false);
    PowersOfTen();
  }

  lemma CapitalA()
    ensures Digits("41", true) && Numeral("41", true) == 65 && Utf8(65) == "A"
  {
    assert Digits(['4'], true) && Digits(['1'], true) && Digits("", true);
    Front('1', "", true);
    Front('4', "1", true);
    assert ['1'] + "" == "1" && ['4'] + "1" == "41";
    SixteenToOne();
    assert Pow(16, 0) == 1;
  }

  lemma {:induction false} ZerosInFront(zeros: string, ds: string)
    requires Digits(ds, true) && forall i :: 0 <= i < |zeros| ==> zeros[i] == '0'
    ensures Digits(zeros + ds, true) && Numeral(zeros + ds, true) == Numeral(ds, true)
  {
    hide Pow, Numeral, Weighted;
    if zeros == "" {
      assert zeros + ds == ds;
    } else {
      ZerosInFront(zeros[1..], ds);
      assert ['0'] + (zeros[1..] + ds) == zeros + ds;
      assert Digits(['0'], true) && DigitValue('0', true) == 0;
      Front('0', zeros[1..] + ds, true);
    }
  }

  lemma OneAndCapitalA()
    ensures Digits("100000041", true) && Weighted("100000041", true) == 65
  {
    hide Pow, Numeral, Weighted;
    CapitalA();
    ZerosInFront("000000", "41");
    assert "000000" + "41" == "00000041" && ['1'] + "00000041" == "100000041";
    assert Digits(['1'], true) && DigitValue('1', true) == 1;
    Front('1', "00000041", true);
    SixteenToEight();
    WeightedValue("100000041", true);
  }

  /** A hexadecimal reference that is 2^32 too large stands for the character. */
  lemma HexWraps()
    ensures CharacterRef("&#x" + "100000041" + ";" + "") == Some(Piece(13, "A"))
  {
    hide Pow, CharacterRef, Utf8, Weighted, Numeral, Digits;
    CapitalA();
    OneAndCapitalA();
    CharacterRefValue("100000041", "", true);
  }

  predicate Reference(t: string, ds: string, hex: bool) {
    var pre := if hex then "&#x" else "&#";
    Digits(ds, hex) && pre + ds + ";" <= t
  }

  lemma ReferenceAt(t: string, ds: string, hex: bool)
    requires Reference(t, ds, hex)
    ensures var start := if hex then 3 else 2;
            start + |ds| < |t| && t[start - 1] == (if hex then 'x' else '#') && t[start + |ds|] == ';' &&
            forall i :: 0 <= i < |ds| ==> t[start + i] == ds[i] && t[start + i] != 'x' && t[start + i] != '#'
  {
    var pre := if hex then "&#x" else "&#";
    var all := pre + ds + ";";
    assert forall i :: 0 <= i < |all| ==> t[i] == all[i];
    forall i | 0 <= i < |ds|
      ensures t[|pre| + i] == ds[i]
    {
      assert all[|pre| + i] == ds[i];
    }
  }

  lemma ScanStep(ds: string, hex: bool, k: nat)
    requires Digits(ds, hex) && k < |ds|
    ensures var b, c := if hex then 16 else 10, ds[|ds| - k - 1];
            Digits([c], hex) &&
            (Weighted(ds[|ds| - k..], hex) + (Pow(b, k) % UINT_RANGE * DigitValue(c, hex)) % UINT_RANGE) % ULONG_RANGE
            == Weighted(ds[|ds| - k - 1..], hex)
    ensures var b := if hex then 16 else 10;
            (Pow(b, k) % UINT_RANGE * b) % UINT_RANGE == Pow(b, k + 1) % UINT_RANGE
  {
    hide Pow, HexDigit, DecDigit, DigitValue;
    var b, c := if hex then 16 else 10, ds[|ds| - k - 1];
    var low, low' := ds[|ds| - k..], ds[|ds| - k - 1..];
    assert low'[1..] == low && low'[0] == c;
    assert Digits([c], hex);
    var d, p := DigitValue(c, hex), Pow(b, k);
    NotNegative(d, p);
    Commute(d, p);
    ModProduct(p, d);
    ModProduct(p, b);
    PowNext(b, k);
  }

  lemma Commute(a: nat, b: nat)
    ensures a * b == b * a
  {
  }

  lemma PowNext(b: nat, k: nat)
    ensures Pow(b, k + 1) == Pow(b, k) * b
  {
  }

  lemma {:induction false} BackScanDigits(t: string, ds: string, hex: bool, k: nat)
    requires Reference(t, ds, hex) && k <= |ds|
    ensures var j := |ds| - k + (if hex then 2 else 1);
            j < |t| && t[if hex then 2 else 1] == (if hex then 'x' else '#') &&
            BackScan(t, j, hex, Pow(if hex then 16 else 10, k) % UINT_RANGE, Weighted(ds[|ds| - k..], hex))
            == Some(Weighted(ds, hex))
    decreases |ds| - k
  {
    hide Pow, Weighted;
    ReferenceAt(t, ds, hex);
    if k == |ds| {
      assert ds[|ds| - k..] == ds;
    } else {
      var i := |ds| - k - 1;
      assert t[i + (if hex then 3 else 2)] == ds[i];
      ScanStep(ds, hex, k);
      BackScanDigits(t, ds, hex, k + 1);
    }
  }

  /** A reference of any number of digits is read to its semicolon and stands for their weighted sum. */
  lemma CharacterRefValue(ds: string, post: string, hex: bool)
    requires Digits(ds, hex)
    ensures var pre := if hex then "&#x" else "&#";
            CharacterRef(pre + ds + ";" + post) == Some(Piece(|pre| + |ds| + 1, Utf8(Weighted(ds, hex))))
  {
    hide Utf8, BackScan, Weighted, Pow;
    var pre := if hex then "&#x" else "&#";
    var t := pre + ds + ";" + post;
    assert Reference(t, ds, hex);
    ReferenceAt(t, ds, hex);
    assert t[2] == (if hex then 'x' else (ds + ";")[0]);
    SemicolonAt(t, ds, hex);
    WholeScan(t, ds, hex);
  }

  lemma WholeScan(t: string, ds: string, hex: bool)
    requires Reference(t, ds, hex)
    ensures var j := |ds| + (if hex then 2 else 1);
            j < |t| && t[if hex then 2 else 1] == (if hex then 'x' else '#') &&
            BackScan(t, j, hex, 1, 0) == Some(Weighted(ds, hex))
  {
    hide BackScan, HexDigit, DecDigit, Weighted, Pow;
    BackScanDigits(t, ds, hex, 0);
    NothingScanned(ds, hex);
  }

  lemma NothingScanned(ds: string, hex: bool)
    requires Digits(ds, hex)
    ensures Digits(ds[|ds| - 0..], hex) && Weighted(ds[|ds| - 0..], hex) == 0
    ensures Pow(if hex then 16 else 10, 0) % UINT_RANGE == 1
  {
  }

  lemma SemicolonAt(t: string, ds: string, hex: bool)
    requires Reference(t, ds, hex)
    ensures var first := if hex then 3 else 2;
            first <= |t| && IndexOf(t, ';', first) == first + |ds| < |t|
  {
    ReferenceAt(t, ds, hex);
    var first := if hex then 3 else 2;
    forall k | first <= k < first + |ds|
      ensures t[k] != ';'
    {
      assert t[first + (k - first)] == ds[k - first];
    }
  }

  // ----- UTF-8 (section 3 of RFC 3629) ---------------------------------------

  predicate Tail(c: char) {
    0x80 <= c as int < 0xC0
  }

  /** The number that a well laid out UTF-8 sequence of one to four bytes stands for. */
  function Utf8Value(s: string): Option<nat> {
    if |s| == 1 && s[0] as int < 0x80 then Some(s[0] as int)
    else if |s| == 2 && 0xC0 <= s[0] as int < 0xE0 && Tail(s[1]) then
      Some((s[0] as int - 0xC0) * 64 + (s[1] as int - 0x80))
    else if |s| == 3 && 0xE0 <= s[0] as int < 0xF0 && Tail(s[1]) && Tail(s[2]) then
      Some((s[0] as int - 0xE0) * 4096 + (s[1] as int - 0x80) * 64 + (s[2] as int - 0x80))
    else if |s| == 4 && 0xF0 <= s[0] as int < 0xF8 && Tail(s[1]) && Tail(s[2]) && Tail(s[3]) then
      Some((s[0] as int - 0xF0) * 262144 + (s[1] as int - 0x80) * 4096 + (s[2] as int - 0x80) * 64
           + (s[3] as int - 0x80))
    else None
  }

  /** `ConvertUTF32ToUTF8` lays out every value below 0x200000 so that it can be read back, in the fewest
      bytes, and writes nothing for a larger value. */
  lemma Utf8RoundTrip(n: nat)
    ensures n < 0x200000 <==> Utf8Value(Utf8(n)) == Some(n)
    ensures n >= 0x200000 ==> Utf8(n) == ""
    ensures n < 0x200000 ==>
              |Utf8(n)| == if n < 0x80 then 1 else if n < 0x800 then 2 else if n < 0x10000 then 3 else 4
  {
    var a, b := n / 64, n / 4096;
    assert a / 64 == b && b / 64 == n / 262144;
    assert n == a * 64 + n % 64 && a == b * 64 + a % 64 && b == b / 64 * 64 + b % 64;
  }
}
