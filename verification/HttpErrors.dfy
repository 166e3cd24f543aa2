/** Which requests the parser refuses, whatever follows. */
module HttpErrors {
  import opened Optional
  import opened HttpRequest
  import opened HttpRoundTrip

  /** A control character, or DEL. */
  predicate BreaksToken(c: char) {
    c as int < 32 || c as int == 127
  }

  lemma {:induction false} TokenBreaks(buf: string, p: nat, w: string, c: char)
    requires Here(buf, p, w + [c]) && GoodToken(w) && BreaksToken(c)
    ensures TokenEnd(buf, p) == Bad
    decreases |w|
  {
    HereAt(buf, p, w + [c], 0);
    if w != "" {
      HereSplit(buf, p, w, [c]);
      assert buf[p + 1..p + |w + [c]|] == w[1..] + [c];
      TokenBreaks(buf, p + 1, w[1..], c);
    }
  }

  /** In the method. */
  lemma MethodIsRefused(w: string, c: char, rest: string, maxHeaders: nat)
    requires GoodToken(w) && BreaksToken(c) && (w == "" ==> c != '\r' && c != '\n')
    ensures Parse(w + [c] + rest, maxHeaders) == Bad
  {
    hide TokenEnd, Headers;
    var buf := w + [c] + rest;
    assert Here(buf, 0, w + [c]);
    HereAt(buf, 0, w + [c], 0);
    assert LineEnd(buf, 0, true) == Got((), 0);
    TokenBreaks(buf, 0, w, c);
  }

  /** In the path. */
  lemma PathIsRefused(w: string, v: string, c: char, rest: string, maxHeaders: nat)
    requires GoodToken(w) && GoodToken(v) && BreaksToken(c)
    ensures Parse(w + (" " + (v + [c] + rest)), maxHeaders) == Bad
  {
    hide TokenEnd, Headers, Here;
    var buf := w + (" " + (v + [c] + rest));
    MethodIsHere(w, v + [c] + rest);
    HereSplit(buf, |w| + 1, v + [c], rest);
    TokenBreaks(buf, |w| + 1, v, c);
  }

  /** A method without an empty line in front, and what follows it. */
  lemma MethodIsHere(w: string, t: string)
    requires GoodToken(w)
    ensures var buf := w + (" " + t);
            && Here(buf, |w| + 1, t) && LineEnd(buf, 0, true) == Got((), 0)
            && TokenEnd(buf, 0) == Got((), |w|)
  {
    hide TokenEnd;
    var buf := w + (" " + t);
    assert Here(buf, 0, w + (" " + t));
    HereSplit(buf, 0, w, " " + t);
    HereSplit(buf, |w|, " ", t);
    HereAt(buf, |w|, " ", 0);
    TokenRead(buf, 0, w);
    if w != "" {
      HereAt(buf, 0, w, 0);
    }
  }

  /** Nine bytes behind the path that are not the version with a digit and one byte more. */
  lemma VersionIsRefused(w: string, v: string, t: string, maxHeaders: nat)
    requires GoodToken(w) && GoodToken(v) && |t| >= 9
    requires t[..7] != "HTTP/1." || !('0' <= t[7] <= '9') || (t[8] != '\r' && t[8] != '\n')
    ensures Parse(w + (" " + (v + (" " + t))), maxHeaders) == Bad
  {
    hide TokenEnd, Headers, Here;
    var buf, b := w + (" " + (v + (" " + t))), |w| + 1 + |v|;
    MethodIsHere(w, v + (" " + t));
    HereSplit(buf, |w| + 1, v, " " + t);
    HereSplit(buf, b, " ", t);
    HereAt(buf, b, " ", 0);
    HereBound(buf, b + 1, t);
    TokenRead(buf, |w| + 1, v);
    VersionBreaks(buf, b + 1, t);
  }

  lemma VersionBreaks(buf: string, p: nat, t: string)
    requires Here(buf, p, t) && |t| >= 9
    requires t[..7] != "HTTP/1." || !('0' <= t[7] <= '9') || (t[8] != '\r' && t[8] != '\n')
    ensures p <= |buf|
    ensures var r := Version(buf, p); r == Bad || (r.Got? && LineEnd(buf, r.pos, false) == Bad)
  {
    HereAt(buf, p, t, 7);
    HereAt(buf, p, t, 8);
    assert buf[p..p + 7] == buf[p..p + |t|][..7];
  }

  // ----- Header lines ------------------------------------------------------------------

  lemma {:induction false} NameBreaks(buf: string, p: nat, w: string, c: char)
    requires Here(buf, p, w + [c]) && (forall i :: 0 <= i < |w| ==> IsTchar(w[i])) && !IsTchar(c) && c != ':'
    ensures NameEnd(buf, p) == Bad
    decreases |w|
  {
    hide IsTchar, IsTokenChar;
    HereAt(buf, p, w + [c], 0);
    TokenTable(buf[p]);
    ColonIsNoToken();
    if w != "" {
      HereSplit(buf, p, w, [c]);
      assert buf[p + 1..p + |w + [c]|] == w[1..] + [c];
      NameBreaks(buf, p + 1, w[1..], c);
    }
  }

  lemma ColonIsNoToken()
    ensures !IsTchar(':')
  {
  }

  /** A line that begins neither with a blank nor with its end, and whose name is empty or holds another character
      than those of tokens. */
  lemma NameIsRefused(buf: string, p: nat, w: string, c: char, before: seq<Header>, max: nat)
    requires Here(buf, p, w + [c]) && (forall i :: 0 <= i < |w| ==> IsTchar(w[i]))
    requires if c == ':' then w == "" else !IsTchar(c) && (w == "" ==> c !in " \t\r\n")
    ensures Headers(buf, p, before, max) == Bad
  {
    hide IsTchar, NameEnd;
    HereAt(buf, p, w + [c], 0);
    if w != "" {
      TcharIsInk(w[0]);
    }
    if c == ':' {
      EmptyName(buf, p);
    } else {
      NameBreaks(buf, p, w, c);
    }
    assert HeaderLine(buf, p, before == []) == Bad;
  }

  lemma EmptyName(buf: string, p: nat)
    requires p < |buf| && buf[p] == ':'
    ensures HeaderName(buf, p) == Bad
  {
  }

  lemma TcharIsInk(c: char)
    requires IsTchar(c)
    ensures !IsBlank(c) && c != '\r' && c != '\n'
  {
  }

  /** A value that holds a control character, or a carriage return without its line feed. */
  lemma ValueBreaks(buf: string, p: nat, v: string, c: char, d: char)
    requires Here(buf, p, v + [c, d]) && GoodValue(v) && BreaksToken(c) && c != '\t' && c != '\n'
    requires c == '\r' ==> d != '\n'
    ensures p <= |buf| && TokenToEol(buf, p) == Bad
  {
    hide GoodValue;
    ValueIsText(v);
    HereSplit(buf, p, v, [c, d]);
    HereAt(buf, p + |v|, [c, d], 0);
    HereAt(buf, p + |v|, [c, d], 1);
    assert IsControl(buf[p + |v|]);
    var q := ControlFrom(buf, p);
    if q < p + |v| {
      HereAt(buf, p, v, q - p);
    }
  }

  lemma ValueIsRefused(buf: string, p: nat, name: string, gap: string, v: string, c: char, d: char,
                       before: seq<Header>, max: nat)
    requires Here(buf, p, name + (":" + (gap + (v + [c, d])))) && GoodName(name) && GoodGap(gap)
    requires GoodValue(v) && (v != "" ==> v[0] !in " \t") && BreaksToken(c) && c != '\t' && c != '\n'
    requires c == '\r' ==> d != '\n'
    ensures p <= |buf| && Headers(buf, p, before, max) == Bad
  {
    hide Here, TokenToEol, NameEnd, SkipBlanks, IsTokenChar, GoodName, GoodValue, GoodGap;
    var q, tail := p + |name|, v + [c, d];
    NamedParts(buf, p, name, gap, tail);
    NameIsToken(name);
    HereAt(buf, p, name, 0);
    NameRead(buf, p, name);
    GapRead(buf, q + 1, gap);
    ValueBreaks(buf, q + 1 + |gap|, v, c, d);
    assert HeaderName(buf, p) == Got(Slice(p, |name|), q + 1 + |gap|);
    assert HeaderLine(buf, p, before == []) == Bad;
  }
}
