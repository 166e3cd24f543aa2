/** What a client writes, the request parser reads: the slices are the texts, at their places. */
module HttpRoundTrip {
  import opened Optional
  import opened HttpRequest

  /** Either line end will do. */
  datatype Eol = Crlf | Lf

  function Ending(e: Eol): (s: string)
    ensures s != ""
  {
    if e == Crlf then "\r\n" else "\n"
  }

  /** A line of the header section: a name and a value with any blanks in front of it, or the continuation of the
      line before. */
  datatype Line = Line(name: Option<string>, gap: string, value: string, eol: Eol)

  /** A request, with an empty line in front or not, and the line ends of its first and of its last line. */
  datatype Message =
    Message(lead: Option<Eol>, method_: string, path: string, minorVersion: nat, eol: Eol, lines: seq<Line>, last: Eol)

  function WriteLine(l: Line): string {
    match l.name
    case Some(name) => name + (":" + (l.gap + (l.value + Ending(l.eol))))
    case None => l.value + Ending(l.eol)
  }

  function WriteLines(lines: seq<Line>, last: Eol, rest: string): string {
    if lines == [] then Ending(last) + rest else WriteLine(lines[0]) + WriteLines(lines[1..], last, rest)
  }

  function Digit(n: nat): char
    requires n < 10
  {
    ('0' as int + n) as char
  }

  function WriteVersion(n: nat): string
    requires n < 10
  {
    "HTTP/1." + [Digit(n)]
  }

  function Lead(m: Message): string {
    if m.lead.Some? then Ending(m.lead.value) else ""
  }

  /** Behind the request line. */
  function Later(m: Message, rest: string): string {
    Ending(m.eol) + WriteLines(m.lines, m.last, rest)
  }

  /** The request, and whatever follows it on the connection. */
  function Write(m: Message, rest: string): string
    requires m.minorVersion < 10
  {
    Lead(m) + (m.method_ + (" " + (m.path + (" " + (WriteVersion(m.minorVersion) + Later(m, rest))))))
  }

  // ----- Requests that can be written ---------------------------------------------------------

  /** A method or a path: neither blanks nor control characters. */
  predicate GoodToken(s: string) {
    forall i :: 0 <= i < |s| ==> s[i] > ' ' && s[i] != '\U{7F}'
  }

  /** The delimiters of section 3.2.6 of RFC 7230. */
  const DELIMITERS: string := "\"(),/:;<=>?@[\\]{}"

  /** A character of a token as that section has it: visible, and no delimiter. */
  predicate IsTchar(c: char) {
    33 <= c as int <= 126 && c !in DELIMITERS
  }

  predicate GoodName(s: string) {
    s != "" && forall i :: 0 <= i < |s| ==> IsTchar(s[i])
  }

  /** No control characters but tabs. */
  predicate GoodValue(s: string) {
    forall i :: 0 <= i < |s| ==> s[i] as int == 9 || 32 <= s[i] as int < 127 || 127 < s[i] as int
  }

  predicate GoodGap(s: string) {
    forall i :: 0 <= i < |s| ==> s[i] in " \t"
  }

  predicate GoodLine(l: Line, first: bool) {
    GoodValue(l.value) &&
    match l.name
    case Some(name) => GoodName(name) && GoodGap(l.gap) && (l.value != "" ==> l.value[0] !in " \t")
    case None => !first && l.value != "" && l.value[0] in " \t"
  }

  /** The table of the parser is the rule of the standard. */
  lemma TokenTable(c: char)
    ensures IsTokenChar(c) <==> IsTchar(c)
  {
  }

  lemma ControlTable(c: char)
    ensures IsControl(c) <==> c as int < 9 || 9 < c as int < 32 || c as int == 127
    ensures IsBlank(c) <==> c in " \t"
  {
  }

  lemma NameIsToken(w: string)
    requires GoodName(w)
    ensures w != ""
    ensures forall i :: 0 <= i < |w| ==> IsTokenChar(w[i]) && !IsBlank(w[i]) && w[i] != '\r' && w[i] != '\n'
  {
    forall i | 0 <= i < |w|
      ensures IsTokenChar(w[i]) && !IsBlank(w[i]) && w[i] != '\r' && w[i] != '\n'
    {
      TokenTable(w[i]);
    }
  }

  lemma ValueIsText(w: string)
    requires GoodValue(w)
    ensures forall i :: 0 <= i < |w| ==> !IsControl(w[i])
  {
  }

  predicate GoodMessage(m: Message) {
    GoodToken(m.method_) && GoodToken(m.path) && m.minorVersion < 10 &&
    forall i :: 0 <= i < |m.lines| ==> GoodLine(m.lines[i], i == 0)
  }

  // ----- Places in a buffer --------------------------------------------------------------------------

  predicate Here(buf: string, p: nat, w: string) {
    p + |w| <= |buf| && buf[p..p + |w|] == w
  }

  lemma HereSplit(buf: string, p: nat, a: string, b: string)
    requires Here(buf, p, a + b)
    ensures Here(buf, p, a) && Here(buf, p + |a|, b)
  {
    assert buf[p..p + |a|] == (a + b)[..|a|];
    assert buf[p + |a|..p + |a + b|] == (a + b)[|a|..];
  }

  lemma HereAt(buf: string, p: nat, w: string, i: nat)
    requires Here(buf, p, w) && i < |w|
    ensures buf[p + i] == w[i]
  {
    assert buf[p..p + |w|][i] == w[i];
  }

  function Text(buf: string, s: Slice): string {
    if s.start + s.length <= |buf| then buf[s.start..s.start + s.length] else ""
  }

  /** A header that was read is the line that was written. */
  predicate Shows(buf: string, h: Header, l: Line) {
    Text(buf, h.value) == l.value &&
    match l.name
    case Some(name) => h.name.Some? && Text(buf, h.name.value) == name
    case None => h.name.None?
  }

  // ----- Reading what was written ------------------------------------------------------------------------

  lemma {:induction false} TokenRead(buf: string, p: nat, w: string)
    requires Here(buf, p, w) && GoodToken(w) && p + |w| < |buf| && buf[p + |w|] == ' '
    ensures TokenEnd(buf, p) == Got((), p + |w|)
    decreases |w|
  {
    if w != "" {
      HereAt(buf, p, w, 0);
      assert buf[p + 1..p + |w|] == w[1..];
      TokenRead(buf, p + 1, w[1..]);
    }
  }

  lemma {:induction false} NameRead(buf: string, p: nat, w: string)
    requires Here(buf, p, w) && (forall i :: 0 <= i < |w| ==> IsTokenChar(w[i])) && p + |w| < |buf|
    requires buf[p + |w|] == ':'
    ensures NameEnd(buf, p) == Got((), p + |w|)
    decreases |w|
  {
    if w != "" {
      HereAt(buf, p, w, 0);
      assert buf[p + 1..p + |w|] == w[1..];
      NameRead(buf, p + 1, w[1..]);
    }
  }

  lemma EolRead(buf: string, p: nat, w: string, e: Eol)
    requires Here(buf, p, w + Ending(e)) && GoodValue(w)
    ensures TokenToEol(buf, p) == Got(Slice(p, |w|), p + |w| + |Ending(e)|) && Here(buf, p, w)
  {
    hide GoodValue;
    ValueIsText(w);
    HereSplit(buf, p, w, Ending(e));
    HereAt(buf, p + |w|, Ending(e), 0);
    HereAt(buf, p + |w|, Ending(e), |Ending(e)| - 1);
    assert IsControl(buf[p + |w|]);
    var q := ControlFrom(buf, p);
    if q < p + |w| {
      HereAt(buf, p, w, q - p);
    }
  }

  lemma LineEndRead(buf: string, p: nat, e: Eol, optional: bool)
    requires Here(buf, p, Ending(e))
    ensures p < |buf| && (buf[p] == '\r' || buf[p] == '\n')
    ensures LineEnd(buf, p, optional) == Got((), p + |Ending(e)|)
  {
    HereAt(buf, p, Ending(e), 0);
    HereAt(buf, p, Ending(e), |Ending(e)| - 1);
  }

  lemma {:induction false} GapRead(buf: string, p: nat, w: string)
    requires Here(buf, p, w) && GoodGap(w) && p + |w| < |buf| && !IsBlank(buf[p + |w|])
    ensures SkipBlanks(buf, p) == Got((), p + |w|)
    decreases |w|
  {
    if w != "" {
      HereAt(buf, p, w, 0);
      assert buf[p + 1..p + |w|] == w[1..];
      GapRead(buf, p + 1, w[1..]);
    }
  }

  /** The places of the parts of a named line. */
  lemma NamedParts(buf: string, p: nat, name: string, gap: string, tail: string)
    requires Here(buf, p, name + (":" + (gap + tail))) && tail != ""
    ensures var q := p + |name|;
      Here(buf, p, name) && Here(buf, q + 1, gap) && Here(buf, q + 1 + |gap|, tail) && q + 1 + |gap| < |buf| &&
      buf[q] == ':' && buf[q + 1 + |gap|] == tail[0]
  {
    var q := p + |name|;
    HereSplit(buf, p, name, ":" + (gap + tail));
    HereSplit(buf, q, ":", gap + tail);
    HereAt(buf, q, ":", 0);
    HereSplit(buf, q + 1, gap, tail);
    HereAt(buf, q + 1 + |gap|, tail, 0);
  }

  lemma ValueStart(value: string, e: Eol)
    requires value != "" ==> value[0] !in " \t"
    ensures value + Ending(e) != "" && !IsBlank((value + Ending(e))[0])
  {
  }

  lemma NamedRead(buf: string, p: nat, l: Line, first: bool)
    requires l.name.Some? && Here(buf, p, WriteLine(l)) && GoodLine(l, true)
    ensures var v := p + |l.name.value| + 1 + |l.gap|;
      && p < |buf| && Here(buf, p, l.name.value) && Here(buf, v, l.value)
      && HeaderLine(buf, p, first) ==
           Got(Header(Some(Slice(p, |l.name.value|)), Slice(v, |l.value|)), v + |l.value| + |Ending(l.eol)|)
  {
    hide Here, TokenToEol, NameEnd, SkipBlanks, IsTokenChar, Ending, GoodName, GoodValue, GoodGap;
    var name, tail := l.name.value, l.value + Ending(l.eol);
    var q := p + |name|;
    ValueStart(l.value, l.eol);
    NamedParts(buf, p, name, l.gap, tail);
    NameIsToken(name);
    HereAt(buf, p, name, 0);
    NameRead(buf, p, name);
    GapRead(buf, q + 1, l.gap);
    EolRead(buf, q + 1 + |l.gap|, l.value, l.eol);
    assert HeaderName(buf, p) == Got(Slice(p, |name|), q + 1 + |l.gap|);
  }

  lemma ContinuationRead(buf: string, p: nat, l: Line)
    requires l.name.None? && Here(buf, p, WriteLine(l)) && GoodLine(l, false)
    ensures p < |buf| && Here(buf, p, l.value)
    ensures HeaderLine(buf, p, false) == Got(Header(None, Slice(p, |l.value|)), p + |l.value| + |Ending(l.eol)|)
  {
    hide TokenToEol, GoodValue, Ending;
    EolRead(buf, p, l.value, l.eol);
    HereAt(buf, p, l.value, 0);
    ControlTable(l.value[0]);
  }

  lemma TextHere(buf: string, p: nat, w: string)
    requires Here(buf, p, w)
    ensures Text(buf, Slice(p, |w|)) == w
  {
  }

  lemma LineRead(buf: string, p: nat, l: Line, first: bool)
    requires Here(buf, p, WriteLine(l)) && GoodLine(l, first)
    ensures p < |buf|
    ensures var r := HeaderLine(buf, p, first);
      r.Got? && r.pos == p + |WriteLine(l)| && Shows(buf, r.value, l)
  {
    hide HeaderLine, Here, Text;
    match l.name
    case None =>
      ContinuationRead(buf, p, l);
      TextHere(buf, p, l.value);
    case Some(name) =>
      NamedRead(buf, p, l, first);
      TextHere(buf, p, name);
      TextHere(buf, p + |name| + 1 + |l.gap|, l.value);
  }

  lemma {:induction false} LinesRead(buf: string, p: nat, lines: seq<Line>, last: Eol, rest: string,
                                     before: seq<Header>, max: nat)
    requires Here(buf, p, WriteLines(lines, last, rest)) && |before| + |lines| <= max
    requires forall i :: 0 <= i < |lines| ==> GoodLine(lines[i], before == [] && i == 0)
    ensures var r := Headers(buf, p, before, max);
      r.Got? && r.pos + |rest| == p + |WriteLines(lines, last, rest)| && |r.value| == |before| + |lines| &&
      r.value[..|before|] == before && forall i :: 0 <= i < |lines| ==> Shows(buf, r.value[|before| + i], lines[i])
    decreases |lines|
  {
    hide Here, HeaderLine, Shows, WriteLine, GoodLine;
    if lines == [] {
      HereSplit(buf, p, Ending(last), rest);
      LineEndRead(buf, p, last, false);
    } else {
      var l, others := lines[0], lines[1..];
      HereSplit(buf, p, WriteLine(l), WriteLines(others, last, rest));
      LineRead(buf, p, l, before == []);
      StartOfLine(buf, p, l, before == []);
      var r := HeaderLine(buf, p, before == []);
      HereBound(buf, p, WriteLine(l));
      var now := before + [r.value];
      LinesRead(buf, r.pos, others, last, rest, now, max);
      var all := Headers(buf, r.pos, now, max).value;
      assert all[..|now|][..|before|] == before && all[|before|] == now[|before|];
      forall i | 0 <= i < |lines| ensures Shows(buf, all[|before| + i], lines[i]) {
        if i > 0 {
          assert lines[i] == others[i - 1];
          assert all[|before| + i] == all[|now| + (i - 1)];
        }
      }
    }
  }

  /** One line more than there is room for. */
  lemma {:induction false} TooManyLines(buf: string, p: nat, lines: seq<Line>, last: Eol, rest: string,
                                        before: seq<Header>, max: nat)
    requires Here(buf, p, WriteLines(lines, last, rest)) && |before| <= max < |before| + |lines|
    requires forall i :: 0 <= i < |lines| ==> GoodLine(lines[i], before == [] && i == 0)
    ensures p <= |buf| && Headers(buf, p, before, max) == Bad
    decreases |lines|
  {
    hide Here, HeaderLine, Shows, WriteLine, GoodLine;
    var l, others := lines[0], lines[1..];
    HereSplit(buf, p, WriteLine(l), WriteLines(others, last, rest));
    StartOfLine(buf, p, l, before == []);
    if |before| < max {
      LineRead(buf, p, l, before == []);
      TooManyLines(buf, HeaderLine(buf, p, before == []).pos, others, last, rest,
        before + [HeaderLine(buf, p, before == []).value], max);
    }
  }

  lemma HereBound(buf: string, p: nat, w: string)
    requires Here(buf, p, w)
    ensures p + |w| <= |buf|
  {
  }

  lemma StartOfLine(buf: string, p: nat, l: Line, first: bool)
    requires Here(buf, p, WriteLine(l)) && GoodLine(l, first)
    ensures p < |buf| && buf[p] != '\r' && buf[p] != '\n'
  {
    if l.name.Some? {
      NameIsToken(l.name.value);
    }
    HereAt(buf, p, WriteLine(l), 0);
  }

  lemma VersionRead(buf: string, p: nat, n: nat, e: Eol)
    requires n < 10 && Here(buf, p, WriteVersion(n) + Ending(e))
    ensures Version(buf, p) == Got(n, p + 8) && LineEnd(buf, p + 8, false) == Got((), p + 8 + |Ending(e)|)
  {
    var w := WriteVersion(n) + Ending(e);
    assert w == "HTTP/1." + ([Digit(n)] + Ending(e));
    HereSplit(buf, p, "HTTP/1.", [Digit(n)] + Ending(e));
    HereSplit(buf, p, WriteVersion(n), Ending(e));
    HereAt(buf, p, w, 7);
    LineEndRead(buf, p + 8, e, false);
  }

  /** Where the path begins, the blank behind it stands, and the request line ends. */
  function PathAt(m: Message): nat {
    |Lead(m)| + |m.method_| + 1
  }

  function BlankAt(m: Message): nat {
    PathAt(m) + |m.path|
  }

  function LinesAt(m: Message): nat {
    BlankAt(m) + 9 + |Ending(m.eol)|
  }

  /** The places of the parts of the request line. */
  lemma RequestParts(m: Message, rest: string)
    requires m.minorVersion < 10
    ensures var buf := Write(m, rest);
      && Here(buf, 0, Lead(m)) && Here(buf, |Lead(m)|, m.method_) && PathAt(m) <= |buf| && buf[PathAt(m) - 1] == ' '
      && Here(buf, PathAt(m), m.path) && BlankAt(m) < |buf| && buf[BlankAt(m)] == ' '
      && Here(buf, BlankAt(m) + 1, WriteVersion(m.minorVersion) + Ending(m.eol))
      && Here(buf, LinesAt(m), WriteLines(m.lines, m.last, rest))
  {
    hide Here, Write, WriteVersion, WriteLines, Ending, Lead;
    var buf, a := Write(m, rest), PathAt(m) - 1;
    WholeIsHere(m, rest);
    HereSplit(buf, 0, Lead(m), m.method_ + (" " + AfterMethod(m, rest)));
    HereSplit(buf, |Lead(m)|, m.method_, " " + AfterMethod(m, rest));
    HereSplit(buf, a, " ", AfterMethod(m, rest));
    HereAt(buf, a, " ", 0);
    HereBound(buf, a, " ");
    PathParts(buf, m, rest);
  }

  function AfterMethod(m: Message, rest: string): string
    requires m.minorVersion < 10
  {
    m.path + (" " + (WriteVersion(m.minorVersion) + Later(m, rest)))
  }

  lemma WholeIsHere(m: Message, rest: string)
    requires m.minorVersion < 10
    ensures Here(Write(m, rest), 0, Lead(m) + (m.method_ + (" " + AfterMethod(m, rest))))
  {
    hide WriteVersion, Later, Lead;
  }

  lemma PathParts(buf: string, m: Message, rest: string)
    requires m.minorVersion < 10 && Here(buf, PathAt(m), AfterMethod(m, rest))
    ensures Here(buf, PathAt(m), m.path) && BlankAt(m) < |buf| && buf[BlankAt(m)] == ' '
    ensures Here(buf, BlankAt(m) + 1, WriteVersion(m.minorVersion) + Ending(m.eol))
    ensures Here(buf, LinesAt(m), WriteLines(m.lines, m.last, rest))
  {
    hide Here, WriteVersion, WriteLines, Ending, Lead;
    var b, version := BlankAt(m), WriteVersion(m.minorVersion);
    HereSplit(buf, PathAt(m), m.path, " " + (version + Later(m, rest)));
    HereSplit(buf, b, " ", version + Later(m, rest));
    HereAt(buf, b, " ", 0);
    HereBound(buf, b, " ");
    VersionLength(m.minorVersion);
    VersionSplit(buf, b + 1, version, Ending(m.eol), WriteLines(m.lines, m.last, rest));
  }

  lemma VersionSplit(buf: string, p: nat, version: string, eol: string, lines: string)
    requires Here(buf, p, version + (eol + lines))
    ensures Here(buf, p, version + eol) && Here(buf, p + |version| + |eol|, lines)
  {
    assert version + (eol + lines) == (version + eol) + lines;
    HereSplit(buf, p, version + eol, lines);
  }

  lemma VersionLength(n: nat)
    requires n < 10
    ensures |WriteVersion(n)| == 8
  {
  }

  /** An empty line in front is skipped. */
  lemma LeadRead(m: Message, rest: string)
    requires GoodMessage(m)
    ensures LineEnd(Write(m, rest), 0, true) == Got((), |Lead(m)|)
  {
    hide Write, Here, WriteVersion, WriteLines;
    var buf := Write(m, rest);
    RequestParts(m, rest);
    if m.lead.Some? {
      LineEndRead(buf, 0, m.lead.value, true);
    } else {
      HereBound(buf, 0, m.method_);
      if m.method_ != "" {
        HereAt(buf, 0, m.method_, 0);
      }
    }
  }

  lemma RequestLineRead(m: Message, rest: string)
    requires GoodMessage(m)
    ensures RequestLine(Write(m, rest)) ==
      Got(Request(Slice(|Lead(m)|, |m.method_|), Slice(PathAt(m), |m.path|), m.minorVersion, []), LinesAt(m))
  {
    hide Write, Here, TokenEnd, Version, WriteVersion, WriteLines, LineEnd, Lead, Ending;
    var buf := Write(m, rest);
    RequestParts(m, rest);
    LeadRead(m, rest);
    HereBound(buf, |Lead(m)|, m.method_);
    TokenRead(buf, |Lead(m)|, m.method_);
    TokenRead(buf, PathAt(m), m.path);
    VersionRead(buf, BlankAt(m) + 1, m.minorVersion, m.eol);
  }

  /** The parser stops right behind the request, and its slices show the method, the path, the version and every
      header line as written. */
  ghost predicate ReadsBack(m: Message, rest: string, r: Parsed<Request>)
    requires m.minorVersion < 10
  {
    var buf := Write(m, rest);
    r.Got? && r.pos + |rest| == |buf| &&
    Text(buf, r.value.method_) == m.method_ && Text(buf, r.value.path) == m.path &&
    r.value.minorVersion == m.minorVersion && |r.value.headers| == |m.lines| &&
    forall i :: 0 <= i < |m.lines| ==> Shows(buf, r.value.headers[i], m.lines[i])
  }

  /** Main result: every request that can be written is read back as written, whatever follows it, exactly if there
      is room for its header lines; otherwise it is refused. */
  lemma ParseUndoesWrite(m: Message, rest: string, maxHeaders: nat)
    requires GoodMessage(m)
    ensures if |m.lines| <= maxHeaders then ReadsBack(m, rest, Parse(Write(m, rest), maxHeaders))
            else Parse(Write(m, rest), maxHeaders) == Bad
  {
    hide Write, Here, RequestLine, Headers, WriteLines, Shows, Text, WriteVersion, Ending, Lead;
    var buf := Write(m, rest);
    RequestLineRead(m, rest);
    RequestParts(m, rest);
    if |m.lines| <= maxHeaders {
      TextHere(buf, |Lead(m)|, m.method_);
      TextHere(buf, PathAt(m), m.path);
      LinesRead(buf, LinesAt(m), m.lines, m.last, rest, [], maxHeaders);
      WriteLength(m, rest);
    } else {
      TooManyLines(buf, LinesAt(m), m.lines, m.last, rest, [], maxHeaders);
    }
  }

  lemma WriteLength(m: Message, rest: string)
    requires m.minorVersion < 10
    ensures |Write(m, rest)| == LinesAt(m) + |WriteLines(m.lines, m.last, rest)|
  {
    hide WriteLines, Ending, Lead;
    VersionLength(m.minorVersion);
  }
}
