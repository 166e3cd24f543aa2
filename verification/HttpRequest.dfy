/** The incremental request parser: what it makes of a buffer, and that more input never changes its mind. A
    position is an index into the buffer that starts at the beginning of the request. */
module HttpRequest {
  import opened Optional

  datatype Slice = Slice(start: nat, length: nat)

  /** A continuation line has no name. */
  datatype Header = Header(name: Option<Slice>, value: Slice)

  datatype Request = Request(method_: Slice, path: Slice, minorVersion: nat, headers: seq<Header>)

  /** -2 (more input is needed), -1 (malformed), or a value and the position behind it. */
  datatype Parsed<+T> = More | Bad | Got(value: T, pos: nat) {
    predicate IsFailure() {
      !Got?
    }

    function PropagateFailure<U>(): Parsed<U>
      requires !Got?
    {
      if More? then More else Bad
    }

    function Extract(): (T, nat)
      requires Got?
    {
      (value, pos)
    }
  }

  // ----- Characters ------------------------------------------------------------------

  predicate IsPrintableAscii(c: char) {
    ' ' <= c < '\U{7F}'
  }

  predicate IsAlphanumeric(c: char) {
    '0' <= c <= '9' || 'A' <= c <= 'Z' || 'a' <= c <= 'z'
  }

  /** `token_char_map`. */
  predicate IsTokenChar(c: char) {
    IsAlphanumeric(c) || c in "!#$%&'*+-.^_`|~"
  }

  /** What ends a line, or spoils it: a control character other than a tab. */
  predicate IsControl(c: char) {
    (c < ' ' && c != '\t') || c == '\U{7F}'
  }

  // ----- The grammar -----------------------------------------------------------------

  /** A line end at `p`, or something else if `optional`. */
  function LineEnd(buf: string, p: nat, optional: bool): (r: Parsed<()>)
    requires p <= |buf|
    ensures r.Got? ==> p <= r.pos <= |buf|
  {
    if p == |buf| then More
    else if buf[p] == '\r' then
      if p + 1 == |buf| then More else if buf[p + 1] == '\n' then Got((), p + 2) else Bad
    else if buf[p] == '\n' then Got((), p + 1)
    else if optional then Got((), p)
    else Bad
  }

  /** The end of a method or path: the next blank. */
  function TokenEnd(buf: string, p: nat): (r: Parsed<()>)
    requires p <= |buf|
    ensures r.Got? ==> p <= r.pos < |buf|
    decreases |buf| - p
  {
    if p == |buf| then More
    else if buf[p] == ' ' then Got((), p)
    else if buf[p] < ' ' || buf[p] == '\U{7F}' then Bad
    else TokenEnd(buf, p + 1)
  }

  /** `HTTP/1.` and a digit; nothing is decided before nine characters have arrived. */
  function Version(buf: string, p: nat): (r: Parsed<nat>)
    requires p <= |buf|
    ensures r.Got? ==> p + 8 == r.pos < |buf|
  {
    if |buf| - p < 9 then More
    else if buf[p..p + 7] != "HTTP/1." then Bad
    else if '0' <= buf[p + 7] <= '9' then Got(buf[p + 7] as int - '0' as int, p + 8)
    else Bad
  }

  /** The plain scan for the end of a line, character by character. */
  function ControlFrom(buf: string, p: nat): (r: nat)
    requires p <= |buf|
    ensures p <= r <= |buf|
    ensures r < |buf| ==> IsControl(buf[r])
    ensures forall k :: p <= k < r ==> !IsControl(buf[k])
    decreases |buf| - p
  {
    if p == |buf| || IsControl(buf[p]) then p else ControlFrom(buf, p + 1)
  }

  /** The text up to the end of its line. */
  function TokenToEol(buf: string, p: nat): (r: Parsed<Slice>)
    requires p <= |buf|
    ensures r.Got? ==> p < r.pos <= |buf|
  {
    var q := ControlFrom(buf, p);
    if q == |buf| then More
    else if buf[q] == '\r' then
      if q + 1 == |buf| then More else if buf[q + 1] == '\n' then Got(Slice(p, q - p), q + 2) else Bad
    else if buf[q] == '\n' then Got(Slice(p, q - p), q + 1)
    else Bad
  }

  /** The colon behind a header name. */
  function NameEnd(buf: string, p: nat): (r: Parsed<()>)
    requires p <= |buf|
    ensures r.Got? ==> p <= r.pos < |buf|
    decreases |buf| - p
  {
    if p == |buf| then More
    else if buf[p] == ':' then Got((), p)
    else if !IsTokenChar(buf[p]) then Bad
    else NameEnd(buf, p + 1)
  }

  predicate IsBlank(c: char) {
    c == ' ' || c == '\t'
  }

  function SkipBlanks(buf: string, p: nat): (r: Parsed<()>)
    requires p <= |buf|
    ensures r.Got? ==> p <= r.pos < |buf|
    decreases |buf| - p
  {
    if p == |buf| then More else if IsBlank(buf[p]) then SkipBlanks(buf, p + 1) else Got((), p)
  }

  function HeaderName(buf: string, p: nat): (r: Parsed<Slice>)
    requires p <= |buf|
    ensures r.Got? ==> p < r.pos < |buf|
  {
    var (_, q) :- NameEnd(buf, p);
    if q == p then Bad
    else
      var (_, v) :- SkipBlanks(buf, q + 1);
      Got(Slice(p, q - p), v)
  }

  /** One header line; `first` says whether it is the first. */
  function HeaderLine(buf: string, p: nat, first: bool): (r: Parsed<Header>)
    requires p < |buf|
    ensures r.Got? ==> p < r.pos <= |buf|
  {
    if !first && IsBlank(buf[p]) then
      var (value, q) :- TokenToEol(buf, p);
      Got(Header(None, value), q)
    else
      var (name, v) :- HeaderName(buf, p);
      var (value, q) :- TokenToEol(buf, v);
      Got(Header(Some(name), value), q)
  }

  /** The headers from `p` on, behind those already read, and the empty line that ends them. */
  function Headers(buf: string, p: nat, headers: seq<Header>, maxHeaders: nat): (r: Parsed<seq<Header>>)
    requires p <= |buf|
    ensures r.Got? ==> p <= r.pos <= |buf|
    decreases |buf| - p
  {
    if p == |buf| then More
    else if buf[p] == '\r' || buf[p] == '\n' then
      var (_, q) :- LineEnd(buf, p, false);
      Got(headers, q)
    else if |headers| == maxHeaders then Bad
    else
      var (h, q) :- HeaderLine(buf, p, headers == []);
      Headers(buf, q, headers + [h], maxHeaders)
  }

  function RequestLine(buf: string): (r: Parsed<Request>)
    ensures r.Got? ==> r.pos <= |buf|
  {
    var (_, m) :- LineEnd(buf, 0, true);
    var (_, m') :- TokenEnd(buf, m);
    var (_, p) :- TokenEnd(buf, m' + 1);
    var (minor, v) :- Version(buf, p + 1);
    var (_, h) :- LineEnd(buf, v, false);
    Got(Request(Slice(m, m' - m), Slice(m' + 1, p - (m' + 1)), minor, []), h)
  }

  /** `parse_request`, from the beginning of a request. */
  function Parse(buf: string, maxHeaders: nat): (r: Parsed<Request>)
    ensures r.Got? ==> r.pos <= |buf|
  {
    var (request, h) :- RequestLine(buf);
    var (headers, n) :- Headers(buf, h, [], maxHeaders);
    Got(request.(headers := headers), n)
  }

  // ----- More input changes nothing ----------------------------------------------------

  lemma LineEndStable(buf: string, x: string, p: nat, optional: bool)
    requires p <= |buf| && !LineEnd(buf, p, optional).More?
    ensures LineEnd(buf + x, p, optional) == LineEnd(buf, p, optional)
  {
  }

  lemma {:induction false} TokenEndStable(buf: string, x: string, p: nat)
    requires p <= |buf| && !TokenEnd(buf, p).More?
    ensures TokenEnd(buf + x, p) == TokenEnd(buf, p)
    decreases |buf| - p
  {
    if p + 1 <= |buf| && !TokenEnd(buf, p + 1).More? {
      TokenEndStable(buf, x, p + 1);
    }
  }

  lemma VersionStable(buf: string, x: string, p: nat)
    requires p <= |buf| && !Version(buf, p).More?
    ensures Version(buf + x, p) == Version(buf, p)
  {
    assert (buf + x)[p..p + 7] == buf[p..p + 7];
  }

  lemma {:induction false} ControlStable(buf: string, x: string, p: nat)
    requires p <= |buf| && ControlFrom(buf, p) < |buf|
    ensures ControlFrom(buf + x, p) == ControlFrom(buf, p)
    decreases |buf| - p
  {
    if !IsControl(buf[p]) {
      ControlStable(buf, x, p + 1);
    }
  }

  lemma TokenToEolStable(buf: string, x: string, p: nat)
    requires p <= |buf| && !TokenToEol(buf, p).More?
    ensures TokenToEol(buf + x, p) == TokenToEol(buf, p)
  {
    ControlStable(buf, x, p);
  }

  lemma {:induction false} NameEndStable(buf: string, x: string, p: nat)
    requires p <= |buf| && !NameEnd(buf, p).More?
    ensures NameEnd(buf + x, p) == NameEnd(buf, p)
    decreases |buf| - p
  {
    hide IsTokenChar;
    if p + 1 <= |buf| && !NameEnd(buf, p + 1).More? {
      NameEndStable(buf, x, p + 1);
    }
  }

  lemma {:induction false} SkipBlanksStable(buf: string, x: string, p: nat)
    requires p <= |buf| && !SkipBlanks(buf, p).More?
    ensures SkipBlanks(buf + x, p) == SkipBlanks(buf, p)
    decreases |buf| - p
  {
    if IsBlank(buf[p]) {
      SkipBlanksStable(buf, x, p + 1);
    }
  }

  lemma HeaderNameStable(buf: string, x: string, p: nat)
    requires p <= |buf| && !HeaderName(buf, p).More?
    ensures HeaderName(buf + x, p) == HeaderName(buf, p)
  {
    hide NameEnd, SkipBlanks;
    NameEndStable(buf, x, p);
    var name := NameEnd(buf, p);
    if name.Got? && name.pos != p {
      SkipBlanksStable(buf, x, name.pos + 1);
    }
  }

  lemma HeaderLineStable(buf: string, x: string, p: nat, first: bool)
    requires p < |buf| && !HeaderLine(buf, p, first).More?
    ensures HeaderLine(buf + x, p, first) == HeaderLine(buf, p, first)
  {
    hide HeaderName, TokenToEol;
    if !first && IsBlank(buf[p]) {
      TokenToEolStable(buf, x, p);
    } else {
      HeaderNameStable(buf, x, p);
      var name := HeaderName(buf, p);
      if name.Got? {
        TokenToEolStable(buf, x, name.pos);
      }
    }
  }

  lemma {:induction false} HeadersStable(buf: string, x: string, p: nat, headers: seq<Header>, maxHeaders: nat)
    requires p <= |buf| && !Headers(buf, p, headers, maxHeaders).More?
    ensures Headers(buf + x, p, headers, maxHeaders) == Headers(buf, p, headers, maxHeaders)
    decreases |buf| - p
  {
    hide HeaderLine, LineEnd;
    if buf[p] == '\r' || buf[p] == '\n' {
      LineEndStable(buf, x, p, false);
    } else if |headers| != maxHeaders {
      HeaderLineStable(buf, x, p, headers == []);
      var h := HeaderLine(buf, p, headers == []);
      if h.Got? {
        HeadersStable(buf, x, h.pos, headers + [h.value], maxHeaders);
      }
    }
  }

  lemma RequestLineStable(buf: string, x: string)
    requires !RequestLine(buf).More?
    ensures RequestLine(buf + x) == RequestLine(buf)
  {
    hide LineEnd, TokenEnd, Version;
    LineEndStable(buf, x, 0, true);
    var a := LineEnd(buf, 0, true);
    if a.Got? {
      TokenEndStable(buf, x, a.pos);
      var b := TokenEnd(buf, a.pos);
      if b.Got? {
        TokenEndStable(buf, x, b.pos + 1);
        var c := TokenEnd(buf, b.pos + 1);
        if c.Got? {
          VersionStable(buf, x, c.pos + 1);
          var d := Version(buf, c.pos + 1);
          if d.Got? {
            LineEndStable(buf, x, d.pos, false);
          }
        }
      }
    }
  }

  /** Once the parser has accepted or refused a buffer, it gives the same answer, with the same slices, for
      every extension of the buffer. */
  lemma ParseStable(buf: string, x: string, maxHeaders: nat)
    requires !Parse(buf, maxHeaders).More?
    ensures Parse(buf + x, maxHeaders) == Parse(buf, maxHeaders)
  {
    hide RequestLine, Headers;
    RequestLineStable(buf, x);
    var line := RequestLine(buf);
    if line.Got? {
      HeadersStable(buf, x, line.pos, [], maxHeaders);
    }
  }

  // ----- What is behind the request does not matter --------------------------------------

  lemma LineEndLocal(buf: string, n: nat, p: nat, optional: bool)
    requires p < n <= |buf| && LineEnd(buf, p, optional).Got? && LineEnd(buf, p, optional).pos <= n
    ensures LineEnd(buf[..n], p, optional) == LineEnd(buf, p, optional)
  {
  }

  lemma {:induction false} TokenEndLocal(buf: string, n: nat, p: nat)
    requires p <= n <= |buf| && TokenEnd(buf, p).Got? && TokenEnd(buf, p).pos < n
    ensures TokenEnd(buf[..n], p) == TokenEnd(buf, p)
    decreases |buf| - p
  {
    if buf[p] != ' ' {
      TokenEndLocal(buf, n, p + 1);
    }
  }

  lemma VersionLocal(buf: string, n: nat, p: nat)
    requires p <= n <= |buf| && Version(buf, p).Got? && Version(buf, p).pos < n
    ensures Version(buf[..n], p) == Version(buf, p)
  {
    assert buf[..n][p..p + 7] == buf[p..p + 7];
  }

  lemma {:induction false} ControlLocal(buf: string, n: nat, p: nat)
    requires p <= n <= |buf| && ControlFrom(buf, p) < n
    ensures ControlFrom(buf[..n], p) == ControlFrom(buf, p)
    decreases |buf| - p
  {
    if !IsControl(buf[p]) {
      ControlLocal(buf, n, p + 1);
    }
  }

  lemma TokenToEolLocal(buf: string, n: nat, p: nat)
    requires p <= n <= |buf| && TokenToEol(buf, p).Got? && TokenToEol(buf, p).pos <= n
    ensures TokenToEol(buf[..n], p) == TokenToEol(buf, p)
  {
    ControlLocal(buf, n, p);
  }

  lemma {:induction false} NameEndLocal(buf: string, n: nat, p: nat)
    requires p <= n <= |buf| && NameEnd(buf, p).Got? && NameEnd(buf, p).pos < n
    ensures NameEnd(buf[..n], p) == NameEnd(buf, p)
    decreases |buf| - p
  {
    hide IsTokenChar;
    if buf[p] != ':' {
      NameEndLocal(buf, n, p + 1);
    }
  }

  lemma {:induction false} SkipBlanksLocal(buf: string, n: nat, p: nat)
    requires p <= n <= |buf| && SkipBlanks(buf, p).Got? && SkipBlanks(buf, p).pos < n
    ensures SkipBlanks(buf[..n], p) == SkipBlanks(buf, p)
    decreases |buf| - p
  {
    if IsBlank(buf[p]) {
      SkipBlanksLocal(buf, n, p + 1);
    }
  }

  lemma HeaderLineLocal(buf: string, n: nat, p: nat, first: bool)
    requires p < n <= |buf| && HeaderLine(buf, p, first).Got? && HeaderLine(buf, p, first).pos <= n
    ensures HeaderLine(buf[..n], p, first) == HeaderLine(buf, p, first)
  {
    hide NameEnd, SkipBlanks, TokenToEol;
    if !first && IsBlank(buf[p]) {
      TokenToEolLocal(buf, n, p);
    } else {
      TokenToEolLocal(buf, n, HeaderName(buf, p).pos);
      var q := NameEnd(buf, p).pos;
      SkipBlanksLocal(buf, n, q + 1);
      NameEndLocal(buf, n, p);
    }
  }

  lemma {:induction false} HeadersLocal(buf: string, n: nat, p: nat, headers: seq<Header>, maxHeaders: nat)
    requires p <= n <= |buf| && Headers(buf, p, headers, maxHeaders).Got?
    requires p < Headers(buf, p, headers, maxHeaders).pos <= n
    ensures Headers(buf[..n], p, headers, maxHeaders) == Headers(buf, p, headers, maxHeaders)
    decreases |buf| - p
  {
    hide HeaderLine, LineEnd;
    if buf[p] == '\r' || buf[p] == '\n' {
      LineEndLocal(buf, n, p, false);
    } else {
      var h := HeaderLine(buf, p, headers == []);
      HeadersProgress(buf, h.pos, headers + [h.value], maxHeaders);
      HeaderLineLocal(buf, n, p, headers == []);
      HeadersLocal(buf, n, h.pos, headers + [h.value], maxHeaders);
    }
  }

  lemma {:induction false} HeadersProgress(buf: string, p: nat, headers: seq<Header>, maxHeaders: nat)
    requires p <= |buf| && Headers(buf, p, headers, maxHeaders).Got?
    ensures p < Headers(buf, p, headers, maxHeaders).pos
  {
    hide HeaderLine;
  }

  lemma RequestLineLocal(buf: string, n: nat)
    requires n <= |buf| && RequestLine(buf).Got? && RequestLine(buf).pos <= n
    ensures RequestLine(buf[..n]) == RequestLine(buf)
  {
    hide TokenEnd, Version;
    var m := LineEnd(buf, 0, true).pos;
    var m' := TokenEnd(buf, m).pos;
    var p := TokenEnd(buf, m' + 1).pos;
    var v := Version(buf, p + 1).pos;
    LineEndLocal(buf, n, 0, true);
    TokenEndLocal(buf, n, m);
    TokenEndLocal(buf, n, m' + 1);
    VersionLocal(buf, n, p + 1);
    LineEndLocal(buf, n, v, false);
  }

  /** Main result: a request of n bytes is accepted exactly when its last byte has arrived. Every shorter
      prefix needs more, and every longer one gives the same answer with the same slices. */
  lemma AcceptedExactlyWhenComplete(buf: string, k: nat, maxHeaders: nat)
    requires Parse(buf, maxHeaders).Got? && k <= |buf|
    ensures Parse(buf[..k], maxHeaders)
         == if k < Parse(buf, maxHeaders).pos then More else Parse(buf, maxHeaders)
  {
    hide RequestLine, Headers;
    var n := Parse(buf, maxHeaders).pos;
    assert buf[..k] + buf[k..] == buf;
    if k < n {
      if !Parse(buf[..k], maxHeaders).More? {
        ParseStable(buf[..k], buf[k..], maxHeaders);
      }
    } else {
      var h := RequestLine(buf).pos;
      HeadersProgress(buf, h, [], maxHeaders);
      RequestLineLocal(buf, k);
      HeadersLocal(buf, k, h, [], maxHeaders);
    }
  }
}
