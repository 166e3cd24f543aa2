/** Requests behind one another in one buffer: `phr_parse_request` with the position of the next request, and
    its quick look for the end of the headers, which starts three bytes before that position. */
module HttpPipelining {
  import opened HttpRequest
  import HttpParser

  /** `is_complete` from position `p` on, behind `count` line ends in a row: whether two in a row follow. */
  function Complete(buf: string, p: nat, count: nat): (r: Parsed<()>)
    requires p <= |buf| && count <= 1
    decreases |buf| - p
  {
    if p == |buf| then More
    else if buf[p] == '\r' then
      if p + 1 == |buf| then More
      else if buf[p + 1] != '\n' then Bad
      else if count == 1 then Got((), p + 2)
      else Complete(buf, p + 2, 1)
    else if buf[p] == '\n' then
      if count == 1 then Got((), p + 1) else Complete(buf, p + 1, 1)
    else Complete(buf, p + 1, 0)
  }

  function LookFrom(lastLen: nat): nat {
    if lastLen < 3 then 0 else lastLen - 3
  }

  /** The request at `lastLen`; positions and length count from there. */
  function ParseAt(buf: string, maxHeaders: nat, lastLen: nat): Parsed<Request>
    requires lastLen <= |buf|
  {
    if lastLen == 0 then Parse(buf, maxHeaders)
    else
      var (_, _) :- Complete(buf, LookFrom(lastLen), 0);
      Parse(buf[lastLen..], maxHeaders)
  }

  method IsComplete(buf: string, lastLen: nat) returns (r: Parsed<()>)
    requires lastLen <= |buf|
    ensures r == Complete(buf, LookFrom(lastLen), 0)
  {
    var p, count := if lastLen < 3 then 0 else lastLen - 3, 0;
    while p < |buf|
      invariant 0 <= p <= |buf| && 0 <= count <= 1
      invariant Complete(buf, p, count) == Complete(buf, LookFrom(lastLen), 0)
    {
      if buf[p] == '\r' {
        p := p + 1;
        if p == |buf| {
          return More;
        }
        if buf[p] != '\n' {
          return Bad;
        }
        p := p + 1;
        count := count + 1;
      } else if buf[p] == '\n' {
        p := p + 1;
        count := count + 1;
      } else {
        p := p + 1;
        count := 0;
      }
      if count == 2 {
        return Got((), p);
      }
    }
    return More;
  }

  /** `phr_parse_request`. */
  method ParseRequestAt(buf: string, maxHeaders: nat, lastLen: nat) returns (r: Parsed<Request>)
    requires lastLen <= |buf|
    ensures r == ParseAt(buf, maxHeaders, lastLen)
  {
    hide Parse, Complete;
    if lastLen != 0 {
      var complete := IsComplete(buf, lastLen);
      if !complete.Got? {
        return complete.PropagateFailure();
      }
    }
    assert buf[0..] == buf;
    r := HttpParser.ParseRequest(buf[lastLen..], maxHeaders);
  }

  // ----- What an accepted request looks like to the quick look -------------------------

  /** Every carriage return from `p` to `n` is followed by its line feed. */
  predicate NoStray(buf: string, p: nat, n: nat)
    requires n <= |buf|
  {
    forall i :: p <= i < n && buf[i] == '\r' ==> i + 1 < n && buf[i + 1] == '\n'
  }

  /** A line end from `k` to `n` right behind another. */
  predicate EmptyLine(buf: string, k: nat, n: nat) {
    0 < k < n <= |buf| && buf[k - 1] == '\n' && LineEnd(buf, k, false).Got? && LineEnd(buf, k, false).pos == n
  }

  lemma LineEndIsNoStray(buf: string, p: nat, optional: bool)
    requires p <= |buf| && LineEnd(buf, p, optional).Got?
    ensures NoStray(buf, p, LineEnd(buf, p, optional).pos)
    ensures !optional ==> LineEnd(buf, p, optional).pos > p && buf[LineEnd(buf, p, optional).pos - 1] == '\n'
  {
  }

  lemma {:induction false} TokenIsNoStray(buf: string, p: nat)
    requires p <= |buf| && TokenEnd(buf, p).Got?
    ensures NoStray(buf, p, TokenEnd(buf, p).pos + 1)
    decreases |buf| - p
  {
    if buf[p] != ' ' {
      TokenIsNoStray(buf, p + 1);
    }
  }

  lemma VersionIsNoStray(buf: string, p: nat)
    requires p <= |buf| && Version(buf, p).Got?
    ensures NoStray(buf, p, p + 8)
  {
    var tag := "HTTP/1.";
    assert forall i :: 0 <= i < 7 ==> tag[i] != '\r';
    assert forall i :: p <= i < p + 7 ==> buf[i] == buf[p..p + 7][i - p];
  }

  lemma TextIsNoStray(buf: string, p: nat)
    requires p <= |buf| && TokenToEol(buf, p).Got?
    ensures var n := TokenToEol(buf, p).pos; NoStray(buf, p, n) && buf[n - 1] == '\n'
  {
  }

  lemma {:induction false} NameIsNoStray(buf: string, p: nat)
    requires p <= |buf| && NameEnd(buf, p).Got?
    ensures NoStray(buf, p, NameEnd(buf, p).pos + 1)
    decreases |buf| - p
  {
    if buf[p] != ':' {
      NameIsNoStray(buf, p + 1);
      assert !IsTokenChar('\r');
    }
  }

  lemma {:induction false} BlanksAreNoStray(buf: string, p: nat)
    requires p <= |buf| && SkipBlanks(buf, p).Got?
    ensures NoStray(buf, p, SkipBlanks(buf, p).pos)
    decreases |buf| - p
  {
    if IsBlank(buf[p]) {
      BlanksAreNoStray(buf, p + 1);
    }
  }

  lemma HeaderLineIsNoStray(buf: string, p: nat, first: bool)
    requires p < |buf| && HeaderLine(buf, p, first).Got?
    ensures var n := HeaderLine(buf, p, first).pos; NoStray(buf, p, n) && buf[n - 1] == '\n'
  {
    hide TokenToEol, NameEnd, SkipBlanks;
    if !first && IsBlank(buf[p]) {
      TextIsNoStray(buf, p);
    } else {
      var q := NameEnd(buf, p).pos;
      NameIsNoStray(buf, p);
      BlanksAreNoStray(buf, q + 1);
      TextIsNoStray(buf, HeaderName(buf, p).pos);
    }
  }

  lemma {:induction false} HeadersAreNoStray(buf: string, p: nat, headers: seq<Header>, maxHeaders: nat)
    returns (k: nat)
    requires 0 < p <= |buf| && buf[p - 1] == '\n' && Headers(buf, p, headers, maxHeaders).Got?
    ensures var n := Headers(buf, p, headers, maxHeaders).pos; NoStray(buf, p, n) && p <= k && EmptyLine(buf, k, n)
    decreases |buf| - p
  {
    hide HeaderLine, LineEnd;
    if buf[p] == '\r' || buf[p] == '\n' {
      LineEndIsNoStray(buf, p, false);
      k := p;
    } else {
      var h := HeaderLine(buf, p, headers == []);
      HeaderLineIsNoStray(buf, p, headers == []);
      k := HeadersAreNoStray(buf, h.pos, headers + [h.value], maxHeaders);
    }
  }

  lemma RequestLineIsNoStray(buf: string)
    requires RequestLine(buf).Got?
    ensures var h := RequestLine(buf).pos; 0 < h && NoStray(buf, 0, h) && buf[h - 1] == '\n'
  {
    hide TokenEnd, Version, LineEnd;
    var m := LineEnd(buf, 0, true).pos;
    var m' := TokenEnd(buf, m).pos;
    var p := TokenEnd(buf, m' + 1).pos;
    var v := Version(buf, p + 1).pos;
    LineEndIsNoStray(buf, 0, true);
    TokenIsNoStray(buf, m);
    TokenIsNoStray(buf, m' + 1);
    VersionIsNoStray(buf, p + 1);
    LineEndIsNoStray(buf, v, false);
  }

  /** An accepted request holds no stray carriage return and ends with an empty line. */
  lemma AcceptedShape(buf: string, maxHeaders: nat) returns (k: nat)
    requires Parse(buf, maxHeaders).Got?
    ensures var n := Parse(buf, maxHeaders).pos; NoStray(buf, 0, n) && EmptyLine(buf, k, n)
  {
    hide RequestLine, Headers, LineEnd;
    RequestLineIsNoStray(buf);
    k := HeadersAreNoStray(buf, RequestLine(buf).pos, [], maxHeaders);
  }

  // ----- The quick look ------------------------------------------------------------------

  lemma {:induction false} EmptyLineIsFound(buf: string, p: nat, count: nat, k: nat, n: nat)
    requires p <= k && count <= 1 && EmptyLine(buf, k, n) && NoStray(buf, p, n) && (p == k ==> count == 1)
    ensures Complete(buf, p, count).Got?
    decreases k - p
  {
    if p < k && !(count == 1 && (buf[p] == '\r' || buf[p] == '\n')) {
      if buf[p] == '\r' {
        EmptyLineIsFound(buf, p + 2, 1, k, n);
      } else {
        EmptyLineIsFound(buf, p + 1, if buf[p] == '\n' then 1 else 0, k, n);
      }
    }
  }

  /** A carriage return at `i`, among the three bytes before the request, without its line feed; an empty line
      in front of it would hide it. */
  predicate StrayAt(buf: string, lastLen: nat, i: nat)
    requires lastLen < |buf|
  {
    && LookFrom(lastLen) <= i < lastLen && buf[i] == '\r' && buf[i + 1] != '\n'
    && !(lastLen >= 3 && i == lastLen - 1 && buf[i - 2] == '\n' && buf[i - 1] == '\n')
  }

  ghost predicate Disturbed(buf: string, lastLen: nat)
    requires lastLen < |buf|
  {
    exists i :: StrayAt(buf, lastLen, i)
  }

  lemma StrayIsBad(buf: string, lastLen: nat, i: nat)
    requires lastLen < |buf| && StrayAt(buf, lastLen, i)
    ensures Complete(buf, LookFrom(lastLen), 0) == Bad
  {
    var s := LookFrom(lastLen);
    if i == s + 1 {
      assert Complete(buf, s + 1, 0) == Complete(buf, s + 1, 1) == Bad;
    } else if i == s + 2 {
      assert Complete(buf, s + 2, 0) == Complete(buf, s + 2, 1) == Bad;
    }
  }

  lemma Shifted(buf: string, lastLen: nat, k: nat, n: nat)
    requires lastLen <= |buf| && EmptyLine(buf[lastLen..], k, n) && NoStray(buf[lastLen..], 0, n)
    ensures EmptyLine(buf, lastLen + k, lastLen + n) && NoStray(buf, lastLen, lastLen + n)
  {
    var t := buf[lastLen..];
    assert forall i :: 0 <= i < |t| ==> t[i] == buf[lastLen + i];
    forall i | lastLen <= i < lastLen + n && buf[i] == '\r'
      ensures i + 1 < lastLen + n && buf[i + 1] == '\n'
    {
      assert t[i - lastLen] == '\r';
      assert t[i - lastLen + 1] == buf[i + 1];
    }
  }

  /** Main result: a request that would be accepted on its own is accepted behind others exactly if none of the
      three bytes before it is a carriage return without its line feed; otherwise it is refused. */
  lemma AcceptedBehind(buf: string, maxHeaders: nat, lastLen: nat)
    requires 0 < lastLen <= |buf| && Parse(buf[lastLen..], maxHeaders).Got?
    ensures lastLen < |buf|
    ensures ParseAt(buf, maxHeaders, lastLen)
         == if Disturbed(buf, lastLen) then Bad else Parse(buf[lastLen..], maxHeaders)
  {
    hide Complete, RequestLine, Headers, LineEnd;
    var t, s := buf[lastLen..], LookFrom(lastLen);
    var k := AcceptedShape(t, maxHeaders);
    var n := Parse(t, maxHeaders).pos;
    Shifted(buf, lastLen, k, n);
    if i :| StrayAt(buf, lastLen, i) {
      StrayIsBad(buf, lastLen, i);
    } else if lastLen >= 3 && buf[s] == '\n' && buf[s + 1] == '\n' {
      TwoLineEnds(buf, s);
    } else {
      assert NoStray(buf, s, lastLen + n) by {
        forall i | s <= i < lastLen && buf[i] == '\r'
          ensures buf[i + 1] == '\n'
        {
          assert !StrayAt(buf, lastLen, i);
        }
      }
      EmptyLineIsFound(buf, s, 0, lastLen + k, lastLen + n);
    }
  }

  lemma TwoLineEnds(buf: string, p: nat)
    requires p + 2 <= |buf| && buf[p] == '\n' && buf[p + 1] == '\n'
    ensures Complete(buf, p, 0).Got?
  {
    assert Complete(buf, p, 0) == Complete(buf, p + 1, 1);
  }

  /** Such an input: a good request behind a body that ends in a carriage return and two other bytes. */
  lemma BodyEndsWithReturn(body: string, request: string, maxHeaders: nat)
    requires Parse(request, maxHeaders).Got?
    ensures ParseAt(body + "\rab" + request, maxHeaders, |body| + 3) == Bad
  {
    hide Parse, ParseAt;
    var buf, lastLen := body + "\rab" + request, |body| + 3;
    assert buf[lastLen..] == request;
    AcceptedBehind(buf, maxHeaders, lastLen);
    assert StrayAt(buf, lastLen, |body|);
  }

  // ----- Requests that are incomplete or malformed -----------------------------------------

  lemma {:induction false} CompleteStable(buf: string, x: string, p: nat, count: nat)
    requires p <= |buf| && count <= 1 && !Complete(buf, p, count).More?
    ensures Complete(buf + x, p, count) == Complete(buf, p, count)
    decreases |buf| - p
  {
    if buf[p] == '\r' {
      if buf[p + 1] == '\n' && count == 0 {
        CompleteStable(buf, x, p + 2, 1);
      }
    } else if buf[p] == '\n' {
      if count == 0 {
        CompleteStable(buf, x, p + 1, 1);
      }
    } else {
      CompleteStable(buf, x, p + 1, 0);
    }
  }

  /** An answer behind other requests is as stable under more input as one at the beginning. */
  lemma StableBehind(buf: string, x: string, maxHeaders: nat, lastLen: nat)
    requires lastLen <= |buf| && !ParseAt(buf, maxHeaders, lastLen).More?
    ensures ParseAt(buf + x, maxHeaders, lastLen) == ParseAt(buf, maxHeaders, lastLen)
  {
    hide Complete, Parse;
    assert (buf + x)[lastLen..] == buf[lastLen..] + x;
    if lastLen == 0 {
      ParseStable(buf, x, maxHeaders);
    } else {
      CompleteStable(buf, x, LookFrom(lastLen), 0);
      if Complete(buf, LookFrom(lastLen), 0).Got? {
        ParseStable(buf[lastLen..], x, maxHeaders);
      }
    }
  }

  /** The quick look changes two answers of an undisturbed request: a malformed one is refused only when an empty
      line has arrived, or a stray carriage return, and an incomplete one is refused when it holds such a
      return. */
  lemma AnswersBehind(buf: string, maxHeaders: nat, lastLen: nat)
    requires 0 < lastLen < |buf| && !Disturbed(buf, lastLen)
    ensures var look, alone := Complete(buf, LookFrom(lastLen), 0), Parse(buf[lastLen..], maxHeaders);
            ParseAt(buf, maxHeaders, lastLen) ==
              if alone.Bad? && look.More? then More else if alone.More? && look.Bad? then Bad else alone
  {
    hide Complete, Parse, Disturbed;
    if Parse(buf[lastLen..], maxHeaders).Got? {
      AcceptedBehind(buf, maxHeaders, lastLen);
    }
  }

  /** No harm is done: what is refused, undisturbed, would not be accepted alone either, whatever follows. */
  lemma RefusedForGood(buf: string, x: string, maxHeaders: nat, lastLen: nat)
    requires 0 < lastLen < |buf| && !Disturbed(buf, lastLen) && ParseAt(buf, maxHeaders, lastLen).Bad?
    ensures !Parse((buf + x)[lastLen..], maxHeaders).Got?
  {
    hide Parse, ParseAt, Disturbed;
    StableBehind(buf, x, maxHeaders, lastLen);
    SameDisturbance(buf, x, lastLen);
    if Parse((buf + x)[lastLen..], maxHeaders).Got? {
      AcceptedBehind(buf + x, maxHeaders, lastLen);
    }
  }

  lemma SameDisturbance(buf: string, x: string, lastLen: nat)
    requires lastLen < |buf|
    ensures Disturbed(buf + x, lastLen) <==> Disturbed(buf, lastLen)
  {
    assert forall i :: StrayAt(buf + x, lastLen, i) <==> StrayAt(buf, lastLen, i);
  }

  /** A control character at the beginning of a request: malformed, but more input is asked for. */
  lemma MalformedWaits(maxHeaders: nat)
    ensures var buf := "x\U{1}";
            Parse(buf[1..], maxHeaders) == Bad && ParseAt(buf, maxHeaders, 1) == More
  {
    var buf := "x\U{1}";
    assert buf[1..] == "\U{1}";
    assert Complete(buf, 2, 0) == More && Complete(buf, 1, 0) == More;
  }

  /** A carriage return where the version should be: more input could be asked for, but it is refused at once. */
  lemma IncompleteIsRefused(maxHeaders: nat)
    ensures var buf := "xG / \ry";
            Parse(buf[1..], maxHeaders) == More && ParseAt(buf, maxHeaders, 1) == Bad
  {
    var buf, t := "xG / \ry", "G / \ry";
    assert buf[1..] == t;
    assert TokenEnd(t, 1) == Got((), 1) && TokenEnd(t, 0) == Got((), 1);
    assert TokenEnd(t, 3) == Got((), 3) && TokenEnd(t, 2) == Got((), 3);
    assert Complete(buf, 5, 0) == Bad && Complete(buf, 4, 0) == Bad && Complete(buf, 3, 0) == Bad;
    assert Complete(buf, 2, 0) == Bad && Complete(buf, 1, 0) == Bad;
  }
}
