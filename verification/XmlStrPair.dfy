/** `StrPair`: a piece of the parsed buffer, decoded in place the first time it is read. */
module XmlStrPair {
  import opened Optional
  import opened XmlText

  // ----- White space collapsing ----------------------------------------------

  function SkipWhiteSpace(s: string, p: nat): (r: nat)
    requires p <= |s|
    ensures p <= r <= |s|
    ensures r < |s| ==> !IsWhiteSpace(s[r])
    ensures forall i :: p <= i < r ==> IsWhiteSpace(s[i])
    decreases |s| - p
  {
    if p < |s| && IsWhiteSpace(s[p]) then SkipWhiteSpace(s, p + 1) else p
  }

  /** The collapsing loop at read position `p`, when `out` has been written. */
  function CollapseFrom(s: string, p: nat, out: string): (r: string)
    requires |out| <= p <= |s|
    ensures |r| <= |s|
    decreases |s| - p
  {
    var p' := SkipWhiteSpace(s, p);
    if p' == |s| then out
    else if p' == p then CollapseFrom(s, p + 1, out + [s[p]])
    else CollapseFrom(s, p' + 1, out + [' ', s[p']])
  }

  function Collapse(s: string): (r: string)
    ensures |r| <= |s|
  {
    CollapseFrom(s[SkipWhiteSpace(s, 0)..], 0, "")
  }

  /** Words separated by one blank each, with nothing before the first and after the last. */
  predicate Collapsed(s: string) {
    && (forall i :: 0 <= i < |s| && IsWhiteSpace(s[i]) ==> s[i] == ' ' && 0 < i < |s| - 1)
    && (forall i :: 0 <= i < |s| - 1 ==> !(IsWhiteSpace(s[i]) && IsWhiteSpace(s[i + 1])))
  }

  /** The characters that are not white space, in order. */
  function Words(s: string): string {
    if s == "" then "" else (if IsWhiteSpace(s[0]) then "" else [s[0]]) + Words(s[1..])
  }

  lemma {:induction false} WordsConcat(a: string, b: string)
    ensures Words(a + b) == Words(a) + Words(b)
  {
    if a == "" {
      assert a + b == b;
    } else {
      hide Words;
      WordsConcat(a[1..], b);
      SplitFront(a, b);
      WordsFirst(a);
      WordsFirst(a + b);
      Associate(if IsWhiteSpace(a[0]) then "" else [a[0]], Words(a[1..]), Words(b));
    }
  }

  lemma SplitFront(a: string, b: string)
    requires a != ""
    ensures (a + b)[0] == a[0] && (a + b)[1..] == a[1..] + b
  {
  }

  lemma Associate(a: string, b: string, c: string)
    ensures a + (b + c) == a + b + c
  {
  }

  lemma WordsFirst(s: string)
    requires s != ""
    ensures Words(s) == (if IsWhiteSpace(s[0]) then "" else [s[0]]) + Words(s[1..])
  {
  }

  lemma {:induction false} BlankWords(s: string)
    requires forall i :: 0 <= i < |s| ==> IsWhiteSpace(s[i])
    ensures Words(s) == ""
  {
    if s != "" {
      BlankWords(s[1..]);
    }
  }

  lemma {:induction false} CollapseFromShape(s: string, p: nat, out: string)
    requires |out| <= p <= |s|
    requires Collapsed(out) && (out == "" ==> p == |s| || !IsWhiteSpace(s[p]))
    requires Words(out) == Words(s[..p])
    ensures Collapsed(CollapseFrom(s, p, out))
    ensures Words(CollapseFrom(s, p, out)) == Words(s)
    decreases |s| - p
  {
    hide Words, Collapsed;
    var p' := SkipWhiteSpace(s, p);
    BlankWords(s[p..p']);
    WordsConcat(s[..p], s[p..p']);
    assert s[..p] + s[p..p'] == s[..p'];
    assert Words(s[..p]) + "" == Words(s[..p]);
    if p' == |s| {
      assert s[..p'] == s;
    } else {
      var more := if p' == p then [s[p]] else [' ', s[p']];
      OneMoreWord(s[..p'], s[p'], more);
      assert s[..p'] + [s[p']] == s[..p' + 1];
      WordsConcat(out, more);
      CollapsedExtends(out, more);
      CollapseFromShape(s, p' + 1, out + more);
    }
  }

  lemma OneMoreWord(before: string, c: char, more: string)
    requires !IsWhiteSpace(c) && (more == [c] || more == [' ', c])
    ensures Words(before + [c]) == Words(before) + Words(more)
  {
    WordsConcat(before, [c]);
    assert [c][1..] == "" && [' ', c][1..] == [c];
    assert Words([c]) == [c] + "" == [c];
    assert Words([' ', c]) == "" + Words([c]);
  }

  lemma CollapsedExtends(out: string, more: string)
    requires Collapsed(out)
    requires |more| == 1 || |more| == 2
    requires !IsWhiteSpace(more[|more| - 1])
    requires |more| == 2 ==> more[0] == ' ' && out != ""
    ensures Collapsed(out + more)
  {
  }

  lemma Empties()
    ensures Collapsed("") && Words("") == ""
  {
  }

  /** Collapsing keeps every character that is not white space, in order, and leaves words separated by
      single blanks. */
  lemma CollapseShape(s: string)
    ensures Collapsed(Collapse(s)) && Words(Collapse(s)) == Words(s)
  {
    hide Words, Collapsed, CollapseFrom;
    Empties();
    var p := SkipWhiteSpace(s, 0);
    assert s[..p] + s[p..] == s;
    BlankWords(s[..p]);
    WordsConcat(s[..p], s[p..]);
    assert s[p..][..0] == "";
    CollapseFromShape(s[p..], 0, "");
  }

  lemma {:induction false} CollapseFromCollapsed(s: string, p: nat)
    requires Collapsed(s) && p <= |s| && (0 < p ==> !IsWhiteSpace(s[p - 1]))
    ensures CollapseFrom(s, p, s[..p]) == s
    decreases |s| - p
  {
    if p == |s| {
      assert s[..p] == s;
    } else if IsWhiteSpace(s[p]) {
      assert SkipWhiteSpace(s, p) == p + 1;
      assert s[..p] + [' ', s[p + 1]] == s[..p + 2];
      CollapseFromCollapsed(s, p + 2);
    } else {
      assert s[..p] + [s[p]] == s[..p + 1];
      CollapseFromCollapsed(s, p + 1);
    }
  }

  /** Collapsing changes exactly the texts that are not collapsed yet; in particular it is idempotent. */
  lemma CollapseIsIdentityIff(s: string)
    ensures Collapse(s) == s <==> Collapsed(s)
  {
    CollapseShape(s);
    if Collapsed(s) {
      assert SkipWhiteSpace(s, 0) == 0;
      assert s[0..] == s && s[..0] == "";
      CollapseFromCollapsed(s, 0);
    }
  }

  // ----- The in-place decoder ------------------------------------------------

  /** The text up to its first NUL. */
  function CString(s: string): (r: string)
    ensures NUL !in r && r <= s
    ensures NUL !in s ==> r == s
  {
    s[..IndexOf(s, NUL, 0)]
  }

  /** The text that a reader sees for the raw text `v`. */
  function Shown(v: string, flags: Flags): (r: string)
    ensures |r| <= |v|
  {
    var d := if flags == Flags(false, false, false) then v else Decode(v, 0, "", flags);
    if flags.collapse then Collapse(CString(d)) else CString(d)
  }

  /** `GetCharacterRef` on the NUL-terminated text at `p` whose terminator is at `end`: a search forward for
      the semicolon, then a scan backward over the digits. */
  method GetCharacterRef(buf: array<char>, p: nat, end: nat) returns (r: Option<Piece>)
    requires p + 2 <= end < buf.Length && buf[end] == NUL
    requires buf[p] == '&' && buf[p + 1] == '#'
    requires forall i :: p <= i < end ==> buf[i] != NUL
    ensures r == CharacterRef(buf[p..end])
  {
    hide IndexOf, BackScan, HexDigit, DecDigit;
    ghost var t := buf[p..end];
    assert forall i :: p <= i < end ==> buf[i] == t[i - p];
    if buf[p + 2] == NUL {
      return Some(Piece(1, ""));
    }
    var hex := buf[p + 2] == 'x';
    var first := if hex then p + 3 else p + 2;
    if buf[first] == NUL {
      return None;
    }
    var semi := FindSemicolon(buf, p, first, end);
    if buf[semi] != ';' {
      return None;
    }
    assert t[if hex then 2 else 1] == if hex then 'x' else '#';
    var ucs := ScanBack(buf, p, semi, hex, end);
    r := if ucs.None? then None else Some(Piece(semi + 1 - p, Utf8(ucs.value)));
  }

  /** The search forward: the first semicolon from `first` on, or the end of the text. */
  method FindSemicolon(buf: array<char>, p: nat, first: nat, end: nat) returns (q: nat)
    requires p <= first <= end < buf.Length && buf[end] == NUL
    requires forall i :: p <= i < end ==> buf[i] != NUL
    ensures q == p + IndexOf(buf[p..end], ';', first - p)
    ensures buf[q] == ';' <==> q < end
  {
    ghost var t := buf[p..end];
    assert forall i :: p <= i < end ==> buf[i] == t[i - p];
    q := first;
    while buf[q] != ';' && buf[q] != NUL
      invariant first <= q <= end
      invariant IndexOf(t, ';', first - p) == IndexOf(t, ';', q - p)
      decreases end - q
    {
      q := q + 1;
    }
  }

  /** The scan backward over the digits in front of the semicolon. */
  method ScanBack(buf: array<char>, p: nat, semi: nat, hex: bool, ghost end: nat) returns (r: Option<nat>)
    requires p + (if hex then 2 else 1) < semi < end <= buf.Length
    requires buf[if hex then p + 2 else p + 1] == if hex then 'x' else '#'
    ensures buf[p..end][if hex then 2 else 1] == if hex then 'x' else '#'
    ensures r == BackScan(buf[p..end], semi - 1 - p, hex, 1, 0)
  {
    hide HexDigit, DecDigit;
    ghost var t := buf[p..end];
    assert forall i :: p <= i < end ==> buf[i] == t[i - p];
    var stop, base := if hex then 'x' else '#', if hex then 16 else 10;
    var mult, ucs, q := 1, 0, semi - 1;
    assert t[if hex then 2 else 1] == stop;
    while buf[q] != stop
      invariant (if hex then p + 2 else p + 1) <= q < semi
      invariant 0 <= mult < UINT_RANGE && 0 <= ucs < ULONG_RANGE
      invariant BackScan(t, q - p, hex, mult, ucs) == BackScan(t, semi - 1 - p, hex, 1, 0)
      decreases q
    {
      var digit := if hex then HexDigit(buf[q]) else DecDigit(buf[q]);
      if digit.None? {
        return None;
      }
      assert mult * digit.value >= 0;
      ucs := (ucs + (mult * digit.value) % UINT_RANGE) % ULONG_RANGE;
      mult := (mult * base) % UINT_RANGE;
      q := q - 1;
    }
    return Some(ucs);
  }

  /** One turn of the decoding loop: what it reads at `p` and writes at `q`, where everything from `q` on is
      still as it was parsed. */
  method Turn(buf: array<char>, p: nat, q: nat, end: nat, flags: Flags, ghost v: string, ghost start: nat)
    returns (read: nat, written: string)
    requires start <= q <= p < end < buf.Length && buf[end] == NUL
    requires |v| == end - start && forall i :: q <= i < end ==> buf[i] == v[i - start]
    requires NUL !in v
    ensures Piece(read, written) == DecodeStep(v, p - start, q - start, flags)
  {
    var c := buf[p];
    var next := buf[p + 1];
    if flags.newlines && c == CR {
      return if next == LF then 2 else 1, [LF];
    } else if flags.newlines && c == LF {
      return if next == CR then 2 else 1, [LF];
    } else if flags.entities && c == '&' {
      if next == '#' {
        var ref := GetCharacterRef(buf, p, end);
        assert buf[p..end] == v[p - start..];
        if ref.None? {
          return 1, [c];
        }
        return ref.value.read, ref.value.written;
      }
      var i := 0;
      assert buf[p + 1..end] == v[p - start + 1..];
      while i < |ENTITIES|
        invariant 0 <= i <= |ENTITIES|
        invariant FindEntity(buf[p + 1..end], 0) == FindEntity(buf[p + 1..end], i)
      {
        var entity := ENTITIES[i];
        if entity.pattern + ";" <= buf[p + 1..end] {
          return |entity.pattern| + 2, [entity.value];
        }
        i := i + 1;
      }
      return 1, [buf[q]];
    } else {
      return 1, [c];
    }
  }

  /** Copy `w` to position `q` of the buffer. */
  method Store(buf: array<char>, q: nat, w: string)
    requires q + |w| <= buf.Length
    modifies buf
    ensures buf[q..q + |w|] == w
    ensures forall i :: 0 <= i < q || q + |w| <= i < buf.Length ==> buf[i] == old(buf[i])
  {
    var i := 0;
    while i < |w|
      invariant 0 <= i <= |w|
      invariant buf[q..q + i] == w[..i]
      invariant forall j :: 0 <= j < q || q + i <= j < buf.Length ==> buf[j] == old(buf[j])
    {
      buf[q + i] := w[i];
      i := i + 1;
    }
  }

  lemma Unfold(v: string, p: nat, out: string, flags: Flags)
    requires |out| <= p < |v|
    ensures var s := DecodeStep(v, p, |out|, flags);
            Decode(v, p, out, flags) == Decode(v, p + s.read, out + s.written, flags)
  {
  }

  lemma Finish(v: string, out: string, flags: Flags)
    requires |out| <= |v|
    ensures Decode(v, |v|, out, flags) == out
  {
  }

  /** The decoding loop. The write position never passes the read position, so that what is still to be read
      has not been overwritten. */
  method DecodeInPlace(buf: array<char>, start: nat, end: nat, flags: Flags) returns (q: nat)
    requires start <= end < buf.Length && buf[end] == NUL && NUL !in buf[start..end]
    modifies buf
    ensures start <= q <= end
    ensures buf[start..q] == Decode(old(buf[start..end]), 0, "", flags) && buf[q] == NUL
    ensures forall i :: 0 <= i < start || end < i < buf.Length ==> buf[i] == old(buf[i])
  {
    hide DecodeStep, Decode;
    ghost var v := buf[start..end];
    var p := start;
    q := start;
    assert buf[start..q] == "";
    while p < end
      invariant start <= q <= p <= end
      invariant Decode(v, 0, "", flags) == Decode(v, p - start, buf[start..q], flags)
      invariant forall i :: q <= i < end ==> buf[i] == v[i - start]
      invariant forall i :: 0 <= i < start || end <= i < buf.Length ==> buf[i] == old(buf[i])
    {
      ghost var out := buf[start..q];
      var read, written := Turn(buf, p, q, end, flags, v, start);
      Unfold(v, p - start, out, flags);
      Store(buf, q, written);
      p, q := p + read, q + |written|;
      assert buf[start..q] == out + written;
    }
    Finish(v, buf[start..q], flags);
    buf[q] := NUL;
  }

  /** The C string at position `start` of the buffer. */
  ghost function StringAt(buf: array<char>, start: nat): string
    requires start <= buf.Length
    reads buf
  {
    CString(buf[start..])
  }

  lemma CStringEnds(s: string, k: nat)
    requires k < |s| && s[k] == NUL && NUL !in s[..k]
    ensures CString(s) == s[..k]
  {
    assert forall i :: 0 <= i < k ==> s[i] == s[..k][i];
  }

  /** `XMLUtil::SkipWhiteSpace` on the buffer. */
  method SkipBlanks(buf: array<char>, p: nat, ghost end: nat) returns (q: nat)
    requires p <= end < buf.Length && buf[end] == NUL
    ensures q <= end && q - p == SkipWhiteSpace(buf[p..end], 0)
  {
    ghost var t := buf[p..end];
    q := p;
    while IsWhiteSpace(buf[q])
      invariant p <= q <= end
      invariant SkipWhiteSpace(t, 0) == SkipWhiteSpace(t, q - p)
      decreases end - q
    {
      assert buf[q] == t[q - p];
      q := q + 1;
    }
    assert q < end ==> buf[q] == t[q - p];
  }

  lemma SkipFrom(s: string, p: nat)
    requires p <= |s|
    ensures p + SkipWhiteSpace(s[p..], 0) == SkipWhiteSpace(s, p)
  {
  }

  /** `CollapseWhitespace` on the C string at `start`; the result is where the collapsed string starts. */
  method CollapseWhitespace(buf: array<char>, start: nat, ghost end: nat) returns (from: nat)
    requires start <= end < buf.Length && buf[end] == NUL && NUL !in buf[start..end]
    modifies buf
    ensures start <= from <= end
    ensures StringAt(buf, from) == Collapse(old(buf[start..end])) && from + |StringAt(buf, from)| <= end
    ensures forall i :: 0 <= i < start || end < i < buf.Length ==> buf[i] == old(buf[i])
  {
    hide CollapseFrom, IndexOf, StringAt, CString;
    from := SkipBlanks(buf, start, end);
    ghost var s := buf[from..end];
    assert buf[start..end][from - start..] == s;
    CollapseFromNoNul(s, 0, "");
    if buf[from] == NUL {
      assert from == end;
      NothingCollapsed(buf, end);
    } else {
      var q := CollapseLoop(buf, from, end);
      EndAt(buf, from, q);
    }
  }

  lemma NothingCollapsed(buf: array<char>, end: nat)
    requires end < buf.Length && buf[end] == NUL
    ensures StringAt(buf, end) == CollapseFrom(buf[end..end], 0, "") == ""
  {
    assert buf[end..end] == "" && buf[end..][..0] == "";
    CStringEnds(buf[end..], 0);
  }

  /** A NUL ends the string that starts at `from`. */
  method EndAt(buf: array<char>, from: nat, q: nat)
    requires from <= q < buf.Length && NUL !in buf[from..q]
    modifies buf
    ensures StringAt(buf, from) == old(buf[from..q])
    ensures forall i :: 0 <= i < buf.Length && i != q ==> buf[i] == old(buf[i])
  {
    buf[q] := NUL;
    assert buf[from..][..q - from] == buf[from..q];
    CStringEnds(buf[from..], q - from);
  }

  /** What a turn that skips the white space from `p` to `r` copies. */
  function Copied(s: string, p: nat, r: nat): string
    requires p <= r < |s|
  {
    if r == p then [s[r]] else [' ', s[r]]
  }

  /** One turn of the collapsing loop: copy the next word character with a blank for the white space before
      it, unless only white space is left. */
  method CollapseStep(buf: array<char>, p: nat, q: nat, ghost from: nat, ghost end: nat, ghost s: string)
    returns (p': nat, q': nat, done: bool)
    requires from <= q <= p < end < buf.Length && buf[end] == NUL && NUL !in s && |s| == end - from
    requires forall i :: p <= i < end ==> buf[i] == s[i - from]
    modifies buf
    ensures var r := SkipWhiteSpace(s, p - from);
            && (done <==> r == |s|)
            && (done ==> p' == end && q' == q)
            && (!done ==> p' == r + from + 1 && q < q' <= p')
            && buf[from..q'] == old(buf[from..q]) + (if done then "" else Copied(s, p - from, r))
    ensures forall i :: 0 <= i < from || q' <= i < buf.Length ==> buf[i] == old(buf[i])
  {
    hide *;
    ghost var out := buf[from..q];
    assert buf[p..end] == s[p - from..];
    SkipFrom(s, p - from);
    if p - from + SkipWhiteSpace(s[p - from..], 0) < |s| {
      CopiedFrom(s, p - from, SkipWhiteSpace(s[p - from..], 0));
    }
    p', q', done := CopyWord(buf, p, q, end);
    assert buf[from..q'] == out + buf[q..q'];
  }

  method CopyWord(buf: array<char>, p: nat, q: nat, ghost end: nat) returns (p': nat, q': nat, done: bool)
    requires q <= p < end < buf.Length && buf[end] == NUL && NUL !in buf[p..end]
    modifies buf
    ensures var t := old(buf[p..end]);
            var r := SkipWhiteSpace(t, 0);
            && (done <==> r == |t|)
            && p' == p + r + (if done then 0 else 1) && q <= q' <= p' && (!done ==> q < q')
            && buf[q..q'] == if done then "" else Copied(t, 0, r)
    ensures forall i :: 0 <= i < q || q' <= i < buf.Length ==> buf[i] == old(buf[i])
  {
    p', q', done := p, q, false;
    if IsWhiteSpace(buf[p]) {
      p' := SkipBlanks(buf, p, end);
      if buf[p'] == NUL {
        return p', q', true;
      }
      buf[q'] := ' ';
      q' := q' + 1;
    }
    buf[q'] := buf[p'];
    q' := q' + 1;
    p' := p' + 1;
  }

  lemma CopiedFrom(s: string, p: nat, r: nat)
    requires p + r < |s|
    ensures Copied(s[p..], 0, r) == Copied(s, p, p + r)
  {
  }

  lemma {:induction false} CollapseFromNoNul(s: string, p: nat, out: string)
    requires |out| <= p <= |s| && NUL !in s && NUL !in out
    ensures NUL !in CollapseFrom(s, p, out)
    decreases |s| - p
  {
    var r := SkipWhiteSpace(s, p);
    if r < |s| {
      CollapseFromNoNul(s, r + 1, out + if r == p then [s[p]] else [' ', s[r]]);
    }
  }

  method CollapseLoop(buf: array<char>, from: nat, ghost end: nat) returns (q: nat)
    requires from <= end < buf.Length && buf[end] == NUL && NUL !in buf[from..end]
    modifies buf
    ensures from <= q <= end && buf[from..q] == CollapseFrom(old(buf[from..end]), 0, "")
    ensures forall i :: 0 <= i < from || end <= i < buf.Length ==> buf[i] == old(buf[i])
  {
    hide *;
    ghost var s := buf[from..end];
    var p, done := from, false;
    q := from;
    assert buf[from..q] == "";
    while !done && buf[p] != NUL
      invariant from <= q <= p <= end
      invariant forall i :: q <= i < end ==> buf[i] == s[i - from]
      invariant CollapseFrom(s, 0, "") == if done then buf[from..q] else CollapseFrom(s, p - from, buf[from..q])
      invariant forall i :: 0 <= i < from || end <= i < buf.Length ==> buf[i] == old(buf[i])
      decreases end - p, !done
    {
      CollapseTurn(s, p - from, SkipWhiteSpace(s, p - from), buf[from..q]);
      p, q, done := CollapseStep(buf, p, q, from, end, s);
    }
    if !done {
      CollapseTurn(s, end - from, end - from, buf[from..q]);
    }
  }

  /** One turn of the collapsing loop that skips the white space from `p` to `r`. */
  lemma CollapseTurn(s: string, p: nat, r: nat, out: string)
    requires |out| <= p <= |s|
    requires r == SkipWhiteSpace(s, p)
    ensures CollapseFrom(s, p, out) ==
            if r == |s| then out else CollapseFrom(s, r + 1, out + Copied(s, p, r))
    ensures SkipWhiteSpace(s, |s|) == |s|
  {
  }

  /** The end of the C string at `start`, when the character at `stop` is a NUL. */
  lemma TerminatorOf(buf: array<char>, start: nat, stop: nat) returns (k: nat)
    requires start <= stop < buf.Length && buf[stop] == NUL
    ensures start <= k <= stop && buf[k] == NUL && NUL !in buf[start..k]
    ensures buf[start..k] == CString(buf[start..stop]) == StringAt(buf, start)
  {
    var d := buf[start..stop];
    k := start + IndexOf(d, NUL, 0);
    assert buf[start..k] == d[..k - start];
    assert k < stop ==> buf[k] == d[k - start];
    assert buf[start..][..k - start] == buf[start..k];
    CStringEnds(buf[start..], k - start);
  }

  lemma TerminatedBy(buf: array<char>, start: nat, end: nat)
    requires start <= end < buf.Length
    requires |StringAt(buf, start)| <= end - start
    ensures NUL in buf[start..end + 1]
  {
    var k := |StringAt(buf, start)|;
    assert k == IndexOf(buf[start..], NUL, 0) < |buf[start..]|;
    assert buf[start..end + 1][k] == buf[start..][k] == NUL;
  }

  /** The work of the first `GetStr`; the result is the new start of the piece. */
  method Flush(buf: array<char>, start: nat, end: nat, flags: Flags) returns (from: nat)
    requires start <= end < buf.Length && NUL !in buf[start..end]
    modifies buf
    ensures start <= from <= end && NUL in buf[from..end + 1]
    ensures StringAt(buf, from) == Shown(old(buf[start..end]), flags)
    ensures forall i :: 0 <= i < start || end < i < buf.Length ==> buf[i] == old(buf[i])
  {
    hide Decode, Collapse;
    buf[end] := NUL;
    assert buf[start..end] == old(buf[start..end]);
    var stop := end;
    if flags != Flags(false, false, false) {
      stop := DecodeInPlace(buf, start, end, flags);
    }
    ghost var k := TerminatorOf(buf, start, stop);
    from := start;
    if flags.collapse {
      from := CollapseWhitespace(buf, start, k);
    }
    TerminatedBy(buf, from, end);
  }

  /** A piece of the document's buffer with its pending work. */
  class StrPair {
    var buf: array<char>
    var start: nat
    var end: nat
    var flags: Flags
    var needsFlush: bool

    ghost predicate Valid()
      reads this, buf
    {
      && start <= end < buf.Length
      && if needsFlush then NUL !in buf[start..end] else NUL in buf[start..end + 1]
    }

    /** The text that `GetStr` gives, whether or not it has been called before. */
    ghost function Value(): string
      requires Valid()
      reads this, buf
    {
      if needsFlush then Shown(buf[start..end], flags) else StringAt(buf, start)
    }

    constructor Set(buf: array<char>, start: nat, end: nat, flags: Flags)
      requires start <= end < buf.Length && NUL !in buf[start..end]
      ensures Valid() && Value() == Shown(buf[start..end], flags)
      ensures this.buf == buf && this.start == start && this.end == end && needsFlush
    {
      this.buf, this.start, this.end, this.flags, this.needsFlush := buf, start, end, flags, true;
    }

    /** The first call decodes the piece in place, and every call gives the same text; only the piece and the
        character behind it change. */
    method GetStr() returns (r: nat)
      requires Valid()
      modifies this, buf
      ensures Valid() && buf == old(buf) && old(start) <= start <= end == old(end) && !needsFlush
      ensures r == start && StringAt(buf, r) == Value() == old(Value())
      ensures forall i :: 0 <= i < old(start) || end < i < buf.Length ==> buf[i] == old(buf[i])
      ensures !old(needsFlush) ==> start == old(start) && buf[..] == old(buf[..])
    {
      if needsFlush {
        start := Flush(buf, start, end, flags);
        needsFlush := false;
        flags := Flags(false, false, false);
      }
      return start;
    }
  }
}
