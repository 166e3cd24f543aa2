/** The multipart machine inside the body of a part: what ends the body, and what is told of it until then. */
module MultipartPart {
  import opened MultipartMachine

  /** A delimiter starts with a line end and holds no other carriage return. */
  predicate Shape(b: string) {
    |b| >= 4 && b[0] == CR && b[1] == LF && forall i :: 1 <= i < |b| ==> b[i] != CR
  }

  predicate OccursAt(s: string, b: string, i: nat) {
    i + |b| <= |s| && s[i..i + |b|] == b
  }

  ghost predicate Contains(s: string, b: string) {
    exists i: nat :: OccursAt(s, b, i)
  }

  predicate EndsWith(text: string, end: string) {
    |end| <= |text| && text[|text| - |end|..] == end
  }

  /** What ends a part: the delimiter and a line end, or two hyphens. But once a delimiter with a carriage return
      behind it has turned out to be data, a hyphen and a line feed end the part as well, and two hyphens no
      longer do. */
  ghost predicate Closes(b: string, text: string) {
    if Contains(text, b + "\r") then EndsWith(text, b + "\r\n") || EndsWith(text, b + "-\n")
    else EndsWith(text, b + "--")
  }

  /** Nothing in a text ends the part. */
  ghost predicate Open(b: string, text: string) {
    forall n :: 0 <= n <= |text| ==> !Closes(b, text[..n])
  }

  /** The body of a part that another part follows: nothing ends it before its own delimiter does. */
  ghost predicate Kept(b: string, body: string) {
    Open(b, body + "\r\n")
  }

  /** The body of the last part: no delimiter in it is followed by a carriage return, not even by that of the
      line end behind the body, and none by two hyphens. */
  ghost predicate Clean(b: string, body: string) {
    !Contains(body + "\r", b + "\r") && !Contains(body, b + "--")
  }

  // ----- Laws of texts -----------------------------------------------------------

  lemma EndsSnoc(t: string, c: char, s: string, d: char)
    ensures EndsWith(t + [c], s + [d]) <==> c == d && EndsWith(t, s)
  {
    if |s| <= |t| {
      var n := |t| - |s|;
      assert (t + [c])[n..] == t[n..] + [c];
      assert |t[n..]| == |s| && (t[n..] + [c])[..|s|] == t[n..] && (s + [d])[..|s|] == s;
      assert (t[n..] + [c])[|s|] == c && (s + [d])[|s|] == d;
    }
  }

  lemma ContainsSnoc(t: string, c: char, s: string)
    requires s != ""
    ensures Contains(t + [c], s) <==> Contains(t, s) || EndsWith(t + [c], s)
  {
    var u := t + [c];
    forall i: nat | i + |s| <= |t|
      ensures OccursAt(t, s, i) <==> OccursAt(u, s, i)
    {
      assert u[i..i + |s|] == t[i..i + |s|];
    }
    if EndsWith(u, s) {
      assert OccursAt(u, s, |u| - |s|);
    }
    if Contains(u, s) {
      var i: nat :| OccursAt(u, s, i);
      if i + |s| == |u| {
        assert u[i..] == u[i..|u|];
      }
    }
  }

  /** How far the boundary, and what may stand behind it, is matched behind one more character of data. */
  function NextIndex(b: string, k: nat, c: char): nat
    requires |b| >= 2
  {
    if (0 < k < |b| && b[k] == c) || (k == |b| && (c == CR || c == '-')) then k + 1
    else if c == b[0] then 1
    else 0
  }

  /** No beginning of the boundary at the end of the text is missed. */
  predicate Latest(b: string, k: nat, t: string) {
    && (forall j :: 2 <= j <= |b| && EndsWith(t, b[..j]) ==> k == j)
    && (t != "" && t[|t| - 1] == CR ==> k == 1 || k == |b| + 1)
    && (EndsWith(t, b + "\r") || EndsWith(t, b + "-") ==> k == |b| + 1)
  }

  lemma LatestStep(b: string, k: nat, t: string, c: char)
    requires Shape(b) && k <= |b| + 1 && Latest(b, k, t)
    requires k == |b| + 1 ==> EndsWith(t, b + "\r") || EndsWith(t, b + "-")
    requires !EndsWith(t + [c], b + "\r\n")
    ensures Latest(b, NextIndex(b, k, c), t + [c])
  {
    hide EndsWith;
    var k' := NextIndex(b, k, c);
    forall j | 2 <= j <= |b| && EndsWith(t + [c], b[..j])
      ensures k' == j
    {
      assert b[..j] == b[..j - 1] + [b[j - 1]];
      EndsSnoc(t, c, b[..j - 1], b[j - 1]);
      if j == 2 {
        LineFeed(b, k, t);
      }
    }
    EndsSnoc(t, c, b, CR);
    EndsSnoc(t, c, b, '-');
    assert b[..|b|] == b;
  }

  /** A line feed behind a carriage return that is not the end of a part. */
  lemma LineFeed(b: string, k: nat, t: string)
    requires Shape(b) && Latest(b, k, t) && EndsWith(t, b[..1])
    requires k == |b| + 1 ==> EndsWith(t, b + "\r") || EndsWith(t, b + "-")
    requires !EndsWith(t + [LF], b + "\r\n")
    ensures k == 1
  {
    assert t[|t| - 1] == CR;
    assert b + "\r\n" == (b + "\r") + [LF];
    EndsSnoc(t, LF, b + "\r", LF);
    EndsSnoc(t[..|t| - 1], CR, b, '-');
    assert t[..|t| - 1] + [CR] == t;
  }

  /** The machine in the middle of a part whose text so far is `t`, none of which has ended it. */
  ghost predicate Tracked(b: string, m: Machine, before: Sink, t: string) {
    && InData(b, m) && EndsWith(t, m.held) && m.sink == before.PartData(t[..|t| - |m.held|])
    && (m.part <==> Contains(t, b + "\r"))
    && (m.index == |b| + 1 ==> m.held == b + "\r" || (m.held == b + "-" && m.last))
    && Latest(b, m.index, t)
  }

  /** What is withheld at the second character behind a delimiter, and why it does not end the part. */
  lemma NotClosed(b: string, m: Machine, t: string, c: char)
    requires Shape(b) && InData(b, m) && EndsWith(t, m.held) && (m.part <==> Contains(t, b + "\r"))
    requires m.index == |b| + 1 ==> m.held == b + "\r" || m.held == b + "-"
    requires !Closes(b, t + [c])
    ensures m.index == |b| + 1 ==> EndsWith(t, b + "\r") || EndsWith(t, b + "-")
    ensures !EndsWith(t + [c], b + "\r\n")
    ensures m.index == |b| + 1 ==> !(m.part && c == LF) && !(!m.part && c == '-')
  {
    hide Contains, EndsWith;
    ContainsSnoc(t, c, b + "\r");
    EndsOfTwo(b, t, c);
    if EndsWith(t, b + "\r") {
      ContainsEnd(t, b + "\r");
    }
    EndsSnoc(t, c, b, CR);
  }

  lemma EndsOfTwo(b: string, t: string, c: char)
    ensures EndsWith(t + [c], b + "\r\n") <==> c == LF && EndsWith(t, b + "\r")
    ensures EndsWith(t + [c], b + "-\n") <==> c == LF && EndsWith(t, b + "-")
    ensures EndsWith(t + [c], b + "--") <==> c == '-' && EndsWith(t, b + "-")
  {
    hide EndsWith;
    assert b + "\r\n" == (b + "\r") + [LF] && b + "-\n" == (b + "-") + [LF] && b + "--" == (b + "-") + ['-'];
    EndsSnoc(t, c, b + "\r", LF);
    EndsSnoc(t, c, b + "-", LF);
    EndsSnoc(t, c, b + "-", '-');
  }

  lemma ContainsEnd(t: string, s: string)
    requires EndsWith(t, s)
    ensures Contains(t, s)
  {
    assert t[|t| - |s|..] == t[|t| - |s|..|t|];
    assert OccursAt(t, s, |t| - |s|);
  }

  lemma AtDelimiter(b: string, m: Machine, t: string)
    requires Shape(b) && InData(b, m) && EndsWith(t, m.held) && Latest(b, m.index, t)
    ensures EndsWith(t, b) <==> m.index == |b|
  {
    assert b[..|b|] == b;
  }

  /** The match goes on. */
  lemma MoreStep(b: string, m: Machine, before: Sink, t: string, c: char)
    requires Shape(b) && Tracked(b, m, before, t) && NextIndex(b, m.index, c) > 1
    ensures var m' := Step(b, m, c);
            && InData(b, m') && m'.index == NextIndex(b, m.index, c) && m'.held == m.held + [c] && m'.sink == m.sink
            && m'.part == (m.part || (m.index == |b| && c == CR))
            && (m'.index == |b| + 1 ==> m'.held == b + "\r" || (m'.held == b + "-" && m'.last))
  {
    hide AddData, Contains, Latest, EndsWith, StepFresh, StepBeyond;
    if m.index < |b| {
      assert b[..m.index + 1] == b[..m.index] + [b[m.index]];
    }
    assert b[..|b|] == b;
  }

  lemma Withheld(t: string, held: string)
    requires EndsWith(t, held)
    ensures |held| <= |t| && t[..|t| - |held|] + held == t
  {
  }

  lemma Restart(b: string, m: Machine, c: char)
    requires Shape(b) && InData(b, m) && NextIndex(b, m.index, c) <= 1
    requires m.index == |b| + 1 ==> !(m.part && c == LF) && !(!m.part && c == '-')
    ensures Step(b, m, c) == StepFresh(b, Release(m), c)
  {
    hide AddData, StepBeyond, StepFresh;
    AddDataTwice(m.sink.log, "", "");
  }

  lemma NextIsFresh(b: string, k: nat, c: char)
    requires |b| >= 2 && NextIndex(b, k, c) <= 1
    ensures NextIndex(b, k, c) == if c == b[0] then 1 else 0
  {
  }

  lemma FreshResult(b: string, m: Machine, before: Sink, t: string, c: char)
    requires |b| >= 2 && InData(b, m) && m.index == 0 && m.sink == before.PartData(t)
    ensures var m', k := StepFresh(b, m, c), if c == b[0] then 1 else 0;
            && InData(b, m') && m'.index == k && m'.held == [c][1 - k..]
            && m'.sink == before.PartData((t + [c])[..|t| + 1 - k]) && m'.part == m.part
  {
    hide AddData;
    AddDataTwice(before.log, t, [c]);
    assert (t + [c])[..|t|] == t && (t + [c])[..|t| + 1] == t + [c];
    assert [c][1..] == "" && [c][0..] == [c] && b[..1] == [b[0]];
  }

  /** What was withheld is data, and the match starts again. */
  lemma FreshStep(b: string, m: Machine, before: Sink, t: string, c: char)
    requires Shape(b) && Tracked(b, m, before, t) && NextIndex(b, m.index, c) <= 1
    requires m.index == |b| + 1 ==> !(m.part && c == LF) && !(!m.part && c == '-')
    ensures var m' := Step(b, m, c);
            && InData(b, m') && m'.index == NextIndex(b, m.index, c) && m'.held == [c][1 - m'.index..]
            && m'.sink == before.PartData((t + [c])[..|t| + 1 - m'.index]) && m'.part == m.part
  {
    hide AddData, Contains, Latest, EndsWith, Step, NextIndex, StepFresh;
    Restart(b, m, c);
    Withheld(t, m.held);
    AddDataTwice(before.log, t[..|t| - |m.held|], m.held);
    NextIsFresh(b, m.index, c);
    FreshResult(b, Release(m), before, t, c);
  }

  lemma TrackedStep(b: string, m: Machine, before: Sink, t: string, c: char)
    requires Shape(b) && Tracked(b, m, before, t) && !Closes(b, t + [c])
    ensures Tracked(b, Step(b, m, c), before, t + [c])
  {
    hide AddData, Contains, Latest, EndsWith, Step, NextIndex, Closes;
    ContainsSnoc(t, c, b + "\r");
    EndsSnoc(t, c, b, CR);
    NotClosed(b, m, t, c);
    AtDelimiter(b, m, t);
    LatestStep(b, m.index, t, c);
    Withheld(t, m.held);
    NextIndexFacts(b, m.index, c);
    if NextIndex(b, m.index, c) > 1 {
      MoreStep(b, m, before, t, c);
      EndsSnoc(t, c, m.held, c);
      assert (t + [c])[..|t| - |m.held|] == t[..|t| - |m.held|];
    } else {
      FreshStep(b, m, before, t, c);
      EndsWithLast(t, c, NextIndex(b, m.index, c));
    }
  }

  lemma NextIndexFacts(b: string, k: nat, c: char)
    requires Shape(b)
    ensures k == |b| && c == CR ==> NextIndex(b, k, c) > 1
    ensures NextIndex(b, k, c) > 1 ==> NextIndex(b, k, c) == k + 1
  {
  }

  lemma EndsWithLast(t: string, c: char, k: nat)
    requires k <= 1
    ensures EndsWith(t + [c], [c][1 - k..])
  {
  }

  lemma ClosingStep(b: string, m: Machine, before: Sink, t: string, c: char)
    requires Shape(b) && Tracked(b, m, before, t) && Closes(b, t + [c])
    ensures |t| > |b|
    ensures var closed := before.PartData(t[..|t| - |b| - 1]).Closed();
            var m' := Step(b, m, c);
            m'.Running? && (m'.sink == closed || m'.sink == closed.Finished())
  {
    hide AddData, Contains, Latest, EndsWith, StepFresh, StepBeyond, Shape;
    ContainsSnoc(t, c, b + "\r");
    EndsOfTwo(b, t, c);
    EndsSnoc(t, c, b, CR);
    EndsAreTwo(b, m, t);
  }

  lemma EndsAreTwo(b: string, m: Machine, t: string)
    requires InData(b, m) && EndsWith(t, m.held) && Latest(b, m.index, t)
    ensures EndsWith(t, b + "\r") || EndsWith(t, b + "-") ==> m.index == |b| + 1 && |t| > |b|
    ensures EndsWith(t, b + "-") ==> m.held != b + "\r"
  {
    if EndsWith(t, b + "-") {
      assert t[|t| - |b| - 1..][|b|] == '-' && (b + "\r")[|b|] == CR;
    }
  }

  // ----- A whole body ----------------------------------------------------------------

  /** A machine at the beginning of a body. */
  predicate AtBody(m: Machine) {
    m.Running? && m.state == PartData && m.index == 0 && m.held == "" && !m.part
  }

  lemma RunLast(b: string, m: Machine, t: string, c: char)
    requires |b| >= 2
    ensures Run(b, m, t + [c]) == Step(b, Run(b, m, t), c)
  {
    hide Step;
    RunConcat(b, m, t, [c]);
    RunFront(b, Run(b, m, t), c, "");
    assert [c] + "" == [c];
  }

  lemma {:induction false} TrackedRun(b: string, m: Machine, t: string)
    requires Shape(b) && AtBody(m) && Open(b, t)
    ensures Tracked(b, Run(b, m, t), m.sink, t)
    decreases |t|
  {
    hide Step, AddData, Closes, Tracked;
    if t == "" {
      NothingTracked(b, m);
    } else {
      var n := |t| - 1;
      assert t[..n] + [t[n]] == t && t[..|t|] == t;
      assert forall k :: 0 <= k <= n ==> t[..n][..k] == t[..k];
      TrackedRun(b, m, t[..n]);
      RunLast(b, m, t[..n], t[n]);
      TrackedStep(b, Run(b, m, t[..n]), m.sink, t[..n], t[n]);
    }
  }

  lemma NothingTracked(b: string, m: Machine)
    requires Shape(b) && AtBody(m)
    ensures Tracked(b, m, m.sink, "")
  {
    AddDataTwice(m.sink.log, "", "");
  }

  lemma {:induction false} FirstClose(b: string, t: string) returns (n: nat)
    requires !Open(b, t)
    ensures n <= |t| && Closes(b, t[..n]) && forall k :: 0 <= k < n ==> !Closes(b, t[..k])
    decreases |t|
  {
    hide Closes;
    if t == "" {
      n := 0;
    } else {
      var last := |t| - 1;
      assert t[..|t|] == t;
      assert forall k :: 0 <= k <= last ==> t[..last][..k] == t[..k];
      if Open(b, t[..last]) {
        n := |t|;
      } else {
        n := FirstClose(b, t[..last]);
      }
    }
  }

  /** A body that is ended early: what is told is that a shorter one has ended. */
  lemma LeavesEarly(b: string, m: Machine, t: string, rest: string) returns (w: string)
    requires Shape(b) && AtBody(m) && !Open(b, t)
    ensures |w| + |b| + 2 <= |t|
    ensures Grows(m.sink.PartData(w).Closed().log, LogOf(Run(b, m, t + rest)))
  {
    hide Run, Step, AddData, Grows, Closes, Tracked;
    var n := FirstClose(b, t);
    NotEmptyClose(b, t[..n]);
    var s, c := t[..n - 1], t[n - 1];
    assert t[..n] == s + [c] && t[n..] + rest == (t + rest)[n..] && t + rest == (s + [c]) + (t[n..] + rest);
    assert forall k :: 0 <= k <= n - 1 ==> s[..k] == t[..k];
    TrackedRun(b, m, s);
    RunLast(b, m, s, c);
    ClosingStep(b, Run(b, m, s), m.sink, s, c);
    w := s[..|s| - |b| - 1];
    var log := m.sink.PartData(w).Closed().log;
    GrowsNot(log);
    GrowsByOne(log, End);
    RunConcat(b, m, s + [c], t[n..] + rest);
    RunGrows(b, Run(b, m, s + [c]), t[n..] + rest);
    GrowsTwice(log, LogOf(Run(b, m, s + [c])), LogOf(Run(b, m, t + rest)));
  }

  lemma NotEmptyClose(b: string, t: string)
    requires Closes(b, t)
    ensures t != ""
  {
  }

  lemma AtPlace(b: string, s: string, i: nat, k: nat)
    requires OccursAt(s, b, i) && k < |b|
    ensures s[i + k] == b[k]
  {
    assert s[i..i + |b|][k] == s[i + k];
  }

  /** Only the first character of a delimiter is a carriage return, so what precedes it does not reach into it. */
  lemma NoOverlap(b: string, body: string, i: nat)
    requires Shape(b) && i < |body| && OccursAt(body + b, b, i)
    ensures i + |b| <= |body|
  {
    assert (body + b)[|body|] == b[0];
    if i + |b| > |body| {
      AtPlace(b, body + b, i, |body| - i);
    }
  }

  lemma OpenToDelimiter(b: string, body: string)
    requires Shape(b) && Kept(b, body)
    ensures Open(b, body + b)
  {
    hide Closes, Shape;
    forall n | 0 <= n <= |body + b|
      ensures !Closes(b, (body + b)[..n])
    {
      if n <= |body| + 2 {
        SameFront(b, body, n);
      } else {
        NotInDelimiter(b, body, n);
      }
    }
  }

  lemma SameFront(b: string, body: string, n: nat)
    requires Shape(b) && n <= |body| + 2
    ensures (body + b)[..n] == (body + "\r\n")[..n]
  {
  }

  lemma NotInDelimiter(b: string, body: string, n: nat)
    requires Shape(b) && |body| + 2 < n <= |body + b|
    ensures !Closes(b, (body + b)[..n])
  {
    hide Contains;
    var t := (body + b)[..n];
    if Closes(b, t) {
      var i := n - |b| - 2;
      assert t[i..][..|b|] == b;
      assert t[i..][..|b|] == (body + b)[i..i + |b|];
      NoOverlap(b, body, i);
    }
  }

  lemma DelimiterContains(b: string, body: string)
    requires Shape(b)
    ensures Contains(body + b, b + "\r") <==> Contains(body + "\r", b + "\r")
  {
    if Contains(body + b, b + "\r") {
      var i: nat :| OccursAt(body + b, b + "\r", i);
      assert (body + b)[i..i + |b| + 1][..|b|] == (body + b)[i..i + |b|] && (b + "\r")[..|b|] == b;
      NoOverlap(b, body, i);
      assert (body + b)[..|body| + 1] == body + "\r";
      assert (body + b)[i..i + |b| + 1] == (body + b)[..|body| + 1][i..i + |b| + 1];
      assert OccursAt(body + "\r", b + "\r", i);
    }
    if Contains(body + "\r", b + "\r") {
      var i: nat :| OccursAt(body + "\r", b + "\r", i);
      assert (body + b)[..|body| + 1] == body + "\r";
      assert (body + b)[i..i + |b| + 1] == (body + b)[..|body| + 1][i..i + |b| + 1];
      assert OccursAt(body + b, b + "\r", i);
    }
  }

  /** A body that nothing ends is read to the end of its delimiter, and all of it is handed over. The flag for a
      carriage return behind a delimiter is left from a body that holds one. */
  lemma BodyRead(b: string, m: Machine, body: string)
    requires Shape(b) && AtBody(m) && Kept(b, body)
    ensures var m' := Run(b, m, body + b);
            && m'.Running? && m' == Running(PartData, |b|, m'.part, m'.last, b, m.sink.PartData(body))
            && (m'.part <==> Contains(body + "\r", b + "\r"))
  {
    hide Run, AddData, Latest, Contains, Open;
    var t, m' := body + b, Run(b, m, body + b);
    OpenToDelimiter(b, body);
    TrackedRun(b, m, t);
    DelimiterContains(b, body);
    assert t[|t| - |b|..] == b && t[..|t| - |b|] == body;
    AtDelimiter(b, m', t);
    assert b[..|b|] == b;
  }

  /** What stands behind a delimiter: a line end before the next part, or two hyphens at the end. */
  lemma AfterDelimiter(b: string, part: bool, last: bool, sink: Sink, rest: string)
    requires |b| >= 2 && b[0] != '-'
    ensures var m := Running(PartData, |b|, part, last, b, sink);
            && Run(b, m, "\r\n" + rest)
               == Run(b, Running(HeaderFieldStart, 0, false, last, "", sink.Closed()), rest)
            && Run(b, m, "--" + rest)
               == if part then Run(b, Running(PartData, 0, true, true, "", sink.PartData(b + "--")), rest)
                  else Running(AtEnd, |b| + 1, false, true, "", sink.Closed().Finished())
  {
    hide Run, AddData;
    var m := Running(PartData, |b|, part, last, b, sink);
    assert "\r\n" + rest == [CR] + ([LF] + rest);
    RunFront(b, m, CR, [LF] + rest);
    RunFront(b, m.(index := |b| + 1, part := true, held := b + [CR]), LF, rest);
    assert "--" + rest == ['-'] + (['-'] + rest);
    var m1 := m.(index := |b| + 1, last := true, held := b + ['-']);
    RunFront(b, m, '-', ['-'] + rest);
    RunFront(b, m1, '-', rest);
    if part {
      AddDataTwice(sink.log, b + ['-'], ['-']);
      assert b + ['-'] + ['-'] == b + "--";
    } else {
      EndRun(b, Running(AtEnd, |b| + 1, false, true, "", sink.Closed().Finished()), rest);
    }
  }

  lemma {:induction false} EndRun(b: string, m: Machine, s: string)
    requires |b| >= 2 && ControlOf(m).At? && ControlOf(m).state == AtEnd
    ensures Run(b, m, s) == m
    decreases |s|
  {
    if s != "" {
      EndRun(b, m, s[1..]);
    }
  }

  /** The condition on the last body, told from the one on the others. */
  lemma CleanIsKept(b: string, body: string)
    requires Shape(b)
    ensures Clean(b, body) <==> Kept(b, body) && !Contains(body + "\r", b + "\r")
  {
    hide Shape, Contains, Closes;
    if Clean(b, body) {
      forall n | 0 <= n <= |body + "\r\n"|
        ensures !Closes(b, (body + "\r\n")[..n])
      {
        CleanIsOpen(b, body, n);
      }
    } else if Kept(b, body) && Contains(body, b + "--") {
      OpenHasNoEnd(b, body);
    }
  }

  /** What a beginning contains, the whole contains. */
  lemma FrontContains(front: string, s: string, x: string)
    requires front <= s && Contains(front, x)
    ensures Contains(s, x)
  {
    var i: nat :| OccursAt(front, x, i);
    assert front[i..i + |x|] == s[i..i + |x|];
    assert OccursAt(s, x, i);
  }

  lemma CleanIsOpen(b: string, body: string, n: nat)
    requires Clean(b, body) && n <= |body| + 2
    ensures !Closes(b, (body + "\r\n")[..n])
  {
    hide Contains, EndsWith;
    var t := (body + "\r\n")[..n];
    var line := body + "\r";
    EndsSnoc(line, LF, b, CR);
    EndsSnoc(line, LF, b + "-", '-');
    ContainsSnoc(line, LF, b + "\r");
    EndsSnoc(body, CR, b + "-", '-');
    assert b + "-" + ['-'] == b + "--";
    if n == |body| + 2 {
      assert t == line + [LF];
    } else {
      assert t <= line;
      if Contains(t, b + "\r") {
        FrontContains(t, line, b + "\r");
      }
      if n == |body| + 1 {
        assert t == body + [CR];
      } else if EndsWith(t, b + "--") {
        ContainsEnd(t, b + "--");
        FrontContains(t, body, b + "--");
      }
    }
  }

  lemma OpenHasNoEnd(b: string, body: string)
    requires Kept(b, body) && Contains(body, b + "--")
    ensures Contains(body + "\r", b + "\r")
  {
    hide Contains, EndsWith;
    var n := EndOfOne(body, b + "--");
    var t := (body + "\r\n")[..n];
    assert t == body[..n];
    assert !Closes(b, t);
    FrontContains(t, body + "\r", b + "\r");
  }

  lemma EndOfOne(s: string, x: string) returns (n: nat)
    requires Contains(s, x)
    ensures n <= |s| && EndsWith(s[..n], x)
  {
    var i: nat :| OccursAt(s, x, i);
    n := i + |x|;
    assert s[..n][i..] == s[i..n];
  }
}
