/** When the lookbehind buffer of the multipart parser overflows, and when the parser is jammed in part data: after
    a header name that is too long and has no colon, and never otherwise. */
module MultipartOverflow {
  import opened MultipartMachine
  import opened Multipart
  import opened MultipartPart
  import opened MultipartRoundTrip

  predicate NameChar(c: char) {
    IsLetter(c) || c == '-'
  }

  /** Where the parser is behind a text. */
  ghost function Place(b: string, sink: Sink, t: string): Control
    requires |b| >= 2
  {
    ControlOf(Run(b, Initial(sink), t))
  }

  predicate AtHeader(k: Control) {
    k.At? && k.state == HeaderFieldStart
  }

  /** The characters from `i` to `j` begin a header and could be its name. */
  ghost predicate Named(b: string, sink: Sink, t: string, i: nat, j: nat)
    requires |b| >= 2
  {
    i <= j <= |t| && AtHeader(Place(b, sink, t[..i])) && forall k :: i <= k < j ==> NameChar(t[k])
  }

  /** A header name without a colon, a line end in its place, and data. */
  ghost predicate Colonless(b: string, sink: Sink, t: string, i: nat, j: nat)
    requires |b| >= 2
  {
    Named(b, sink, t, i, j) && j + 2 < |t| && t[j] == CR && t[j + 1] == LF
  }

  /** Such a name, at least nine characters longer than the boundary. */
  ghost predicate Overlong(b: string, sink: Sink, t: string, i: nat, j: nat)
    requires |b| >= 2
  {
    Colonless(b, sink, t, i, j) && j - i >= |b| + 9
  }

  /** Such a name, between four and eight characters longer than the boundary. */
  ghost predicate Long(b: string, sink: Sink, t: string, i: nat, j: nat)
    requires |b| >= 2
  {
    Colonless(b, sink, t, i, j) && |b| + 4 <= j - i <= |b| + 8
  }

  /** In part data, with an index that no character changes. */
  predicate Jammed(b: string, k: Control) {
    k.At? && k.state == PartData && k.index >= |b| + 4
  }

  lemma PlaceSnoc(b: string, sink: Sink, t: string, c: char)
    requires |b| >= 2
    ensures Place(b, sink, t + [c]) == Move(b, Place(b, sink, t), c)
  {
    hide Run, Step, Move;
    RunLast(b, Initial(sink), t, c);
    ControlStep(b, Run(b, Initial(sink), t), c);
  }

  // ----- What such names lead to -------------------------------------------------------

  lemma NameMoves(b: string, k: Control, c: char)
    requires |b| >= 2 && k.At? && (k.state == HeaderFieldStart || k.state == HeaderField) && NameChar(c)
    ensures Move(b, k, c) == At(HeaderField, (if k.state == HeaderField then k.index else 0) + 1, k.part, k.last)
  {
    hide StepStart, StepValue, StepData;
  }

  lemma {:induction false} NamePlace(b: string, sink: Sink, t: string, i: nat, j: nat)
    requires |b| >= 2 && Named(b, sink, t, i, j) && i < j
    ensures var k := Place(b, sink, t[..j]); k.At? && k.state == HeaderField && k.index == j - i
    decreases j
  {
    hide Place, Move;
    var n := j - 1;
    assert t[..j] == t[..n] + [t[n]];
    if i < n {
      NamePlace(b, sink, t, i, n);
    }
    PlaceSnoc(b, sink, t[..n], t[n]);
    NameMoves(b, Place(b, sink, t[..n]), t[n]);
  }

  /** A line end behind a name, and one more character. */
  lemma LineEndMoves(b: string, k: Control, c: char)
    requires |b| >= 2 && k.At? && k.state == HeaderField && k.index >= |b| + 4
    ensures Move(b, Move(b, Move(b, k, CR), LF), c)
         == if k.index <= |b| + 8 then At(PartData, k.index, k.part, k.last) else Overflown
  {
    var k1 := At(HeadersAlmostDone, k.index, k.part, k.last);
    assert Move(b, k, CR) == k1;
    var k2 := At(PartDataStart, k.index, k.part, k.last);
    assert Move(b, k1, LF) == k2;
  }

  lemma ColonlessPlace(b: string, sink: Sink, t: string, i: nat, j: nat)
    requires |b| >= 2 && Colonless(b, sink, t, i, j) && j - i >= |b| + 4
    ensures var k := Place(b, sink, t[..j + 3]); if j - i <= |b| + 8 then Jammed(b, k) else k == Overflown
  {
    hide Place, Move;
    NamePlace(b, sink, t, i, j);
    assert t[..j + 1] == t[..j] + [CR] && t[..j + 2] == t[..j + 1] + [LF] && t[..j + 3] == t[..j + 2] + [t[j + 2]];
    PlaceSnoc(b, sink, t[..j], CR);
    PlaceSnoc(b, sink, t[..j + 1], LF);
    PlaceSnoc(b, sink, t[..j + 2], t[j + 2]);
    LineEndMoves(b, Place(b, sink, t[..j]), t[j + 2]);
  }

  lemma OverlongOverflows(b: string, sink: Sink, t: string, i: nat, j: nat)
    requires |b| >= 2 && Overlong(b, sink, t, i, j)
    ensures Place(b, sink, t) == Overflown
  {
    hide Run, Step, Move;
    ColonlessPlace(b, sink, t, i, j);
    var front := t[..j + 3];
    assert t == front + t[j + 3..];
    RunConcat(b, Initial(sink), front, t[j + 3..]);
    RunStuck(b, Run(b, Initial(sink), front), t[j + 3..]);
  }

  lemma LongJams(b: string, sink: Sink, t: string, i: nat, j: nat)
    requires |b| >= 2 && Long(b, sink, t, i, j)
    ensures Jammed(b, Place(b, sink, t))
  {
    hide Run, Step, Move;
    ColonlessPlace(b, sink, t, i, j);
    var front := t[..j + 3];
    assert t == front + t[j + 3..];
    InRange(b, sink, front);
    RunConcat(b, Initial(sink), front, t[j + 3..]);
    StuckInData(b, Run(b, Initial(sink), front), t[j + 3..]);
  }

  /** A jammed parser never leaves part data again. */
  lemma {:induction false} StuckInData(b: string, m: Machine, s: string)
    requires |b| >= 2 && Jammed(b, ControlOf(m)) && ControlOf(m).index <= |b| + 8
    ensures ControlOf(Run(b, m, s)) == ControlOf(m)
    decreases |s|
  {
    hide Step, Move;
    if s != "" {
      var k := ControlOf(m);
      ControlStep(b, m, s[0]);
      StayInData(b, k, s[0]);
      StuckInData(b, Step(b, m, s[0]), s[1..]);
    }
  }

  lemma StayInData(b: string, k: Control, c: char)
    requires |b| >= 2 && Jammed(b, k) && k.index <= |b| + 8
    ensures Move(b, k, c) == k
  {
  }

  // ----- Nothing else does ---------------------------------------------------------------

  /** How the parser can come to the places on the way to an overflow. */
  predicate CameBy(b: string, k: Control, c: char, k': Control)
    requires k.At?
  {
    && (k' == Overflown ==> (k.state == PartDataStart || k.state == PartData) && k.index >= |b| + 9)
    && (k'.At? ==>
         match k'.state
         case HeaderField =>
           NameChar(c) && (if k.state == HeaderField then k'.index == k.index + 1 else AtHeader(k) && k'.index == 1)
         case HeadersAlmostDone => k'.index > 0 ==> c == CR && k.state == HeaderField && k'.index == k.index
         case PartDataStart => k'.index > 0 ==> c == LF && k.state == HeadersAlmostDone && k'.index == k.index
         case PartData =>
           k'.index <= |b| + 8 &&
           (Jammed(b, k') ==> (k.state == PartDataStart || k.state == PartData) && k.index == k'.index)
         case _ => true)
  }

  lemma MovesBack(b: string, k: Control, c: char)
    requires |b| >= 2 && k.At?
    ensures CameBy(b, k, c, Move(b, k, c))
  {
    hide Move, CameBy;
    match k.state {
      case Start => StartMovesBack(b, k, c);
      case StartBoundary => StartMovesBack(b, k, c);
      case HeaderFieldStart => FieldMovesBack(b, k, c);
      case HeaderField => FieldMovesBack(b, k, c);
      case HeaderValueStart => ValueMovesBack(b, k, c);
      case HeaderValue => ValueMovesBack(b, k, c);
      case PartDataStart => DataMovesBack(b, k, c);
      case PartData => DataMovesBack(b, k, c);
      case _ => OtherMovesBack(b, k, c);
    }
  }

  lemma StartMovesBack(b: string, k: Control, c: char)
    requires |b| >= 2 && k.At? && (k.state == Start || k.state == StartBoundary)
    ensures CameBy(b, k, c, Move(b, k, c))
  {
    hide StepStart;
    var m := Bare(k);
    StartBack(b, m.(state := StartBoundary, index := 0), c);
    StartBack(b, m.(state := StartBoundary), c);
  }

  lemma FieldMovesBack(b: string, k: Control, c: char)
    requires |b| >= 2 && k.At? && (k.state == HeaderFieldStart || k.state == HeaderField)
    ensures CameBy(b, k, c, Move(b, k, c))
  {
    hide StepField;
    var m := Bare(k);
    FieldBack(m.(state := HeaderField, index := 0), c);
    FieldBack(m.(state := HeaderField), c);
  }

  lemma ValueMovesBack(b: string, k: Control, c: char)
    requires |b| >= 2 && k.At? && (k.state == HeaderValueStart || k.state == HeaderValue)
    ensures CameBy(b, k, c, Move(b, k, c))
  {
    hide StepValue;
    var m := Bare(k);
    ValueBack(m.(state := HeaderValue), c);
  }

  lemma DataMovesBack(b: string, k: Control, c: char)
    requires |b| >= 2 && k.At? && (k.state == PartDataStart || k.state == PartData)
    ensures CameBy(b, k, c, Move(b, k, c))
  {
    hide StepData;
    var m := Bare(k);
    DataBack(b, m.(state := PartData), c);
  }

  lemma OtherMovesBack(b: string, k: Control, c: char)
    requires |b| >= 2 && k.At?
    requires k.state == ParseError || k.state == HeaderValueAlmostDone || k.state == HeadersAlmostDone ||
             k.state == AtEnd
    ensures CameBy(b, k, c, Move(b, k, c))
  {
    hide StepStart, StepField, StepValue, StepData;
  }

  lemma StartBack(b: string, m: Machine, c: char)
    requires |b| >= 2 && m.Running? && m.state == StartBoundary
    ensures var k := ControlOf(StepStart(b, m, c));
            k != Overflown && (k.At? ==> k.state == StartBoundary || k.state == HeaderFieldStart)
  {
  }

  lemma FieldBack(m: Machine, c: char)
    requires m.Running? && m.state == HeaderField
    ensures var k := ControlOf(StepField(m, c));
            && k != Overflown
            && (k.At? ==> k.state == HeaderField || k.state == HeadersAlmostDone || k.state == HeaderValueStart)
            && (k.At? && k.state == HeaderField ==> NameChar(c) && k.index == m.index + 1)
            && (k.At? && k.state == HeadersAlmostDone ==> c == CR && k.index == m.index)
  {
  }

  lemma ValueBack(m: Machine, c: char)
    requires m.Running? && m.state == HeaderValue
    ensures var k := ControlOf(StepValue(m, c)); k.At? && (k.state == HeaderValue || k.state == HeaderValueAlmostDone)
  {
  }

  lemma DataBack(b: string, m: Machine, c: char)
    requires |b| >= 2 && m.Running? && m.state == PartData
    ensures var k := ControlOf(StepData(b, m, c));
            && (k == Overflown ==> m.index >= |b| + 9)
            && (k.At? ==>
                 k.state == HeaderFieldStart || k.state == AtEnd || (k.state == PartData && k.index <= |b| + 8))
            && (Jammed(b, k) ==> k.index == m.index)
  {
    hide AddData;
  }

  /** What a place on the way to an overflow says of the text before it. */
  ghost predicate Traced(b: string, sink: Sink, t: string)
    requires |b| >= 2
  {
    var k, n := Place(b, sink, t), |t|;
    && (k == Overflown ==> exists i, j :: Overlong(b, sink, t, i, j))
    && (k.At? ==>
         match k.state
         case HeaderField => k.index <= n && Named(b, sink, t, n - k.index, n)
         case HeadersAlmostDone =>
           k.index > 0 ==> k.index < n && t[n - 1] == CR && Named(b, sink, t, n - 1 - k.index, n - 1)
         case PartDataStart =>
           k.index > 0 ==>
             k.index < n - 1 && t[n - 2] == CR && t[n - 1] == LF && Named(b, sink, t, n - 2 - k.index, n - 2)
         case PartData =>
           k.index <= |b| + 8 && (Jammed(b, k) ==> exists i, j :: Long(b, sink, t, i, j))
         case _ => true)
  }

  lemma NamedSnoc(b: string, sink: Sink, t: string, c: char, i: nat, j: nat)
    requires |b| >= 2 && Named(b, sink, t, i, j)
    ensures Named(b, sink, t + [c], i, j)
    ensures j == |t| && NameChar(c) ==> Named(b, sink, t + [c], i, j + 1)
  {
    hide Place;
    assert (t + [c])[..i] == t[..i];
  }

  lemma NamedStart(b: string, sink: Sink, t: string, c: char)
    requires |b| >= 2 && AtHeader(Place(b, sink, t)) && NameChar(c)
    ensures Named(b, sink, t + [c], |t|, |t| + 1)
  {
    hide Place;
    assert (t + [c])[..|t|] == t;
  }

  lemma StaysStopped(b: string, k: Control, c: char)
    requires |b| >= 2 && !k.At?
    ensures Move(b, k, c) == k
  {
  }

  lemma TracedStep(b: string, sink: Sink, t: string, c: char)
    requires |b| >= 2 && Traced(b, sink, t)
    ensures Traced(b, sink, t + [c])
  {
    hide Place, Move, Named, NameChar;
    var k, k', n := Place(b, sink, t), Place(b, sink, t + [c]), |t|;
    PlaceSnoc(b, sink, t, c);
    if !k.At? {
      StaysStopped(b, k, c);
    }
    if k == Overflown {
      var i, j :| Overlong(b, sink, t, i, j);
      NamedSnoc(b, sink, t, c, i, j);
      assert Overlong(b, sink, t + [c], i, j);
    } else if k.At? {
      MovesBack(b, k, c);
      if k.state == HeaderFieldStart && k'.At? && k'.state == HeaderField {
        NamedStart(b, sink, t, c);
      } else if k.state == HeaderField {
        NamedSnoc(b, sink, t, c, n - k.index, n);
      } else if k.state == HeadersAlmostDone && k.index > 0 {
        NamedSnoc(b, sink, t, c, n - 1 - k.index, n - 1);
      } else if k.state == PartDataStart && k.index > 0 {
        NamedSnoc(b, sink, t, c, n - 2 - k.index, n - 2);
        ColonIsMissed(b, sink, t, c, n - 2 - k.index, n - 2, k');
      } else if Jammed(b, k) {
        var i, j :| Long(b, sink, t, i, j);
        NamedSnoc(b, sink, t, c, i, j);
        assert Long(b, sink, t + [c], i, j);
      }
    }
  }

  /** The first character of data behind a name without a colon. */
  lemma ColonIsMissed(b: string, sink: Sink, t: string, c: char, i: nat, j: nat, k': Control)
    requires |b| >= 2 && Named(b, sink, t + [c], i, j) && j + 2 == |t| && t[j] == CR && t[j + 1] == LF
    requires k' == Overflown ==> j - i >= |b| + 9
    requires Jammed(b, k') ==> j - i == k'.index <= |b| + 8
    ensures k' == Overflown ==> Overlong(b, sink, t + [c], i, j)
    ensures Jammed(b, k') ==> Long(b, sink, t + [c], i, j)
  {
    hide Named;
  }

  lemma {:induction false} TracedRun(b: string, sink: Sink, t: string)
    requires |b| >= 2
    ensures Traced(b, sink, t)
    decreases |t|
  {
    hide Traced;
    if t == "" {
      TracedNothing(b, sink);
    } else {
      var n := |t| - 1;
      TracedRun(b, sink, t[..n]);
      TracedStep(b, sink, t[..n], t[n]);
      assert t[..n] + [t[n]] == t;
    }
  }

  lemma TracedNothing(b: string, sink: Sink)
    requires |b| >= 2
    ensures Traced(b, sink, "")
  {
  }

  /** Main result: the lookbehind buffer overflows exactly when a header begins with letters and hyphens, at
      least nine more of them than the boundary with its line end and hyphens has, which a line end follows in
      place of a colon, and data follows that. */
  lemma OverflowsExactly(b: string, sink: Sink, t: string)
    requires |b| >= 2
    ensures Place(b, sink, t) == Overflown <==> exists i, j :: Overlong(b, sink, t, i, j)
  {
    hide Place, Overlong;
    TracedRun(b, sink, t);
    if i, j :| Overlong(b, sink, t, i, j) {
      OverlongOverflows(b, sink, t, i, j);
    }
  }

  /** Main result: the parser is in part data for good exactly when the name is between four and eight characters
      longer than that. */
  lemma JamsExactly(b: string, sink: Sink, t: string)
    requires |b| >= 2
    ensures Jammed(b, Place(b, sink, t)) <==> exists i, j :: Long(b, sink, t, i, j)
  {
    hide Place, Long, Overlong;
    TracedRun(b, sink, t);
    if i, j :| Long(b, sink, t, i, j) {
      LongJams(b, sink, t, i, j);
    }
  }

  lemma InRange(b: string, sink: Sink, t: string)
    requires |b| >= 2 && Jammed(b, Place(b, sink, t))
    ensures Place(b, sink, t).index <= |b| + 8
  {
    hide Place, Long, Overlong;
    TracedRun(b, sink, t);
  }

  // ----- Messages that lead there --------------------------------------------------------

  /** A message whose first header has no colon, up to the first character of data. */
  function FirstHeader(boundary: string, name: string, c: char): string {
    ("--" + boundary) + ("\r\n" + (name + ("\r\n" + [c])))
  }

  lemma FirstHeaderIsColonless(boundary: string, sink: Sink, name: string, c: char, rest: string)
    requires CR !in boundary && forall i :: 0 <= i < |name| ==> NameChar(name[i])
    ensures var i := |boundary| + 4;
            Colonless(Delimiter(boundary), sink, FirstHeader(boundary, name, c) + rest, i, i + |name|)
  {
    hide Run, Step, Place;
    var i := |boundary| + 4;
    var t := FirstHeader(boundary, name, c) + rest;
    assert t[..i] == ("--" + boundary) + ("\r\n" + "");
    BehindBoundary(boundary, sink);
    assert forall k :: i <= k < i + |name| ==> t[k] == name[k - i];
  }

  /** Whatever follows the first header, a name that is long enough decides where the parser ends. */
  lemma LongFirstName(boundary: string, sink: Sink, name: string, c: char, rest: string)
    requires CR !in boundary && |name| >= |Delimiter(boundary)| + 4
    requires forall i :: 0 <= i < |name| ==> NameChar(name[i])
    ensures var b := Delimiter(boundary);
            var k := Place(b, sink, FirstHeader(boundary, name, c) + rest);
            if |name| <= |b| + 8 then Jammed(b, k) else k == Overflown
  {
    hide Place, Colonless, FirstHeader;
    FirstHeaderIsColonless(boundary, sink, name, c, rest);
    var b, t, i := Delimiter(boundary), FirstHeader(boundary, name, c) + rest, |boundary| + 4;
    if |name| <= |b| + 8 {
      LongJams(b, sink, t, i, i + |name|);
    } else {
      OverlongOverflows(b, sink, t, i, i + |name|);
    }
  }

  lemma BehindBoundary(boundary: string, sink: Sink)
    requires CR !in boundary
    ensures AtHeader(Place(Delimiter(boundary), sink, ("--" + boundary) + ("\r\n" + "")))
  {
    hide Run, Step;
    FirstBoundary(boundary, sink, "");
    RunNothing(Delimiter(boundary), Running(HeaderFieldStart, 0, false, false, "", sink));
  }

  /** Names of fourteen and twelve characters, and a boundary of one. */
  lemma ContentLength()
    ensures var name := "Content-Length"; |name| == 14 && forall i :: 0 <= i < |name| ==> NameChar(name[i])
  {
    assert |"Content-Length"| == 14;
  }

  lemma ContentType()
    ensures var name := "Content-Type"; |name| == 12 && forall i :: 0 <= i < |name| ==> NameChar(name[i])
  {
    assert |"Content-Type"| == 12;
  }

  lemma ShortBoundary()
    ensures "\r\n--B" == Delimiter("B") && CR !in "B"
  {
  }

  /** A message whose first header has lost its colon makes the parser throw. */
  method ColonIsMissing() returns (thrown: bool)
    ensures thrown
  {
    hide Run, Step, Delimiter, NameChar, FirstHeader;
    var reader := new MultipartReader();
    ContentLength();
    ShortBoundary();
    var parser := new MultipartParser("\r\n--B", reader);
    ghost var sink := reader.View();
    LongFirstName("B", sink, "Content-Length", 'x', "");
    var fed;
    fed, thrown := parser.Feed(FirstHeader("B", "Content-Length", 'x') + "", Initial(sink));
  }

  /** Another one leaves it in part data whatever follows, even the end of the message. */
  method PartNeverEnds(rest: string) returns (thrown: bool, parser: MultipartParser)
    ensures !thrown && parser.state == PartData
  {
    hide Run, Step, Delimiter, NameChar, FirstHeader;
    var reader := new MultipartReader();
    ContentType();
    ShortBoundary();
    parser := new MultipartParser("\r\n--B", reader);
    ghost var sink := reader.View();
    LongFirstName("B", sink, "Content-Type", 'x', rest);
    var fed;
    fed, thrown := parser.Feed(FirstHeader("B", "Content-Type", 'x') + rest, Initial(sink));
  }
}
