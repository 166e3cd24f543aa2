/** Which texts the multipart parser refuses. */
module MultipartErrors {
  import opened MultipartMachine
  import opened Multipart
  import opened MultipartPart
  import opened MultipartRoundTrip
  import opened MultipartOverflow
  import Ascii

  /** The letters of header names, one by one. */
  lemma LetterTable(c: char)
    ensures IsLetter(c) <==> Ascii.IsLetter(c)
    ensures NameChar(c) <==> Ascii.IsLetter(c) || c == '-'
  {
    Ascii.LetterPlaces(c);
  }

  lemma {:induction false} FailedStays(b: string, log: seq<Event>, t: string)
    requires |b| >= 2
    ensures Run(b, Failed(log), t) == Failed(log)
    decreases |t|
  {
    if t != "" {
      FailedStays(b, log, t[1..]);
    }
  }

  /** At the beginning of the headers, a name may hold letters and hyphens only. */
  lemma NameIsRefused(b: string, m: Machine, name: string, c: char, rest: string)
    requires |b| >= 2 && m.Running? && m.state == HeaderFieldStart
    requires forall i :: 0 <= i < |name| ==> Ascii.IsLetter(name[i]) || name[i] == '-'
    requires !Ascii.IsLetter(c) && c != '-' && c != CR && (c == ':' ==> name == "")
    ensures Run(b, m, name + ([c] + rest)) == Failed(m.sink.log)
  {
    hide Run, IsLetter, Ascii.IsLetter;
    NameIsLetters(name);
    LetterTable(c);
    FailedStays(b, m.sink.log, rest);
    var m0 := m.(state := HeaderField, index := 0);
    var t := name + ([c] + rest);
    assert t == [t[0]] + t[1..];
    RunFront(b, m, t[0], t[1..]);
    RunFront(b, m0, t[0], t[1..]);
    NameRun(b, m0, name, [c] + rest);
    RunFront(b, m0.(index := |name|, sink := m0.sink.HeaderField(name)), c, rest);
  }

  /** A carriage return ends the value, and a line feed must follow. */
  lemma ValueIsRefused(b: string, m: Machine, value: string, c: char, rest: string)
    requires |b| >= 2 && m.Running? && m.state == HeaderValue && CR !in value && c != LF
    ensures Run(b, m, value + ("\r" + ([c] + rest))) == Failed(m.sink.log)
  {
    hide Run;
    FailedStays(b, m.sink.log, rest);
    ValueRun(b, m, value, "\r" + ([c] + rest));
    var m1 := m.(sink := m.sink.HeaderValue(value));
    RunFront(b, m1, CR, [c] + rest);
    RunFront(b, m1.(state := HeaderValueAlmostDone, sink := m1.sink.HeaderEnd()), c, rest);
  }

  /** The empty line behind the headers ends with both. */
  lemma EndIsRefused(b: string, m: Machine, c: char, rest: string)
    requires |b| >= 2 && m.Running? && m.state == HeaderFieldStart && c != LF
    ensures Run(b, m, "\r" + ([c] + rest)) == Failed(m.sink.log)
  {
    hide Run;
    FailedStays(b, m.sink.log, rest);
    RunFront(b, m, CR, [c] + rest);
    RunFront(b, m.(state := HeadersAlmostDone, index := 0), c, rest);
  }

  /** The text that must stand at the beginning of a message. */
  function FirstLine(boundary: string): string {
    "--" + boundary + "\r\n"
  }

  lemma StartStep(boundary: string, i: nat, sink: Sink, c: char)
    requires i < |FirstLine(boundary)|
    ensures var m := Running(StartBoundary, i, false, false, "", sink);
            Step(Delimiter(boundary), m, c) ==
              if c != FirstLine(boundary)[i] then Failed(sink.log)
              else if i + 1 < |FirstLine(boundary)| then m.(index := i + 1)
              else m.(state := HeaderFieldStart, index := 0)
  {
    var b, line := Delimiter(boundary), FirstLine(boundary);
    assert |b| == |boundary| + 4 && |line| == |b|;
    assert i < |b| - 2 ==> b[i + 2] == line[i];
  }

  /** A message that does not begin so is refused at the first character that differs. */
  lemma {:induction false} StartIsRefused(boundary: string, i: nat, sink: Sink, t: string, k: nat)
    requires var line := FirstLine(boundary);
             && i < |line| && k < |t| && i + k < |line| && t[k] != line[i + k]
             && forall j :: 0 <= j < k ==> t[j] == line[i + j]
    ensures Run(Delimiter(boundary), Running(StartBoundary, i, false, false, "", sink), t) == Failed(sink.log)
    decreases k
  {
    hide Run, Step, FirstLine;
    var b, m := Delimiter(boundary), Running(StartBoundary, i, false, false, "", sink);
    StartStep(boundary, i, sink, t[0]);
    assert t == [t[0]] + t[1..];
    RunFront(b, m, t[0], t[1..]);
    if k == 0 {
      FailedStays(b, sink.log, t[1..]);
    } else {
      StartIsRefused(boundary, i + 1, sink, t[1..], k - 1);
    }
  }

  lemma MessageIsRefused(boundary: string, sink: Sink, t: string, k: nat)
    requires k < |t| && k < |FirstLine(boundary)| && t[k] != FirstLine(boundary)[k]
    requires forall j :: 0 <= j < k ==> t[j] == FirstLine(boundary)[j]
    ensures Run(Delimiter(boundary), Initial(sink), t) == Failed(sink.log)
  {
    hide Run, Step, FirstLine;
    var b := Delimiter(boundary);
    FirstStep(b, sink, t[0]);
    assert t == [t[0]] + t[1..];
    RunFront(b, Initial(sink), t[0], t[1..]);
    RunFront(b, Running(StartBoundary, 0, false, false, "", sink), t[0], t[1..]);
    StartIsRefused(boundary, 0, sink, t, k);
  }
}
