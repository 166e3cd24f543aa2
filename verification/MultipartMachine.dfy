/** What the streaming multipart parser does with its input, one character at a time: the machine that every
    call of `feed` must agree with, however the input is cut into pieces. */
module MultipartMachine {

  const CR: char := '\r'
  const LF: char := '\n'

  // ----- The reader behind the parser ----------------------------------------------

  /** `std::multimap`: the values of each name in the order in which they were added. */
  type Headers = map<string, seq<string>>

  function Emplace(h: Headers, name: string, value: string): Headers {
    h[name := (if name in h then h[name] else []) + [value]]
  }

  function Get(h: Headers, name: string): seq<string> {
    if name in h then h[name] else []
  }

  /** One value more under its name, behind those that are there; all other names are as before. */
  lemma EmplaceAdds(h: Headers, name: string, value: string, other: string)
    ensures other in Emplace(h, name, value) <==> other in h || other == name
    ensures Get(Emplace(h, name, value), other) == Get(h, other) + if other == name then [value] else []
  {
  }

  lemma EmplaceAddsAll(h: Headers, name: string, value: string)
    ensures Emplace(h, name, value).Keys == h.Keys + {name}
    ensures forall other :: Get(Emplace(h, name, value), other) == Get(h, other) + if other == name then [value] else []
  {
    forall other {
      EmplaceAdds(h, name, value, other);
    }
  }

  /** What the application is told. Data that arrives in several calls for one part is one event. */
  datatype Event = PartBegin(headers: Headers) | Data(text: string) | PartEnd | End

  function AddData(log: seq<Event>, text: string): seq<Event> {
    if text == "" then log
    else if log != [] && log[|log| - 1].Data? then log[..|log| - 1] + [Data(log[|log| - 1].text + text)]
    else log + [Data(text)]
  }

  /** The state of `multipart_reader`, with the log of what it told the application. */
  datatype Sink = Sink(name: string, value: string, headers: Headers, log: seq<Event>) {
    function HeaderField(text: string): Sink { this.(name := name + text) }
    function HeaderValue(text: string): Sink { this.(value := value + text) }
    function HeaderEnd(): Sink { Sink("", "", Emplace(headers, name, value), log) }
    function HeadersEnd(): Sink { this.(headers := map[], log := log + [PartBegin(headers)]) }
    function PartData(text: string): Sink { this.(log := AddData(log, text)) }
    function Closed(): Sink { this.(log := log + [PartEnd]) }
    function Finished(): Sink { this.(log := log + [End]) }
  }

  // ----- The machine ---------------------------------------------------------------

  datatype State =
    | ParseError | Start | StartBoundary | HeaderFieldStart | HeaderField | HeaderValueStart | HeaderValue
    | HeaderValueAlmostDone | HeadersAlmostDone | PartDataStart | PartData | AtEnd

  /** The variables that decide where the parser goes next, an error, or the exception of the parser when its
      lookbehind buffer is too small. */
  datatype Control = At(state: State, index: nat, part: bool, last: bool) | Stopped | Overflown

  /** `held` is the text withheld because it may belong to a boundary. `Failed` is the error state. `Wild` is
      reached by a line end in the middle of a header name: the parser's variables go on as they would, but its
      marks and its lookbehind buffer are out of step with them, so that nothing more is said of what it hands
      over. What had been told before stays told. */
  datatype Machine =
    | Running(state: State, index: nat, part: bool, last: bool, held: string, sink: Sink)
    | Failed(log: seq<Event>)
    | Wild(control: Control, log: seq<Event>)

  function ControlOf(m: Machine): Control {
    match m
    case Running(state, index, part, last, _, _) => At(state, index, part, last)
    case Failed(_) => Stopped
    case Wild(control, _) => control
  }

  /** What the application has been told. */
  function LogOf(m: Machine): seq<Event> {
    if m.Running? then m.sink.log else m.log
  }

  /** A machine at a place, with nothing read so far. */
  function Bare(k: Control): Machine
    requires k.At?
  {
    Running(k.state, k.index, k.part, k.last, "", Sink("", "", map[], []))
  }

  function Initial(sink: Sink): Machine {
    Running(Start, 0, false, false, "", sink)
  }

  predicate IsLetter(c: char) {
    'a' <= c <= 'z' || 'A' <= c <= 'Z'
  }

  function Step(b: string, m: Machine, c: char): Machine
    requires |b| >= 2
  {
    match m
    case Running(_, _, _, _, _, _) => StepRunning(b, m, c)
    case Failed(_) => m
    case Wild(control, log) => Wild(Move(b, control, c), log)
  }

  /** Where a character takes the parser, whatever it has read. */
  function Move(b: string, k: Control, c: char): Control
    requires |b| >= 2
  {
    if k.At? then ControlOf(StepRunning(b, Bare(k), c)) else k
  }

  function StepRunning(b: string, m: Machine, c: char): Machine
    requires |b| >= 2 && m.Running?
  {
    match m.state
    case ParseError => Failed(m.sink.log)
    case Start => StepStart(b, m.(state := StartBoundary, index := 0), c)
    case StartBoundary => StepStart(b, m, c)
    case HeaderFieldStart => StepField(m.(state := HeaderField, index := 0), c)
    case HeaderField => StepField(m, c)
    case HeaderValueStart => if c == ' ' then m else StepValue(m.(state := HeaderValue), c)
    case HeaderValue => StepValue(m, c)
    case HeaderValueAlmostDone => if c == LF then m.(state := HeaderFieldStart) else Failed(m.sink.log)
    case HeadersAlmostDone =>
      if c == LF then m.(state := PartDataStart, sink := m.sink.HeadersEnd()) else Failed(m.sink.log)
    case PartDataStart => StepData(b, m.(state := PartData), c)
    case PartData => StepData(b, m, c)
    case AtEnd => m
  }

  /** The first boundary, without its leading line end and with one behind it. */
  function StepStart(b: string, m: Machine, c: char): Machine
    requires |b| >= 2 && m.Running?
  {
    if m.index == |b| - 2 then
      if c == CR then m.(index := m.index + 1) else Failed(m.sink.log)
    else if m.index == |b| - 1 then
      if c == LF then m.(state := HeaderFieldStart, index := 0) else Failed(m.sink.log)
    else if m.index < |b| - 2 && c == b[m.index + 2] then m.(index := m.index + 1)
    else Failed(m.sink.log)
  }

  function StepField(m: Machine, c: char): Machine
    requires m.Running?
  {
    if c == CR then
      if m.index == 0 then m.(state := HeadersAlmostDone)
      else Wild(At(HeadersAlmostDone, m.index, m.part, m.last), m.sink.log)
    else
      var m' := m.(index := m.index + 1);
      if c == '-' then m'.(sink := m.sink.HeaderField([c]))
      else if c == ':' then if m.index == 0 then Failed(m.sink.log) else m'.(state := HeaderValueStart)
      else if IsLetter(c) then m'.(sink := m.sink.HeaderField([c]))
      else Failed(m.sink.log)
  }

  function StepValue(m: Machine, c: char): Machine
    requires m.Running?
  {
    if c == CR then m.(state := HeaderValueAlmostDone, sink := m.sink.HeaderEnd())
    else m.(sink := m.sink.HeaderValue([c]))
  }

  /** The machine behind a false lead: what was withheld is data after all. */
  function Release(m: Machine): Machine
    requires m.Running?
  {
    m.(index := 0, held := "", sink := m.sink.PartData(m.held))
  }

  /** A character of part data while nothing is withheld. */
  function StepFresh(b: string, m: Machine, c: char): Machine
    requires |b| >= 2 && m.Running?
  {
    if c == b[0] then m.(index := 1, held := [c]) else m.(sink := m.sink.PartData([c]))
  }

  function StepData(b: string, m: Machine, c: char): Machine
    requires |b| >= 2 && m.Running?
  {
    var more := m.(index := m.index + 1, held := m.held + [c]);
    if m.index == 0 then StepFresh(b, m, c)
    else if m.index < |b| && b[m.index] == c then more
    else if m.index == |b| && c == CR then more.(part := true)
    else if m.index == |b| && c == '-' then more.(last := true)
    else if m.index == |b| + 1 && m.part && c == LF then
      m.(state := HeaderFieldStart, index := 0, part := false, held := "", sink := m.sink.Closed())
    else if m.index == |b| + 1 && !m.part && m.last && c == '-' then
      m.(state := AtEnd, held := "", sink := m.sink.Closed().Finished())
    else if m.index < |b| + 2 then StepFresh(b, Release(m), c)
    else StepBeyond(b, m, c)
  }

  /** Behind the characters that may follow a boundary. Only the length of a header name brings the index here:
      it is left alone from `|b| + 4` on, and too large for the lookbehind buffer from `|b| + 9` on. */
  function StepBeyond(b: string, m: Machine, c: char): Machine
    requires |b| >= 2 && m.Running? && m.index >= |b| + 2
  {
    if m.index == |b| + 2 && c == CR then m.(index := m.index + 1)
    else if m.index == |b| + 3 && c == LF then
      m.(state := AtEnd, index := 0, held := "", sink := m.sink.Closed().Finished())
    else if m.index <= |b| + 3 then StepFresh(b, Release(m), c)
    else if m.index <= |b| + 8 then m
    else Wild(Overflown, m.sink.log)
  }

  function Run(b: string, m: Machine, s: string): Machine
    requires |b| >= 2
    decreases |s|
  {
    if s == "" then m else Run(b, Step(b, m, s[0]), s[1..])
  }

  /** The machine at another place of the parser's switch, with all it has read. */
  function Placed(m: Machine, state: State, index: nat): Machine {
    match m
    case Running(_, _, _, _, _, _) => m.(state := state, index := index)
    case Failed(_) => m
    case Wild(control, log) => if control.At? then m.(control := control.(state := state, index := index)) else m
  }

  // ----- Laws ----------------------------------------------------------------------

  lemma {:induction false} RunConcat(b: string, m: Machine, s: string, t: string)
    requires |b| >= 2
    ensures Run(b, m, s + t) == Run(b, Run(b, m, s), t)
    decreases |s|
  {
    hide Step;
    if s == "" {
      assert s + t == t;
    } else {
      assert (s + t)[1..] == s[1..] + t;
      RunConcat(b, Step(b, m, s[0]), s[1..], t);
    }
  }

  lemma AddDataTwice(log: seq<Event>, s: string, t: string)
    ensures AddData(AddData(log, s), t) == AddData(log, s + t)
    ensures AddData(log, "") == log
  {
    assert s == "" ==> s + t == t;
    assert t == "" ==> s + t == s;
    if s != "" && t != "" && log != [] && log[|log| - 1].Data? {
      assert log[|log| - 1].text + s + t == log[|log| - 1].text + (s + t);
    }
  }

  lemma RunFront(b: string, m: Machine, c: char, rest: string)
    requires |b| >= 2
    ensures Run(b, m, [c] + rest) == Run(b, Step(b, m, c), rest)
  {
    hide Step;
    assert ([c] + rest)[1..] == rest;
  }

  /** Inside part data: what is withheld is as long as the index says, and it is the beginning of the boundary
      as far as that goes. */
  predicate InData(b: string, m: Machine) {
    m.Running? && m.state == PartData && |m.held| == m.index <= |b| + 1 &&
    (m.index <= |b| ==> m.held == b[..m.index])
  }

  /** Nothing is lost: what has been handed over and what is withheld make up the data. */
  predicate Carries(m: Machine, before: Sink, text: string)
    requires m.Running?
  {
    m.sink.PartData(m.held) == before.PartData(text)
  }

  /** A character short of a whole boundary keeps the machine inside part data and nothing is lost. */
  lemma StepDataKeeps(b: string, m: Machine, c: char, before: Sink, text: string)
    requires |b| >= 2 && InData(b, m) && m.index < |b| && Carries(m, before, text)
    ensures var m' := Step(b, m, c);
            InData(b, m') && m'.index <= m.index + 1 && Carries(m', before, text + [c]) &&
            m'.part == m.part && m'.last == m.last
  {
    hide StepData, AddData, StepFresh;
    var more := m.(index := m.index + 1, held := m.held + [c]);
    ShortOfBoundary(b, m, c);
    AddDataTwice(before.log, text, [c]);
    AddDataTwice(m.sink.log, m.held, [c]);
    if m.index > 0 && b[m.index] == c {
      assert b[..m.index + 1] == b[..m.index] + [c];
    } else {
      FreshKeeps(b, Release(m), c);
    }
  }

  lemma ShortOfBoundary(b: string, m: Machine, c: char)
    requires |b| >= 2 && InData(b, m) && m.index < |b|
    ensures StepData(b, m, c) == if m.index > 0 && b[m.index] == c then m.(index := m.index + 1, held := m.held + [c])
                                 else StepFresh(b, Release(m), c)
  {
    AddDataTwice(m.sink.log, "", "");
  }

  lemma FreshKeeps(b: string, m: Machine, c: char)
    requires |b| >= 2 && InData(b, m) && m.index == 0
    ensures var m' := StepFresh(b, m, c);
            InData(b, m') && m'.index <= 1 && Carries(m', m.sink, [c]) && m'.part == m.part && m'.last == m.last
  {
    AddDataTwice(m.sink.log, [c], "");
  }

  lemma {:induction false} RunDataKeeps(b: string, m: Machine, s: string)
    requires |b| >= 2 && InData(b, m) && m.index + |s| <= |b|
    ensures var m' := Run(b, m, s);
            InData(b, m') && m'.index <= m.index + |s| && Carries(m', m.sink, m.held + s) &&
            m'.part == m.part && m'.last == m.last
    decreases |s|
  {
    hide Step;
    if s == "" {
      assert m.held + s == m.held;
    } else {
      var n := |s| - 1;
      RunDataKeeps(b, m, s[..n]);
      RunConcat(b, m, s[..n], s[n..]);
      assert s[..n] + s[n..] == s && s[n..] == [s[n]];
      var m' := Run(b, m, s[..n]);
      assert Run(b, m', [s[n]]) == Step(b, m', s[n]) by {
        assert [s[n]][1..] == "";
      }
      StepDataKeeps(b, m', s[n], m.sink, m.held + s[..n]);
      assert m.held + s[..n] + [s[n]] == m.held + s;
    }
  }

  /** The skip is safe: a block as long as the boundary, whose last character does not occur in the boundary,
      is data, all of it, and no boundary starts inside it. */
  lemma SkipIsSafe(b: string, m: Machine, s: string)
    requires |b| >= 2 && InData(b, m) && m.index == 0
    requires |s| == |b| && s[|s| - 1] !in b
    ensures Run(b, m, s) == m.(sink := m.sink.PartData(s))
  {
    hide Step;
    var n := |s| - 1;
    RunDataKeeps(b, m, s[..n]);
    RunConcat(b, m, s[..n], s[n..]);
    assert s[..n] + s[n..] == s && s[n..] == [s[n]];
    var m' := Run(b, m, s[..n]);
    assert m.held == "" && m.held + s[..n] == s[..n];
    assert Run(b, m', [s[n]]) == Step(b, m', s[n]) by {
      assert [s[n]][1..] == "";
    }
    LastOfBlock(b, m', s[n], m.sink, s[..n]);
  }

  lemma LastOfBlock(b: string, m: Machine, c: char, before: Sink, text: string)
    requires |b| >= 2 && InData(b, m) && m.index < |b| && c !in b && Carries(m, before, text)
    ensures Step(b, m, c) == m.(index := 0, held := "", sink := before.PartData(text + [c]))
  {
    assert b[0] in b && b[m.index] in b;
    AddDataTwice(before.log, text, [c]);
    AddDataTwice(m.sink.log, "", "");
  }

  /** A character moves the parser as its variables say, whatever it has read. */
  lemma ControlStep(b: string, m: Machine, c: char)
    requires |b| >= 2
    ensures ControlOf(Step(b, m, c)) == Move(b, ControlOf(m), c)
  {
    hide StepRunning;
    if m.Running? {
      RunningControl(b, m, Bare(ControlOf(m)), c);
    }
  }

  lemma RunningControl(b: string, m: Machine, n: Machine, c: char)
    requires |b| >= 2 && m.Running? && n.Running? && ControlOf(m) == ControlOf(n)
    ensures ControlOf(StepRunning(b, m, c)) == ControlOf(StepRunning(b, n, c))
  {
    hide StepStart, StepField, StepValue, StepData;
    match m.state
    case Start => StartControl(b, m.(state := StartBoundary, index := 0), n.(state := StartBoundary, index := 0), c);
    case StartBoundary => StartControl(b, m, n, c);
    case HeaderFieldStart =>
      FieldControl(m.(state := HeaderField, index := 0), n.(state := HeaderField, index := 0), c);
    case HeaderField => FieldControl(m, n, c);
    case HeaderValueStart => ValueControl(m.(state := HeaderValue), n.(state := HeaderValue), c);
    case HeaderValue => ValueControl(m, n, c);
    case PartDataStart => DataControl(b, m.(state := PartData), n.(state := PartData), c);
    case PartData => DataControl(b, m, n, c);
    case _ =>
  }

  lemma StartControl(b: string, m: Machine, n: Machine, c: char)
    requires |b| >= 2 && m.Running? && n.Running? && ControlOf(m) == ControlOf(n)
    ensures ControlOf(StepStart(b, m, c)) == ControlOf(StepStart(b, n, c))
  {
  }

  lemma FieldControl(m: Machine, n: Machine, c: char)
    requires m.Running? && n.Running? && ControlOf(m) == ControlOf(n)
    ensures ControlOf(StepField(m, c)) == ControlOf(StepField(n, c))
  {
  }

  lemma ValueControl(m: Machine, n: Machine, c: char)
    requires m.Running? && n.Running? && ControlOf(m) == ControlOf(n)
    ensures ControlOf(StepValue(m, c)) == ControlOf(StepValue(n, c))
  {
  }

  lemma DataControl(b: string, m: Machine, n: Machine, c: char)
    requires |b| >= 2 && m.Running? && n.Running? && ControlOf(m) == ControlOf(n)
    ensures ControlOf(StepData(b, m, c)) == ControlOf(StepData(b, n, c))
  {
    hide AddData;
  }

  lemma {:induction false} RunStuck(b: string, m: Machine, s: string)
    requires |b| >= 2 && !ControlOf(m).At? && !m.Running?
    ensures Run(b, m, s) == m
    decreases |s|
  {
    if s != "" {
      RunStuck(b, m, s[1..]);
    }
  }

  /** Where a text takes the parser does not depend on what it has read before. */
  lemma {:induction false} RunControl(b: string, m: Machine, n: Machine, s: string)
    requires |b| >= 2 && ControlOf(m) == ControlOf(n)
    ensures ControlOf(Run(b, m, s)) == ControlOf(Run(b, n, s))
    decreases |s|
  {
    hide Step, Move;
    if s != "" {
      ControlStep(b, m, s[0]);
      ControlStep(b, n, s[0]);
      RunControl(b, Step(b, m, s[0]), Step(b, n, s[0]), s[1..]);
    }
  }

  lemma {:induction false} WildStays(b: string, m: Machine, s: string)
    requires |b| >= 2 && m.Wild?
    ensures var m' := Run(b, m, s); m'.Wild? && m'.log == m.log
    decreases |s|
  {
    hide Move;
    if s != "" {
      WildStays(b, Step(b, m, s[0]), s[1..]);
    }
  }

  /** The skip is safe wherever the parser has come from. */
  lemma SkipStays(b: string, m: Machine, s: string)
    requires |b| >= 2 && m.Wild? && m.control.At? && m.control.state == PartData && m.control.index == 0
    requires |s| == |b| && s[|s| - 1] !in b
    ensures Run(b, m, s) == m
  {
    hide Run, Step, StepRunning, AddData;
    SkipIsSafe(b, Bare(m.control), s);
    RunControl(b, m, Bare(m.control), s);
    WildStays(b, m, s);
  }

  /** What has been told stays told: data may be continued, and events may follow. */
  predicate Grows(log: seq<Event>, log': seq<Event>) {
    log == [] || (
      |log| <= |log'| && log'[..|log| - 1] == log[..|log| - 1] &&
      var e, e' := log[|log| - 1], log'[|log| - 1];
      e == e' || (e.Data? && e'.Data? && e.text <= e'.text))
  }

  lemma GrowsTwice(log: seq<Event>, log': seq<Event>, log'': seq<Event>)
    requires Grows(log, log') && Grows(log', log'')
    ensures Grows(log, log'')
  {
    if log != [] {
      var n := |log| - 1;
      assert log''[..n] == log''[..|log'| - 1][..n] || n == |log'| - 1;
      assert log'[..n] == log'[..|log'| - 1][..n];
      assert n < |log'| - 1 ==> log''[n] == log''[..|log'| - 1][n] == log'[..|log'| - 1][n] == log'[n];
    }
  }

  lemma GrowsNot(log: seq<Event>)
    ensures Grows(log, log)
  {
  }

  lemma GrowsByOne(log: seq<Event>, e: Event)
    ensures Grows(log, log + [e])
  {
  }

  lemma GrowsByData(log: seq<Event>, text: string)
    ensures Grows(log, AddData(log, text))
  {
  }

  lemma StepGrows(b: string, m: Machine, c: char)
    requires |b| >= 2
    ensures Grows(LogOf(m), LogOf(Step(b, m, c)))
  {
    hide StepStart, StepField, StepValue, StepData, Emplace, Grows;
    var log := LogOf(m);
    GrowsNot(log);
    if m.Running? {
      GrowsByOne(log, PartBegin(m.sink.headers));
      StartKeepsLog(b, m.(state := StartBoundary, index := 0), c);
      StartKeepsLog(b, m, c);
      FieldKeepsLog(m.(state := HeaderField, index := 0), c);
      FieldKeepsLog(m, c);
      ValueKeepsLog(m.(state := HeaderValue), c);
      ValueKeepsLog(m, c);
      DataGrows(b, m.(state := PartData), c);
      DataGrows(b, m, c);
    }
  }

  lemma StartKeepsLog(b: string, m: Machine, c: char)
    requires |b| >= 2 && m.Running?
    ensures LogOf(StepStart(b, m, c)) == m.sink.log
  {
  }

  lemma FieldKeepsLog(m: Machine, c: char)
    requires m.Running?
    ensures LogOf(StepField(m, c)) == m.sink.log
  {
  }

  lemma ValueKeepsLog(m: Machine, c: char)
    requires m.Running?
    ensures LogOf(StepValue(m, c)) == m.sink.log
  {
  }

  lemma DataGrows(b: string, m: Machine, c: char)
    requires |b| >= 2 && m.Running?
    ensures Grows(m.sink.log, LogOf(StepData(b, m, c)))
  {
    hide AddData, Grows;
    var log := m.sink.log;
    GrowsNot(log);
    GrowsByOne(log, PartEnd);
    GrowsByOne(log + [PartEnd], End);
    GrowsTwice(log, log + [PartEnd], log + [PartEnd] + [End]);
    GrowsByData(log, [c]);
    GrowsByData(log, m.held);
    GrowsByData(AddData(log, m.held), [c]);
    GrowsTwice(log, AddData(log, m.held), AddData(AddData(log, m.held), [c]));
  }

  lemma {:induction false} RunGrows(b: string, m: Machine, s: string)
    requires |b| >= 2
    ensures Grows(LogOf(m), LogOf(Run(b, m, s)))
    decreases |s|
  {
    hide Step, Grows, LogOf;
    if s == "" {
      GrowsNot(LogOf(m));
    } else {
      StepGrows(b, m, s[0]);
      RunGrows(b, Step(b, m, s[0]), s[1..]);
      GrowsTwice(LogOf(m), LogOf(Step(b, m, s[0])), LogOf(Run(b, m, s)));
    }
  }

  /** One character of a longer text. */
  lemma RunOne(b: string, m: Machine, s: string, i: nat)
    requires |b| >= 2 && i < |s|
    ensures Run(b, m, s[i..]) == Run(b, Step(b, m, s[i]), s[i + 1..])
  {
    hide Step;
    assert s[i..][0] == s[i] && s[i..][1..] == s[i + 1..];
  }
}
