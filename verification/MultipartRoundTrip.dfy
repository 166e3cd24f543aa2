/** Feeding an encoded multipart message, cut in any way, gives back its headers and bodies (section 5.1.1 of
    RFC 2046). */
module MultipartRoundTrip {
  import opened MultipartMachine
  import opened Multipart
  import opened MultipartPart
  import Ascii

  // ----- Encoding --------------------------------------------------------------------

  /** A header, with any number of blanks behind the colon. */
  datatype Header = Header(name: string, blanks: nat, value: string)
  datatype Part = Part(headers: seq<Header>, body: string)

  /** The delimiter: a line end, two hyphens and the boundary. */
  function Delimiter(boundary: string): string {
    "\r\n--" + boundary
  }

  function Blanks(n: nat): string {
    seq(n, i => ' ')
  }

  function EncodeHeaders(headers: seq<Header>, rest: string): string {
    if headers == [] then "\r\n" + rest
    else EncodeHeader(headers[0], EncodeHeaders(headers[1..], rest))
  }

  function EncodeHeader(h: Header, rest: string): string {
    h.name + (":" + (Blanks(h.blanks) + (h.value + ("\r\n" + rest))))
  }

  function EncodeParts(b: string, parts: seq<Part>, epilogue: string): string
    requires parts != []
    decreases |parts|
  {
    EncodeHeaders(parts[0].headers, parts[0].body + (b +
      if |parts| == 1 then "--" + epilogue else "\r\n" + EncodeParts(b, parts[1..], epilogue)))
  }

  function Encode(boundary: string, parts: seq<Part>, epilogue: string): string
    requires parts != []
  {
    ("--" + boundary) + ("\r\n" + EncodeParts(Delimiter(boundary), parts, epilogue))
  }

  predicate GoodHeader(h: Header) {
    && h.name != "" && (forall i :: 0 <= i < |h.name| ==> Ascii.IsLetter(h.name[i]) || h.name[i] == '-')
    && CR !in h.value && (h.value != "" ==> h.value[0] != ' ')
  }

  predicate GoodHeaders(parts: seq<Part>) {
    forall i, j :: 0 <= i < |parts| && 0 <= j < |parts[i].headers| ==> GoodHeader(parts[i].headers[j])
  }

  /** The bodies that come back. */
  ghost predicate Readable(b: string, parts: seq<Part>)
    requires parts != []
  {
    (forall i :: 0 <= i < |parts| - 1 ==> Kept(b, parts[i].body)) && Clean(b, parts[|parts| - 1].body)
  }

  // ----- What the application should be told -----------------------------------------

  function Collect(h: Headers, headers: seq<Header>): Headers
    decreases |headers|
  {
    if headers == [] then h else Collect(Emplace(h, headers[0].name, headers[0].value), headers[1..])
  }

  /** The names of the headers. */
  function Names(headers: seq<Header>): set<string> {
    set h | h in headers :: h.name
  }

  /** The values of the headers of one name, in order. */
  function ValuesOf(headers: seq<Header>, name: string): seq<string> {
    if headers == [] then []
    else (if headers[0].name == name then [headers[0].value] else []) + ValuesOf(headers[1..], name)
  }

  /** Each name with its values. */
  function HeadersOf(headers: seq<Header>): Headers {
    map name | name in Names(headers) :: ValuesOf(headers, name)
  }

  /** The headers that are added one by one to those of `h`. */
  lemma {:induction false} CollectAdds(h: Headers, headers: seq<Header>, name: string)
    ensures name in Collect(h, headers) <==> name in h || name in Names(headers)
    ensures Get(Collect(h, headers), name) == Get(h, name) + ValuesOf(headers, name)
    decreases |headers|
  {
    hide Emplace, Get, Names;
    NoNames();
    if headers == [] {
      assert Get(h, name) + [] == Get(h, name);
    } else {
      var x := headers[0];
      var one := if x.name == name then [x.value] else [];
      CollectAdds(Emplace(h, x.name, x.value), headers[1..], name);
      OneMoreName(headers);
      EmplaceAdds(h, x.name, x.value, name);
      assert Get(h, name) + one + ValuesOf(headers[1..], name) == Get(h, name) + (one + ValuesOf(headers[1..], name));
    }
  }

  lemma NoNames()
    ensures Names([]) == {}
  {
  }

  lemma OneMoreName(headers: seq<Header>)
    requires headers != []
    ensures Names(headers) == {headers[0].name} + Names(headers[1..])
  {
    assert headers == [headers[0]] + headers[1..];
  }

  lemma CollectIsAll(headers: seq<Header>)
    ensures Collect(map[], headers) == HeadersOf(headers)
  {
    hide Collect, Names, ValuesOf;
    var c := Collect(map[], headers);
    forall name
      ensures name in c <==> name in Names(headers)
      ensures name in c ==> c[name] == ValuesOf(headers, name)
    {
      CollectAdds(map[], headers, name);
      assert [] + ValuesOf(headers, name) == ValuesOf(headers, name);
    }
  }

  function PartEvents(p: Part): seq<Event> {
    [PartBegin(HeadersOf(p.headers))] + (if p.body == "" then [] else [Data(p.body)]) + [PartEnd]
  }

  function Events(parts: seq<Part>): seq<Event> {
    if parts == [] then [End] else PartEvents(parts[0]) + Events(parts[1..])
  }

  // ----- The first boundary and the headers ------------------------------------------

  /** A machine at the beginning of the headers of a part. */
  predicate AtHeaders(m: Machine, sink: Sink) {
    m.Running? && m.state == HeaderFieldStart && !m.part && m.held == "" && m.sink == sink
  }

  lemma {:induction false} StartRun(b: string, k: nat, sink: Sink, rest: string)
    requires |b| >= 2 && k <= |b| - 2
    ensures Run(b, Running(StartBoundary, k, false, false, "", sink), b[2 + k..] + ("\r\n" + rest))
         == Run(b, Running(HeaderFieldStart, 0, false, false, "", sink), rest)
    decreases |b| - k
  {
    hide Run;
    var m := Running(StartBoundary, k, false, false, "", sink);
    if k == |b| - 2 {
      assert b[2 + k..] + ("\r\n" + rest) == [CR] + ([LF] + rest);
      RunFront(b, m, CR, [LF] + rest);
      RunFront(b, m.(index := k + 1), LF, rest);
    } else {
      var later := b[3 + k..] + ("\r\n" + rest);
      assert b[2 + k..] + ("\r\n" + rest) == [b[2 + k]] + later;
      RunFront(b, m, b[2 + k], later);
      StartRun(b, k + 1, sink, rest);
    }
  }

  lemma {:induction false} NameRun(b: string, m: Machine, name: string, rest: string)
    requires |b| >= 2 && m.Running? && m.state == HeaderField
    requires forall i :: 0 <= i < |name| ==> IsLetter(name[i]) || name[i] == '-'
    ensures Run(b, m, name + rest)
         == Run(b, m.(index := m.index + |name|, sink := m.sink.HeaderField(name)), rest)
    decreases |name|
  {
    hide Run;
    if name == "" {
      assert name + rest == rest;
      assert m.sink.name + name == m.sink.name;
    } else {
      var m' := m.(index := m.index + 1, sink := m.sink.HeaderField([name[0]]));
      assert name + rest == [name[0]] + (name[1..] + rest);
      RunFront(b, m, name[0], name[1..] + rest);
      NameRun(b, m', name[1..], rest);
      assert m.sink.name + [name[0]] + name[1..] == m.sink.name + name;
    }
  }

  lemma {:induction false} ValueRun(b: string, m: Machine, value: string, rest: string)
    requires |b| >= 2 && m.Running? && m.state == HeaderValue && CR !in value
    ensures Run(b, m, value + rest) == Run(b, m.(sink := m.sink.HeaderValue(value)), rest)
    decreases |value|
  {
    if value == "" {
      assert value + rest == rest;
      assert m.sink.value + value == m.sink.value;
    } else {
      hide Run;
      var m' := m.(sink := m.sink.HeaderValue([value[0]]));
      assert value + rest == [value[0]] + (value[1..] + rest);
      RunFront(b, m, value[0], value[1..] + rest);
      ValueRun(b, m', value[1..], rest);
      assert m.sink.value + [value[0]] + value[1..] == m.sink.value + value;
    }
  }

  /** The line end behind a value. */
  lemma ValueEndRun(b: string, m: Machine, rest: string)
    requires |b| >= 2 && m.Running? && m.state == HeaderValue
    ensures Run(b, m, "\r\n" + rest) == Run(b, m.(state := HeaderFieldStart, sink := m.sink.HeaderEnd()), rest)
  {
    hide Run, Emplace;
    assert "\r\n" + rest == [CR] + ([LF] + rest);
    RunFront(b, m, CR, [LF] + rest);
    RunFront(b, m.(state := HeaderValueAlmostDone, sink := m.sink.HeaderEnd()), LF, rest);
  }

  /** In front of a value, everything but a blank is read as a part of it. */
  lemma ValueBegins(b: string, m: Machine, c: char)
    requires |b| >= 2 && m.Running? && m.state == HeaderValueStart && c != ' '
    ensures Step(b, m, c) == Step(b, m.(state := HeaderValue), c)
  {
    hide StepValue;
  }

  /** The value behind the blank that follows the colon. */
  lemma ValueStartRun(b: string, m: Machine, value: string, rest: string)
    requires |b| >= 2 && m.Running? && m.state == HeaderValueStart
    requires CR !in value && (value != "" ==> value[0] != ' ')
    ensures Run(b, m, value + ("\r\n" + rest))
         == Run(b, m.(state := HeaderFieldStart, sink := m.sink.HeaderValue(value).HeaderEnd()), rest)
  {
    hide Run, Step, Emplace;
    var m1 := m.(state := HeaderValue);
    var t := value + ("\r\n" + rest);
    ValueBegins(b, m, t[0]);
    assert t == [t[0]] + t[1..];
    RunFront(b, m, t[0], t[1..]);
    RunFront(b, m1, t[0], t[1..]);
    ValueRun(b, m1, value, "\r\n" + rest);
    ValueEndRun(b, m1.(sink := m1.sink.HeaderValue(value)), rest);
  }

  /** Blanks in front of the value. */
  lemma {:induction false} BlanksRun(b: string, m: Machine, n: nat, rest: string)
    requires |b| >= 2 && m.Running? && m.state == HeaderValueStart
    ensures Run(b, m, Blanks(n) + rest) == Run(b, m, rest)
  {
    if n == 0 {
      assert Blanks(n) + rest == rest;
    } else {
      hide Run;
      assert Blanks(n) + rest == [' '] + (Blanks(n - 1) + rest);
      RunFront(b, m, ' ', Blanks(n - 1) + rest);
      BlanksRun(b, m, n - 1, rest);
    }
  }

  lemma NameIsLetters(name: string)
    requires forall i :: 0 <= i < |name| ==> Ascii.IsLetter(name[i]) || name[i] == '-'
    ensures forall i :: 0 <= i < |name| ==> IsLetter(name[i]) || name[i] == '-'
  {
    forall i | 0 <= i < |name|
      ensures IsLetter(name[i]) || name[i] == '-'
    {
      Ascii.LetterPlaces(name[i]);
    }
  }

  lemma HeaderRun(b: string, m: Machine, h: Header, rest: string, headers: Headers, log: seq<Event>)
    returns (m': Machine)
    requires |b| >= 2 && GoodHeader(h) && AtHeaders(m, Sink("", "", headers, log))
    ensures Run(b, m, EncodeHeader(h, rest)) == Run(b, m', rest)
    ensures AtHeaders(m', Sink("", "", Emplace(headers, h.name, h.value), log)) && m'.last == m.last
  {
    hide Run, Emplace, Blanks, Ascii.IsLetter;
    NameIsLetters(h.name);
    var value := h.value + ("\r\n" + rest);
    var later := Blanks(h.blanks) + value;
    var m0 := m.(state := HeaderField, index := 0);
    assert h.name + (":" + later) == [h.name[0]] + (h.name[1..] + (":" + later));
    RunFront(b, m, h.name[0], h.name[1..] + (":" + later));
    RunFront(b, m0, h.name[0], h.name[1..] + (":" + later));
    NameRun(b, m0, h.name, ":" + later);
    var m1 := m0.(index := |h.name|, sink := m0.sink.HeaderField(h.name));
    RunFront(b, m1, ':', later);
    var m2 := m1.(state := HeaderValueStart, index := |h.name| + 1);
    BlanksRun(b, m2, h.blanks, value);
    ValueStartRun(b, m2, h.value, rest);
    m' := m2.(state := HeaderFieldStart, sink := m2.sink.HeaderValue(h.value).HeaderEnd());
    assert "" + h.name == h.name && "" + h.value == h.value;
  }

  lemma {:induction false} HeadersRun(b: string, m: Machine, hs: seq<Header>, rest: string, headers: Headers,
                                      log: seq<Event>)
    requires |b| >= 2 && (forall i :: 0 <= i < |hs| ==> GoodHeader(hs[i]))
    requires AtHeaders(m, Sink("", "", headers, log))
    ensures Run(b, m, EncodeHeaders(hs, rest))
         == Run(b, Running(PartDataStart, 0, false, m.last, "",
                           Sink("", "", map[], log + [PartBegin(Collect(headers, hs))])), rest)
    decreases |hs|
  {
    hide Run, Emplace, GoodHeader;
    if hs == [] {
      assert EncodeHeaders(hs, rest) == [CR] + ([LF] + rest);
      RunFront(b, m, CR, [LF] + rest);
      RunFront(b, m.(state := HeadersAlmostDone, index := 0), LF, rest);
    } else {
      var m' := HeaderRun(b, m, hs[0], EncodeHeaders(hs[1..], rest), headers, log);
      HeadersRun(b, m', hs[1..], rest, Emplace(headers, hs[0].name, hs[0].value), log);
    }
  }

  lemma DelimiterShape(boundary: string)
    requires CR !in boundary
    ensures var b := Delimiter(boundary); Shape(b) && b[2..] == "--" + boundary
  {
    var b := Delimiter(boundary);
    assert forall i :: 4 <= i < |b| ==> b[i] == boundary[i - 4];
  }

  // ----- A part ----------------------------------------------------------------------

  /** No continuation of what has been told is what should have been told. */
  ghost predicate Spoilt(log: seq<Event>, goal: seq<Event>) {
    forall log' :: Grows(log, log') ==> log' != goal
  }

  lemma SpoiltStays(log: seq<Event>, log': seq<Event>, goal: seq<Event>)
    requires Spoilt(log, goal) && Grows(log, log')
    ensures Spoilt(log', goal)
  {
    hide Grows;
    forall log'' | Grows(log', log'')
      ensures log'' != goal
    {
      GrowsTwice(log, log', log'');
    }
  }

  /** A part that was told with a shorter body. */
  lemma EarlyIsSpoilt(log: seq<Event>, h: Headers, w: string, p: Part, later: seq<Event>)
    requires |w| < |p.body| && h == HeadersOf(p.headers)
    ensures Spoilt(AddData(log + [PartBegin(h)], w) + [PartEnd], log + PartEvents(p) + later)
  {
    hide HeadersOf;
    var told, goal := AddData(log + [PartBegin(h)], w) + [PartEnd], log + PartEvents(p) + later;
    var n := |log| + 1;
    assert goal[n] == Data(p.body);
    forall log': seq<Event> | Grows(told, log')
      ensures log' != goal
    {
      assert w != "" ==> log'[n] == log'[..|told| - 1][n] == told[n] == Data(w);
      assert w == "" ==> log'[n] == PartEnd;
    }
  }

  /** A part that was told with a longer body. */
  lemma LateIsSpoilt(log: seq<Event>, h: Headers, w: string, p: Part, later: seq<Event>)
    requires 0 < |p.body| < |w| && h == HeadersOf(p.headers)
    ensures Spoilt(AddData(log + [PartBegin(h)], w), log + PartEvents(p) + later)
  {
    hide HeadersOf;
    var told, goal := AddData(log + [PartBegin(h)], w), log + PartEvents(p) + later;
    var n := |log| + 1;
    assert told == log + [PartBegin(h)] + [Data(w)];
    assert goal[n] == Data(p.body);
    forall log': seq<Event> | Grows(told, log')
      ensures log' != goal
    {
      assert |log'[n].text| >= |w|;
    }
  }

  lemma PartLog(log: seq<Event>, p: Part)
    ensures AddData(log + [PartBegin(HeadersOf(p.headers))], p.body) + [PartEnd] == log + PartEvents(p)
  {
  }

  /** What the application has been told at the beginning of a body. */
  function Begun(log: seq<Event>, p: Part): Sink {
    Sink("", "", map[], log + [PartBegin(HeadersOf(p.headers))])
  }

  /** From the beginning of the headers to the beginning of the body. */
  lemma ToBody(b: string, m: Machine, p: Part, rest: string, log: seq<Event>)
    requires |b| >= 2 && (forall i :: 0 <= i < |p.headers| ==> GoodHeader(p.headers[i]))
    requires AtHeaders(m, Sink("", "", map[], log)) && rest != ""
    ensures var m0 := Running(PartData, 0, false, m.last, "", Begun(log, p));
            AtBody(m0) && Run(b, m, EncodeHeaders(p.headers, rest)) == Run(b, m0, rest)
  {
    hide Run, Step, GoodHeader, EncodeHeaders, HeadersOf;
    HeadersRun(b, m, p.headers, rest, map[], log);
    CollectIsAll(p.headers);
    var m1 := Running(PartDataStart, 0, false, m.last, "", Begun(log, p));
    BodyStep(b, m1, rest[0]);
    assert rest == [rest[0]] + rest[1..];
    RunFront(b, m1, rest[0], rest[1..]);
    RunFront(b, m1.(state := PartData), rest[0], rest[1..]);
  }

  lemma BodyStep(b: string, m: Machine, c: char)
    requires |b| >= 2 && m.Running? && m.state == PartDataStart
    ensures Step(b, m, c) == Step(b, m.(state := PartData), c)
  {
    hide AddData;
  }

  /** A part whose body nothing ends is told as it is, whatever follows. */
  lemma PartKept(b: string, m: Machine, p: Part, tail: string, log: seq<Event>) returns (m': Machine)
    requires Shape(b) && AtBody(m) && m.sink == Begun(log, p) && Kept(b, p.body)
    ensures m'.Running? && m' == Running(PartData, |b|, m'.part, m'.last, b, Begun(log, p).PartData(p.body))
    ensures m'.part <==> Contains(p.body + "\r", b + "\r")
    ensures Run(b, m, p.body + (b + tail)) == Run(b, m', tail)
  {
    hide Run, AddData, Contains, Kept, Begun;
    BodyRead(b, m, p.body);
    m' := Run(b, m, p.body + b);
    assert p.body + (b + tail) == (p.body + b) + tail;
    RunConcat(b, m, p.body + b, tail);
  }

  /** A part whose body is ended early is told with a shorter body, whatever follows. */
  lemma PartCut(b: string, m: Machine, p: Part, tail: string, log: seq<Event>, later: seq<Event>)
    requires Shape(b) && AtBody(m) && m.sink == Begun(log, p) && !Kept(b, p.body)
    ensures Spoilt(LogOf(Run(b, m, p.body + (b + tail))), log + PartEvents(p) + later)
  {
    hide Run, AddData, Grows, Open, HeadersOf, PartEvents, Spoilt, LogOf;
    var t := p.body + "\r\n";
    assert b == "\r\n" + b[2..];
    assert p.body + (b + tail) == t + (b[2..] + tail);
    var w := LeavesEarly(b, m, t, b[2..] + tail);
    EarlyIsSpoilt(log, HeadersOf(p.headers), w, p, later);
    SpoiltStays(m.sink.PartData(w).Closed().log, LogOf(Run(b, m, t + (b[2..] + tail))), log + PartEvents(p) + later);
  }

  /** The last part, with a body that nothing ends but that leaves the flag for a carriage return behind: the
      end of the message is taken for data. */
  lemma PartRunsOn(b: string, m: Machine, p: Part, epilogue: string, log: seq<Event>)
    requires Shape(b) && p.body != ""
    requires m.Running? && m == Running(PartData, |b|, true, m.last, b, Begun(log, p).PartData(p.body))
    ensures Spoilt(LogOf(Run(b, m, "--" + epilogue)), log + PartEvents(p) + [End])
  {
    hide Run, AddData, Grows, HeadersOf, PartEvents, Spoilt, LogOf;
    AfterDelimiter(b, true, m.last, m.sink, epilogue);
    var m' := Running(PartData, 0, true, true, "", m.sink.PartData(b + "--"));
    AddDataTwice(Begun(log, p).log, p.body, b + "--");
    LateIsSpoilt(log, HeadersOf(p.headers), p.body + (b + "--"), p, [End]);
    RunGrows(b, m', epilogue);
    LogIsSink(m');
    SpoiltStays(m'.sink.log, LogOf(Run(b, m', epilogue)), log + PartEvents(p) + [End]);
  }

  lemma LogIsSink(m: Machine)
    requires m.Running?
    ensures LogOf(m) == m.sink.log
  {
  }

  lemma MarkedIsNotEmpty(b: string, body: string)
    requires Shape(b) && Contains(body + "\r", b + "\r")
    ensures body != ""
  {
  }

  // ----- The whole message -----------------------------------------------------------

  /** What the machine must have done at the end of a message: told it all, or something else for good. */
  ghost predicate Outcome(b: string, good: bool, m: Machine, log: seq<Event>)
    requires |b| >= 2
  {
    if good then m == Running(AtEnd, |b| + 1, false, true, "", Sink("", "", map[], log)) else Spoilt(LogOf(m), log)
  }

  lemma LastPart(b: string, m: Machine, p: Part, epilogue: string, log: seq<Event>)
    requires Shape(b) && AtBody(m) && m.sink == Begun(log, p)
    ensures Outcome(b, Clean(b, p.body), Run(b, m, p.body + (b + ("--" + epilogue))), log + PartEvents(p) + [End])
  {
    hide Run, AddData, Contains, Kept, HeadersOf, PartEvents, Spoilt, Clean, LogOf;
    CleanIsKept(b, p.body);
    if !Kept(b, p.body) {
      PartCut(b, m, p, "--" + epilogue, log, [End]);
    } else {
      var m' := PartKept(b, m, p, "--" + epilogue, log);
      if m'.part {
        MarkedIsNotEmpty(b, p.body);
        PartRunsOn(b, m', p, epilogue, log);
      } else {
        AfterDelimiter(b, m'.part, m'.last, m'.sink, epilogue);
        PartLog(log, p);
      }
    }
  }

  lemma InnerPart(b: string, m: Machine, p: Part, rest: string, log: seq<Event>, later: seq<Event>)
    returns (m': Machine)
    requires Shape(b) && AtBody(m) && m.sink == Begun(log, p)
    ensures var r := Run(b, m, p.body + (b + ("\r\n" + rest)));
            if Kept(b, p.body) then AtHeaders(m', Sink("", "", map[], log + PartEvents(p))) && r == Run(b, m', rest)
            else Spoilt(LogOf(r), log + PartEvents(p) + later)
  {
    hide Run, AddData, Contains, Kept, HeadersOf, PartEvents, Spoilt, LogOf;
    m' := m;
    if !Kept(b, p.body) {
      PartCut(b, m, p, "\r\n" + rest, log, later);
    } else {
      var m1 := PartKept(b, m, p, "\r\n" + rest, log);
      AfterDelimiter(b, m1.part, m1.last, m1.sink, rest);
      PartLog(log, p);
      m' := Running(HeaderFieldStart, 0, false, m1.last, "", m1.sink.Closed());
    }
  }

  lemma {:induction false} PartsRun(b: string, m: Machine, parts: seq<Part>, epilogue: string, log: seq<Event>)
    requires Shape(b) && parts != [] && GoodHeaders(parts) && AtHeaders(m, Sink("", "", map[], log))
    ensures Outcome(b, Readable(b, parts), Run(b, m, EncodeParts(b, parts, epilogue)), log + Events(parts))
    decreases |parts|
  {
    hide Run, GoodHeader, Contains, HeadersOf, PartEvents, Kept, Clean, Outcome;
    var p := parts[0];
    var m0 := Running(PartData, 0, false, m.last, "", Begun(log, p));
    assert forall i :: 0 <= i < |p.headers| ==> GoodHeader(parts[0].headers[i]);
    if |parts| == 1 {
      ToBody(b, m, p, p.body + (b + ("--" + epilogue)), log);
      LastPart(b, m0, p, epilogue, log);
      assert parts[1..] == [];
      assert log + PartEvents(p) + [End] == log + (PartEvents(p) + [End]);
    } else {
      var rest := EncodeParts(b, parts[1..], epilogue);
      ToBody(b, m, p, p.body + (b + ("\r\n" + rest)), log);
      var m' := InnerPart(b, m0, p, rest, log, Events(parts[1..]));
      ReadableFrom(b, parts);
      assert log + PartEvents(p) + Events(parts[1..]) == log + (PartEvents(p) + Events(parts[1..]));
      if Kept(b, p.body) {
        PartsRun(b, m', parts[1..], epilogue, log + PartEvents(p));
      } else {
        Lost(b, Run(b, m0, p.body + (b + ("\r\n" + rest))), log + Events(parts));
      }
    }
  }

  lemma Lost(b: string, m: Machine, log: seq<Event>)
    requires |b| >= 2 && Spoilt(LogOf(m), log)
    ensures Outcome(b, false, m, log)
  {
  }

  lemma ReadableFrom(b: string, parts: seq<Part>)
    requires |parts| > 1
    ensures Readable(b, parts) <==> Kept(b, parts[0].body) && Readable(b, parts[1..])
  {
    hide Kept, Clean;
    if Readable(b, parts[1..]) && Kept(b, parts[0].body) {
      forall i | 0 <= i < |parts| - 1
        ensures Kept(b, parts[i].body)
      {
        assert i > 0 ==> Kept(b, parts[1..][i - 1].body);
      }
    }
  }

  /** Main result for the machine: an encoded message is told as it is if its bodies are readable, and only then. */
  lemma MessageRun(boundary: string, parts: seq<Part>, epilogue: string)
    requires CR !in boundary && parts != [] && GoodHeaders(parts)
    ensures var b := Delimiter(boundary);
            Outcome(b, Readable(b, parts), Run(b, Initial(Sink("", "", map[], [])), Encode(boundary, parts, epilogue)),
                    Events(parts))
  {
    hide Run, EncodeParts, Events, Readable, Outcome, GoodHeader;
    var b, sink := Delimiter(boundary), Sink("", "", map[], []);
    DelimiterShape(boundary);
    FirstBoundary(boundary, sink, EncodeParts(b, parts, epilogue));
    PartsRun(b, Running(HeaderFieldStart, 0, false, false, "", sink), parts, epilogue, []);
    assert [] + Events(parts) == Events(parts);
  }

  /** The first boundary leads to the headers of the first part. */
  lemma FirstBoundary(boundary: string, sink: Sink, rest: string)
    requires CR !in boundary
    ensures var b := Delimiter(boundary);
            Run(b, Initial(sink), ("--" + boundary) + ("\r\n" + rest))
            == Run(b, Running(HeaderFieldStart, 0, false, false, "", sink), rest)
  {
    hide Run, Step;
    var b := Delimiter(boundary);
    DelimiterShape(boundary);
    var s := ("--" + boundary) + ("\r\n" + rest);
    var m := Running(StartBoundary, 0, false, false, "", sink);
    FirstStep(b, sink, s[0]);
    RunFront(b, Initial(sink), s[0], s[1..]);
    RunFront(b, m, s[0], s[1..]);
    assert [s[0]] + s[1..] == s;
    StartRun(b, 0, sink, rest);
  }

  lemma FirstStep(b: string, sink: Sink, c: char)
    requires |b| >= 2
    ensures Step(b, Initial(sink), c) == Step(b, Running(StartBoundary, 0, false, false, "", sink), c)
  {
  }

  // ----- Any cut ---------------------------------------------------------------------

  function Joined(pieces: seq<string>): string {
    if pieces == [] then "" else pieces[0] + Joined(pieces[1..])
  }

  lemma {:induction false} JoinedSnoc(pieces: seq<string>, piece: string)
    ensures Joined(pieces + [piece]) == Joined(pieces) + piece
  {
    if pieces == [] {
      assert pieces + [piece] == [piece] && [piece][1..] == [];
    } else {
      assert (pieces + [piece])[1..] == pieces[1..] + [piece];
      JoinedSnoc(pieces[1..], piece);
    }
  }

  /** A header name as it is handed over in pieces. */
  function Fields(sink: Sink, pieces: seq<string>): Sink
    decreases |pieces|
  {
    if pieces == [] then sink else Fields(sink.HeaderField(pieces[0]), pieces[1..])
  }

  function Values(sink: Sink, pieces: seq<string>): Sink
    decreases |pieces|
  {
    if pieces == [] then sink else Values(sink.HeaderValue(pieces[0]), pieces[1..])
  }

  lemma {:induction false} FieldsJoin(sink: Sink, pieces: seq<string>)
    ensures Fields(sink, pieces) == sink.HeaderField(Joined(pieces))
    decreases |pieces|
  {
    if pieces == [] {
      assert sink.name + "" == sink.name;
    } else {
      FieldsJoin(sink.HeaderField(pieces[0]), pieces[1..]);
      assert sink.name + pieces[0] + Joined(pieces[1..]) == sink.name + (pieces[0] + Joined(pieces[1..]));
    }
  }

  lemma {:induction false} ValuesJoin(sink: Sink, pieces: seq<string>)
    ensures Values(sink, pieces) == sink.HeaderValue(Joined(pieces))
    decreases |pieces|
  {
    if pieces == [] {
      assert sink.value + "" == sink.value;
    } else {
      ValuesJoin(sink.HeaderValue(pieces[0]), pieces[1..]);
      assert sink.value + pieces[0] + Joined(pieces[1..]) == sink.value + (pieces[0] + Joined(pieces[1..]));
    }
  }

  /** A header whose name and value came in any pieces is one header of the part. */
  lemma HeaderInPieces(headers: Headers, log: seq<Event>, names: seq<string>, values: seq<string>)
    ensures var sink := Values(Fields(Sink("", "", headers, log), names), values).HeaderEnd();
            && sink == Sink("", "", sink.headers, log) && sink.headers.Keys == headers.Keys + {Joined(names)}
            && forall name :: Get(sink.headers, name) ==
                 Get(headers, name) + if name == Joined(names) then [Joined(values)] else []
  {
    hide Emplace, Fields, Values, Get, Joined;
    var sink := Sink("", "", headers, log);
    FieldsJoin(sink, names);
    ValuesJoin(sink.HeaderField(Joined(names)), values);
    assert "" + Joined(names) == Joined(names) && "" + Joined(values) == Joined(values);
    EmplaceAddsAll(headers, Joined(names), Joined(values));
  }

  /** The feed loop of `parse_multipart` over the pieces as they arrive; it stops when the parser has stopped. */
  method FeedAll(parser: MultipartParser, pieces: seq<string>) returns (thrown: bool)
    requires parser.Valid() && parser.state == Start
    requires parser.Sync(Initial(parser.reader.View()), "", 0)
    modifies parser, parser.reader, parser.lookbehind
    ensures parser.Valid()
    ensures var m := Run(parser.boundary, old(Initial(parser.reader.View())), Joined(pieces));
            && (thrown <==> ControlOf(m) == Overflown)
            && (parser.state == ParseError <==> !ControlOf(m).At?)
            && (ControlOf(m).At? ==> parser.state == ControlOf(m).state)
            && (m.Running? ==> parser.reader.View() == m.sink)
            && (m.Failed? ==> parser.reader.log == m.log)
            && (m.Wild? ==> Grows(m.log, parser.reader.log))
  {
    hide Run, Step, AddData, Grows;
    ghost var start := Initial(parser.reader.View());
    ghost var m := start;
    RunNothing(parser.boundary, start);
    EmptyText(parser.reader.View());
    var i := 0;
    thrown := false;
    assert pieces[..0] == [];
    while i < |pieces| && parser.state != ParseError && parser.state != AtEnd
      invariant 0 <= i <= |pieces| && parser.Valid()
      invariant m == Run(parser.boundary, start, Joined(pieces[..i]))
      invariant if parser.state == ParseError then parser.Halted(m)
                else parser.Sync(m, "", 0) && (m.Running? ==> parser.reader.View() == m.sink)
      invariant thrown <==> ControlOf(m) == Overflown
    {
      var fed;
      fed, thrown := parser.Feed(pieces[i], m);
      RunConcat(parser.boundary, start, Joined(pieces[..i]), pieces[i]);
      JoinedSnoc(pieces[..i], pieces[i]);
      assert pieces[..i + 1] == pieces[..i] + [pieces[i]];
      m := Run(parser.boundary, m, pieces[i]);
      i := i + 1;
    }
    JoinedSplit(pieces, i);
    RunConcat(parser.boundary, start, Joined(pieces[..i]), Joined(pieces[i..]));
    Settled(parser.boundary, m, pieces[i..]);
  }

  /** The pieces that are not fed change nothing. */
  lemma Settled(b: string, m: Machine, pieces: seq<string>)
    requires |b| >= 2
    requires pieces == [] || (!m.Running? && !ControlOf(m).At?) || (ControlOf(m).At? && ControlOf(m).state == AtEnd)
    ensures Run(b, m, Joined(pieces)) == m
  {
    hide Run, Step;
    if pieces == [] {
      RunNothing(b, m);
    } else if !ControlOf(m).At? {
      RunStuck(b, m, Joined(pieces));
    } else {
      EndRun(b, m, Joined(pieces));
    }
  }

  lemma {:induction false} JoinedSplit(pieces: seq<string>, i: nat)
    requires i <= |pieces|
    ensures Joined(pieces) == Joined(pieces[..i]) + Joined(pieces[i..])
    decreases i
  {
    if i == 0 {
      assert pieces[..0] == [] && pieces[0..] == pieces;
    } else {
      JoinedSplit(pieces, i - 1);
      JoinedSnoc(pieces[..i - 1], pieces[i - 1]);
      assert pieces[..i] == pieces[..i - 1] + [pieces[i - 1]];
      assert pieces[i - 1..][0] == pieces[i - 1] && pieces[i - 1..][1..] == pieces[i..];
    }
  }

  /** Main result: an encoded message, cut into pieces in any way, gives exactly its headers and bodies in
      order and one end if its bodies are readable, and only then. */
  method DecodeMessage(boundary: string, pieces: seq<string>, ghost parts: seq<Part>, ghost epilogue: string)
    returns (reader: MultipartReader, thrown: bool, succeeded: bool)
    requires CR !in boundary && parts != [] && GoodHeaders(parts)
    requires Joined(pieces) == Encode(boundary, parts, epilogue)
    ensures Readable(Delimiter(boundary), parts) ==> !thrown && succeeded && reader.log == Events(parts)
    ensures !Readable(Delimiter(boundary), parts) ==> reader.log != Events(parts)
  {
    hide Run, Encode, Events, GoodHeaders, Readable, Grows;
    reader := new MultipartReader();
    assert |Delimiter(boundary)| >= 2;
    var parser := new MultipartParser(Delimiter(boundary), reader);
    MessageRun(boundary, parts, epilogue);
    thrown := FeedAll(parser, pieces);
    succeeded := parser.state == AtEnd;
    GrowsNot(reader.log);
  }

  // ----- A message that does not come back ---------------------------------------------

  /** A delimiter, a lone carriage return and another character. */
  function Marked(b: string, c: char): string {
    b + ("\r" + [c])
  }

  lemma MarkedIsKept(b: string, c: char)
    requires Shape(b) && b[2] != CR && c != LF
    ensures Kept(b, Marked(b, c)) && Contains(Marked(b, c) + "\r", b + "\r")
  {
    hide Contains;
    var s := Marked(b, c) + "\r\n";
    forall n | 0 <= n <= |s|
      ensures !Closes(b, s[..n])
    {
      if n == |b| + 2 {
        assert s[..n] == b + "\r" + [c];
        EndsOfTwo(b, b + "\r", c);
        EndsSnoc(b, CR, b, '-');
      } else if n > |b| + 2 {
        EndsInside(b, s, n);
      }
    }
    assert (Marked(b, c) + "\r")[0..|b| + 1] == b + "\r";
    assert OccursAt(Marked(b, c) + "\r", b + "\r", 0) && OccursAt(s, b + "\r", 0);
    ContainsAt(Marked(b, c) + "\r", b + "\r", 0);
  }

  lemma ContainsAt(s: string, b: string, i: nat)
    requires OccursAt(s, b, i)
    ensures Contains(s, b)
  {
  }

  /** No second delimiter starts inside the first. */
  lemma EndsInside(b: string, s: string, n: nat)
    requires Shape(b) && b[2] != CR && |b| + 2 < n <= |b| + 4 <= |s| && s[..|b|] == b
    ensures !Closes(b, s[..n])
  {
    hide Contains;
    var i := n - |b| - 2;
    assert s[i] == b[i];
    assert s[..n][i..][0] == b[i];
  }

  /** The flag that a delimiter with a lone carriage return behind it leaves, at a message of one part: the end
      of the message is delivered as data, and the parser waits for more. */
  lemma StaleFlagHidesTheEnd(boundary: string, c: char)
    requires CR !in boundary && c != LF
    ensures var b := Delimiter(boundary);
            Run(b, Initial(Sink("", "", map[], [])), Encode(boundary, [Part([], Marked(b, c))], ""))
            == Running(PartData, 0, true, true, "",
                       Sink("", "", map[], [PartBegin(map[]), Data(Marked(b, c) + (b + "--"))]))
  {
    hide Run, AddData, Contains, Kept, Marked;
    var b, sink := Delimiter(boundary), Sink("", "", map[], []);
    var p := Part([], Marked(b, c));
    DelimiterShape(boundary);
    assert b[2] == b[2..][0];
    MarkedIsKept(b, c);
    FirstBoundary(boundary, sink, EncodeParts(b, [p], ""));
    ToBody(b, Running(HeaderFieldStart, 0, false, false, "", sink), p, p.body + (b + ("--" + "")), []);
    var m := PartKept(b, Running(PartData, 0, false, false, "", Begun([], p)), p, "--" + "", []);
    AfterDelimiter(b, m.part, m.last, m.sink, "");
    RunNothing(b, Running(PartData, 0, true, true, "", m.sink.PartData(b + "--")));
    MarkedIsNotEmpty(b, p.body);
    OneData(p.body, b + "--");
    NoNames();
    assert HeadersOf([]) == map[];
    assert Begun([], p).log == [PartBegin(map[])];
  }

  lemma OneData(s: string, t: string)
    requires s != ""
    ensures AddData(AddData([PartBegin(map[])], s), t) == [PartBegin(map[]), Data(s + t)]
  {
    AddDataTwice([PartBegin(map[])], s, t);
  }
}
