/** The streaming multipart parser and its reader. Marks into the buffer, a skip over text that cannot hold a
    boundary and a buffer for half-matched boundaries together do what `MultipartMachine` says. */
module Multipart {
  import opened Optional
  import opened MultipartMachine

  /** `multipart_reader`: it puts headers together and passes the rest on to the application. */
  class MultipartReader {
    var currentHeaderName: string
    var currentHeaderValue: string
    var currentHeaders: Headers
    var log: seq<Event>

    constructor ()
      ensures View() == Sink("", "", map[], [])
    {
      currentHeaderName, currentHeaderValue, currentHeaders, log := "", "", map[], [];
    }

    function View(): Sink
      reads this
    {
      Sink(currentHeaderName, currentHeaderValue, currentHeaders, log)
    }

    method OnHeaderField(text: string)
      modifies this
      ensures View() == old(View()).HeaderField(text)
    {
      currentHeaderName := currentHeaderName + text;
    }

    method OnHeaderValue(text: string)
      modifies this
      ensures View() == old(View()).HeaderValue(text)
    {
      currentHeaderValue := currentHeaderValue + text;
    }

    method OnHeaderEnd()
      modifies this
      ensures View() == old(View()).HeaderEnd()
      ensures currentHeaders.Keys == old(currentHeaders.Keys) + {old(currentHeaderName)}
      ensures forall name :: Get(currentHeaders, name) ==
                old(Get(currentHeaders, name)) +
                if name == old(currentHeaderName) then [old(currentHeaderValue)] else []
    {
      EmplaceAddsAll(currentHeaders, currentHeaderName, currentHeaderValue);
      currentHeaders := Emplace(currentHeaders, currentHeaderName, currentHeaderValue);
      currentHeaderName, currentHeaderValue := "", "";
    }

    method OnHeadersEnd()
      modifies this
      ensures View() == old(View()).HeadersEnd()
      ensures Grows(old(log), log)
    {
      GrowsByOne(log, PartBegin(currentHeaders));
      log := log + [PartBegin(currentHeaders)];
      currentHeaders := map[];
    }

    method OnPartData(text: string)
      modifies this
      ensures View() == old(View()).PartData(text)
      ensures Grows(old(log), log)
    {
      GrowsByData(log, text);
      log := AddData(log, text);
    }

    method OnPartEnd()
      modifies this
      ensures View() == old(View()).Closed()
      ensures Grows(old(log), log)
    {
      GrowsByOne(log, PartEnd);
      log := log + [PartEnd];
    }

    method OnEnd()
      modifies this
      ensures View() == old(View()).Finished()
      ensures Grows(old(log), log)
    {
      GrowsByOne(log, End);
      log := log + [End];
    }
  }

  function Min(a: nat, b: nat): nat {
    if a < b then a else b
  }

  /** `multipart_parser`. A mark that is None is unmarked. */
  class MultipartParser {
    const boundary: string
    const boundaryIndex: set<char>
    const lookbehind: array<char>
    const reader: MultipartReader
    var state: State
    var partBoundary: bool
    var lastBoundary: bool
    var index: nat
    var headerFieldMark: Option<nat>
    var headerValueMark: Option<nat>
    var partDataMark: Option<nat>

    /** `set_boundary` on a new parser. */
    constructor (boundary: string, reader: MultipartReader)
      requires |boundary| >= 2
      ensures Valid() && this.boundary == boundary && this.reader == reader && fresh(lookbehind)
      ensures Sync(Initial(reader.View()), "", 0)
    {
      this.boundary := boundary;
      boundaryIndex := set c | c in boundary;
      lookbehind := new char[|boundary| + 8];
      this.reader := reader;
      state, partBoundary, lastBoundary, index := Start, false, false, 0;
      headerFieldMark, headerValueMark, partDataMark := None, None, None;
    }

    ghost predicate Valid()
      reads this
    {
      && |boundary| >= 2
      && boundaryIndex == (set c | c in boundary)
      && lookbehind.Length == |boundary| + 8
    }

    /** Marks stay inside the text read so far, whatever that was. */
    ghost predicate Safe(i: nat)
      reads this
    {
      && (headerFieldMark.Some? ==> headerFieldMark.value <= i)
      && (headerValueMark.Some? ==> headerValueMark.value <= i)
      && (partDataMark.Some? ==> partDataMark.value <= i)
      && (state == StartBoundary ==> index <= |boundary| - 1)
      && state != ParseError
    }

    /** The variables that decide where the parser goes next. */
    ghost function Now(): Control
      reads this
    {
      At(state, index, partBoundary, lastBoundary)
    }

    /** What the reader would know if everything between a mark and position `i` were handed over. */
    ghost function Flushed(buf: string, i: nat): Sink
      requires i <= |buf| && Safe(i)
      reads this, reader
    {
      var v := reader.View();
      if headerFieldMark.Some? then v.HeaderField(buf[headerFieldMark.value..i])
      else if headerValueMark.Some? then v.HeaderValue(buf[headerValueMark.value..i])
      else if partDataMark.Some? then v.PartData(buf[partDataMark.value..i])
      else v
    }

    /** The parser at position `i` of its buffer has read what the machine `m` has. Each mark is set in its state
        only; part data is marked exactly while nothing is withheld, and what is withheld is at the front of the
        lookbehind buffer. */
    ghost predicate Matches(m: Machine, buf: string, i: nat)
      requires Valid()
      reads this, reader, lookbehind
    {
      && i <= |buf| && Safe(i)
      && m.Running? && ControlOf(m) == Now()
      && (headerFieldMark.Some? <==> state == HeaderField)
      && (headerFieldMark.Some? && index == 0 ==> headerFieldMark.value == i)
      && (headerValueMark.Some? <==> state == HeaderValue)
      && (partDataMark.Some? <==> state == PartData && index == 0)
      && (state == PartDataStart || state == HeadersAlmostDone ==> index == 0)
      && (state != PartData ==> m.held == "")
      && (state == PartData ==> InData(boundary, m) && lookbehind[..index] == m.held)
      && m.sink == Flushed(buf, i)
    }

    /** The parser goes where the machine goes, and unless the machine is wild it has read the same. */
    ghost predicate Sync(m: Machine, buf: string, i: nat)
      requires Valid()
      reads this, reader, lookbehind
    {
      && i <= |buf| && Safe(i)
      && Now() == ControlOf(m)
      && (m.Running? ==> Matches(m, buf, i))
      && (m.Wild? ==> Grows(m.log, reader.log))
    }

    /** The parser has stopped at an error or thrown, and so has the machine. */
    ghost predicate Halted(m: Machine)
      reads this, reader
    {
      && state == ParseError && !m.Running? && !ControlOf(m).At?
      && (m.Failed? ==> m.log == reader.log)
      && (m.Wild? ==> Grows(m.log, reader.log))
    }

    /** What a step leaves of a machine that was not wild before it. */
    ghost predicate Reached(m: Machine, buf: string, i: nat)
      requires Valid()
      reads this, reader, lookbehind
    {
      if m.Running? then Matches(m, buf, i) else m.log == reader.log
    }

    /** Where a step leaves the parser: at the next place, or at an error. */
    ghost predicate Arrived(ok: bool, next: Control, i: nat)
      reads this
    {
      if ok then Safe(i) && Now() == next else state == ParseError && next == Stopped
    }

    /** What the contracts of one step say, put together. */
    lemma Together(m: Machine, before: seq<Event>, k: Control, c: char, ok: bool, buf: string, i: nat)
      requires Valid() && i <= |buf| && ControlOf(m) == k && k.At?
      requires m.Wild? ==> Grows(m.log, before)
      requires Grows(before, reader.log)
      requires Arrived(ok, Move(boundary, k, c), i) || (!ok && state == ParseError && Move(boundary, k, c) == Overflown)
      requires m.Running? ==> Reached(Step(boundary, m, c), buf, i)
      ensures if ok then Sync(Step(boundary, m, c), buf, i) else Halted(Step(boundary, m, c))
      ensures ControlOf(Step(boundary, m, c)) == Move(boundary, k, c)
    {
      hide StepRunning, Grows, Safe, InData;
      ControlStep(boundary, m, c);
      GrowsNot(reader.log);
      if m.Wild? {
        GrowsTwice(m.log, before, reader.log);
      }
    }

    method SetError()
      modifies this`state
      ensures state == ParseError
    {
      state := ParseError;
    }

    /** The first boundary. */
    method OnStart(buf: string, i: nat, ghost m: Machine) returns (ok: bool)
      requires Valid() && i < |buf| && Safe(i) && state == StartBoundary && (m.Running? ==> Matches(m, buf, i))
      modifies this`state, this`index
      ensures Valid() && Arrived(ok, Move(boundary, old(Now()), buf[i]), i + 1)
      ensures m.Running? ==> Reached(Step(boundary, m, buf[i]), buf, i + 1)
    {
      hide Step, Move, StepRunning, AddData, Emplace;
      var c := buf[i];
      StartStep(boundary, m, Now(), c);
      if index == |boundary| - 2 {
        if c != CR {
          SetError();
          return false;
        }
        index := index + 1;
      } else if index == |boundary| - 1 {
        if c != LF {
          SetError();
          return false;
        }
        index := 0;
        state := HeaderFieldStart;
      } else {
        if c != boundary[index + 2] {
          SetError();
          return false;
        }
        index := index + 1;
      }
      return true;
    }

    method OnField(buf: string, i: nat, ghost m: Machine) returns (ok: bool)
      requires Valid() && i < |buf| && Safe(i) && state == HeaderField && (m.Running? ==> Matches(m, buf, i))
      modifies this, reader
      ensures Valid() && Arrived(ok, Move(boundary, old(Now()), buf[i]), i + 1) && reader.log == old(reader.log)
      ensures m.Running? ==> Reached(Step(boundary, m, buf[i]), buf, i + 1)
    {
      hide Step, Move, StepRunning, InData, AddData, Emplace, Lower;
      var c := buf[i];
      FieldStep(boundary, m, Now(), c);
      EmptyText(reader.View());
      assert buf[i..i] == "";
      if c == CR {
        headerFieldMark := None;
        state := HeadersAlmostDone;
        return true;
      }
      ok := OnName(buf, i, m);
    }

    /** A character of a header name, or the colon behind it. */
    method OnName(buf: string, i: nat, ghost m: Machine) returns (ok: bool)
      requires Valid() && i < |buf| && Safe(i) && state == HeaderField && (m.Running? ==> Matches(m, buf, i))
      requires buf[i] != CR
      modifies this, reader
      ensures Valid() && Arrived(ok, Move(boundary, old(Now()), buf[i]), i + 1) && reader.log == old(reader.log)
      ensures m.Running? ==> Reached(Step(boundary, m, buf[i]), buf, i + 1)
    {
      hide Step, Move, StepRunning, InData, AddData, Emplace, Lower;
      var c := buf[i];
      FieldStep(boundary, m, Now(), c);
      ghost var name := reader.currentHeaderName;
      if headerFieldMark.Some? {
        Extend(name, buf, headerFieldMark.value, i);
      }
      index := index + 1;
      if c == '-' {
        return true;
      }
      if c == ':' {
        if index == 1 {
          SetError();
          return false;
        }
        if headerFieldMark.Some? {
          reader.OnHeaderField(buf[headerFieldMark.value..i]);
          headerFieldMark := None;
        }
        state := HeaderValueStart;
        return true;
      }
      var cl := Lower(c);
      if cl < 'a' || cl > 'z' {
        SetError();
        return false;
      }
      return true;
    }

    method OnValue(buf: string, i: nat, ghost m: Machine)
      requires Valid() && i < |buf| && Safe(i) && state == HeaderValue && (m.Running? ==> Matches(m, buf, i))
      modifies this, reader
      ensures Valid() && Arrived(true, Move(boundary, old(Now()), buf[i]), i + 1) && reader.log == old(reader.log)
      ensures m.Running? ==> Reached(Step(boundary, m, buf[i]), buf, i + 1)
    {
      hide StepStart, StepData, StepFresh, Release, InData, AddData, Emplace, StepField;
      var c := buf[i];
      ghost var value := reader.currentHeaderValue;
      if headerValueMark.Some? {
        Extend(value, buf, headerValueMark.value, i);
      }
      if c == CR {
        if headerValueMark.Some? {
          reader.OnHeaderValue(buf[headerValueMark.value..i]);
          headerValueMark := None;
        }
        reader.OnHeaderEnd();
        state := HeaderValueAlmostDone;
      }
    }

    /** The line feed behind a header value or behind the headers. */
    method OnLineFeed(buf: string, i: nat, ghost m: Machine) returns (ok: bool)
      requires Valid() && i < |buf| && Safe(i) && (m.Running? ==> Matches(m, buf, i))
      requires state == HeaderValueAlmostDone || state == HeadersAlmostDone
      modifies this, reader
      ensures Valid() && Arrived(ok, Move(boundary, old(Now()), buf[i]), i + 1) && Grows(old(reader.log), reader.log)
      ensures m.Running? ==> Reached(Step(boundary, m, buf[i]), buf, i + 1)
    {
      hide StepStart, StepField, StepValue, StepData, InData, AddData, Grows;
      GrowsNot(reader.log);
      if buf[i] != LF {
        SetError();
        return false;
      }
      if state == HeaderValueAlmostDone {
        state := HeaderFieldStart;
      } else {
        reader.OnHeadersEnd();
        state := PartDataStart;
      }
      return true;
    }

    /** The skip over blocks that cannot hold the beginning of a boundary. */
    method SkipData(buf: string, i: nat, ghost m: Machine) returns (j: nat, ghost m': Machine)
      requires Valid() && i < |buf| && Sync(m, buf, i) && state == PartData && index == 0
      ensures i <= j <= |buf| && Sync(m', buf, j)
      ensures Run(boundary, m, buf[i..]) == Run(boundary, m', buf[j..])
    {
      hide Run, AddData, Step, Grows;
      j, m' := i, m;
      while j + |boundary| <= |buf|
        invariant i <= j <= |buf| && Sync(m', buf, j)
        invariant Run(boundary, m, buf[i..]) == Run(boundary, m', buf[j..])
      {
        if buf[j + |boundary| - 1] in boundaryIndex {
          break;
        }
        m' := SkipBlock(buf, j, m');
        j := j + |boundary|;
      }
    }

    lemma SkipBlock(buf: string, j: nat, m: Machine) returns (m': Machine)
      requires Valid() && j + |boundary| <= |buf| && Sync(m, buf, j) && state == PartData && index == 0
      requires buf[j + |boundary| - 1] !in boundaryIndex
      ensures Sync(m', buf, j + |boundary|)
      ensures Run(boundary, m, buf[j..]) == Run(boundary, m', buf[j + |boundary|..])
    {
      hide Run, AddData, Step, Grows;
      var n := j + |boundary|;
      var block := buf[j..n];
      assert buf[j..] == block + buf[n..];
      RunConcat(boundary, m, block, buf[n..]);
      if m.Wild? {
        m' := m;
        SkipStays(boundary, m, block);
      } else {
        m' := m.(sink := m.sink.PartData(block));
        SkipIsSafe(boundary, m, block);
        var mark := partDataMark.value;
        AddDataTwice(reader.log, buf[mark..j], block);
        Slices(buf, mark, j, n);
      }
    }

    /** Part data at position `i` while nothing is withheld. */
    method OnFreshData(buf: string, i: nat, ghost m: Machine)
      requires Valid() && i < |buf| && Safe(i) && state == PartData && index == 0 && (m.Running? ==> Matches(m, buf, i))
      modifies this, reader, lookbehind
      ensures Valid() && Arrived(true, Move(boundary, old(Now()), buf[i]), i + 1) && Grows(old(reader.log), reader.log)
      ensures m.Running? ==> Reached(Step(boundary, m, buf[i]), buf, i + 1)
      ensures index <= 1 && state == PartData
    {
      hide StepStart, StepField, StepValue, StepBeyond, AddData, Grows;
      var c := buf[i];
      GrowsNot(reader.log);
      if partDataMark.Some? {
        ghost var mark := partDataMark.value;
        AddDataTwice(reader.log, buf[mark..i], [c]);
        assert buf[mark..i + 1] == buf[mark..i] + [c];
      }
      if boundary[0] == c {
        if partDataMark.Some? {
          reader.OnPartData(buf[partDataMark.value..i]);
          partDataMark := None;
        }
        index := 1;
        assert boundary[..1] == [boundary[0]] == [c];
        lookbehind[0] := c;
        assert lookbehind[..1] == [lookbehind[0]];
        assert lookbehind[..1] == [c];
      }
    }

    /** Go on matching the boundary, and what may stand behind it, with character `c`. The index is left alone
        far behind the boundary, and goes up by one or back to 0 elsewhere. */
    method MatchBoundary(c: char, ghost m: Machine) returns (left: bool)
      requires Valid() && state == PartData && index > 0
      requires m.Running? ==> ControlOf(m) == Now() && InData(boundary, m) && m.sink == reader.View()
      modifies this`index, this`state, this`partBoundary, this`lastBoundary, reader
      ensures Grows(old(reader.log), reader.log)
      ensures left ==> state == HeaderFieldStart || state == AtEnd
      ensures !left && index == 0 ==> state == PartData
      ensures !left && index > 0 ==> state == PartData || state == AtEnd
      ensures old(index) > |boundary| + 8 ==> !left && index == old(index) && Move(boundary, old(Now()), c) == Overflown
      ensures old(index) <= |boundary| + 8 ==> index <= |boundary| + 8
      ensures old(index) <= |boundary| + 8 && (left || index > 0) ==> Move(boundary, old(Now()), c) == Now()
      ensures !left && index == 0 ==>
                && Now() == At(PartData, 0, old(partBoundary), old(lastBoundary))
                && Move(boundary, old(Now()), c) == Move(boundary, Now(), c)
      ensures m.Running? && (left || index > 0) ==> Matched(old(index), m.held + [c], Step(boundary, m, c))
      ensures m.Running? && !left && index == 0 ==>
                reader.View() == m.sink && Step(boundary, m, c) == StepFresh(boundary, Release(m), c)
    {
      hide StepStart, StepField, StepValue, AddData, Grows;
      GrowsNot(reader.log);
      left := false;
      if index < |boundary| {
        if boundary[index] == c {
          assert boundary[..index + 1] == boundary[..index] + [c];
          index := index + 1;
        } else {
          index := 0;
        }
      } else if index == |boundary| {
        index := index + 1;
        if c == CR {
          partBoundary := true;
        } else if c == '-' {
          lastBoundary := true;
        } else {
          index := 0;
        }
      } else if index - 1 == |boundary| {
        left := MatchEnd(c);
      } else if index - 2 == |boundary| {
        if c == CR {
          index := index + 1;
        } else {
          index := 0;
        }
      } else if index - |boundary| == 3 {
        index := 0;
        if c == LF {
          Finish();
          return true;
        }
      }
    }

    /** The second character behind the boundary. */
    method MatchEnd(c: char) returns (left: bool)
      requires Valid() && state == PartData && index == |boundary| + 1
      modifies this`index, this`state, this`partBoundary, reader
      ensures Grows(old(reader.log), reader.log)
      ensures if old(partBoundary) && c == LF then
                left && state == HeaderFieldStart && index == 0 && !partBoundary &&
                reader.View() == old(reader.View()).Closed()
              else
                !left && partBoundary == old(partBoundary) &&
                if !old(partBoundary) && lastBoundary && c == '-' then
                  state == AtEnd && index == old(index) && reader.View() == old(reader.View()).Closed().Finished()
                else state == PartData && index == 0 && reader.View() == old(reader.View())
    {
      hide Grows, AddData;
      GrowsNot(reader.log);
      left := false;
      if partBoundary {
        index := 0;
        if c == LF {
          partBoundary := false;
          reader.OnPartEnd();
          state := HeaderFieldStart;
          return true;
        }
      } else if lastBoundary {
        if c == '-' {
          Finish();
        } else {
          index := 0;
        }
      } else {
        index := 0;
      }
    }

    /** The end of the last part is the end of the message. */
    method Finish()
      modifies this`state, reader
      ensures state == AtEnd && reader.View() == old(reader.View()).Closed().Finished()
      ensures Grows(old(reader.log), reader.log)
    {
      hide Grows;
      ghost var log := reader.log;
      reader.OnPartEnd();
      ghost var closed := reader.log;
      reader.OnEnd();
      GrowsTwice(log, closed, reader.log);
      state := AtEnd;
    }

    /** What a machine has read whose step the parser has followed. */
    ghost predicate Matched(before: nat, held: string, m: Machine)
      reads this, reader
    {
      && m.Running? && m.sink == reader.View()
      && (state == PartData ==> InData(boundary, m) && index == before + 1 && m.held == held)
      && (state != PartData ==> m.held == "")
    }

    /** The machine says that the lookbehind buffer overflows, and so did the parser. */
    ghost predicate Thrown(m: Machine)
      reads this, reader
    {
      Halted(m) && ControlOf(m) == Overflown
    }

    /** Part data at position `i` behind something that looks like a boundary. The result is the position that
        the loop goes on from, and whether the lookbehind buffer is too small. */
    method OnWithheldData(buf: string, i: nat, ghost m: Machine)
      returns (next: nat, thrown: bool, ghost m': Machine)
      requires Valid() && i < |buf| && Sync(m, buf, i) && state == PartData && index > 0
      requires m.Running? ==> index <= |boundary| + 1
      modifies this, reader, lookbehind
      ensures Valid()
      ensures thrown <==> old(index) >= |boundary| + 9
      ensures thrown ==> Thrown(Run(boundary, m, buf[i..]))
      ensures !thrown ==> i <= next <= i + 1 && (next == i ==> index == 0 && state == PartData)
      ensures !thrown ==> Sync(m', buf, next) && Run(boundary, m, buf[i..]) == Run(boundary, m', buf[next..])
    {
      hide Run, AddData, Step, StepFresh, StepRunning, Move, Grows, InData;
      var c, prevIndex := buf[i], index;
      ghost var k, log := Now(), reader.log;
      RunOne(boundary, m, buf, i);
      next, thrown, m' := i + 1, false, Step(boundary, m, c);
      var left := MatchBoundary(c, m);
      if left {
        Followed(m, log, k, c, buf, i + 1);
        return;
      }
      if index > 0 {
        if index - 1 >= lookbehind.Length {
          SetError();
          thrown := true;
          Together(m, log, k, c, false, buf, i + 1);
          RunStuck(boundary, m', buf[i + 1..]);
          return;
        }
        ghost var held := lookbehind[..index - 1];
        lookbehind[index - 1] := c;
        assert lookbehind[..index] == held + [c];
        Followed(m, log, k, c, buf, i + 1);
      } else {
        ghost var matched := reader.log;
        reader.OnPartData(lookbehind[..prevIndex]);
        partDataMark := Some(i);
        next, m' := i, Released(m);
        GrowsTwice(log, matched, reader.log);
        FalseLead(m, log, k, buf, i);
      }
    }

    /** The step of a match that has gone on or has come to its end. */
    lemma Followed(m: Machine, before: seq<Event>, k: Control, c: char, buf: string, i: nat)
      requires Valid() && i <= |buf| && Safe(i) && ControlOf(m) == k && k.At? && Now() == Move(boundary, k, c)
      requires m.Wild? ==> Grows(m.log, before)
      requires Grows(before, reader.log)
      requires state == PartData || state == HeaderFieldStart || state == AtEnd
      requires state == PartData ==> 0 < index <= |boundary| + 8
      requires m.Running? ==>
                 && headerFieldMark.None? && headerValueMark.None? && partDataMark.None?
                 && Matched(k.index, m.held + [c], Step(boundary, m, c))
                 && (state == PartData ==> lookbehind[..index] == m.held + [c])
      ensures Sync(Step(boundary, m, c), buf, i)
    {
      hide StepRunning, Grows, InData, Step, Move;
      ControlStep(boundary, m, c);
      Together(m, before, k, c, true, buf, i);
    }

    /** What was withheld has been handed over, and the character is looked at again. */
    lemma FalseLead(m: Machine, before: seq<Event>, k: Control, buf: string, i: nat)
      requires Valid() && i < |buf| && Safe(i) && ControlOf(m) == k && k.At? && state == PartData && index == 0
      requires Now() == At(PartData, 0, k.part, k.last) && Move(boundary, k, buf[i]) == Move(boundary, Now(), buf[i])
      requires m.Wild? ==> Grows(m.log, before)
      requires Grows(before, reader.log)
      requires m.Running? ==>
                 && headerFieldMark.None? && headerValueMark.None? && partDataMark == Some(i)
                 && InData(boundary, m) && reader.View() == m.sink.PartData(m.held)
                 && Step(boundary, m, buf[i]) == StepFresh(boundary, Release(m), buf[i])
      ensures Sync(Released(m), buf, i)
      ensures Run(boundary, m, buf[i..]) == Run(boundary, Released(m), buf[i..])
    {
      hide Run, StepRunning, Grows, AddData, Move, StepFresh;
      RunOne(boundary, m, buf, i);
      RunOne(boundary, Released(m), buf, i);
      if m.Running? {
        ReleasedStep(boundary, m, buf[i]);
        assert buf[i..i] == "" && lookbehind[..0] == "";
        EmptyText(reader.View());
      } else if m.Wild? {
        GrowsTwice(m.log, before, reader.log);
      }
    }

    /** Part data from position `i` on while nothing is withheld: the skip, and one character behind it. */
    method OnUnheldData(buf: string, i: nat, ghost m: Machine) returns (next: nat, ghost m': Machine)
      requires Valid() && i < |buf| && Sync(m, buf, i) && state == PartData && index == 0
      modifies this, reader, lookbehind
      ensures Valid() && i < next <= |buf| + 1 && Sync(m', buf, Min(next, |buf|))
      ensures Run(boundary, m, buf[i..]) == Run(boundary, m', buf[Min(next, |buf|)..])
    {
      hide Run, Step, Move, AddData, Grows, InData;
      next, m' := SkipData(buf, i, m);
      if next < |buf| {
        ghost var k, log := Now(), reader.log;
        RunOne(boundary, m', buf, next);
        OnFreshData(buf, next, m');
        Together(m', log, k, buf[next], true, buf, next + 1);
        m' := Step(boundary, m', buf[next]);
      }
      next := next + 1;
    }

    lemma NotSoFar(m: Machine, buf: string, i: nat)
      requires Valid() && Sync(m, buf, i) && state == PartData
      ensures m.Running? ==> index <= |boundary| + 1
    {
      hide Grows, AddData;
    }

    /** `processPartData`: the next position, which lies behind the end when the skip ran into it. */
    method ProcessPartData(buf: string, i: nat, ghost m: Machine)
      returns (next: nat, thrown: bool, ghost m': Machine)
      requires Valid() && i < |buf| && Sync(m, buf, i) && state == PartData
      modifies this, reader, lookbehind
      ensures Valid()
      ensures thrown <==> old(index) >= |boundary| + 9
      ensures thrown ==> Thrown(Run(boundary, m, buf[i..]))
      ensures !thrown ==> i <= next <= |buf| + 1 && (next == i ==> old(index) > 0 && index == 0)
      ensures !thrown ==> Sync(m', buf, Min(next, |buf|))
      ensures !thrown ==> Run(boundary, m, buf[i..]) == Run(boundary, m', buf[Min(next, |buf|)..])
    {
      hide Run, Step, Move, AddData, Grows, InData;
      if index == 0 {
        next, m' := OnUnheldData(buf, i, m);
        return next, false, m';
      }
      NotSoFar(m, buf, i);
      next, thrown, m' := OnWithheldData(buf, i, m);
    }

    method FlushField(buf: string)
      requires headerFieldMark.Some? ==> headerFieldMark.value <= |buf|
      modifies this`headerFieldMark, reader
      ensures headerFieldMark == if old(headerFieldMark).Some? then Some(0) else None
      ensures reader.View() ==
                if old(headerFieldMark).None? then old(reader.View())
                else old(reader.View()).HeaderField(buf[old(headerFieldMark).value..|buf|])
    {
      if headerFieldMark.Some? {
        EmptyText(reader.View());
        assert buf[headerFieldMark.value..] == buf[headerFieldMark.value..|buf|];
        if headerFieldMark.value < |buf| {
          reader.OnHeaderField(buf[headerFieldMark.value..]);
        }
        headerFieldMark := Some(0);
      }
    }

    method FlushValue(buf: string)
      requires headerValueMark.Some? ==> headerValueMark.value <= |buf|
      modifies this`headerValueMark, reader
      ensures headerValueMark == if old(headerValueMark).Some? then Some(0) else None
      ensures reader.View() ==
                if old(headerValueMark).None? then old(reader.View())
                else old(reader.View()).HeaderValue(buf[old(headerValueMark).value..|buf|])
    {
      if headerValueMark.Some? {
        EmptyText(reader.View());
        assert buf[headerValueMark.value..] == buf[headerValueMark.value..|buf|];
        if headerValueMark.value < |buf| {
          reader.OnHeaderValue(buf[headerValueMark.value..]);
        }
        headerValueMark := Some(0);
      }
    }

    method FlushData(buf: string)
      requires partDataMark.Some? ==> partDataMark.value <= |buf|
      modifies this`partDataMark, reader
      ensures partDataMark == if old(partDataMark).Some? then Some(0) else None
      ensures reader.View() ==
                if old(partDataMark).None? then old(reader.View())
                else old(reader.View()).PartData(buf[old(partDataMark).value..|buf|])
      ensures Grows(old(reader.log), reader.log)
    {
      hide AddData, Grows;
      GrowsNot(reader.log);
      if partDataMark.Some? {
        EmptyText(reader.View());
        assert buf[partDataMark.value..] == buf[partDataMark.value..|buf|];
        if partDataMark.value < |buf| {
          reader.OnPartData(buf[partDataMark.value..]);
        }
        partDataMark := Some(0);
      }
    }

    /** The end of a piece: what is marked is handed over, and the marks go back to the front. */
    method FlushMarks(buf: string, ghost m: Machine)
      requires Valid() && Sync(m, buf, |buf|)
      modifies this`headerFieldMark, this`headerValueMark, this`partDataMark, reader
      ensures Valid() && Sync(m, "", 0)
      ensures m.Running? ==> reader.View() == m.sink
    {
      hide AddData, InData, Grows;
      ghost var log := reader.log;
      FlushField(buf);
      FlushValue(buf);
      FlushData(buf);
      EmptyText(reader.View());
      assert ""[0..0] == "";
      if m.Wild? {
        GrowsTwice(m.log, log, reader.log);
      }
    }

    lemma EmptyFlush(m: Machine)
      requires Valid() && Sync(m, "", 0)
      ensures m.Running? ==> reader.View() == m.sink
    {
      EmptyText(reader.View());
    }

    /** A new piece of input continues where the last one ended. */
    lemma NextPiece(m: Machine, buf: string)
      requires Valid() && Sync(m, "", 0)
      ensures Sync(m, buf, 0)
    {
      hide Grows, InData, AddData;
      assert buf[0..0] == "";
    }

    /** `feed`: however the machine stands, the piece moves it as it should, and the application learns no less
        and no more than the machine says. The parser throws exactly when the machine says that the lookbehind
        buffer overflows. */
    method Feed(buf: string, ghost m: Machine) returns (fed: nat, thrown: bool)
      requires Valid() && (Halted(m) || Sync(m, "", 0))
      modifies this, reader, lookbehind
      ensures Valid()
      ensures var m' := Run(boundary, m, buf);
              if state == ParseError then Halted(m')
              else Sync(m', "", 0) && fed == |buf| && (m'.Running? ==> reader.View() == m'.sink)
      ensures thrown <==> old(state) != ParseError && ControlOf(Run(boundary, m, buf)) == Overflown
    {
      hide Run, Step, AddData, Grows, Move;
      RunNothing(boundary, m);
      if state == ParseError || |buf| == 0 {
        if state == ParseError {
          RunStuck(boundary, m, buf);
        } else {
          assert buf == "";
          EmptyFlush(m);
        }
        return 0, false;
      }
      NextPiece(m, buf);
      var i := 0;
      ghost var at := m;
      assert buf[0..] == buf;
      while i < |buf|
        invariant 0 <= i <= |buf| + 1 && Valid()
        invariant Sync(at, buf, Min(i, |buf|))
        invariant Run(boundary, m, buf) == Run(boundary, at, buf[Min(i, |buf|)..])
        decreases |buf| - i, index > 0
      {
        var next, ok;
        ghost var at';
        next, ok, thrown, at' := OnCharacter(buf, i, at);
        if !ok {
          return next, thrown;
        }
        i, at := next, at';
      }
      assert buf[|buf|..] == "";
      RunNothing(boundary, at);
      FlushMarks(buf, at);
      return |buf|, false;
    }

    /** One turn of the loop. */
    method OnCharacter(buf: string, i: nat, ghost m: Machine)
      returns (next: nat, ok: bool, thrown: bool, ghost m': Machine)
      requires Valid() && i < |buf| && Sync(m, buf, i)
      modifies this, reader, lookbehind
      ensures Valid() && (thrown ==> !ok)
      ensures !ok ==> next <= i && Halted(Run(boundary, m, buf[i..]))
      ensures !ok ==> (thrown <==> ControlOf(Run(boundary, m, buf[i..])) == Overflown)
      ensures ok ==> i <= next <= |buf| + 1 && (next == i ==> old(index) > 0 && index == 0)
      ensures ok ==> Sync(m', buf, Min(next, |buf|))
      ensures ok ==> Run(boundary, m, buf[i..]) == Run(boundary, m', buf[Min(next, |buf|)..])
    {
      hide Run, Step, AddData, Grows, Move, InData;
      ghost var at := FallInto(buf, i, m);
      if state == PartData {
        next, thrown, m' := ProcessPartData(buf, i, at);
        return if thrown then i else next, !thrown, thrown, m';
      }
      ok := OnHead(buf, i, at);
      RunOne(boundary, at, buf, i);
      next, thrown, m' := if ok then i + 1 else i, false, Step(boundary, at, buf[i]);
      if !ok {
        RunStuck(boundary, m', buf[i + 1..]);
      }
    }

    /** Outside part data every turn takes one character. */
    method OnHead(buf: string, i: nat, ghost m: Machine) returns (ok: bool)
      requires Valid() && i < |buf| && Sync(m, buf, i) && Entered(buf[i]) && state != PartData
      modifies this, reader
      ensures Valid()
      ensures if ok then Sync(Step(boundary, m, buf[i]), buf, i + 1)
              else Halted(Step(boundary, m, buf[i])) && ControlOf(Step(boundary, m, buf[i])) == Stopped
    {
      hide Run, Step, AddData, Grows, Move, InData;
      ghost var log, k := reader.log, Now();
      GrowsNot(log);
      if state == StartBoundary {
        ok := OnStart(buf, i, m);
      } else if state == HeaderField {
        ok := OnField(buf, i, m);
      } else if state == HeaderValue {
        OnValue(buf, i, m);
        ok := true;
      } else if state == HeaderValueAlmostDone || state == HeadersAlmostDone {
        ok := OnLineFeed(buf, i, m);
      } else {
        Stays(m, buf, i);
        ok := true;
      }
      Together(m, log, k, buf[i], ok, buf, i + 1);
    }

    /** The case that the parser is in after falling through. */
    ghost predicate Entered(c: char)
      reads this
    {
      state != Start && state != HeaderFieldStart && state != PartDataStart && (state == HeaderValueStart ==> c == ' ')
    }

    /** Four cases of the switch prepare for the next one and fall through into it. */
    method FallInto(buf: string, i: nat, ghost m: Machine) returns (ghost m': Machine)
      requires Valid() && i < |buf| && Sync(m, buf, i)
      modifies this
      ensures Valid() && Sync(m', buf, i) && Entered(buf[i])
      ensures state == PartData ==> index == old(index)
      ensures Run(boundary, m, buf[i..]) == Run(boundary, m', buf[i..])
    {
      hide Run, Step, Sync;
      m' := m;
      match state {
        case Start =>
          m' := EnterBoundary(buf, i, m);
        case HeaderFieldStart =>
          m' := EnterField(buf, i, m);
        case HeaderValueStart =>
          if buf[i] != ' ' {
            m' := EnterValue(buf, i, m);
          }
        case PartDataStart =>
          m' := EnterData(buf, i, m);
        case _ =>
      }
    }

    method EnterBoundary(buf: string, i: nat, ghost m: Machine) returns (ghost m': Machine)
      requires Valid() && i < |buf| && Sync(m, buf, i) && state == Start
      modifies this
      ensures Sync(m', buf, i) && state == StartBoundary && index == 0
      ensures Run(boundary, m, buf[i..]) == Run(boundary, m', buf[i..])
    {
      hide Run, Step, AddData, Grows, Move, InData, Placed;
      EmptyText(reader.View());
      assert buf[i..i] == "" && lookbehind[..0] == "";
      m' := FallThrough(m, StartBoundary, 0, buf, i);
      index := 0;
      state := StartBoundary;
    }

    method EnterField(buf: string, i: nat, ghost m: Machine) returns (ghost m': Machine)
      requires Valid() && i < |buf| && Sync(m, buf, i) && state == HeaderFieldStart
      modifies this
      ensures Sync(m', buf, i) && state == HeaderField && index == 0
      ensures Run(boundary, m, buf[i..]) == Run(boundary, m', buf[i..])
    {
      hide Run, Step, AddData, Grows, Move, InData, Placed;
      EmptyText(reader.View());
      assert buf[i..i] == "" && lookbehind[..0] == "";
      m' := FallThrough(m, HeaderField, 0, buf, i);
      state := HeaderField;
      headerFieldMark := Some(i);
      index := 0;
    }

    method EnterValue(buf: string, i: nat, ghost m: Machine) returns (ghost m': Machine)
      requires Valid() && i < |buf| && Sync(m, buf, i) && state == HeaderValueStart && buf[i] != ' '
      modifies this
      ensures Sync(m', buf, i) && state == HeaderValue && index == old(index)
      ensures Run(boundary, m, buf[i..]) == Run(boundary, m', buf[i..])
    {
      hide Run, Step, AddData, Grows, Move, InData, Placed;
      EmptyText(reader.View());
      assert buf[i..i] == "" && lookbehind[..0] == "";
      m' := FallThrough(m, HeaderValue, index, buf, i);
      headerValueMark := Some(i);
      state := HeaderValue;
    }

    method EnterData(buf: string, i: nat, ghost m: Machine) returns (ghost m': Machine)
      requires Valid() && i < |buf| && Sync(m, buf, i) && state == PartDataStart
      modifies this
      ensures Sync(m', buf, i) && state == PartData && index == old(index)
      ensures Run(boundary, m, buf[i..]) == Run(boundary, m', buf[i..])
    {
      hide Run, Step, AddData, Grows, Move, InData, Placed;
      EmptyText(reader.View());
      assert buf[i..i] == "" && lookbehind[..0] == "";
      m' := FallThrough(m, PartData, index, buf, i);
      state := PartData;
      partDataMark := Some(i);
    }

    /** Blanks before a header value, and everything behind the end. */
    lemma Stays(m: Machine, buf: string, i: nat)
      requires Valid() && i < |buf| && Sync(m, buf, i)
      requires state == AtEnd || (state == HeaderValueStart && buf[i] == ' ')
      ensures Arrived(true, Move(boundary, ControlOf(m), buf[i]), i + 1)
      ensures m.Running? ==> Reached(Step(boundary, m, buf[i]), buf, i + 1)
    {
      hide AddData, Grows, InData;
    }

    /** The source falls through from one case of its switch into the next. */
    lemma FallThrough(m: Machine, state': State, index': nat, buf: string, i: nat) returns (m': Machine)
      requires Valid() && i < |buf| && Sync(m, buf, i)
      requires match state
               case Start => state' == StartBoundary && index' == 0
               case HeaderFieldStart => state' == HeaderField && index' == 0
               case HeaderValueStart => state' == HeaderValue && index' == index && buf[i] != ' '
               case PartDataStart => state' == PartData && index' == index
               case _ => false
      ensures m' == Placed(m, state', index') && ControlOf(m') == ControlOf(m).(state := state', index := index')
      ensures m.Running? ==> m'.Running? && m'.sink == m.sink && m'.held == m.held
      ensures m.Running? && state' == PartData ==> InData(boundary, m')
      ensures m.Wild? ==> m'.Wild? && m'.log == m.log
      ensures Run(boundary, m, buf[i..]) == Run(boundary, m', buf[i..])
    {
      hide Run, AddData, Grows;
      m' := Placed(m, state', index');
      RunOne(boundary, m, buf, i);
      RunOne(boundary, m', buf, i);
    }
  }

  /** What is withheld is given up. */
  function Released(m: Machine): Machine {
    if m.Running? then Release(m) else Placed(m, PartData, 0)
  }

  lemma EmptyText(sink: Sink)
    ensures sink.HeaderField("") == sink && sink.HeaderValue("") == sink && sink.PartData("") == sink
  {
    assert sink.name + "" == sink.name && sink.value + "" == sink.value;
    AddDataTwice(sink.log, "", "");
  }

  lemma StartStep(b: string, m: Machine, k: Control, c: char)
    requires |b| >= 2 && k.At? && k.state == StartBoundary && (m.Running? ==> m.state == StartBoundary)
    ensures Move(b, k, c) == ControlOf(StepStart(b, Bare(k), c))
    ensures m.Running? ==> Step(b, m, c) == StepStart(b, m, c)
  {
  }

  lemma FieldStep(b: string, m: Machine, k: Control, c: char)
    requires |b| >= 2 && k.At? && k.state == HeaderField && (m.Running? ==> m.state == HeaderField)
    ensures Move(b, k, c) == ControlOf(StepField(Bare(k), c))
    ensures m.Running? ==> Step(b, m, c) == StepField(m, c)
  {
  }

  lemma RunNothing(b: string, m: Machine)
    requires |b| >= 2
    ensures Run(b, m, "") == m
  {
  }

  lemma ReleasedStep(b: string, m: Machine, c: char)
    requires |b| >= 2 && InData(b, m)
    ensures Step(b, Release(m), c) == StepFresh(b, Release(m), c)
    ensures InData(b, Release(m))
  {
  }

  lemma Slices(buf: string, i: nat, j: nat, k: nat)
    requires i <= j <= k <= |buf|
    ensures buf[i..j] + buf[j..k] == buf[i..k]
  {
  }

  lemma Extend(before: string, buf: string, mark: nat, i: nat)
    requires mark <= i < |buf|
    ensures before + buf[mark..i + 1] == before + buf[mark..i] + [buf[i]]
    ensures mark == i ==> before + buf[mark..i] == before
  {
  }

  /** `c | 0x20` as a signed character. */
  function Lower(c: char): (r: char)
    ensures 'a' <= r <= 'z' <==> IsLetter(c)
  {
    if c as int < 0x80 && (c as int / 32) % 2 == 0 then (c as int + 32) as char else c
  }
}
