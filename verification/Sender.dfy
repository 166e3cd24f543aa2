/** Double-buffered sending of websocket messages: callers append to the inactive buffer while the active one is
    being written, and the buffers change places when a write ends. */
module Sender {

  // ----- What a caller sees -------------------------------------------------------------------

  /** The messages whose write has ended, those being written, and those waiting, in order. */
  datatype Line = Line(written: seq<string>, inFlight: seq<string>, queued: seq<string>)

  datatype Event = Send(parts: seq<string>) | Completed

  const IDLE := Line([], [], [])

  /** Nothing waits while the socket is idle. */
  predicate Busy(l: Line) {
    l.inFlight == [] ==> l.queued == []
  }

  function Next(l: Line, e: Event): Line {
    match e
    case Send(parts) =>
      if l.inFlight == [] then Line(l.written, l.queued + parts, []) else l.(queued := l.queued + parts)
    case Completed => Line(l.written + l.inFlight, l.queued, [])
  }

  function After(l: Line, events: seq<Event>): Line
    decreases |events|
  {
    if events == [] then l else After(Next(l, events[0]), events[1..])
  }

  function Sent(events: seq<Event>): seq<string>
    decreases |events|
  {
    if events == [] then [] else (match events[0] case Send(parts) => parts case Completed => []) + Sent(events[1..])
  }

  function Completions(events: seq<Event>): nat
    decreases |events|
  {
    if events == [] then 0 else (if events[0].Completed? then 1 else 0) + Completions(events[1..])
  }

  function All(l: Line): seq<string> {
    l.written + l.inFlight + l.queued
  }

  lemma NextKeeps(l: Line, e: Event)
    requires Busy(l)
    ensures Busy(Next(l, e)) && l.written <= Next(l, e).written
    ensures All(Next(l, e)) == All(l) + (match e case Send(parts) => parts case Completed => [])
  {
    match e
    case Send(parts) => assert l.written + l.inFlight + (l.queued + parts) == All(l) + parts;
    case Completed =>
  }

  /** Over every interleaving: the messages written, in flight and waiting are exactly those sent, in the order in
      which the callers had the lock, and nothing waits while the socket is idle. */
  lemma {:induction false} NothingLost(l: Line, events: seq<Event>)
    requires Busy(l)
    ensures Busy(After(l, events)) && All(After(l, events)) == All(l) + Sent(events)
    ensures l.written <= After(l, events).written
    decreases |events|
  {
    if events != [] {
      NextKeeps(l, events[0]);
      NothingLost(Next(l, events[0]), events[1..]);
      var first := match events[0] case Send(parts) => parts case Completed => [];
      assert All(l) + first + Sent(events[1..]) == All(l) + (first + Sent(events[1..]));
    }
  }

  lemma {:induction false} OneCompletion(l: Line, events: seq<Event>)
    requires Busy(l) && Completions(events) >= 1
    ensures l.written + l.inFlight <= After(l, events).written
    decreases |events|
  {
    if events[0].Completed? {
      NextKeeps(l, events[0]);
      NothingLost(Next(l, events[0]), events[1..]);
    } else {
      NextKeeps(l, events[0]);
      OneCompletion(Next(l, events[0]), events[1..]);
    }
  }

  /** No message waits for more than the write under way and its own. */
  lemma {:induction false} TwoCompletions(l: Line, events: seq<Event>)
    requires Busy(l) && Completions(events) >= 2
    ensures All(l) <= After(l, events).written
    decreases |events|
  {
    NextKeeps(l, events[0]);
    if events[0].Completed? {
      OneCompletion(Next(l, events[0]), events[1..]);
    } else {
      TwoCompletions(Next(l, events[0]), events[1..]);
      assert All(l) <= All(Next(l, events[0]));
    }
  }

  // ----- The connection -----------------------------------------------------------------------------

  /** A `const_buffer`: which element of which buffer it refers to. */
  datatype Ref = Ref(buffer: int, index: nat)

  ghost predicate InRange(refs: seq<Ref>, buffers: seq<seq<string>>) {
    forall i :: 0 <= i < |refs| ==> 0 <= refs[i].buffer < |buffers| && refs[i].index < |buffers[refs[i].buffer]|
  }

  /** What the references refer to now. */
  ghost function Referred(refs: seq<Ref>, buffers: seq<seq<string>>): (s: seq<string>)
    requires InRange(refs, buffers)
  {
    seq(|refs|, i requires 0 <= i < |refs| => buffers[refs[i].buffer][refs[i].index])
  }

  ghost predicate IsAll(refs: seq<Ref>, b: int, n: nat) {
    |refs| == n && forall i :: 0 <= i < n ==> refs[i] == Ref(b, i)
  }

  class Connection {
    const buffers: array<seq<string>>
    var activeBuffer: int
    var bufferSeq: seq<Ref>
    /** The writes given to the socket and not ended: what each refers to, and what that was when it began. */
    ghost var writes: seq<(seq<Ref>, seq<string>)>
    ghost var written: seq<string>

    /** At most one write, of the whole active buffer, which has not changed since the write began. */
    ghost predicate Valid()
      reads this, buffers
    {
      buffers.Length == 2 && 0 <= activeBuffer <= 1 && IsAll(bufferSeq, activeBuffer, |buffers[activeBuffer]|) &&
      writes == (if bufferSeq == [] then [] else [(bufferSeq, buffers[activeBuffer])]) &&
      Busy(Value())
    }

    ghost function Value(): Line
      requires buffers.Length == 2 && 0 <= activeBuffer <= 1
      reads this, buffers
    {
      Line(written, buffers[activeBuffer], buffers[1 - activeBuffer])
    }

    constructor ()
      ensures Valid() && Value() == IDLE && fresh(buffers)
    {
      buffers := new seq<string>[2](_ => []);
      activeBuffer, bufferSeq := 0, [];
      writes, written := [], [];
    }

    predicate Writing()
      reads this
    {
      bufferSeq != []
    }

    method SendMsg(data: string)
      requires Valid()
      modifies this, buffers
      ensures Valid() && Value() == Next(old(Value()), Send([data]))
      ensures old(Writing()) ==> writes == old(writes) && buffers[activeBuffer] == old(buffers[activeBuffer])
    {
      buffers[1 - activeBuffer] := buffers[1 - activeBuffer] + [data];
      if !Writing() {
        DoWriteMsg();
      }
    }

    /** The header goes right before its data. */
    method SendHeaderAndData(header: string, data: string)
      requires Valid()
      modifies this, buffers
      ensures Valid() && Value() == Next(old(Value()), Send([header, data]))
      ensures old(Writing()) ==> writes == old(writes) && buffers[activeBuffer] == old(buffers[activeBuffer])
    {
      buffers[1 - activeBuffer] := buffers[1 - activeBuffer] + [header];
      buffers[1 - activeBuffer] := buffers[1 - activeBuffer] + [data];
      if !Writing() {
        DoWriteMsg();
      }
    }

    /** The buffers change places and a write of what was waiting begins. */
    method DoWriteMsg()
      requires buffers.Length == 2 && 0 <= activeBuffer <= 1 && bufferSeq == [] && writes == []
      requires buffers[activeBuffer] == [] && buffers[1 - activeBuffer] != []
      modifies this`activeBuffer, this`bufferSeq, this`writes
      ensures Valid() && Writing() && Value() == Line(written, old(buffers[1 - activeBuffer]), [])
    {
      activeBuffer := 1 - activeBuffer;
      for i := 0 to |buffers[activeBuffer]|
        invariant activeBuffer == 1 - old(activeBuffer) && writes == [] && IsAll(bufferSeq, activeBuffer, i)
      {
        bufferSeq := bufferSeq + [Ref(activeBuffer, i)];
      }
      writes := writes + [(bufferSeq, buffers[activeBuffer])];
    }

    /** The write has ended: the bytes that went out are those its references refer to at the end. */
    method Complete()
      requires Valid() && writes != []
      modifies this, buffers
      ensures Valid() && Value() == Next(old(Value()), Completed)
      ensures InRange(old(writes[0].0), old(buffers[..]))
      ensures written == old(written) + Referred(old(writes[0].0), old(buffers[..])) == old(written) + old(writes[0].1)
    {
      assert buffers[..][activeBuffer] == buffers[activeBuffer];
      assert Referred(writes[0].0, buffers[..]) == writes[0].1;
      written := written + Referred(writes[0].0, buffers[..]);
      writes := writes[1..];
      buffers[activeBuffer] := [];
      bufferSeq := [];
      if buffers[1 - activeBuffer] != [] {
        DoWriteMsg();
      }
    }
  }
}
