/** The in-place decoder of chunked coding (section 4.1 of RFC 7230) against a transducer that reads one byte
    at a time and writes to a buffer of its own. */
module Chunked {
  import opened Optional
  import opened Numerals

  // ----- The transducer --------------------------------------------------------------

  datatype Phase = ChunkSize | ChunkExt | ChunkData | ChunkCrlf | TrailersLineHead | TrailersLineMiddle

  datatype Decoder = Decoder(phase: Phase, hexCount: nat, left: nat, consumeTrailer: bool)

  const SIZE_RANGE: nat := 0x1_0000_0000_0000_0000
  const MAX_HEX_DIGITS: nat := 16

  function DecodeHex(c: char): Option<nat> {
    if '0' <= c <= '9' then Some(c as int - '0' as int)
    else if 'A' <= c <= 'F' then Some(c as int - 'A' as int + 10)
    else if 'a' <= c <= 'f' then Some(c as int - 'a' as int + 10)
    else None
  }

  datatype Move = Consume(next: Decoder, written: string) | Fail | Finish(next: Decoder)

  function StepExt(d: Decoder, c: char): Move {
    if c != '\n' then Consume(d, "")
    else if d.left > 0 then Consume(d.(phase := ChunkData), "")
    else if d.consumeTrailer then Consume(d.(phase := TrailersLineHead), "")
    else Finish(d)
  }

  function StepByte(d: Decoder, c: char): Move {
    match d.phase
    case ChunkSize =>
      var v := DecodeHex(c);
      if v.None? then if d.hexCount == 0 then Fail else StepExt(d.(phase := ChunkExt, hexCount := 0), c)
      else if d.hexCount == MAX_HEX_DIGITS then Fail
      else Consume(d.(left := d.left * 16 + v.value, hexCount := d.hexCount + 1), "")
    case ChunkExt => StepExt(d, c)
    case ChunkData =>
      if d.left <= 1 then Consume(d.(phase := ChunkCrlf, left := 0), [c]) else Consume(d.(left := d.left - 1), [c])
    case ChunkCrlf =>
      if c == '\r' then Consume(d, "") else if c == '\n' then Consume(d.(phase := ChunkSize), "") else Fail
    case TrailersLineHead =>
      if c == '\r' then Consume(d, "")
      else if c == '\n' then Finish(d)
      else Consume(d.(phase := TrailersLineMiddle), "")
    case TrailersLineMiddle => if c == '\n' then Consume(d.(phase := TrailersLineHead), "") else Consume(d, "")
  }

  datatype Status = Incomplete | Error | Complete

  /** How a run ends: the state, everything written, and how many bytes were read for good. */
  datatype Outcome = Outcome(status: Status, next: Decoder, written: string, consumed: nat)

  function Shift(r: Outcome, written: string, n: nat): Outcome {
    r.(written := written + r.written, consumed := n + r.consumed)
  }

  function Run(d: Decoder, s: string): (r: Outcome)
    ensures r.consumed <= |s| && |r.written| <= r.consumed
    ensures r.status == Incomplete ==> r.consumed == |s|
    decreases |s|
  {
    if s == "" then Outcome(Incomplete, d, "", 0)
    else
      match StepByte(d, s[0])
      case Fail => Outcome(Error, d, "", 0)
      case Finish(d') => Outcome(Complete, d', "", 1)
      case Consume(d', w) => Shift(Run(d', s[1..]), w, 1)
  }

  /** The states that a zeroed decoder can get into. */
  predicate Valid(d: Decoder) {
    && d.hexCount <= MAX_HEX_DIGITS && d.left < SIZE_RANGE
    && match d.phase
       case ChunkSize => d.left < Pow16(d.hexCount)
       case ChunkData => d.hexCount == 0 && d.left > 0
       case ChunkCrlf => d.hexCount == 0 && d.left == 0
       case _ => d.hexCount == 0
  }

  lemma {:induction false} Pow16Monotonic(a: nat, b: nat)
    requires a <= b
    ensures 0 < Pow16(a) <= Pow16(b)
    decreases b
  {
    if a < b {
      Pow16Monotonic(a, b - 1);
    } else if b > 0 {
      Pow16Monotonic(b - 1, b - 1);
    }
  }

  lemma SixteenDigitsFit(n: nat)
    requires n <= MAX_HEX_DIGITS
    ensures Pow16(n) <= SIZE_RANGE
  {
    assert Pow16(4) == 65536;
    assert Pow16(8) == 65536 * 65536;
    assert Pow16(12) == 65536 * 65536 * 65536;
    assert Pow16(16) == SIZE_RANGE;
    Pow16Monotonic(n, 16);
  }

  /** The chunk size never overflows: sixteen digits are all that a 64-bit count can hold. */
  lemma StepKeepsValid(d: Decoder, c: char)
    requires Valid(d)
    ensures var m := StepByte(d, c); !m.Fail? ==> Valid(m.next)
  {
    if d.phase == ChunkSize && DecodeHex(c).Some? && d.hexCount < MAX_HEX_DIGITS {
      SixteenDigitsFit(d.hexCount + 1);
      assert Pow16(d.hexCount + 1) == 16 * Pow16(d.hexCount);
    } else {
      assert Pow16(0) == 1;
    }
  }

  lemma {:induction false} RunKeepsValid(d: Decoder, s: string)
    requires Valid(d)
    ensures Valid(Run(d, s).next)
    decreases |s|
  {
    hide Valid, StepByte;
    if s != "" {
      StepKeepsValid(d, s[0]);
      var m := StepByte(d, s[0]);
      if m.Consume? {
        RunKeepsValid(m.next, s[1..]);
      }
    }
  }

  /** Decoding a text in two calls is decoding it in one, when the first call needs more input; otherwise what
      follows makes no difference. */
  lemma {:induction false} RunInPieces(d: Decoder, a: string, b: string)
    ensures var r := Run(d, a);
            Run(d, a + b) == if r.status == Incomplete then Shift(Run(r.next, b), r.written, |a|) else r
    decreases |a|
  {
    hide StepByte;
    if a == "" {
      assert a + b == b;
      assert "" + Run(d, b).written == Run(d, b).written;
    } else {
      assert (a + b)[1..] == a[1..] + b;
      var m := StepByte(d, a[0]);
      if m.Consume? {
        RunInPieces(m.next, a[1..], b);
        var r := Run(m.next, a[1..]);
        var r' := Run(r.next, b);
        assert m.written + (r.written + r'.written) == m.written + r.written + r'.written;
      }
    }
  }

  // ----- The decoder in place ----------------------------------------------------------

  /** `memmove` inside one buffer, from `src` to a place that is not behind it. */
  method MoveDown(buf: array<char>, dst: nat, src: nat, n: nat)
    requires dst <= src && src + n <= buf.Length
    modifies buf
    ensures buf[dst..dst + n] == old(buf[src..src + n])
    ensures forall k :: 0 <= k < dst || dst + n <= k < buf.Length ==> buf[k] == old(buf[k])
  {
    var k := 0;
    while k < n
      invariant 0 <= k <= n
      invariant forall j :: dst <= j < dst + k ==> buf[j] == old(buf[j + src - dst])
      invariant forall j :: 0 <= j < dst || dst + k <= j < buf.Length ==> buf[j] == old(buf[j])
    {
      buf[dst + k] := buf[src + k];
      k := k + 1;
    }
  }

  /** A run from position `i` gets to state `d'` at position `j`, writing `out` on the way. */
  ghost predicate Reaches(s: string, d: Decoder, i: nat, d': Decoder, j: nat, out: string) {
    i <= j <= |s| && Run(d, s[i..]) == Shift(Run(d', s[j..]), out, j - i)
  }

  lemma ReachesHere(s: string, d: Decoder, i: nat)
    requires i <= |s|
    ensures Reaches(s, d, i, d, i, "")
  {
    assert "" + Run(d, s[i..]).written == Run(d, s[i..]).written;
  }

  lemma ReachesNext(s: string, d: Decoder, i: nat)
    requires i < |s| && StepByte(d, s[i]).Consume?
    ensures var m := StepByte(d, s[i]); Reaches(s, d, i, m.next, i + 1, m.written)
  {
    hide StepByte;
    assert s[i..][0] == s[i] && s[i..][1..] == s[i + 1..];
  }

  lemma ReachesBeyond(s: string, d: Decoder, i: nat, d': Decoder, j: nat, out: string, d'': Decoder, k: nat,
                      more: string)
    requires Reaches(s, d, i, d', j, out) && Reaches(s, d', j, d'', k, more)
    ensures Reaches(s, d, i, d'', k, out + more)
    ensures more == "" ==> Reaches(s, d, i, d'', k, out)
  {
    hide Run;
    assert out + "" == out;
    var r := Run(d'', s[k..]);
    assert out + (more + r.written) == out + more + r.written;
  }

  lemma ReachesEnd(s: string, d: Decoder, i: nat)
    requires i <= |s|
    ensures i == |s| ==> Run(d, s[i..]) == Outcome(Incomplete, d, "", 0)
    ensures i < |s| && StepByte(d, s[i]).Fail? ==> Run(d, s[i..]) == Outcome(Error, d, "", 0)
    ensures i < |s| && StepByte(d, s[i]).Finish? ==> Run(d, s[i..]) == Outcome(Complete, StepByte(d, s[i]).next, "", 1)
  {
    hide StepByte;
    assert i < |s| ==> s[i..][0] == s[i];
  }

  /** A character that stands behind the size is read as the extension's. */
  lemma ReachesExt(s: string, d: Decoder, i: nat)
    requires i < |s| && d.phase == ChunkSize && d.hexCount > 0 && DecodeHex(s[i]).None?
    ensures Reaches(s, d, i, d.(phase := ChunkExt, hexCount := 0), i, "")
  {
    var d' := d.(phase := ChunkExt, hexCount := 0);
    assert s[i..][0] == s[i];
    assert StepByte(d, s[i]) == StepByte(d', s[i]);
    assert "" + Run(d', s[i..]).written == Run(d', s[i..]).written;
  }

  /** A stretch of chunk data is copied. */
  lemma {:induction false} ReachesData(s: string, d: Decoder, i: nat, n: nat)
    requires i + n <= |s| && d.phase == ChunkData && 0 < d.left && n <= d.left
    ensures Reaches(s, d, i, if n == d.left then d.(phase := ChunkCrlf, left := 0) else d.(left := d.left - n), i + n,
                    s[i..i + n])
    decreases n
  {
    hide Reaches;
    if n == 0 {
      ReachesHere(s, d, i);
      assert s[i..i] == "";
    } else {
      ReachesNext(s, d, i);
      var d' := StepByte(d, s[i]).next;
      if n == 1 {
        ReachesHere(s, d', i + 1);
        assert s[i..i + 1] == [s[i]];
      } else {
        ReachesData(s, d', i + 1, n - 1);
        ReachesBeyond(s, d, i, d', i + 1, [s[i]], if n == d.left then d.(phase := ChunkCrlf, left := 0)
                      else d.(left := d.left - n), i + n, s[i + 1..i + n]);
        assert s[i..i + n] == [s[i]] + s[i + 1..i + n];
      }
    }
  }

  /** `phr_chunked_decoder`. */
  class ChunkedDecoder {
    var bytesLeftInChunk: nat
    var consumeTrailer: bool
    var hexCount: nat
    var phase: Phase

    /** A zeroed decoder. */
    constructor (trailer: bool)
      ensures State() == Decoder(ChunkSize, 0, 0, trailer) && Valid(State())
    {
      bytesLeftInChunk, consumeTrailer, hexCount, phase := 0, trailer, 0, ChunkSize;
    }

    function State(): Decoder
      reads this
    {
      Decoder(phase, hexCount, bytesLeftInChunk, consumeTrailer)
    }

    /** The unread part of the buffer is as it was given. */
    ghost predicate Unread(buf: array<char>, src: nat, bufsz: nat, s: string)
      reads buf
    {
      src <= bufsz <= buf.Length && |s| == bufsz && forall k :: src <= k < bufsz ==> buf[k] == s[k]
    }

    /** A phase has come from position `i` to position `j`: either it goes on, or the run is over. */
    ghost predicate Came(s: string, d: Decoder, i: nat, j: nat, end: Option<Status>, out: string)
      reads this
    {
      i <= j <= |s| &&
      match end
      case None => Reaches(s, d, i, State(), j, out)
      case Some(status) => Run(d, s[i..]) == Outcome(status, State(), out, j - i)
    }

    method ReadSize(buf: array<char>, src: nat, bufsz: nat, ghost s: string) returns (j: nat, end: Option<Status>)
      requires phase == ChunkSize && Valid(State()) && Unread(buf, src, bufsz, s)
      modifies this
      ensures Valid(State())
      ensures Came(s, old(State()), src, j, end, "") && (end.None? ==> phase == ChunkExt)
    {
      hide Run, Reaches, StepByte;
      ghost var d := State();
      j := src;
      ReachesHere(s, d, src);
      while true
        invariant src <= j <= bufsz && phase == ChunkSize && Valid(State()) && Reaches(s, d, src, State(), j, "")
        decreases bufsz - j
      {
        StopHere(s, d, src, State(), j, "");
        if j == bufsz {
          return j, Some(Incomplete);
        }
        var v := DecodeHex(buf[j]);
        SizeStep(State(), s[j]);
        if v.None? {
          if hexCount == 0 {
            return j, Some(Error);
          }
          break;
        }
        if hexCount == MAX_HEX_DIGITS {
          return j, Some(Error);
        }
        ReachesNext(s, State(), j);
        StepKeepsValid(State(), s[j]);
        ghost var d' := State();
        bytesLeftInChunk := bytesLeftInChunk * 16 + v.value;
        hexCount := hexCount + 1;
        ReachesBeyond(s, d, src, d', j, "", State(), j + 1, "");
        j := j + 1;
      }
      ReachesExt(s, State(), j);
      ghost var d' := State();
      hexCount := 0;
      phase := ChunkExt;
      ReachesBeyond(s, d, src, d', j, "", State(), j, "");
      return j, None;
    }

    /** The rest of the line behind a chunk size. */
    method ReadExt(buf: array<char>, src: nat, bufsz: nat, ghost s: string) returns (j: nat, end: Option<Status>)
      requires phase == ChunkExt && Valid(State()) && Unread(buf, src, bufsz, s)
      modifies this
      ensures Valid(State())
      ensures Came(s, old(State()), src, j, end, "")
      ensures end.None? ==> src < j && phase in {ChunkData, TrailersLineHead}
    {
      hide Run, Reaches;
      ghost var d := State();
      j := src;
      ReachesHere(s, d, src);
      while true
        invariant src <= j <= bufsz && State() == d && Reaches(s, d, src, d, j, "")
        decreases bufsz - j
      {
        StopHere(s, d, src, d, j, "");
        if j == bufsz {
          return j, Some(Incomplete);
        }
        if buf[j] == '\n' {
          break;
        }
        ReachesNext(s, d, j);
        ReachesBeyond(s, d, src, d, j, "", d, j + 1, "");
        j := j + 1;
      }
      if bytesLeftInChunk == 0 {
        if consumeTrailer {
          phase := TrailersLineHead;
        } else {
          return j + 1, Some(Complete);
        }
      } else {
        phase := ChunkData;
      }
      ReachesNext(s, d, j);
      ReachesBeyond(s, d, src, d, j, "", State(), j + 1, "");
      return j + 1, None;
    }

    /** Carriage returns, up to the character behind them. */
    method SkipReturns(buf: array<char>, src: nat, bufsz: nat, ghost s: string) returns (j: nat)
      requires (phase == ChunkCrlf || phase == TrailersLineHead) && Unread(buf, src, bufsz, s)
      ensures src <= j <= bufsz && (j < bufsz ==> buf[j] != '\r')
      ensures Reaches(s, State(), src, State(), j, "")
    {
      hide Run, Reaches;
      j := src;
      ReachesHere(s, State(), src);
      while j < bufsz && buf[j] == '\r'
        invariant src <= j <= bufsz && Reaches(s, State(), src, State(), j, "")
      {
        ReachesNext(s, State(), j);
        ReachesBeyond(s, State(), src, State(), j, "", State(), j + 1, "");
        j := j + 1;
      }
    }

    /** The line end behind the chunk data. */
    method ReadCrlf(buf: array<char>, src: nat, bufsz: nat, ghost s: string) returns (j: nat, end: Option<Status>)
      requires phase == ChunkCrlf && Valid(State()) && Unread(buf, src, bufsz, s)
      modifies this
      ensures Valid(State())
      ensures Came(s, old(State()), src, j, end, "") && (end.None? ==> src < j && phase == ChunkSize)
    {
      hide Run, Reaches;
      ghost var d := State();
      j := SkipReturns(buf, src, bufsz, s);
      StopHere(s, d, src, d, j, "");
      if j == bufsz {
        return j, Some(Incomplete);
      }
      if buf[j] != '\n' {
        return j, Some(Error);
      }
      phase := ChunkSize;
      ReachesNext(s, d, j);
      ReachesBeyond(s, d, src, d, j, "", State(), j + 1, "");
      return j + 1, None;
    }

    /** The beginning of a trailer line; an empty one ends the message. */
    method ReadLineHead(buf: array<char>, src: nat, bufsz: nat, ghost s: string) returns (j: nat, end: Option<Status>)
      requires phase == TrailersLineHead && Valid(State()) && Unread(buf, src, bufsz, s)
      modifies this
      ensures Valid(State())
      ensures Came(s, old(State()), src, j, end, "") && (end.None? ==> src < j && phase == TrailersLineMiddle)
    {
      hide Run, Reaches;
      ghost var d := State();
      j := SkipReturns(buf, src, bufsz, s);
      StopHere(s, d, src, d, j, "");
      if j == bufsz {
        return j, Some(Incomplete);
      }
      if buf[j] == '\n' {
        return j + 1, Some(Complete);
      }
      phase := TrailersLineMiddle;
      ReachesNext(s, d, j);
      ReachesBeyond(s, d, src, d, j, "", State(), j + 1, "");
      return j + 1, None;
    }

    /** The rest of a trailer line. */
    method ReadLineMiddle(buf: array<char>, src: nat, bufsz: nat, ghost s: string) returns (j: nat, end: Option<Status>)
      requires phase == TrailersLineMiddle && Valid(State()) && Unread(buf, src, bufsz, s)
      modifies this
      ensures Valid(State())
      ensures Came(s, old(State()), src, j, end, "") && (end.None? ==> src < j && phase == TrailersLineHead)
    {
      hide Run, Reaches;
      ghost var d := State();
      j := src;
      ReachesHere(s, d, src);
      while j < bufsz && buf[j] != '\n'
        invariant src <= j <= bufsz && State() == d && Reaches(s, d, src, d, j, "")
      {
        ReachesNext(s, d, j);
        ReachesBeyond(s, d, src, d, j, "", d, j + 1, "");
        j := j + 1;
      }
      StopHere(s, d, src, d, j, "");
      if j == bufsz {
        return j, Some(Incomplete);
      }
      phase := TrailersLineHead;
      ReachesNext(s, d, j);
      ReachesBeyond(s, d, src, d, j, "", State(), j + 1, "");
      return j + 1, None;
    }

    /** Chunk data, as far as it has arrived, is moved to the front. */
    method ReadData(buf: array<char>, dst: nat, src: nat, bufsz: nat, ghost s: string)
      returns (n: nat, end: Option<Status>)
      requires phase == ChunkData && Valid(State()) && dst <= src && Unread(buf, src, bufsz, s)
      modifies this, buf
      ensures Valid(State())
      ensures src + n <= bufsz && Unread(buf, src + n, bufsz, s)
      ensures Came(s, old(State()), src, src + n, end, s[src..src + n])
      ensures end.None? ==> 0 < n && phase == ChunkCrlf
      ensures buf[dst..dst + n] == s[src..src + n]
      ensures forall k :: 0 <= k < dst || bufsz <= k < buf.Length ==> buf[k] == old(buf[k])
    {
      hide Run, Reaches, StepByte;
      var avail := bufsz - src;
      n := if avail < bytesLeftInChunk then avail else bytesLeftInChunk;
      ReachesData(s, State(), src, n);
      assert buf[src..src + n] == s[src..src + n];
      if dst != src {
        MoveDown(buf, dst, src, n);
      }
      ghost var d := State();
      if avail < bytesLeftInChunk {
        bytesLeftInChunk := bytesLeftInChunk - avail;
        StopHere(s, d, src, State(), src + n, s[src..src + n]);
        return n, Some(Incomplete);
      }
      bytesLeftInChunk := 0;
      phase := ChunkCrlf;
      return n, None;
    }

    /** One phase; `n` bytes of chunk data have been moved to `dst`. */
    method DoPhase(buf: array<char>, dst: nat, src: nat, bufsz: nat, ghost s: string)
      returns (j: nat, n: nat, end: Option<Status>)
      requires Valid(State()) && dst <= src && Unread(buf, src, bufsz, s)
      modifies this, buf
      ensures Valid(State())
      ensures src <= j <= bufsz && dst + n <= j && Unread(buf, j, bufsz, s)
      ensures Came(s, old(State()), src, j, end, buf[dst..dst + n])
      ensures end.None? ==> src < j || (old(phase) == ChunkSize && phase != ChunkSize)
      ensures forall k :: 0 <= k < dst || bufsz <= k < buf.Length ==> buf[k] == old(buf[k])
    {
      hide Run, Reaches, StepByte;
      n := 0;
      assert buf[dst..dst] == "";
      match phase {
        case ChunkSize =>
          j, end := ReadSize(buf, src, bufsz, s);
        case ChunkExt =>
          j, end := ReadExt(buf, src, bufsz, s);
        case ChunkData =>
          n, end := ReadData(buf, dst, src, bufsz, s);
          j := src + n;
        case ChunkCrlf =>
          j, end := ReadCrlf(buf, src, bufsz, s);
        case TrailersLineHead =>
          j, end := ReadLineHead(buf, src, bufsz, s);
        case TrailersLineMiddle =>
          j, end := ReadLineMiddle(buf, src, bufsz, s);
      }
    }

    /** `phr_decode_chunked`: -2 asks for more, -1 is an error, and otherwise the result is the number of bytes
        behind the message. The decoded bytes are at the front of the buffer, and what has not been read comes
        right after them. */
    method Decode(buf: array<char>, bufsz: nat) returns (ret: int, size: nat)
      requires Valid(State()) && bufsz <= buf.Length
      modifies this, buf
      ensures var s := old(buf[..bufsz]);
              var r := Run(old(State()), s);
              && State() == r.next && Valid(State())
              && size == |r.written| && size + (bufsz - r.consumed) <= bufsz
              && buf[..size] == r.written
              && buf[size..size + (bufsz - r.consumed)] == s[r.consumed..]
              && ret == match r.status case Incomplete => -2 case Error => -1 case Complete => bufsz - r.consumed
      ensures forall k :: bufsz <= k < buf.Length ==> buf[k] == old(buf[k])
    {
      hide Run, Reaches, Valid;
      ghost var s, d := buf[..bufsz], State();
      RunKeepsValid(d, s);
      var dst: nat, src: nat, end: Option<Status> := 0, 0, None;
      ReachesHere(s, d, 0);
      assert s[0..] == s && buf[..0] == "";
      while end.None?
        invariant dst <= src <= bufsz && Unread(buf, src, bufsz, s)
        invariant match end
                  case None => Reaches(s, d, 0, State(), src, buf[..dst]) && Valid(State())
                  case Some(status) => Run(d, s) == Outcome(status, State(), buf[..dst], src)
        invariant forall k :: bufsz <= k < buf.Length ==> buf[k] == old(buf[k])
        decreases end.None?, bufsz - src, phase == ChunkSize
      {
        ghost var d', src', out := State(), src, buf[..dst];
        var n: nat;
        src, n, end := DoPhase(buf, dst, src, bufsz, s);
        ghost var more := buf[dst..dst + n];
        assert buf[..dst + n] == out + more;
        if end.None? {
          ReachesBeyond(s, d, 0, d', src', out, State(), src, more);
        } else {
          EndsBeyond(s, d, 0, d', src', out, Outcome(end.value, State(), more, src - src'));
        }
        dst := dst + n;
      }
      if dst != src {
        assert buf[src..bufsz] == s[src..];
        MoveDown(buf, dst, src, bufsz - src);
      }
      size := dst;
      ret := match end.value case Incomplete => -2 case Error => -1 case Complete => bufsz - src;
    }
  }

  lemma EndsBeyond(s: string, d: Decoder, i: nat, d': Decoder, j: nat, out: string, r: Outcome)
    requires Reaches(s, d, i, d', j, out) && Run(d', s[j..]) == r
    ensures Run(d, s[i..]) == Shift(r, out, j - i)
  {
  }

  lemma SizeStep(d: Decoder, c: char)
    requires d.phase == ChunkSize
    ensures var v := DecodeHex(c);
            if v.None? then d.hexCount == 0 ==> StepByte(d, c).Fail?
            else if d.hexCount == MAX_HEX_DIGITS then StepByte(d, c).Fail?
            else StepByte(d, c) == Consume(d.(left := d.left * 16 + v.value, hexCount := d.hexCount + 1), "")
  {
  }

  /** A run that has come to position `j` ends there if it must. */
  lemma StopHere(s: string, d: Decoder, i: nat, d': Decoder, j: nat, out: string)
    requires Reaches(s, d, i, d', j, out)
    ensures j == |s| ==> Run(d, s[i..]) == Outcome(Incomplete, d', out, j - i)
    ensures j < |s| && StepByte(d', s[j]).Fail? ==> Run(d, s[i..]) == Outcome(Error, d', out, j - i)
    ensures j < |s| && StepByte(d', s[j]).Finish? ==>
              Run(d, s[i..]) == Outcome(Complete, StepByte(d', s[j]).next, out, j + 1 - i)
  {
    hide Run, StepByte;
    ReachesEnd(s, d', j);
    assert out + "" == out;
  }
}
