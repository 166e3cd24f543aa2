/** Every form of a chunked message that the decoder takes, beyond what the encoder sends, and every defect that it
    refuses (section 4.1 of RFC 7230). */
module ChunkedSyntax {
  import opened Optional
  import opened Numerals
  import opened Chunked
  import opened ChunkedRoundTrip

  function Returns(n: nat): string {
    seq(n, i => '\r')
  }

  /** The size may have leading zeros and either case, an extension goes to the end of its line, and any number of
      carriage returns may stand between the data and its line feed. */
  datatype Chunk = Chunk(size: string, extension: string, data: string, crs: nat)

  datatype Trailer = Trailer(crs: nat, line: string)

  datatype Message =
    Message(chunks: seq<Chunk>, lastSize: string, lastExtension: string, trailers: seq<Trailer>, crs: nat)

  function SizeLine(size: string, extension: string): string {
    size + extension + "\n"
  }

  function ChunkText(c: Chunk): string {
    SizeLine(c.size, c.extension) + c.data + (Returns(c.crs) + "\n")
  }

  function ChunksText(chunks: seq<Chunk>): string {
    if chunks == [] then "" else ChunkText(chunks[0]) + ChunksText(chunks[1..])
  }

  function TrailerText(t: Trailer): string {
    Returns(t.crs) + t.line + "\n"
  }

  function TrailersText(trailers: seq<Trailer>): string {
    if trailers == [] then "" else TrailerText(trailers[0]) + TrailersText(trailers[1..])
  }

  /** Up to the end of the last size line. */
  function Front(m: Message): string {
    ChunksText(m.chunks) + SizeLine(m.lastSize, m.lastExtension)
  }

  function Text(m: Message): string {
    Front(m) + TrailersText(m.trailers) + (Returns(m.crs) + "\n")
  }

  function DataOf(chunks: seq<Chunk>): string {
    if chunks == [] then "" else chunks[0].data + DataOf(chunks[1..])
  }

  predicate GoodExtension(s: string) {
    '\n' !in s && (s != "" ==> !IsHexDigit(s[0]))
  }

  ghost predicate GoodChunk(c: Chunk) {
    c.data != "" && Denotes(c.size, |c.data|) && GoodExtension(c.extension)
  }

  predicate GoodTrailer(t: Trailer) {
    t.line != "" && '\n' !in t.line && t.line[0] != '\r'
  }

  ghost predicate GoodMessage(m: Message) {
    && (forall i :: 0 <= i < |m.chunks| ==> GoodChunk(m.chunks[i]))
    && Denotes(m.lastSize, 0) && GoodExtension(m.lastExtension)
    && (forall i :: 0 <= i < |m.trailers| ==> GoodTrailer(m.trailers[i]))
  }

  function Begin(trailer: bool): Decoder {
    Decoder(ChunkSize, 0, 0, trailer)
  }

  // ----- Lines -----------------------------------------------------------------------

  lemma {:induction false} ReadReturns(d: Decoder, n: nat)
    requires d.phase == ChunkCrlf || d.phase == TrailersLineHead
    ensures Reads(d, Returns(n), d, "")
  {
    hide Run, Reads;
    if n == 0 {
      ReadNothing(d);
    } else {
      ReadOne(d, '\r');
      ReadReturns(d, n - 1);
      ReadTwo(d, ['\r'], d, Returns(n - 1), d, "", "");
      assert ['\r'] + Returns(n - 1) == Returns(n) && "" + "" == "";
    }
  }

  lemma ReadNothing(d: Decoder)
    ensures Reads(d, "", d, "")
  {
    hide Run;
    forall rest: string {:trigger "" + rest}
      ensures Run(d, "" + rest) == Shift(Run(d, rest), "", |""|)
    {
      NothingInFront(d, rest);
    }
  }

  lemma NothingInFront(d: Decoder, rest: string)
    ensures Run(d, "" + rest) == Shift(Run(d, rest), "", |""|)
  {
    hide Run;
    var r := Run(d, rest);
    assert "" + rest == rest;
    assert "" + r.written == r.written;
  }

  /** What stands in front of the line feed of an extension or of a trailer is skipped. */
  lemma {:induction false} ReadRest(d: Decoder, s: string)
    requires (d.phase == ChunkExt || d.phase == TrailersLineMiddle) && '\n' !in s
    ensures Reads(d, s, d, "")
    decreases |s|
  {
    hide Run, Reads;
    if s == "" {
      ReadNothing(d);
    } else {
      ReadOne(d, s[0]);
      ReadRest(d, s[1..]);
      ReadTwo(d, [s[0]], d, s[1..], d, "", "");
      assert [s[0]] + s[1..] == s && "" + "" == "";
    }
  }

  lemma LeaveSize(d: Decoder, c: char)
    requires d.phase == ChunkSize && d.hexCount > 0 && !IsHexDigit(c) && c != '\n'
    ensures StepByte(d, c) == Consume(d.(phase := ChunkExt, hexCount := 0), "")
  {
    HexDigitTable(c);
  }

  /** A size and its extension, in front of the line feed. */
  lemma ReadExtension(trailer: bool, h: string, e: string, n: nat) returns (d: Decoder)
    requires Denotes(h, n) && GoodExtension(e)
    ensures Reads(Begin(trailer), h + e, d, "")
    ensures d == if e == "" then Decoder(ChunkSize, |h|, n, trailer) else Decoder(ChunkExt, 0, n, trailer)
  {
    hide Run, Reads, HexDigits, HexValue, IsHexDigit, StepByte;
    var d1 := Decoder(ChunkSize, |h|, n, trailer);
    ReadSize(Begin(trailer), h);
    if e == "" {
      d := d1;
      assert h + e == h;
    } else {
      d := Decoder(ChunkExt, 0, n, trailer);
      LeaveSize(d1, e[0]);
      ReadOne(d1, e[0]);
      ReadRest(d, e[1..]);
      ReadTwo(d1, [e[0]], d, e[1..], d, "", "");
      assert [e[0]] + e[1..] == e && "" + "" == "";
      ReadTwo(Begin(trailer), h, d1, e, d, "", "");
    }
  }

  lemma EndOfSize(d: Decoder, n: nat, trailer: bool)
    requires d == Decoder(ChunkExt, 0, n, trailer) ||
             (d == Decoder(ChunkSize, d.hexCount, n, trailer) && d.hexCount > 0)
    ensures n > 0 || trailer ==>
              StepByte(d, '\n') == Consume(Decoder(if n > 0 then ChunkData else TrailersLineHead, 0, n, trailer), "")
    ensures n == 0 && !trailer ==> StepByte(d, '\n') == Finish(Decoder(ChunkExt, 0, 0, false))
  {
    HexDigitTable('\n');
  }

  lemma ReadAnySizeLine(trailer: bool, h: string, e: string, n: nat)
    requires Denotes(h, n) && GoodExtension(e) && (n > 0 || trailer)
    ensures Reads(Begin(trailer), SizeLine(h, e),
                  Decoder(if n > 0 then ChunkData else TrailersLineHead, 0, n, trailer), "")
  {
    hide Run, Reads, HexDigits, HexValue, GoodExtension, StepByte;
    var d := ReadExtension(trailer, h, e, n);
    EndOfSize(d, n, trailer);
    ReadOne(d, '\n');
    ReadTwo(Begin(trailer), h + e, d, ['\n'], StepByte(d, '\n').next, "", "");
    assert h + e + ['\n'] == SizeLine(h, e) && "" + "" == "";
  }

  lemma ReadAnyChunk(trailer: bool, c: Chunk)
    requires GoodChunk(c)
    ensures Reads(Begin(trailer), ChunkText(c), Begin(trailer), c.data)
  {
    hide Run, Reads, Denotes, GoodExtension, SizeLine;
    var d1, d2 := Decoder(ChunkData, 0, |c.data|, trailer), Decoder(ChunkCrlf, 0, 0, trailer);
    var line := SizeLine(c.size, c.extension);
    ReadAnySizeLine(trailer, c.size, c.extension, |c.data|);
    ReadData(d1, c.data);
    ReadTwo(Begin(trailer), line, d1, c.data, d2, "", c.data);
    ReadReturns(d2, c.crs);
    ReadOne(d2, '\n');
    ReadTwo(d2, Returns(c.crs), d2, ['\n'], Begin(trailer), "", "");
    ReadTwo(Begin(trailer), line + c.data, d2, Returns(c.crs) + ['\n'], Begin(trailer), "" + c.data, "" + "");
    assert "" + c.data + ("" + "") == c.data;
  }

  lemma {:induction false} ReadChunks(trailer: bool, chunks: seq<Chunk>)
    requires forall i :: 0 <= i < |chunks| ==> GoodChunk(chunks[i])
    ensures Reads(Begin(trailer), ChunksText(chunks), Begin(trailer), DataOf(chunks))
    decreases |chunks|
  {
    hide Run, Reads, GoodChunk, ChunkText;
    if chunks == [] {
      ReadNothing(Begin(trailer));
    } else {
      var d := Begin(trailer);
      ReadAnyChunk(trailer, chunks[0]);
      ReadChunks(trailer, chunks[1..]);
      ReadTwo(d, ChunkText(chunks[0]), d, ChunksText(chunks[1..]), d, chunks[0].data, DataOf(chunks[1..]));
    }
  }

  lemma ReadTrailer(d: Decoder, t: Trailer)
    requires d == Decoder(TrailersLineHead, 0, 0, true) && GoodTrailer(t)
    ensures Reads(d, TrailerText(t), d, "")
  {
    hide Run, Reads;
    var d' := d.(phase := TrailersLineMiddle);
    var r, line := Returns(t.crs), t.line;
    ReadReturns(d, t.crs);
    ReadOne(d, line[0]);
    ReadTwo(d, r, d, [line[0]], d', "", "");
    ReadRest(d', line[1..]);
    ReadTwo(d, r + [line[0]], d', line[1..], d', "" + "", "");
    ReadOne(d', '\n');
    ReadTwo(d, r + [line[0]] + line[1..], d', ['\n'], d, "" + "" + "", "");
    assert r + [line[0]] + line[1..] + ['\n'] == TrailerText(t) && "" + "" + "" + "" == "";
  }

  lemma {:induction false} ReadTrailers(d: Decoder, trailers: seq<Trailer>)
    requires d == Decoder(TrailersLineHead, 0, 0, true)
    requires forall i :: 0 <= i < |trailers| ==> GoodTrailer(trailers[i])
    ensures Reads(d, TrailersText(trailers), d, "")
    decreases |trailers|
  {
    hide Run, Reads, GoodTrailer, TrailerText;
    if trailers == [] {
      ReadNothing(d);
    } else {
      ReadTrailer(d, trailers[0]);
      ReadTrailers(d, trailers[1..]);
      ReadTwo(d, TrailerText(trailers[0]), d, TrailersText(trailers[1..]), d, "", "");
      assert "" + "" == "";
    }
  }

  // ----- Messages --------------------------------------------------------------------

  /** The line feed that ends a message. */
  lemma Ends(d: Decoder, front: string, d': Decoder, out: string, d'': Decoder, rest: string)
    requires Reads(d, front, d', out) && StepByte(d', '\n') == Finish(d'')
    ensures Run(d, front + ("\n" + rest)) == Outcome(Complete, d'', out, |front| + 1)
  {
    hide Reads, StepByte;
    ReadsThen(d, front, d', out, "\n" + rest);
    assert out + "" == out;
  }

  /** A decoder that consumes trailers takes the whole message, and what follows is left. */
  lemma MessageIsDecoded(m: Message, rest: string)
    requires GoodMessage(m)
    ensures Run(Begin(true), Text(m) + rest)
         == Outcome(Complete, Decoder(TrailersLineHead, 0, 0, true), DataOf(m.chunks), |Text(m)|)
  {
    hide Run, Reads, StepByte, GoodChunk, GoodTrailer, Denotes, GoodExtension, SizeLine, ChunksText, TrailersText;
    var d0, d := Begin(true), Decoder(TrailersLineHead, 0, 0, true);
    var a, b, c := ChunksText(m.chunks), SizeLine(m.lastSize, m.lastExtension), TrailersText(m.trailers);
    var e, out := Returns(m.crs), DataOf(m.chunks);
    ReadChunks(true, m.chunks);
    ReadAnySizeLine(true, m.lastSize, m.lastExtension, 0);
    ReadTwo(d0, a, d0, b, d, out, "");
    ReadTrailers(d, m.trailers);
    ReadTwo(d0, a + b, d, c, d, out + "", "");
    ReadReturns(d, m.crs);
    ReadTwo(d0, a + b + c, d, e, d, out + "" + "", "");
    EndOfTrailers(d);
    Ends(d0, a + b + c + e, d, out + "" + "" + "", d, rest);
    assert a + b + c + e + ("\n" + rest) == Text(m) + rest && out + "" + "" + "" == out;
  }

  lemma EndOfTrailers(d: Decoder)
    requires d.phase == TrailersLineHead
    ensures StepByte(d, '\n') == Finish(d)
  {
  }

  /** One that does not stops behind the last size line. */
  lemma FrontIsDecoded(m: Message, rest: string)
    requires GoodMessage(m)
    ensures Run(Begin(false), Front(m) + rest)
         == Outcome(Complete, Decoder(ChunkExt, 0, 0, false), DataOf(m.chunks), |Front(m)|)
  {
    hide Run, Reads, StepByte, GoodChunk, GoodTrailer, Denotes, GoodExtension, ChunksText;
    var d0, out := Begin(false), DataOf(m.chunks);
    var a, b := ChunksText(m.chunks), m.lastSize + m.lastExtension;
    ReadChunks(false, m.chunks);
    var d := ReadExtension(false, m.lastSize, m.lastExtension, 0);
    DenotesSome(m.lastSize, 0);
    ReadTwo(d0, a, d0, b, d, out, "");
    EndOfSize(d, 0, false);
    Ends(d0, a + b, d, out + "", Decoder(ChunkExt, 0, 0, false), rest);
    assert a + b + ("\n" + rest) == Front(m) + rest && out + "" == out;
  }

  lemma DenotesSome(h: string, n: nat)
    requires Denotes(h, n)
    ensures |h| > 0
  {
  }

  /** The decoder in place, on any message with anything behind it. */
  method DecodeMessage(buf: array<char>, ghost m: Message, ghost rest: string) returns (ret: int, size: nat)
    requires GoodMessage(m) && buf[..] == Text(m) + rest
    modifies buf
    ensures ret == |rest| && size + |rest| <= buf.Length
    ensures buf[..size] == DataOf(m.chunks) && buf[size..size + |rest|] == rest
  {
    hide Run, GoodMessage, Text;
    MessageIsDecoded(m, rest);
    var decoder := new ChunkedDecoder(true);
    assert buf[..buf.Length] == buf[..];
    assert buf[..][|Text(m)|..] == rest;
    ret, size := decoder.Decode(buf, buf.Length);
  }

  // ----- Defects ---------------------------------------------------------------------

  /** A size line without a digit. */
  lemma NoDigit(trailer: bool, c: char, rest: string)
    requires !IsHexDigit(c)
    ensures Run(Begin(trailer), [c] + rest) == Outcome(Error, Begin(trailer), "", 0)
  {
    HexDigitTable(c);
  }

  /** A seventeenth digit, even behind leading zeros. */
  lemma TooManyDigits(trailer: bool, h: string, c: char, rest: string)
    requires |h| == 16 && HexDigits(h) && IsHexDigit(c)
    ensures Run(Begin(trailer), h + ([c] + rest))
         == Outcome(Error, Decoder(ChunkSize, 16, HexValue(h, 0), trailer), "", 16)
  {
    hide Run, Reads, HexDigits, HexValue, IsHexDigit;
    var d := Decoder(ChunkSize, 16, HexValue(h, 0), trailer);
    ReadSize(Begin(trailer), h);
    ReadsThen(Begin(trailer), h, d, "", [c] + rest);
    Seventeenth(d, c, rest);
  }

  lemma Seventeenth(d: Decoder, c: char, rest: string)
    requires d.phase == ChunkSize && d.hexCount == 16 && IsHexDigit(c)
    ensures Run(d, [c] + rest) == Outcome(Error, d, "", 0)
  {
    HexDigitTable(c);
  }

  /** Data that is longer than its size. */
  lemma NoLineEnd(trailer: bool, n: nat, c: char, rest: string)
    requires c != '\r' && c != '\n'
    ensures var d := Decoder(ChunkCrlf, 0, 0, trailer);
            Run(d, Returns(n) + ([c] + rest)) == Outcome(Error, d, "", n)
  {
    hide Reads;
    var d := Decoder(ChunkCrlf, 0, 0, trailer);
    ReadReturns(d, n);
    ReadsThen(d, Returns(n), d, "", [c] + rest);
  }
}
