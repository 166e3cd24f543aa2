/** What the server's chunk encoder sends, the decoder gives back (section 4.1 of RFC 7230). */
module ChunkedRoundTrip {
  import opened Optional
  import opened Chunked
  import opened Numerals

  const CRLF: string := "\r\n"
  const LAST_CHUNK: string := "0\r\n"

  // ----- Hexadecimal sizes -----------------------------------------------------------

  predicate IsHexDigit(c: char) {
    c in LOWER || c in UPPER
  }

  /** The place of a digit in the tables. */
  ghost function DigitOf(c: char): (d: nat)
    requires IsHexDigit(c)
    ensures d < 16 && (c == LOWER[d] || c == UPPER[d])
  {
    var d :| 0 <= d < 16 && (c == LOWER[d] || c == UPPER[d]);
    d
  }

  /** The decoder knows every digit by its place in the tables, in both cases, and nothing else. */
  lemma HexDigitTable(c: char)
    ensures forall d :: 0 <= d < 16 && (c == LOWER[d] || c == UPPER[d]) ==> DecodeHex(c) == Some(d)
    ensures !IsHexDigit(c) ==> DecodeHex(c) == None
  {
    if '0' <= c <= '9' {
      assert LOWER[c as int - 48] == c;
    } else if 'a' <= c <= 'f' {
      assert LOWER[c as int - 87] == c;
    } else if 'A' <= c <= 'F' {
      assert UPPER[c as int - 55] == c;
    }
  }

  predicate HexDigits(h: string) {
    forall i :: 0 <= i < |h| ==> IsHexDigit(h[i])
  }

  /** The number that hexadecimal digits denote, behind the digits that have given `acc`. */
  ghost function HexValue(h: string, acc: nat): nat
    requires HexDigits(h)
    decreases |h|
  {
    if h == "" then acc else HexValue(h[1..], acc * 16 + DigitOf(h[0]))
  }

  lemma {:induction false} HexValueSnoc(h: string, c: char, acc: nat)
    requires HexDigits(h) && IsHexDigit(c)
    ensures HexDigits(h + [c]) && HexValue(h + [c], acc) == HexValue(h, acc) * 16 + DigitOf(c)
    decreases |h|
  {
    hide IsHexDigit, DigitOf;
    if h == "" {
      assert h + [c] == [c] && [c][1..] == "";
    } else {
      assert (h + [c])[1..] == h[1..] + [c];
      HexValueSnoc(h[1..], c, acc * 16 + DigitOf(h[0]));
    }
  }

  /** The function that gives the digits is not part of this model: it may give any one to sixteen
      hexadecimal digits that denote the length. */
  ghost predicate Denotes(h: string, n: nat) {
    1 <= |h| <= MAX_HEX_DIGITS && HexDigits(h) && HexValue(h, 0) == n
  }

  ghost predicate IsHex(toHex: nat -> string) {
    forall n: nat | n < SIZE_RANGE :: Denotes(toHex(n), n)
  }

  /** The digit of a table at its place. */
  lemma PlaceInTable(table: string, d: nat)
    requires d < 16 && (table == LOWER || table == UPPER)
    ensures IsHexDigit(table[d]) && DigitOf(table[d]) == d
  {
    HexDigitTable(table[d]);
  }

  lemma {:induction false} HexDenotes(n: nat, table: string)
    requires table == LOWER || table == UPPER
    ensures HexDigits(Hex(n, table)) && HexValue(Hex(n, table), 0) == n
  {
    hide IsHexDigit, DigitOf;
    PlaceInTable(table, n % 16);
    if n < 16 {
      assert [table[n]][1..] == "";
    } else {
      HexDenotes(n / 16, table);
      HexValueSnoc(Hex(n / 16, table), table[n % 16], 0);
    }
  }

  lemma SixteenPlaces()
    ensures Pow16(16) == SIZE_RANGE
  {
    assert Pow16(4) == 0x1_0000 && Pow16(8) == 0x1_0000_0000 && Pow16(12) == 0x1_0000_0000_0000;
  }

  /** Dividing by sixteen gives the right digits, in lower case as the server's stream does, and in upper case. */
  lemma HexIsRight(table: string)
    requires table == LOWER || table == UPPER
    ensures IsHex((n: nat) => Hex(n, table))
  {
    hide Hex, HexDigits, HexValue;
    SixteenPlaces();
    forall n: nat | n < SIZE_RANGE
      ensures Denotes(Hex(n, table), n)
    {
      HexDenotes(n, table);
      HexLength(n, table, 16);
    }
  }

  function Joined(buffers: seq<string>): string {
    if buffers == [] then "" else buffers[0] + Joined(buffers[1..])
  }

  /** The bytes of one call of the encoder, in front of `rest`. */
  function Encode(toHex: nat -> string, data: string, eof: bool, rest: string): string {
    var end := if eof then LAST_CHUNK + (CRLF + rest) else rest;
    if data != "" then toHex(|data|) + (CRLF + (data + (CRLF + end))) else end
  }

  class Response {
    var chunkSize: string

    constructor ()
    {
      chunkSize := "";
    }

    /** The buffers to send: nothing for empty data, and the last chunk behind the data at the end. */
    method ToChunkedBuffers(data: string, eof: bool, toHex: nat -> string) returns (buffers: seq<string>)
      modifies this
      ensures Joined(buffers) == Encode(toHex, data, eof, "")
      ensures chunkSize == if data != "" then toHex(|data|) else old(chunkSize)
    {
      buffers := [];
      if |data| > 0 {
        chunkSize := toHex(|data|);
        buffers := [chunkSize, CRLF, data, CRLF];
      }
      if eof {
        buffers := buffers + [LAST_CHUNK, CRLF];
      }
      JoinedAll(buffers);
    }
  }

  lemma JoinedAll(b: seq<string>)
    requires |b| <= 6
    ensures |b| == 0 ==> Joined(b) == ""
    ensures |b| == 2 ==> Joined(b) == b[0] + (b[1] + "")
    ensures |b| == 4 ==> Joined(b) == b[0] + (b[1] + (b[2] + (b[3] + "")))
    ensures |b| == 6 ==> Joined(b) == b[0] + (b[1] + (b[2] + (b[3] + (b[4] + (b[5] + "")))))
  {
    if |b| >= 1 {
      assert Joined(b) == b[0] + Joined(b[1..]);
    }
    if |b| >= 2 {
      assert Joined(b[1..]) == b[1] + Joined(b[1..][1..]) && b[1..][1..] == b[2..];
    }
    if |b| >= 4 {
      assert Joined(b[2..]) == b[2] + Joined(b[2..][1..]) && b[2..][1..] == b[3..];
      assert Joined(b[3..]) == b[3] + Joined(b[3..][1..]) && b[3..][1..] == b[4..];
    }
    if |b| == 6 {
      assert Joined(b[4..]) == b[4] + Joined(b[4..][1..]) && b[4..][1..] == b[5..];
      assert Joined(b[5..]) == b[5] + Joined(b[5..][1..]) && b[5..][1..] == [];
    }
  }

  /** A list of byte strings, sent one by one with the end announced with the last, in front of `rest`. */
  function EncodeAll(toHex: nat -> string, messages: seq<string>, rest: string): string
    requires messages != []
    decreases |messages|
  {
    if |messages| == 1 then Encode(toHex, messages[0], true, rest)
    else Encode(toHex, messages[0], false, EncodeAll(toHex, messages[1..], rest))
  }

  // ----- Runs of the decoder over what was sent --------------------------------------

  /** Reading `front` takes the decoder from `d` to `d'` and writes `out`, whatever follows. */
  ghost predicate Reads(d: Decoder, front: string, d': Decoder, out: string) {
    forall rest: string {:trigger front + rest} :: Run(d, front + rest) == Shift(Run(d', rest), out, |front|)
  }

  lemma ReadOne(d: Decoder, c: char)
    requires StepByte(d, c).Consume?
    ensures Reads(d, [c], StepByte(d, c).next, StepByte(d, c).written)
  {
    hide StepByte;
    forall rest: string
      ensures Run(d, [c] + rest) == Shift(Run(StepByte(d, c).next, rest), StepByte(d, c).written, |[c]|)
    {
      assert ([c] + rest)[1..] == rest;
    }
  }

  lemma ReadTwo(d: Decoder, a: string, d': Decoder, b: string, d'': Decoder, x: string, y: string)
    requires Reads(d, a, d', x) && Reads(d', b, d'', y)
    ensures Reads(d, a + b, d'', x + y)
  {
    hide Run;
    forall rest: string
      ensures Run(d, a + b + rest) == Shift(Run(d'', rest), x + y, |a + b|)
    {
      assert a + b + rest == a + (b + rest);
      assert x + (y + Run(d'', rest).written) == x + y + Run(d'', rest).written;
    }
  }

  lemma DigitStep(d: Decoder, c: char)
    requires d.phase == ChunkSize && IsHexDigit(c) && d.hexCount < MAX_HEX_DIGITS
    ensures StepByte(d, c) == Consume(d.(left := d.left * 16 + DigitOf(c), hexCount := d.hexCount + 1), "")
  {
    HexDigitTable(c);
  }

  lemma {:induction false} ReadSize(d: Decoder, h: string)
    requires d.phase == ChunkSize && h != "" && HexDigits(h) && d.hexCount + |h| <= MAX_HEX_DIGITS
    ensures Reads(d, h, d.(left := HexValue(h, d.left), hexCount := d.hexCount + |h|), "")
    decreases |h|
  {
    hide Run, Reads, DigitOf, DecodeHex, IsHexDigit, StepByte;
    var d' := d.(left := d.left * 16 + DigitOf(h[0]), hexCount := d.hexCount + 1);
    DigitStep(d, h[0]);
    ReadOne(d, h[0]);
    assert [h[0]] + h[1..] == h;
    if |h| == 1 {
      assert h == [h[0]];
    } else {
      ReadSize(d', h[1..]);
      ReadTwo(d, [h[0]], d', h[1..], d.(left := HexValue(h, d.left), hexCount := d.hexCount + |h|), "", "");
      assert "" + "" == "";
    }
  }

  /** A size and its line end. */
  lemma ReadSizeLine(trailer: bool, h: string, n: nat)
    requires Denotes(h, n) && (n > 0 || trailer)
    ensures Reads(Decoder(ChunkSize, 0, 0, trailer), h + CRLF,
                  Decoder(if n > 0 then ChunkData else TrailersLineHead, 0, n, trailer), "")
  {
    hide Run, Reads, HexDigits, HexValue;
    var d0 := Decoder(ChunkSize, 0, 0, trailer);
    var d1 := Decoder(ChunkSize, |h|, n, trailer);
    var d2 := Decoder(ChunkExt, 0, n, trailer);
    ReadSize(d0, h);
    ReadOne(d1, '\r');
    ReadTwo(d0, h, d1, ['\r'], d2, "", "");
    ReadOne(d2, '\n');
    ReadTwo(d0, h + ['\r'], d2, ['\n'], StepByte(d2, '\n').next, "" + "", "");
    assert h + ['\r'] + ['\n'] == h + CRLF && "" + "" + "" == "";
  }

  lemma {:induction false} ReadData(d: Decoder, data: string)
    requires d.phase == ChunkData && d.left == |data| > 0
    ensures Reads(d, data, d.(phase := ChunkCrlf, left := 0), data)
    decreases |data|
  {
    hide Run, Reads;
    var d' := d.(phase := ChunkCrlf, left := 0);
    ReadOne(d, data[0]);
    if |data| == 1 {
      assert data == [data[0]];
    } else {
      ReadData(d.(left := d.left - 1), data[1..]);
      ReadTwo(d, [data[0]], d.(left := d.left - 1), data[1..], d', [data[0]], data[1..]);
      assert [data[0]] + data[1..] == data;
    }
  }

  /** A whole chunk leaves the decoder ready for the next and writes the data. */
  lemma ReadChunk(trailer: bool, h: string, data: string)
    requires data != "" && Denotes(h, |data|)
    ensures Reads(Decoder(ChunkSize, 0, 0, trailer), h + CRLF + data + CRLF, Decoder(ChunkSize, 0, 0, trailer), data)
  {
    hide Run, Reads, Denotes;
    var d0 := Decoder(ChunkSize, 0, 0, trailer);
    var d1 := Decoder(ChunkData, 0, |data|, trailer);
    var d2 := Decoder(ChunkCrlf, 0, 0, trailer);
    ReadSizeLine(trailer, h, |data|);
    ReadData(d1, data);
    ReadTwo(d0, h + CRLF, d1, data, d2, "", data);
    ReadOne(d2, '\r');
    ReadOne(d2, '\n');
    ReadTwo(d2, ['\r'], d2, ['\n'], d0, "", "");
    assert ['\r'] + ['\n'] == CRLF;
    ReadTwo(d0, h + CRLF + data, d2, CRLF, d0, "" + data, "" + "");
    assert "" + data + ("" + "") == data;
  }

  /** The last chunk and the line behind it end the message. */
  lemma ReadLastChunk(rest: string)
    ensures Run(Decoder(ChunkSize, 0, 0, true), LAST_CHUNK + (CRLF + rest))
         == Outcome(Complete, Decoder(TrailersLineHead, 0, 0, true), "", 5)
  {
    hide Reads, Run, StepByte, HexValue;
    var d := Decoder(TrailersLineHead, 0, 0, true);
    ZeroLine();
    ReadSizeLine(true, "0", 0);
    ReadsThen(Decoder(ChunkSize, 0, 0, true), LAST_CHUNK, d, "", CRLF + rest);
    ReadEmptyLine(d, rest);
  }

  lemma ZeroLine()
    ensures Denotes("0", 0) && "0" + CRLF == LAST_CHUNK
  {
    assert LOWER[0] == '0';
    PlaceInTable(LOWER, 0);
    assert HexValue("0"[1..], 0) == 0;
  }

  lemma ReadEmptyLine(d: Decoder, rest: string)
    requires d == Decoder(TrailersLineHead, 0, 0, true)
    ensures Run(d, CRLF + rest) == Outcome(Complete, d, "", 2)
  {
    hide Reads;
    ReadOne(d, '\r');
    assert CRLF + rest == ['\r'] + (['\n'] + rest);
    ReadsThen(d, ['\r'], d, "", ['\n'] + rest);
    assert Run(d, ['\n'] + rest) == Outcome(Complete, d, "", 1);
  }

  lemma ReadsThen(d: Decoder, front: string, d': Decoder, out: string, rest: string)
    requires Reads(d, front, d', out)
    ensures Run(d, front + rest) == Shift(Run(d', rest), out, |front|)
  {
  }

  lemma ReadMessage(toHex: nat -> string, data: string, eof: bool, rest: string)
    requires IsHex(toHex) && |data| < SIZE_RANGE
    ensures var d := Decoder(ChunkSize, 0, 0, true);
            var end := if eof then LAST_CHUNK + (CRLF + rest) else rest;
            Run(d, Encode(toHex, data, eof, rest))
            == Shift(Run(d, end), data, |Encode(toHex, data, eof, rest)| - |end|)
  {
    hide Run, Reads, Denotes;
    var d := Decoder(ChunkSize, 0, 0, true);
    var end := if eof then LAST_CHUNK + (CRLF + rest) else rest;
    if data == "" {
      assert "" + Run(d, end).written == Run(d, end).written;
    } else {
      var h := toHex(|data|);
      ReadChunk(true, h, data);
      ReadsThen(d, h + CRLF + data + CRLF, d, data, end);
      assert h + (CRLF + (data + (CRLF + end))) == h + CRLF + data + CRLF + end;
    }
  }

  /** Main result: a zeroed decoder that consumes trailers decodes what was sent to the concatenation of the
      byte strings, and leaves exactly what follows. */
  lemma {:induction false} DecodeUndoesEncode(toHex: nat -> string, messages: seq<string>, tail: string)
    requires IsHex(toHex) && messages != [] && forall i :: 0 <= i < |messages| ==> |messages[i]| < SIZE_RANGE
    ensures var s := EncodeAll(toHex, messages, tail);
            |tail| <= |s| &&
            Run(Decoder(ChunkSize, 0, 0, true), s)
            == Outcome(Complete, Decoder(TrailersLineHead, 0, 0, true), Joined(messages), |s| - |tail|)
    decreases |messages|
  {
    hide Run;
    var d := Decoder(ChunkSize, 0, 0, true);
    var m := messages[0];
    if |messages| == 1 {
      ReadMessage(toHex, m, true, tail);
      ReadLastChunk(tail);
      assert messages[1..] == [] && Joined(messages) == m + "" == m;
    } else {
      DecodeUndoesEncode(toHex, messages[1..], tail);
      ReadMessage(toHex, m, false, EncodeAll(toHex, messages[1..], tail));
    }
  }

  /** The same for the decoder in place: it returns the number of bytes that follow the message, the decoded
      bytes are at the front of the buffer, and what follows comes right behind them. */
  method DecodeEncoded(buf: array<char>, toHex: nat -> string, ghost messages: seq<string>, ghost tail: string)
    returns (ret: int, size: nat)
    requires IsHex(toHex) && messages != [] && forall i :: 0 <= i < |messages| ==> |messages[i]| < SIZE_RANGE
    requires buf[..] == EncodeAll(toHex, messages, tail)
    modifies buf
    ensures ret == |tail| && size + |tail| <= buf.Length
    ensures buf[..size] == Joined(messages) && buf[size..size + |tail|] == tail
  {
    hide Run, EncodeAll, IsHex;
    DecodeUndoesEncode(toHex, messages, tail);
    TailBehind(toHex, messages, tail);
    var decoder := new ChunkedDecoder(true);
    assert buf[..buf.Length] == buf[..];
    ret, size := decoder.Decode(buf, buf.Length);
  }

  lemma {:induction false} TailBehind(toHex: nat -> string, messages: seq<string>, tail: string)
    requires messages != []
    ensures var s := EncodeAll(toHex, messages, tail); |tail| <= |s| && s[|s| - |tail|..] == tail
    decreases |messages|
  {
    if |messages| == 1 {
      EncodeBehind(toHex, messages[0], true, tail);
    } else {
      var rest := EncodeAll(toHex, messages[1..], tail);
      TailBehind(toHex, messages[1..], tail);
      EncodeBehind(toHex, messages[0], false, rest);
      var s := EncodeAll(toHex, messages, tail);
      assert s[|s| - |tail|..] == s[|s| - |rest|..][|rest| - |tail|..];
    }
  }

  lemma EncodeBehind(toHex: nat -> string, data: string, eof: bool, rest: string)
    ensures var s := Encode(toHex, data, eof, rest); |rest| <= |s| && s[|s| - |rest|..] == rest
  {
    hide Encode;
    EncodeFront(toHex, data, eof, rest);
  }

  /** What one call sends does not depend on what is sent behind it. */
  lemma EncodeFront(toHex: nat -> string, data: string, eof: bool, rest: string)
    ensures Encode(toHex, data, eof, rest) == Encode(toHex, data, eof, "") + rest
  {
    var front := if eof then LAST_CHUNK + CRLF else "";
    assert (if eof then LAST_CHUNK + (CRLF + rest) else rest) == front + rest;
    assert (if eof then LAST_CHUNK + (CRLF + "") else "") == front + "";
    if data != "" {
      Regroup(toHex(|data|), CRLF, data, CRLF, front, rest);
      Regroup(toHex(|data|), CRLF, data, CRLF, front, "");
    }
  }

  lemma Regroup(a: string, b: string, c: string, d: string, e: string, f: string)
    ensures a + (b + (c + (d + (e + f)))) == a + b + c + d + e + f
  {
  }

  // ----- The encoder and the decoder together ----------------------------------------

  lemma {:induction false} JoinedConcat(a: seq<string>, b: seq<string>)
    ensures Joined(a + b) == Joined(a) + Joined(b)
  {
    if a == [] {
      assert a + b == b;
    } else {
      JoinedConcat(a[1..], b);
      assert (a + b)[1..] == a[1..] + b;
      Associate(a[0], Joined(a[1..]), Joined(b));
    }
  }

  lemma Associate(a: string, b: string, c: string)
    ensures a + (b + c) == a + b + c
  {
  }

  /** The buffers of one call for each byte string, with the end announced in the last call. */
  method SendAll(messages: seq<string>, toHex: nat -> string, ghost tail: string) returns (sent: seq<string>)
    requires messages != []
    ensures Joined(sent) + tail == EncodeAll(toHex, messages, tail)
  {
    hide Encode, Joined, EncodeAll;
    var response := new Response();
    var i := 0;
    sent := [];
    Nothing();
    assert messages[0..] == messages;
    while i < |messages|
      invariant 0 <= i <= |messages|
      invariant Joined(sent) + StillToSend(toHex, messages, i, tail) == EncodeAll(toHex, messages, tail)
    {
      var buffers := response.ToChunkedBuffers(messages[i], i + 1 == |messages|, toHex);
      SendOne(toHex, messages, i, tail, Joined(sent), Joined(buffers));
      JoinedConcat(sent, buffers);
      sent := sent + buffers;
      i := i + 1;
    }
  }

  ghost function StillToSend(toHex: nat -> string, messages: seq<string>, i: nat, tail: string): string
    requires i <= |messages|
  {
    if i == |messages| then tail else EncodeAll(toHex, messages[i..], tail)
  }

  lemma SendOne(toHex: nat -> string, messages: seq<string>, i: nat, tail: string, sent: string, buffers: string)
    requires i < |messages| && buffers == Encode(toHex, messages[i], i + 1 == |messages|, "")
    ensures sent + buffers + StillToSend(toHex, messages, i + 1, tail) == sent + StillToSend(toHex, messages, i, tail)
  {
    hide Encode;
    assert messages[i..][0] == messages[i] && messages[i..][1..] == messages[i + 1..];
    var rest := StillToSend(toHex, messages, i + 1, tail);
    EncodeFront(toHex, messages[i], i + 1 == |messages|, rest);
    assert sent + (buffers + rest) == sent + buffers + rest;
  }

  lemma Nothing()
    ensures Joined([]) == "" && forall s: string :: "" + s == s
  {
  }

  /** The buffers as they arrive, with the first bytes of the next message behind them. */
  method Receive(sent: seq<string>, tail: string) returns (buf: array<char>)
    ensures fresh(buf) && buf[..] == Joined(sent) + tail
  {
    var bytes := Joined(sent) + tail;
    buf := new char[|bytes|](i requires 0 <= i < |bytes| => bytes[i]);
    assert forall i :: 0 <= i < |bytes| ==> buf[..][i] == bytes[i];
  }

  /** Main result: what the encoder sends in any number of calls, the decoder gives back. */
  method SendAndDecode(messages: seq<string>, toHex: nat -> string, tail: string)
    returns (buf: array<char>, ret: int, size: nat)
    requires IsHex(toHex) && messages != [] && forall i :: 0 <= i < |messages| ==> |messages[i]| < SIZE_RANGE
    ensures ret == |tail| && size + |tail| <= buf.Length
    ensures buf[..size] == Joined(messages) && buf[size..size + |tail|] == tail
  {
    hide IsHex, EncodeAll, Joined;
    var sent := SendAll(messages, toHex, tail);
    buf := Receive(sent, tail);
    ret, size := DecodeEncoded(buf, toHex, messages, tail);
  }

  /** With the server's own digits. */
  method SendAndDecodeHex(messages: seq<string>, tail: string) returns (buf: array<char>, ret: int, size: nat)
    requires messages != [] && forall i :: 0 <= i < |messages| ==> |messages[i]| < SIZE_RANGE
    ensures ret == |tail| && size + |tail| <= buf.Length
    ensures buf[..size] == Joined(messages) && buf[size..size + |tail|] == tail
  {
    hide IsHex, Joined;
    HexIsRight(LOWER);
    buf, ret, size := SendAndDecode(messages, (n: nat) => Hex(n, LOWER), tail);
  }
}
