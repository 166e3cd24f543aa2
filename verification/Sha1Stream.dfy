/** Hashing a message that arrives in pieces: buffering in blocks of 64 bytes, and the padding of section 4 of
    RFC 3174 with its one-block and two-block cases. */
module Sha1Stream {
  import opened Sha1

  type Byte = bv8

  // ----- The standard ------------------------------------------------------------------------

  function WordOf(b0: Byte, b1: Byte, b2: Byte, b3: Byte): bv32 {
    (b3 as bv32) | ((b2 as bv32) << 8) | ((b1 as bv32) << 16) | ((b0 as bv32) << 24)
  }

  /** The bytes of a word, the most significant first. */
  function WordBytes(x: bv32): (s: seq<Byte>)
    ensures |s| == 4
  {
    [((x >> 24) & 0xff) as Byte, ((x >> 16) & 0xff) as Byte, ((x >> 8) & 0xff) as Byte, (x & 0xff) as Byte]
  }

  lemma WordBytesRoundTrip(x: bv32)
    ensures var s := WordBytes(x); WordOf(s[0], s[1], s[2], s[3]) == x
  {
  }

  function Block(p: seq<Byte>): (m: seq<bv32>)
    requires |p| == 64
    ensures |m| == 16
  {
    seq(16, i requires 0 <= i < 16 => WordOf(p[4 * i], p[4 * i + 1], p[4 * i + 2], p[4 * i + 3]))
  }

  const INITIAL := Registers(0x67452301, 0xefcdab89, 0x98badcfe, 0x10325476, 0xc3d2e1f0)

  /** The registers after the blocks of `p`, in order. */
  function Fold(p: seq<Byte>): Registers
    requires |p| % 64 == 0
    decreases |p|
  {
    if |p| == 0 then INITIAL else Compress(Fold(p[..|p| - 64]), Block(p[|p| - 64..]))
  }

  lemma FoldOneMore(p: seq<Byte>, b: seq<Byte>)
    requires |p| % 64 == 0 && |b| == 64
    ensures |p + b| % 64 == 0 && Fold(p + b) == Compress(Fold(p), Block(b))
  {
    hide Compress, Block;
    assert (p + b)[..|p + b| - 64] == p;
    assert (p + b)[|p + b| - 64..] == b;
  }

  function Zeros(n: nat): (s: seq<Byte>)
    ensures |s| == n
  {
    seq(n, i => 0)
  }

  const WORD := 0x1_0000_0000

  /** The number of bits of `n` bytes as two words. Below 2^61 bytes, section 4's two-word representation; from
      there on its value modulo 2^64. */
  function High(n: nat): bv32 {
    (8 * n / WORD % WORD) as bv32
  }

  function Low(n: nat): bv32 {
    (8 * n % WORD) as bv32
  }

  function LengthBytes(n: nat): (s: seq<Byte>)
    ensures |s| == 8
  {
    WordBytes(High(n)) + WordBytes(Low(n))
  }

  /** Section 4: a one bit, as few zeros as make a multiple of 512 bits with the length, and the length. */
  function Padded(message: seq<Byte>): (p: seq<Byte>)
    ensures |p| % 64 == 0
  {
    PaddedSize(|message|);
    message + [0x80] + Zeros((55 - |message|) % 64) + LengthBytes(|message|)
  }

  lemma PaddedSize(n: nat)
    ensures (n + 1 + (55 - n) % 64 + 8) % 64 == 0
  {
    var q, r := n / 64, n % 64;
    if r <= 55 {
      assert (55 - n) % 64 == 55 - r;
    } else {
      assert (55 - n) % 64 == 119 - r;
    }
  }

  function Bytes(d: seq<bv32>): (s: seq<Byte>)
    ensures |s| == 4 * |d|
  {
    if |d| == 0 then [] else Bytes(d[..|d| - 1]) + WordBytes(d[|d| - 1])
  }

  function Output(r: Registers): (s: seq<Byte>)
    ensures |s| == 20
  {
    Bytes([r.a, r.b, r.c, r.d, r.e])
  }

  // ----- The last blocks -----------------------------------------------------------------------

  /** The buffer once `finish` has closed it. */
  function Closed(rest: seq<Byte>): (b: seq<Byte>)
    requires |rest| < 64
    ensures |b| == 64
  {
    rest + [0x80] + Zeros(63 - |rest|)
  }

  function WithLength(m: seq<bv32>, n: nat): seq<bv32>
    requires |m| == 16
  {
    m[15 := Low(n)][14 := High(n)]
  }

  lemma LengthWords(p: seq<Byte>, n: nat)
    requires |p| == 64
    ensures Block(p[..56] + LengthBytes(n)) == WithLength(Block(p), n)
  {
    hide WordOf, WordBytes, High, Low;
    WordBytesRoundTrip(High(n));
    WordBytesRoundTrip(Low(n));
  }

  lemma OneBlock(head: seq<Byte>, rest: seq<Byte>)
    requires |head| % 64 == 0 && |rest| < 56
    ensures Padded(head + rest) == head + (Closed(rest)[..56] + LengthBytes(|head + rest|))
  {
    hide LengthBytes;
    assert (55 - |head + rest|) % 64 == 55 - |rest|;
  }

  lemma TwoBlocks(head: seq<Byte>, rest: seq<Byte>)
    requires |head| % 64 == 0 && 56 <= |rest| < 64
    ensures Padded(head + rest) == head + Closed(rest) + (Zeros(64)[..56] + LengthBytes(|head + rest|))
  {
    hide LengthBytes;
    assert (55 - |head + rest|) % 64 == 119 - |rest|;
  }

  // ----- The code ----------------------------------------------------------------------------------

  method MakeBlock(p: array<Byte>, block: array<bv32>)
    requires p.Length == 64 && block.Length == 16
    modifies block
    ensures block[..] == Block(p[..])
  {
    hide WordOf;
    for i := 0 to 16
      invariant block[..i] == Block(p[..])[..i]
    {
      block[i] := WordOf(p[4 * i], p[4 * i + 1], p[4 * i + 2], p[4 * i + 3]);
    }
  }

  method Copy(target: array<Byte>, from: nat, source: seq<Byte>)
    requires from + |source| <= target.Length
    modifies target
    ensures target[..] == old(target[..from]) + source + old(target[from + |source|..])
  {
    for i := 0 to |source|
      invariant target[..] == old(target[..from]) + source[..i] + old(target[from + i..])
    {
      target[from + i] := source[i];
    }
  }

  method ClearFourteen(block: array<bv32>)
    requires block.Length == 16
    modifies block
    ensures block[..14] == Block(Zeros(64))[..14]
  {
    hide WordOf;
    for i := 0 to 14
      invariant forall j :: 0 <= j < i ==> block[j] == 0
    {
      block[i] := 0;
    }
    assert WordOf(0, 0, 0, 0) == 0 by {
      ZeroWord();
    }
  }

  lemma ZeroWord()
    ensures WordOf(0, 0, 0, 0) == 0
  {
  }

  method PutWord(out: array<Byte>, at: nat, x: bv32)
    requires at + 4 <= out.Length
    modifies out
    ensures out[..at + 4] == old(out[..at]) + WordBytes(x)
  {
    hide WordBytes;
    FourBytes(x);
    out[at + 3] := (x & 0xff) as Byte;
    out[at + 2] := ((x >> 8) & 0xff) as Byte;
    out[at + 1] := ((x >> 16) & 0xff) as Byte;
    out[at] := ((x >> 24) & 0xff) as Byte;
  }

  method WriteDigest(digest: array<bv32>, out: array<Byte>)
    requires digest.Length == 5 && out.Length == 20
    modifies out
    ensures out[..] == Output(Digest(digest[..]))
  {
    hide WordBytes;
    for i := 0 to 5
      invariant out[..4 * i] == Bytes(digest[..i])
    {
      PutWord(out, 4 * i, digest[i]);
      assert digest[..i + 1][..i] == digest[..i];
    }
    assert out[..] == Bytes(digest[..5]) && digest[..5] == [digest[0], digest[1], digest[2], digest[3], digest[4]];
  }

  lemma FourBytes(x: bv32)
    ensures WordBytes(x)[0] == ((x >> 24) & 0xff) as Byte && WordBytes(x)[1] == ((x >> 16) & 0xff) as Byte
    ensures WordBytes(x)[2] == ((x >> 8) & 0xff) as Byte && WordBytes(x)[3] == (x & 0xff) as Byte
  {
  }

  lemma Joined(message: seq<Byte>, data: seq<Byte>, p: nat, n: nat)
    requires p + n <= |data|
    ensures message + data[..p] + data[p..p + n] == message + data[..p + n]
    ensures data[..|data|] == data
  {
  }

  class Context {
    var buflen: nat
    var blocks: nat
    const digest: array<bv32>
    const buf: array<Byte>
    /** What the context has been given. */
    ghost var message: seq<Byte>

    /** The whole blocks are in the digest and the rest is in the buffer. */
    ghost predicate Holds()
      reads this, digest, buf
    {
      digest.Length == 5 && buf.Length == 64 && buflen <= 64 && |message| == 64 * blocks + buflen &&
      Digest(digest[..]) == Fold(message[..64 * blocks]) && buf[..buflen] == message[64 * blocks..]
    }

    ghost predicate Valid()
      reads this, digest, buf
    {
      Holds() && buflen < 64
    }

    constructor ()
      ensures Valid() && message == [] && fresh(digest) && fresh(buf)
    {
      buflen, blocks, message := 0, 0, [];
      digest := new bv32[] [0x67452301, 0xefcdab89, 0x98badcfe, 0x10325476, 0xc3d2e1f0];
      buf := new Byte[64];
    }

    /** One copy into the buffer. */
    method Fill(piece: seq<Byte>)
      requires Holds() && buflen + |piece| <= 64
      modifies this`buflen, this`message, buf
      ensures Holds() && message == old(message) + piece && buflen == old(buflen) + |piece|
    {
      hide Fold, Digest;
      Copy(buf, buflen, piece);
      assert (message + piece)[..64 * blocks] == message[..64 * blocks];
      assert (message + piece)[64 * blocks..] == message[64 * blocks..] + piece;
      message := message + piece;
      buflen := buflen + |piece|;
    }

    /** A full buffer goes into the digest. */
    method Flush()
      requires Holds() && buflen == 64
      modifies this`buflen, this`blocks, digest
      ensures Valid() && buflen == 0
    {
      hide Fold, Compress, Digest, Block;
      assert message == message[..64 * blocks] + buf[..] == message[..64 * (blocks + 1)];
      FoldOneMore(message[..64 * blocks], buf[..]);
      buflen := 0;
      var block := new bv32[16];
      MakeBlock(buf, block);
      Transform(digest, block);
      blocks := blocks + 1;
    }

    method Update(data: seq<Byte>)
      requires Valid()
      modifies this`buflen, this`blocks, this`message, digest, buf
      ensures Valid() && message == old(message) + data
    {
      hide Holds;
      var p: nat := 0;
      assert data[..p] == [];
      while true
        invariant p <= |data| && Valid() && message == old(message) + data[..p]
        decreases |data| - p
      {
        var n := if |data| - p < 64 - buflen then |data| - p else 64 - buflen;
        Fill(data[p..p + n]);
        Joined(old(message), data, p, n);
        if buflen != 64 {
          return;
        }
        p := p + n;
        Flush();
      }
    }

    /** The final one bit and the zeros up to the end of the buffer. */
    method Close() returns (length: nat)
      requires Valid()
      modifies this`buflen, buf
      ensures buf.Length == 64 && length == old(buflen) + 1 && buflen == 64
      ensures buf[..] == Closed(old(message[64 * blocks..]))
    {
      hide Fold, Digest;
      ghost var rest := message[64 * blocks..];
      buf[buflen] := 0x80;
      buflen := buflen + 1;
      length := buflen;
      while buflen < 64
        invariant length <= buflen <= 64
        invariant buf[..buflen] == rest + [0x80] + Zeros(buflen - length)
      {
        buf[buflen] := 0x00;
        buflen := buflen + 1;
      }
    }

    /** The digest of everything the context was given, its most significant byte first. */
    method Finish(out: array<Byte>)
      requires Valid() && out.Length == 20 && out != buf
      modifies this, digest, buf, out
      ensures out[..] == Output(Fold(Padded(old(message))))
    {
      hide Fold, Digest, Padded, Compress, Block, Closed, LengthBytes, Output, High, Low;
      ghost var head, rest := message[..64 * blocks], message[64 * blocks..];
      assert message == head + rest;
      var total := blocks * 64 + buflen;
      var length := Close();
      var block := new bv32[16];
      MakeBlock(buf, block);
      if length > 64 - 8 {
        FoldOneMore(head, Closed(rest));
        Transform(digest, block);
        ClearFourteen(block);
        TwoBlocks(head, rest);
        LastBlock(block, head + Closed(rest), Zeros(64), total);
      } else {
        OneBlock(head, rest);
        LastBlock(block, head, Closed(rest), total);
      }
      WriteDigest(digest, out);
    }

    /** The length goes into the last two words and the last block into the digest. */
    method LastBlock(block: array<bv32>, ghost head: seq<Byte>, ghost tail: seq<Byte>, total: nat)
      requires digest.Length == 5 && block.Length == 16 && block != digest && |head| % 64 == 0 && |tail| == 64
      requires Digest(digest[..]) == Fold(head) && block[..14] == Block(tail)[..14]
      modifies digest, block
      ensures |head + (tail[..56] + LengthBytes(total))| % 64 == 0
      ensures Digest(digest[..]) == Fold(head + (tail[..56] + LengthBytes(total)))
    {
      hide Fold, Digest, Compress, Block, LengthBytes, High, Low;
      block[15] := Low(total);
      block[14] := High(total);
      assert block[..] == WithLength(Block(tail), total);
      LengthWords(tail, total);
      FoldOneMore(head, tail[..56] + LengthBytes(total));
      Transform(digest, block);
    }
  }

  function Joint(pieces: seq<seq<Byte>>): seq<Byte> {
    if |pieces| == 0 then [] else Joint(pieces[..|pieces| - 1]) + pieces[|pieces| - 1]
  }

  /** However a message is cut into calls of `update`, the digest is that of the padded message. */
  method Hash(pieces: seq<seq<Byte>>) returns (out: seq<Byte>)
    ensures out == Output(Fold(Padded(Joint(pieces))))
  {
    hide Output, Fold, Padded;
    var context := new Context();
    for i := 0 to |pieces|
      invariant context.Valid() && context.message == Joint(pieces[..i])
      invariant fresh(context) && fresh(context.digest) && fresh(context.buf)
    {
      context.Update(pieces[i]);
      assert pieces[..i + 1][..i] == pieces[..i];
    }
    assert pieces[..|pieces|] == pieces;
    var bytes := new Byte[20];
    context.Finish(bytes);
    out := bytes[..];
  }
}
