/** The SHA-1 block transform: eighty unrolled rounds that rename registers instead of moving them and keep
    sixteen words of the schedule, against sections 5 and 6.1 of RFC 3174. */
module Sha1 {

  // ----- The standard ----------------------------------------------------------------------

  datatype Registers = Registers(a: bv32, b: bv32, c: bv32, d: bv32, e: bv32)

  function Rol(x: bv32, n: nat): bv32
    requires n <= 32
  {
    (x << n) | (x >> (32 - n))
  }

  function Ch(b: bv32, c: bv32, d: bv32): bv32 {
    (b & c) | (!b & d)
  }

  function Maj(b: bv32, c: bv32, d: bv32): bv32 {
    (b & c) | (b & d) | (c & d)
  }

  function Parity(b: bv32, c: bv32, d: bv32): bv32 {
    b ^ c ^ d
  }

  /** The functions of section 5. */
  function F(t: nat, b: bv32, c: bv32, d: bv32): bv32 {
    if t < 20 then Ch(b, c, d)
    else if t < 40 then Parity(b, c, d)
    else if t < 60 then Maj(b, c, d)
    else Parity(b, c, d)
  }

  function K(t: nat): bv32 {
    if t < 20 then 0x5a827999 else if t < 40 then 0x6ed9eba1 else if t < 60 then 0x8f1bbcdc else 0xca62c1d6
  }

  /** The sum of step (d) of section 6.1. */
  function Temp(a5: bv32, f: bv32, e: bv32, w: bv32, k: bv32): bv32 {
    a5 + f + e + w + k
  }

  function Round(t: nat, s: Registers, w: bv32): Registers {
    Registers(Temp(Rol(s.a, 5), F(t, s.b, s.c, s.d), s.e, w, K(t)), s.a, Rol(s.b, 30), s.c, s.d)
  }

  function Mix(a: bv32, b: bv32, c: bv32, d: bv32): bv32 {
    Rol(a ^ b ^ c ^ d, 1)
  }

  /** The schedule of eighty words of step (b). */
  function W(m: seq<bv32>, t: nat): bv32
    requires |m| == 16
  {
    if t < 16 then m[t] else Mix(W(m, t - 3), W(m, t - 8), W(m, t - 14), W(m, t - 16))
  }

  function State(m: seq<bv32>, h: Registers, t: nat): Registers
    requires |m| == 16
  {
    if t == 0 then h else Round(t - 1, State(m, h, t - 1), W(m, t - 1))
  }

  /** The sum modulo 2^32. */
  function Plus(x: bv32, y: bv32): bv32 {
    x + y
  }

  function Add(s: Registers, t: Registers): Registers {
    Registers(Plus(s.a, t.a), Plus(s.b, t.b), Plus(s.c, t.c), Plus(s.d, t.d), Plus(s.e, t.e))
  }

  /** The digest after one more block. */
  function Compress(h: Registers, m: seq<bv32>): Registers
    requires |m| == 16
  {
    Add(h, State(m, h, 80))
  }

  // ----- The rounds of the code --------------------------------------------------------------

  /** The rewritten choice. */
  function Choice(w: bv32, x: bv32, y: bv32): bv32 {
    (w & (x ^ y)) ^ y
  }

  /** The rewritten majority. */
  function Majority(w: bv32, x: bv32, y: bv32): bv32 {
    ((w | x) & y) | (w & x)
  }

  /** `z += f + block[i] + k + rol(v, 5)`. */
  function Sum(z: bv32, f: bv32, w: bv32, k: bv32, v5: bv32): bv32 {
    z + (f + w + k + v5)
  }

  lemma ChoiceBits(w: bv32, x: bv32, y: bv32)
    ensures (w & (x ^ y)) ^ y == (w & x) | (!w & y)
  {
  }

  lemma ChoiceIsCh(w: bv32, x: bv32, y: bv32)
    ensures Choice(w, x, y) == Ch(w, x, y)
  {
    ChoiceBits(w, x, y);
  }

  lemma MajorityBits(w: bv32, x: bv32, y: bv32)
    ensures ((w | x) & y) | (w & x) == (w & x) | (w & y) | (x & y)
  {
  }

  lemma MajorityIsMaj(w: bv32, x: bv32, y: bv32)
    ensures Majority(w, x, y) == Maj(w, x, y)
  {
    MajorityBits(w, x, y);
  }

  lemma SumIsTemp(z: bv32, f: bv32, w: bv32, k: bv32, v5: bv32)
    ensures Sum(z, f, w, k, v5) == Temp(v5, f, z, w, k)
  {
  }

  function Blk(block: seq<bv32>, i: nat): bv32
    requires |block| == 16 && i < 16
  {
    Mix(block[(i + 13) % 16], block[(i + 8) % 16], block[(i + 2) % 16], block[i])
  }

  /** The sixteen words hold the part of the schedule that ends before `t`, or the whole block at first, each
      word in its place modulo 16. */
  ghost predicate Circular(block: seq<bv32>, m: seq<bv32>, t: nat) {
    |block| == 16 && |m| == 16 &&
    forall j: nat {:trigger W(m, j)} :: (if t < 16 then 0 else t - 16) <= j < (if t < 16 then 16 else t) ==>
      block[j % 16] == W(m, j)
  }

  lemma Start(m: seq<bv32>)
    requires |m| == 16
    ensures Circular(m, m, 0)
  {
  }

  lemma OneWord(m: seq<bv32>, t: nat)
    requires |m| == 16 && t >= 16
    ensures W(m, t) == Mix(W(m, t - 3), W(m, t - 8), W(m, t - 14), W(m, t - 16))
  {
    hide Mix;
  }

  /** Going back `n` places out of sixteen is going forward `16 - n`. */
  lemma BackwardsModulo(t: nat, n: nat)
    requires t >= 16 && n <= 16
    ensures (t - n) % 16 == (t % 16 + (16 - n)) % 16
  {
    assert t - n == (t % 16 + (16 - n)) + 16 * (t / 16 - 1);
  }

  lemma WordBack(block: seq<bv32>, m: seq<bv32>, t: nat, i: nat, n: nat)
    requires t >= 16 && i == t % 16 && 1 <= n <= 16 && Circular(block, m, t)
    ensures block[(i + (16 - n)) % 16] == W(m, t - n)
  {
    hide W;
    BackwardsModulo(t, n);
  }

  lemma OldestWord(block: seq<bv32>, m: seq<bv32>, t: nat, i: nat)
    requires t >= 16 && i == t % 16 && Circular(block, m, t)
    ensures block[i] == W(m, t - 16)
  {
    hide W;
    assert (t - 16) % 16 == i;
  }

  /** The new word is the schedule's. */
  lemma NewWord(block: seq<bv32>, m: seq<bv32>, t: nat, i: nat)
    requires t >= 16 && i == t % 16 && Circular(block, m, t)
    ensures Blk(block, i) == W(m, t)
  {
    hide W, Mix, Circular;
    CircularSize(block, m, t);
    WordBack(block, m, t, i, 3);
    WordBack(block, m, t, i, 8);
    WordBack(block, m, t, i, 14);
    OldestWord(block, m, t, i);
    OneWord(m, t);
  }

  lemma OtherPlace(j: nat, t: nat)
    requires t - 16 < j < t
    ensures j % 16 != t % 16
  {
  }

  /** It takes the place of the oldest. */
  lemma Extend(block: seq<bv32>, m: seq<bv32>, t: nat)
    requires t >= 16 && Circular(block, m, t)
    ensures Circular(block[t % 16 := W(m, t)], m, t + 1)
  {
    hide Mix, W;
    forall j: nat | t - 15 <= j < t + 1 ensures block[t % 16 := W(m, t)][j % 16] == W(m, j) {
      if j < t {
        OtherPlace(j, t);
      }
    }
  }

  /** Before round `t` the registers, under whatever names, are those of the standard. */
  ghost predicate At(m: seq<bv32>, h: Registers, t: nat, v: bv32, w: bv32, x: bv32, y: bv32, z: bv32) {
    |m| == 16 && State(m, h, t) == Registers(v, w, x, y, z)
  }

  lemma Next(m: seq<bv32>, h: Registers, t: nat, v: bv32, w: bv32, x: bv32, y: bv32, z: bv32)
    requires At(m, h, t, v, w, x, y, z)
    ensures At(m, h, t + 1, Sum(z, F(t, w, x, y), W(m, t), K(t), Rol(v, 5)), v, Rol(w, 30), x, y)
  {
    hide F, K, Rol, W, Sum, Temp;
    SumIsTemp(z, F(t, w, x, y), W(m, t), K(t), Rol(v, 5));
  }

  method R0(block: array<bv32>, v: bv32, w: bv32, x: bv32, y: bv32, z: bv32, i: nat,
            ghost m: seq<bv32>, ghost h: Registers) returns (w': bv32, z': bv32)
    requires i < 16 && Circular(block[..], m, i) && At(m, h, i, v, w, x, y, z)
    ensures At(m, h, i + 1, z', v, w', x, y) && Circular(block[..], m, i + 1)
  {
    hide Rol, W, State, Sum, Choice, Ch, At;
    ChoiceIsCh(w, x, y);
    Next(m, h, i, v, w, x, y, z);
    assert block[i % 16] == W(m, i);
    z' := Sum(z, Choice(w, x, y), block[i], 0x5a827999, Rol(v, 5));
    w' := Rol(w, 30);
  }

  /** The new word of the schedule takes its place in the block. */
  method Replace(block: array<bv32>, i: nat, ghost m: seq<bv32>, ghost t: nat)
    requires t >= 16 && i == t % 16 && Circular(block[..], m, t)
    modifies block
    ensures Circular(block[..], m, t + 1) && block[i] == W(m, t)
  {
    hide W, Blk;
    NewWord(block[..], m, t, i);
    Extend(block[..], m, t);
    ghost var before := block[..];
    block[i] := Blk(block[..], i);
    assert block[..] == before[i := W(m, t)];
  }

  method R1(block: array<bv32>, v: bv32, w: bv32, x: bv32, y: bv32, z: bv32, i: nat,
            ghost m: seq<bv32>, ghost h: Registers, ghost t: nat) returns (w': bv32, z': bv32)
    requires 16 <= t < 20 && i == t % 16 && Circular(block[..], m, t) && At(m, h, t, v, w, x, y, z)
    modifies block
    ensures At(m, h, t + 1, z', v, w', x, y) && Circular(block[..], m, t + 1)
  {
    hide Rol, W, Sum, Choice, Ch, At, Circular;
    ChoiceIsCh(w, x, y);
    Next(m, h, t, v, w, x, y, z);
    CircularSize(block[..], m, t);
    Replace(block, i, m, t);
    z' := Sum(z, Choice(w, x, y), block[i], 0x5a827999, Rol(v, 5));
    w' := Rol(w, 30);
  }

  lemma CircularSize(block: seq<bv32>, m: seq<bv32>, t: nat)
    requires Circular(block, m, t)
    ensures |block| == |m| == 16
  {
  }

  method R2(block: array<bv32>, v: bv32, w: bv32, x: bv32, y: bv32, z: bv32, i: nat,
            ghost m: seq<bv32>, ghost h: Registers, ghost t: nat) returns (w': bv32, z': bv32)
    requires 20 <= t < 40 && i == t % 16 && Circular(block[..], m, t) && At(m, h, t, v, w, x, y, z)
    modifies block
    ensures At(m, h, t + 1, z', v, w', x, y) && Circular(block[..], m, t + 1)
  {
    hide Rol, W, Sum, Parity, At, Circular;
    Next(m, h, t, v, w, x, y, z);
    CircularSize(block[..], m, t);
    Replace(block, i, m, t);
    z' := Sum(z, Parity(w, x, y), block[i], 0x6ed9eba1, Rol(v, 5));
    w' := Rol(w, 30);
  }

  method R3(block: array<bv32>, v: bv32, w: bv32, x: bv32, y: bv32, z: bv32, i: nat,
            ghost m: seq<bv32>, ghost h: Registers, ghost t: nat) returns (w': bv32, z': bv32)
    requires 40 <= t < 60 && i == t % 16 && Circular(block[..], m, t) && At(m, h, t, v, w, x, y, z)
    modifies block
    ensures At(m, h, t + 1, z', v, w', x, y) && Circular(block[..], m, t + 1)
  {
    hide Rol, W, Sum, Majority, Maj, At, Circular;
    MajorityIsMaj(w, x, y);
    Next(m, h, t, v, w, x, y, z);
    CircularSize(block[..], m, t);
    Replace(block, i, m, t);
    z' := Sum(z, Majority(w, x, y), block[i], 0x8f1bbcdc, Rol(v, 5));
    w' := Rol(w, 30);
  }

  method R4(block: array<bv32>, v: bv32, w: bv32, x: bv32, y: bv32, z: bv32, i: nat,
            ghost m: seq<bv32>, ghost h: Registers, ghost t: nat) returns (w': bv32, z': bv32)
    requires 60 <= t < 80 && i == t % 16 && Circular(block[..], m, t) && At(m, h, t, v, w, x, y, z)
    modifies block
    ensures At(m, h, t + 1, z', v, w', x, y) && Circular(block[..], m, t + 1)
  {
    hide Rol, W, Sum, Parity, At, Circular;
    Next(m, h, t, v, w, x, y, z);
    CircularSize(block[..], m, t);
    Replace(block, i, m, t);
    z' := Sum(z, Parity(w, x, y), block[i], 0xca62c1d6, Rol(v, 5));
    w' := Rol(w, 30);
  }

  method Rounds0To9(block: array<bv32>, v: bv32, w: bv32, x: bv32, y: bv32, z: bv32,
      ghost m: seq<bv32>, ghost h: Registers) returns (a: bv32, b: bv32, c: bv32, d: bv32, e: bv32)
    requires Circular(block[..], m, 0) && At(m, h, 0, v, w, x, y, z)
    ensures Circular(block[..], m, 10) && At(m, h, 10, a, b, c, d, e)
  {
    hide *;
    a, b, c, d, e := v, w, x, y, z;
    b, e := R0(block, a, b, c, d, e, 0, m, h);
    a, d := R0(block, e, a, b, c, d, 1, m, h);
    e, c := R0(block, d, e, a, b, c, 2, m, h);
    d, b := R0(block, c, d, e, a, b, 3, m, h);
    c, a := R0(block, b, c, d, e, a, 4, m, h);
    b, e := R0(block, a, b, c, d, e, 5, m, h);
    a, d := R0(block, e, a, b, c, d, 6, m, h);
    e, c := R0(block, d, e, a, b, c, 7, m, h);
    d, b := R0(block, c, d, e, a, b, 8, m, h);
    c, a := R0(block, b, c, d, e, a, 9, m, h);
  }

  method Rounds10To19(block: array<bv32>, v: bv32, w: bv32, x: bv32, y: bv32, z: bv32,
      ghost m: seq<bv32>, ghost h: Registers) returns (a: bv32, b: bv32, c: bv32, d: bv32, e: bv32)
    requires Circular(block[..], m, 10) && At(m, h, 10, v, w, x, y, z)
    modifies block
    ensures Circular(block[..], m, 20) && At(m, h, 20, a, b, c, d, e)
  {
    hide *;
    a, b, c, d, e := v, w, x, y, z;
    b, e := R0(block, a, b, c, d, e, 10, m, h);
    a, d := R0(block, e, a, b, c, d, 11, m, h);
    e, c := R0(block, d, e, a, b, c, 12, m, h);
    d, b := R0(block, c, d, e, a, b, 13, m, h);
    c, a := R0(block, b, c, d, e, a, 14, m, h);
    b, e := R0(block, a, b, c, d, e, 15, m, h);
    a, d := R1(block, e, a, b, c, d, 0, m, h, 16);
    e, c := R1(block, d, e, a, b, c, 1, m, h, 17);
    d, b := R1(block, c, d, e, a, b, 2, m, h, 18);
    c, a := R1(block, b, c, d, e, a, 3, m, h, 19);
  }

  method Rounds20To29(block: array<bv32>, v: bv32, w: bv32, x: bv32, y: bv32, z: bv32,
      ghost m: seq<bv32>, ghost h: Registers) returns (a: bv32, b: bv32, c: bv32, d: bv32, e: bv32)
    requires Circular(block[..], m, 20) && At(m, h, 20, v, w, x, y, z)
    modifies block
    ensures Circular(block[..], m, 30) && At(m, h, 30, a, b, c, d, e)
  {
    hide *;
    a, b, c, d, e := v, w, x, y, z;
    b, e := R2(block, a, b, c, d, e, 4, m, h, 20);
    a, d := R2(block, e, a, b, c, d, 5, m, h, 21);
    e, c := R2(block, d, e, a, b, c, 6, m, h, 22);
    d, b := R2(block, c, d, e, a, b, 7, m, h, 23);
    c, a := R2(block, b, c, d, e, a, 8, m, h, 24);
    b, e := R2(block, a, b, c, d, e, 9, m, h, 25);
    a, d := R2(block, e, a, b, c, d, 10, m, h, 26);
    e, c := R2(block, d, e, a, b, c, 11, m, h, 27);
    d, b := R2(block, c, d, e, a, b, 12, m, h, 28);
    c, a := R2(block, b, c, d, e, a, 13, m, h, 29);
  }

  method Rounds30To39(block: array<bv32>, v: bv32, w: bv32, x: bv32, y: bv32, z: bv32,
      ghost m: seq<bv32>, ghost h: Registers) returns (a: bv32, b: bv32, c: bv32, d: bv32, e: bv32)
    requires Circular(block[..], m, 30) && At(m, h, 30, v, w, x, y, z)
    modifies block
    ensures Circular(block[..], m, 40) && At(m, h, 40, a, b, c, d, e)
  {
    hide *;
    a, b, c, d, e := v, w, x, y, z;
    b, e := R2(block, a, b, c, d, e, 14, m, h, 30);
    a, d := R2(block, e, a, b, c, d, 15, m, h, 31);
    e, c := R2(block, d, e, a, b, c, 0, m, h, 32);
    d, b := R2(block, c, d, e, a, b, 1, m, h, 33);
    c, a := R2(block, b, c, d, e, a, 2, m, h, 34);
    b, e := R2(block, a, b, c, d, e, 3, m, h, 35);
    a, d := R2(block, e, a, b, c, d, 4, m, h, 36);
    e, c := R2(block, d, e, a, b, c, 5, m, h, 37);
    d, b := R2(block, c, d, e, a, b, 6, m, h, 38);
    c, a := R2(block, b, c, d, e, a, 7, m, h, 39);
  }

  method Rounds40To49(block: array<bv32>, v: bv32, w: bv32, x: bv32, y: bv32, z: bv32,
      ghost m: seq<bv32>, ghost h: Registers) returns (a: bv32, b: bv32, c: bv32, d: bv32, e: bv32)
    requires Circular(block[..], m, 40) && At(m, h, 40, v, w, x, y, z)
    modifies block
    ensures Circular(block[..], m, 50) && At(m, h, 50, a, b, c, d, e)
  {
    hide *;
    a, b, c, d, e := v, w, x, y, z;
    b, e := R3(block, a, b, c, d, e, 8, m, h, 40);
    a, d := R3(block, e, a, b, c, d, 9, m, h, 41);
    e, c := R3(block, d, e, a, b, c, 10, m, h, 42);
    d, b := R3(block, c, d, e, a, b, 11, m, h, 43);
    c, a := R3(block, b, c, d, e, a, 12, m, h, 44);
    b, e := R3(block, a, b, c, d, e, 13, m, h, 45);
    a, d := R3(block, e, a, b, c, d, 14, m, h, 46);
    e, c := R3(block, d, e, a, b, c, 15, m, h, 47);
    d, b := R3(block, c, d, e, a, b, 0, m, h, 48);
    c, a := R3(block, b, c, d, e, a, 1, m, h, 49);
  }

  method Rounds50To59(block: array<bv32>, v: bv32, w: bv32, x: bv32, y: bv32, z: bv32,
      ghost m: seq<bv32>, ghost h: Registers) returns (a: bv32, b: bv32, c: bv32, d: bv32, e: bv32)
    requires Circular(block[..], m, 50) && At(m, h, 50, v, w, x, y, z)
    modifies block
    ensures Circular(block[..], m, 60) && At(m, h, 60, a, b, c, d, e)
  {
    hide *;
    a, b, c, d, e := v, w, x, y, z;
    b, e := R3(block, a, b, c, d, e, 2, m, h, 50);
    a, d := R3(block, e, a, b, c, d, 3, m, h, 51);
    e, c := R3(block, d, e, a, b, c, 4, m, h, 52);
    d, b := R3(block, c, d, e, a, b, 5, m, h, 53);
    c, a := R3(block, b, c, d, e, a, 6, m, h, 54);
    b, e := R3(block, a, b, c, d, e, 7, m, h, 55);
    a, d := R3(block, e, a, b, c, d, 8, m, h, 56);
    e, c := R3(block, d, e, a, b, c, 9, m, h, 57);
    d, b := R3(block, c, d, e, a, b, 10, m, h, 58);
    c, a := R3(block, b, c, d, e, a, 11, m, h, 59);
  }

  method Rounds60To69(block: array<bv32>, v: bv32, w: bv32, x: bv32, y: bv32, z: bv32,
      ghost m: seq<bv32>, ghost h: Registers) returns (a: bv32, b: bv32, c: bv32, d: bv32, e: bv32)
    requires Circular(block[..], m, 60) && At(m, h, 60, v, w, x, y, z)
    modifies block
    ensures Circular(block[..], m, 70) && At(m, h, 70, a, b, c, d, e)
  {
    hide *;
    a, b, c, d, e := v, w, x, y, z;
    b, e := R4(block, a, b, c, d, e, 12, m, h, 60);
    a, d := R4(block, e, a, b, c, d, 13, m, h, 61);
    e, c := R4(block, d, e, a, b, c, 14, m, h, 62);
    d, b := R4(block, c, d, e, a, b, 15, m, h, 63);
    c, a := R4(block, b, c, d, e, a, 0, m, h, 64);
    b, e := R4(block, a, b, c, d, e, 1, m, h, 65);
    a, d := R4(block, e, a, b, c, d, 2, m, h, 66);
    e, c := R4(block, d, e, a, b, c, 3, m, h, 67);
    d, b := R4(block, c, d, e, a, b, 4, m, h, 68);
    c, a := R4(block, b, c, d, e, a, 5, m, h, 69);
  }

  method Rounds70To79(block: array<bv32>, v: bv32, w: bv32, x: bv32, y: bv32, z: bv32,
      ghost m: seq<bv32>, ghost h: Registers) returns (a: bv32, b: bv32, c: bv32, d: bv32, e: bv32)
    requires Circular(block[..], m, 70) && At(m, h, 70, v, w, x, y, z)
    modifies block
    ensures Circular(block[..], m, 80) && At(m, h, 80, a, b, c, d, e)
  {
    hide *;
    a, b, c, d, e := v, w, x, y, z;
    b, e := R4(block, a, b, c, d, e, 6, m, h, 70);
    a, d := R4(block, e, a, b, c, d, 7, m, h, 71);
    e, c := R4(block, d, e, a, b, c, 8, m, h, 72);
    d, b := R4(block, c, d, e, a, b, 9, m, h, 73);
    c, a := R4(block, b, c, d, e, a, 10, m, h, 74);
    b, e := R4(block, a, b, c, d, e, 11, m, h, 75);
    a, d := R4(block, e, a, b, c, d, 12, m, h, 76);
    e, c := R4(block, d, e, a, b, c, 13, m, h, 77);
    d, b := R4(block, c, d, e, a, b, 14, m, h, 78);
    c, a := R4(block, b, c, d, e, a, 15, m, h, 79);
  }

  /** The eighty rounds. The block is used up by the schedule. */
  method Transform(digest: array<bv32>, block: array<bv32>)
    requires digest.Length == 5 && block.Length == 16 && digest != block
    modifies digest, block
    ensures Digest(digest[..]) == Compress(old(Digest(digest[..])), old(block[..]))
  {
    hide Circular, At, Compress, Rol, F, K, W, State, Add;
    ghost var h, m := Digest(digest[..]), block[..];
    var a, b, c, d, e := digest[0], digest[1], digest[2], digest[3], digest[4];
    Start(m);
    Entry(digest[..], m);
    a, b, c, d, e := Rounds0To9(block, a, b, c, d, e, m, h);
    a, b, c, d, e := Rounds10To19(block, a, b, c, d, e, m, h);
    a, b, c, d, e := Rounds20To29(block, a, b, c, d, e, m, h);
    a, b, c, d, e := Rounds30To39(block, a, b, c, d, e, m, h);
    a, b, c, d, e := Rounds40To49(block, a, b, c, d, e, m, h);
    a, b, c, d, e := Rounds50To59(block, a, b, c, d, e, m, h);
    a, b, c, d, e := Rounds60To69(block, a, b, c, d, e, m, h);
    a, b, c, d, e := Rounds70To79(block, a, b, c, d, e, m, h);
    Finish(m, h, a, b, c, d, e);
    AddInto(digest, a, b, c, d, e);
  }

  method AddInto(digest: array<bv32>, a: bv32, b: bv32, c: bv32, d: bv32, e: bv32)
    requires digest.Length == 5
    modifies digest
    ensures Digest(digest[..]) == Add(old(Digest(digest[..])), Registers(a, b, c, d, e))
  {
    hide Plus;
    digest[0] := Plus(digest[0], a);
    digest[1] := Plus(digest[1], b);
    digest[2] := Plus(digest[2], c);
    digest[3] := Plus(digest[3], d);
    digest[4] := Plus(digest[4], e);
  }

  function Digest(s: seq<bv32>): Registers
    requires |s| == 5
  {
    Registers(s[0], s[1], s[2], s[3], s[4])
  }

  lemma Entry(s: seq<bv32>, m: seq<bv32>)
    requires |s| == 5 && |m| == 16
    ensures At(m, Digest(s), 0, s[0], s[1], s[2], s[3], s[4])
  {
  }

  lemma Finish(m: seq<bv32>, h: Registers, a: bv32, b: bv32, c: bv32, d: bv32, e: bv32)
    requires At(m, h, 80, a, b, c, d, e)
    ensures |m| == 16 && Compress(h, m) == Add(h, Registers(a, b, c, d, e))
  {
    hide State, Add;
  }
}
