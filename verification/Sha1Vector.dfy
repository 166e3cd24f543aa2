/** The test vector of section 7.3 of RFC 3174: the digest of `abc`, round by round. */
module Sha1Vector {
  import opened Sha1
  import opened Sha1Stream

  // ----- The schedule ------------------------------------------------------------------------------

  /** The padded message as words, and the words of the schedule that follow, sixteen at a time. */
  const WORDS0: seq<bv32> := [
    0x61626380, 0x00000000, 0x00000000, 0x00000000, 0x00000000, 0x00000000, 0x00000000, 0x00000000,
    0x00000000, 0x00000000, 0x00000000, 0x00000000, 0x00000000, 0x00000000, 0x00000000, 0x00000018
  ]
  const WORDS1: seq<bv32> := [
    0xc2c4c700, 0x00000000, 0x00000030, 0x85898e01, 0x00000000, 0x00000060, 0x0b131c03, 0x00000030,
    0x85898ec1, 0x16263806, 0x00000000, 0x00000180, 0x2c4c700c, 0x000000f0, 0x93afb507, 0x5898e048
  ]
  const WORDS2: seq<bv32> := [
    0x8e9a9202, 0x00000600, 0xb131c0f0, 0x16263bc6, 0x4ebed41e, 0x626380a1, 0x16263806, 0x000018c0,
    0xd2e138c4, 0x00000f00, 0x3afb5079, 0x898e04e5, 0xe2ba3c2b, 0x000060c0, 0x053a37cd, 0x74458547
  ]
  const WORDS3: seq<bv32> := [
    0xda9415ed, 0x26380a16, 0x626383a1, 0x4ebf54de, 0x3835b44b, 0x0000f600, 0x1e84c7a3, 0x98e04d98,
    0x651d16a0, 0x62658ca1, 0x458544d6, 0x44584cb7, 0x7ba06619, 0x6380aea2, 0x0ae55269, 0x627b49a1
  ]
  const WORDS4: seq<bv32> := [
    0x7cd45c9d, 0x000f0000, 0xfb50753a, 0xec6765e8, 0xba3c2be2, 0x0060c000, 0x3a37cd05, 0x458546f4,
    0xb8599dd6, 0x380a1a26, 0x01e02203, 0xe7cc3456, 0xe6e60b69, 0x00f60a00, 0x5795ef4f, 0x822e0879
  ]

  /** The sixteen words from `t` on. */
  ghost predicate Scheduled(m: seq<bv32>, t: nat, ws: seq<bv32>) {
    |m| == 16 && |ws| == 16 && forall i :: 0 <= i < 16 ==> W(m, t + i) == ws[i]
  }

  /** One word from those three, eight, fourteen and sixteen places before it. */
  predicate Follows(ws: seq<bv32>, xs: seq<bv32>, i: nat)
    requires |ws| == 16 && |xs| == 16 && i < 16
  {
    xs[i] == Mix(if i < 3 then ws[13 + i] else xs[i - 3], if i < 8 then ws[8 + i] else xs[i - 8],
                 if i < 14 then ws[2 + i] else xs[i - 14], ws[i])
  }

  lemma {:induction false} WordsFollow(m: seq<bv32>, t: nat, ws: seq<bv32>, xs: seq<bv32>, n: nat)
    requires Scheduled(m, t, ws) && |xs| == 16 && n <= 16 && forall i :: 0 <= i < 16 ==> Follows(ws, xs, i)
    ensures forall i :: 0 <= i < n ==> W(m, t + 16 + i) == xs[i]
  {
    hide Mix;
    if n > 0 {
      WordsFollow(m, t, ws, xs, n - 1);
      WordStep(m, t, ws, xs, n - 1);
    }
  }

  lemma WordStep(m: seq<bv32>, t: nat, ws: seq<bv32>, xs: seq<bv32>, i: nat)
    requires Scheduled(m, t, ws) && |xs| == 16 && i < 16 && Follows(ws, xs, i)
    requires forall j :: 0 <= j < i ==> W(m, t + 16 + j) == xs[j]
    ensures W(m, t + 16 + i) == xs[i]
  {
    hide Mix;
    assert i < 3 ==> W(m, t + (13 + i)) == ws[13 + i];
    assert i < 8 ==> W(m, t + (8 + i)) == ws[8 + i];
    assert i < 14 ==> W(m, t + (2 + i)) == ws[2 + i];
    assert W(m, t + i) == ws[i];
    assert i >= 3 ==> W(m, t + 16 + (i - 3)) == xs[i - 3];
    assert i >= 8 ==> W(m, t + 16 + (i - 8)) == xs[i - 8];
    assert i >= 14 ==> W(m, t + 16 + (i - 14)) == xs[i - 14];
  }

  /** Four words at a time. */
  predicate FourFollow(ws: seq<bv32>, xs: seq<bv32>, i: nat)
    requires |ws| == 16 && |xs| == 16 && i < 13
  {
    Follows(ws, xs, i) && Follows(ws, xs, i + 1) && Follows(ws, xs, i + 2) && Follows(ws, xs, i + 3)
  }

  lemma Sixteen(m: seq<bv32>, t: nat, ws: seq<bv32>, xs: seq<bv32>)
    requires Scheduled(m, t, ws) && |xs| == 16
    requires FourFollow(ws, xs, 0) && FourFollow(ws, xs, 4) && FourFollow(ws, xs, 8) && FourFollow(ws, xs, 12)
    ensures Scheduled(m, t + 16, xs)
  {
    hide Follows;
    WordsFollow(m, t, ws, xs, 16);
  }

  lemma FourA1()
    ensures FourFollow(WORDS0, WORDS1, 0)
  {
  }

  lemma FourB1()
    ensures FourFollow(WORDS0, WORDS1, 4)
  {
  }

  lemma FourC1()
    ensures FourFollow(WORDS0, WORDS1, 8)
  {
  }

  lemma FourD1()
    ensures FourFollow(WORDS0, WORDS1, 12)
  {
  }

  lemma Block1(m: seq<bv32>)
    requires Scheduled(m, 0, WORDS0)
    ensures Scheduled(m, 16, WORDS1)
  {
    hide Scheduled, FourFollow;
    FourA1();
    FourB1();
    FourC1();
    FourD1();
    Sixteen(m, 0, WORDS0, WORDS1);
  }

  lemma FourA2()
    ensures FourFollow(WORDS1, WORDS2, 0)
  {
  }

  lemma FourB2()
    ensures FourFollow(WORDS1, WORDS2, 4)
  {
  }

  lemma FourC2()
    ensures FourFollow(WORDS1, WORDS2, 8)
  {
  }

  lemma FourD2()
    ensures FourFollow(WORDS1, WORDS2, 12)
  {
  }

  lemma Block2(m: seq<bv32>)
    requires Scheduled(m, 16, WORDS1)
    ensures Scheduled(m, 32, WORDS2)
  {
    hide Scheduled, FourFollow;
    FourA2();
    FourB2();
    FourC2();
    FourD2();
    Sixteen(m, 16, WORDS1, WORDS2);
  }

  lemma FourA3()
    ensures FourFollow(WORDS2, WORDS3, 0)
  {
  }

  lemma FourB3()
    ensures FourFollow(WORDS2, WORDS3, 4)
  {
  }

  lemma FourC3()
    ensures FourFollow(WORDS2, WORDS3, 8)
  {
  }

  lemma FourD3()
    ensures FourFollow(WORDS2, WORDS3, 12)
  {
  }

  lemma Block3(m: seq<bv32>)
    requires Scheduled(m, 32, WORDS2)
    ensures Scheduled(m, 48, WORDS3)
  {
    hide Scheduled, FourFollow;
    FourA3();
    FourB3();
    FourC3();
    FourD3();
    Sixteen(m, 32, WORDS2, WORDS3);
  }

  lemma FourA4()
    ensures FourFollow(WORDS3, WORDS4, 0)
  {
  }

  lemma FourB4()
    ensures FourFollow(WORDS3, WORDS4, 4)
  {
  }

  lemma FourC4()
    ensures FourFollow(WORDS3, WORDS4, 8)
  {
  }

  lemma FourD4()
    ensures FourFollow(WORDS3, WORDS4, 12)
  {
  }

  lemma Block4(m: seq<bv32>)
    requires Scheduled(m, 48, WORDS3)
    ensures Scheduled(m, 64, WORDS4)
  {
    hide Scheduled, FourFollow;
    FourA4();
    FourB4();
    FourC4();
    FourD4();
    Sixteen(m, 48, WORDS3, WORDS4);
  }

  // ----- The rounds ----------------------------------------------------------------------------------

  ghost predicate Reached(m: seq<bv32>, t: nat, s: Registers) {
    |m| == 16 && State(m, INITIAL, t) == s
  }

  lemma Known(m: seq<bv32>, t: nat, w0: bv32, w1: bv32, w2: bv32, w3: bv32, w4: bv32, w5: bv32, w6: bv32, w7: bv32,
              w8: bv32, w9: bv32, w10: bv32, w11: bv32, w12: bv32, w13: bv32, w14: bv32, w15: bv32)
    requires Scheduled(m, t, [w0, w1, w2, w3, w4, w5, w6, w7, w8, w9, w10, w11, w12, w13, w14, w15])
    ensures |m| == 16
    ensures W(m, t) == w0 && W(m, t + 1) == w1 && W(m, t + 2) == w2 && W(m, t + 3) == w3
    ensures W(m, t + 4) == w4 && W(m, t + 5) == w5 && W(m, t + 6) == w6 && W(m, t + 7) == w7
    ensures W(m, t + 8) == w8 && W(m, t + 9) == w9 && W(m, t + 10) == w10 && W(m, t + 11) == w11
    ensures W(m, t + 12) == w12 && W(m, t + 13) == w13 && W(m, t + 14) == w14 && W(m, t + 15) == w15
  {
    hide W;
    var ws := [w0, w1, w2, w3, w4, w5, w6, w7, w8, w9, w10, w11, w12, w13, w14, w15];
    assert W(m, t + 0) == ws[0];
    assert ws[1] == w1 && ws[2] == w2 && ws[3] == w3 && ws[4] == w4 && ws[5] == w5 && ws[6] == w6 && ws[7] == w7;
    assert ws[8] == w8 && ws[9] == w9 && ws[10] == w10 && ws[11] == w11 && ws[12] == w12 && ws[13] == w13;
    assert ws[14] == w14 && ws[15] == w15;
  }

  /** One round: what the first register gets; the others move on. */
  lemma Next(m: seq<bv32>, t: nat, s: Registers, w: bv32, a: bv32) returns (s': Registers)
    requires Reached(m, t, s) && W(m, t) == w
    requires Temp(Rol(s.a, 5), F(t, s.b, s.c, s.d), s.e, w, K(t)) == a
    ensures s' == Registers(a, s.a, Rol(s.b, 30), s.c, s.d) && Reached(m, t + 1, s')
  {
    hide W, Temp, Rol, F, K;
    s' := Registers(a, s.a, Rol(s.b, 30), s.c, s.d);
  }

  lemma Rounds0(m: seq<bv32>)
    requires Scheduled(m, 0, WORDS0)
    requires Reached(m, 0, Registers(0x67452301, 0xefcdab89, 0x98badcfe, 0x10325476, 0xc3d2e1f0))
    ensures Reached(m, 16, Registers(0x20bdd62f, 0x196bee77, 0x644a3da5, 0x1181ed99, 0x18c623f9))
  {
    hide Scheduled, Reached, W;
    Known(m, 0, 0x61626380, 0x00000000, 0x00000000, 0x00000000, 0x00000000, 0x00000000, 0x00000000, 0x00000000,
          0x00000000, 0x00000000, 0x00000000, 0x00000000, 0x00000000, 0x00000000, 0x00000000, 0x00000018);
    var s := Registers(0x67452301, 0xefcdab89, 0x98badcfe, 0x10325476, 0xc3d2e1f0);
    s := Next(m, 0, s, 0x61626380, 0x0116fc33);
    s := Next(m, 1, s, 0x00000000, 0x8990536d);
    s := Next(m, 2, s, 0x00000000, 0xa1390f08);
    s := Next(m, 3, s, 0x00000000, 0xcdd8e11b);
    s := Next(m, 4, s, 0x00000000, 0xcfd499de);
    s := Next(m, 5, s, 0x00000000, 0x3fc7ca40);
    s := Next(m, 6, s, 0x00000000, 0x993e30c1);
    s := Next(m, 7, s, 0x00000000, 0x9e8c07d4);
    s := Next(m, 8, s, 0x00000000, 0x4b6ae328);
    s := Next(m, 9, s, 0x00000000, 0x8351f929);
    s := Next(m, 10, s, 0x00000000, 0xfbda9e89);
    s := Next(m, 11, s, 0x00000000, 0x63188fe4);
    s := Next(m, 12, s, 0x00000000, 0x4607b664);
    s := Next(m, 13, s, 0x00000000, 0x9128f695);
    s := Next(m, 14, s, 0x00000000, 0x196bee77);
    s := Next(m, 15, s, 0x00000018, 0x20bdd62f);
  }

  lemma Rounds1(m: seq<bv32>)
    requires Scheduled(m, 16, WORDS1)
    requires Reached(m, 16, Registers(0x20bdd62f, 0x196bee77, 0x644a3da5, 0x1181ed99, 0x18c623f9))
    ensures Reached(m, 32, Registers(0x3b845d33, 0x1267b407, 0x717eebd7, 0xa0dc2d4b, 0xd2aa1365))
  {
    hide Scheduled, Reached, W;
    Known(m, 16, 0xc2c4c700, 0x00000000, 0x00000030, 0x85898e01, 0x00000000, 0x00000060, 0x0b131c03, 0x00000030,
          0x85898ec1, 0x16263806, 0x00000000, 0x00000180, 0x2c4c700c, 0x000000f0, 0x93afb507, 0x5898e048);
    var s := Registers(0x20bdd62f, 0x196bee77, 0x644a3da5, 0x1181ed99, 0x18c623f9);
    s := Next(m, 16, s, 0xc2c4c700, 0x4e925823);
    s := Next(m, 17, s, 0x00000000, 0x82aa6728);
    s := Next(m, 18, s, 0x00000030, 0xdc64901d);
    s := Next(m, 19, s, 0x85898e01, 0xfd9e1d7d);
    s := Next(m, 20, s, 0x00000000, 0x1a37b0ca);
    s := Next(m, 21, s, 0x00000060, 0x33a23bfc);
    s := Next(m, 22, s, 0x0b131c03, 0x21283486);
    s := Next(m, 23, s, 0x00000030, 0xd541f12d);
    s := Next(m, 24, s, 0x85898ec1, 0xc7567dc6);
    s := Next(m, 25, s, 0x16263806, 0x48413ba4);
    s := Next(m, 26, s, 0x00000000, 0xbe35fbd5);
    s := Next(m, 27, s, 0x00000180, 0x4aa84d97);
    s := Next(m, 28, s, 0x2c4c700c, 0x8370b52e);
    s := Next(m, 29, s, 0x000000f0, 0xc5fbaf5d);
    s := Next(m, 30, s, 0x93afb507, 0x1267b407);
    s := Next(m, 31, s, 0x5898e048, 0x3b845d33);
  }

  lemma Rounds2(m: seq<bv32>)
    requires Scheduled(m, 32, WORDS2)
    requires Reached(m, 32, Registers(0x3b845d33, 0x1267b407, 0x717eebd7, 0xa0dc2d4b, 0xd2aa1365))
    ensures Reached(m, 48, Registers(0xbead02ca, 0xa01b846c, 0x8714787c, 0x503ca382, 0xfb86c6ab))
  {
    hide Scheduled, Reached, W;
    Known(m, 32, 0x8e9a9202, 0x00000600, 0xb131c0f0, 0x16263bc6, 0x4ebed41e, 0x626380a1, 0x16263806, 0x000018c0,
          0xd2e138c4, 0x00000f00, 0x3afb5079, 0x898e04e5, 0xe2ba3c2b, 0x000060c0, 0x053a37cd, 0x74458547);
    var s := Registers(0x3b845d33, 0x1267b407, 0x717eebd7, 0xa0dc2d4b, 0xd2aa1365);
    s := Next(m, 32, s, 0x8e9a9202, 0x046faa0a);
    s := Next(m, 33, s, 0x00000600, 0x2c0ebc11);
    s := Next(m, 34, s, 0xb131c0f0, 0x21796ad4);
    s := Next(m, 35, s, 0x16263bc6, 0xdcbbb0cb);
    s := Next(m, 36, s, 0x4ebed41e, 0x0f511fd8);
    s := Next(m, 37, s, 0x626380a1, 0xdc63973f);
    s := Next(m, 38, s, 0x16263806, 0x4c986405);
    s := Next(m, 39, s, 0x000018c0, 0x32de1cba);
    s := Next(m, 40, s, 0xd2e138c4, 0xfc87dedf);
    s := Next(m, 41, s, 0x00000f00, 0x970a0d5c);
    s := Next(m, 42, s, 0x3afb5079, 0x7f193dc5);
    s := Next(m, 43, s, 0x898e04e5, 0xee1b1aaf);
    s := Next(m, 44, s, 0xe2ba3c2b, 0x40f28e09);
    s := Next(m, 45, s, 0x000060c0, 0x1c51e1f2);
    s := Next(m, 46, s, 0x053a37cd, 0xa01b846c);
    s := Next(m, 47, s, 0x74458547, 0xbead02ca);
  }

  lemma Rounds3(m: seq<bv32>)
    requires Scheduled(m, 48, WORDS3)
    requires Reached(m, 48, Registers(0xbead02ca, 0xa01b846c, 0x8714787c, 0x503ca382, 0xfb86c6ab))
    ensures Reached(m, 64, Registers(0x6b61c9e1, 0xb66c020b, 0x9523272c, 0xf5d5b051, 0x8fd4b796))
  {
    hide Scheduled, Reached, W;
    Known(m, 48, 0xda9415ed, 0x26380a16, 0x626383a1, 0x4ebf54de, 0x3835b44b, 0x0000f600, 0x1e84c7a3, 0x98e04d98,
          0x651d16a0, 0x62658ca1, 0x458544d6, 0x44584cb7, 0x7ba06619, 0x6380aea2, 0x0ae55269, 0x627b49a1);
    var s := Registers(0xbead02ca, 0xa01b846c, 0x8714787c, 0x503ca382, 0xfb86c6ab);
    s := Next(m, 48, s, 0xda9415ed, 0xbaf39337);
    s := Next(m, 49, s, 0x26380a16, 0x120731c5);
    s := Next(m, 50, s, 0x626383a1, 0x641db2ce);
    s := Next(m, 51, s, 0x4ebf54de, 0x3847ad66);
    s := Next(m, 52, s, 0x3835b44b, 0xe490436d);
    s := Next(m, 53, s, 0x0000f600, 0x27e9f1d8);
    s := Next(m, 54, s, 0x1e84c7a3, 0x7b71f76d);
    s := Next(m, 55, s, 0x98e04d98, 0x5e6456af);
    s := Next(m, 56, s, 0x651d16a0, 0xc846093f);
    s := Next(m, 57, s, 0x62658ca1, 0xd262ff50);
    s := Next(m, 58, s, 0x458544d6, 0x09d785fd);
    s := Next(m, 59, s, 0x44584cb7, 0x3f52de5a);
    s := Next(m, 60, s, 0x7ba06619, 0xd756c147);
    s := Next(m, 61, s, 0x6380aea2, 0x548c9cb2);
    s := Next(m, 62, s, 0x0ae55269, 0xb66c020b);
    s := Next(m, 63, s, 0x627b49a1, 0x6b61c9e1);
  }

  lemma Rounds4(m: seq<bv32>)
    requires Scheduled(m, 64, WORDS4)
    requires Reached(m, 64, Registers(0x6b61c9e1, 0xb66c020b, 0x9523272c, 0xf5d5b051, 0x8fd4b796))
    ensures Reached(m, 80, Registers(0x42541b35, 0x5738d5e1, 0x21834873, 0x681e6df6, 0xd8fdf6ad))
  {
    hide Scheduled, Reached, W;
    Known(m, 64, 0x7cd45c9d, 0x000f0000, 0xfb50753a, 0xec6765e8, 0xba3c2be2, 0x0060c000, 0x3a37cd05, 0x458546f4,
          0xb8599dd6, 0x380a1a26, 0x01e02203, 0xe7cc3456, 0xe6e60b69, 0x00f60a00, 0x5795ef4f, 0x822e0879);
    var s := Registers(0x6b61c9e1, 0xb66c020b, 0x9523272c, 0xf5d5b051, 0x8fd4b796);
    s := Next(m, 64, s, 0x7cd45c9d, 0x19dfa7ac);
    s := Next(m, 65, s, 0x000f0000, 0x101655f9);
    s := Next(m, 66, s, 0xfb50753a, 0x0c3df2b4);
    s := Next(m, 67, s, 0xec6765e8, 0x78dd4d2b);
    s := Next(m, 68, s, 0xba3c2be2, 0x497093c0);
    s := Next(m, 69, s, 0x0060c000, 0x3f2588c2);
    s := Next(m, 70, s, 0x3a37cd05, 0xc199f8c7);
    s := Next(m, 71, s, 0x458546f4, 0x39859de7);
    s := Next(m, 72, s, 0xb8599dd6, 0xedb42de4);
    s := Next(m, 73, s, 0x380a1a26, 0x11793f6f);
    s := Next(m, 74, s, 0x01e02203, 0x5ee76897);
    s := Next(m, 75, s, 0xe7cc3456, 0x63f7dab7);
    s := Next(m, 76, s, 0xe6e60b69, 0xa079b7d9);
    s := Next(m, 77, s, 0x00f60a00, 0x860d21cc);
    s := Next(m, 78, s, 0x5795ef4f, 0x5738d5e1);
    s := Next(m, 79, s, 0x822e0879, 0x42541b35);
  }

  lemma Start(m: seq<bv32>)
    requires m == WORDS0
    ensures Scheduled(m, 0, WORDS0) && Reached(m, 0, INITIAL)
  {
  }

  lemma End(m: seq<bv32>)
    requires Reached(m, 80, Registers(0x42541b35, 0x5738d5e1, 0x21834873, 0x681e6df6, 0xd8fdf6ad))
    ensures Compress(INITIAL, m) == Registers(0xa9993e36, 0x4706816a, 0xba3e2571, 0x7850c26c, 0x9cd0d89d)
  {
    hide State;
  }

  lemma AbcCompressed()
    ensures Compress(INITIAL, WORDS0) == Registers(0xa9993e36, 0x4706816a, 0xba3e2571, 0x7850c26c, 0x9cd0d89d)
  {
    hide Scheduled, Reached, Compress;
    var m := WORDS0;
    Start(m);
    Rounds0(m);
    Block1(m);
    Rounds1(m);
    Block2(m);
    Rounds2(m);
    Block3(m);
    Rounds3(m);
    Block4(m);
    Rounds4(m);
    End(m);
  }

  // ----- The digest ----------------------------------------------------------------------------------

  const MESSAGE: seq<Byte> := [0x61, 0x62, 0x63]
  const DIGEST: seq<Byte> := [
    0xa9, 0x99, 0x3e, 0x36, 0x47, 0x06, 0x81, 0x6a, 0xba, 0x3e,
    0x25, 0x71, 0x78, 0x50, 0xc2, 0x6c, 0x9c, 0xd0, 0xd8, 0x9d
  ]

  lemma LengthOfThree()
    ensures LengthBytes(3) == [0, 0, 0, 0, 0, 0, 0, 24]
  {
    hide WordBytes, High, Low;
    TwentyFourBits();
    BytesOfLength();
    assert WordBytes(0) + WordBytes(24) == [0, 0, 0, 0, 0, 0, 0, 24];
  }

  lemma TwentyFourBits()
    ensures High(3) == 0 && Low(3) == 24
  {
    assert 8 * 3 / Sha1Stream.WORD % Sha1Stream.WORD == 0 && 8 * 3 % Sha1Stream.WORD == 24;
  }

  lemma BytesOfLength()
    ensures WordBytes(0) == [0, 0, 0, 0] && WordBytes(24) == [0, 0, 0, 24]
  {
  }

  lemma FourAtATime()
    ensures WordOf(0x61, 0x62, 0x63, 0x80) == 0x61626380 && WordOf(0, 0, 0, 0) == 0 && WordOf(0, 0, 0, 24) == 24
  {
  }

  lemma AbcPadded()
    ensures |Padded(MESSAGE)| == 64 && Block(Padded(MESSAGE)) == WORDS0
  {
    hide LengthBytes, WordOf;
    LengthOfThree();
    FourAtATime();
    var p := Padded(MESSAGE);
    assert p == MESSAGE + [0x80] + Zeros(52) + [0, 0, 0, 0, 0, 0, 0, 24];
    assert forall i :: 4 <= i < 63 ==> p[i] == 0;
    assert forall i :: 1 <= i < 15 ==> WORDS0[i] == 0;
  }

  lemma FourBytes()
    ensures WordBytes(0xa9993e36) == [0xa9, 0x99, 0x3e, 0x36] && WordBytes(0x4706816a) == [0x47, 0x06, 0x81, 0x6a]
    ensures WordBytes(0xba3e2571) == [0xba, 0x3e, 0x25, 0x71] && WordBytes(0x7850c26c) == [0x78, 0x50, 0xc2, 0x6c]
    ensures WordBytes(0x9cd0d89d) == [0x9c, 0xd0, 0xd8, 0x9d]
  {
  }

  lemma FiveWords(a: bv32, b: bv32, c: bv32, d: bv32, e: bv32)
    ensures Output(Registers(a, b, c, d, e))
         == [] + WordBytes(a) + WordBytes(b) + WordBytes(c) + WordBytes(d) + WordBytes(e)
  {
    hide WordBytes;
    assert [a, b, c, d, e][..4] == [a, b, c, d] && [a, b, c, d][..3] == [a, b, c];
    assert [a, b, c][..2] == [a, b] && [a, b][..1] == [a] && [a][..0] == [];
    assert Bytes([a]) == [] + WordBytes(a);
    assert Bytes([a, b]) == [] + WordBytes(a) + WordBytes(b);
    assert Bytes([a, b, c]) == [] + WordBytes(a) + WordBytes(b) + WordBytes(c);
    assert Bytes([a, b, c, d]) == [] + WordBytes(a) + WordBytes(b) + WordBytes(c) + WordBytes(d);
  }

  lemma AbcOutput()
    ensures Output(Registers(0xa9993e36, 0x4706816a, 0xba3e2571, 0x7850c26c, 0x9cd0d89d)) == DIGEST
  {
    hide Output, WordBytes;
    FourBytes();
    FiveWords(0xa9993e36, 0x4706816a, 0xba3e2571, 0x7850c26c, 0x9cd0d89d);
  }

  lemma OneBlockFold(p: seq<Byte>)
    requires |p| == 64
    ensures Fold(p) == Compress(INITIAL, Block(p))
  {
    hide Compress, Block;
    assert p[..0] == [] && p[0..] == p;
  }

  /** Main result: the digest of `abc` is that of the standard. */
  lemma AbcDigest()
    ensures Output(Fold(Padded(MESSAGE))) == DIGEST
  {
    hide Output, Fold, Padded, Compress, Block;
    AbcPadded();
    OneBlockFold(Padded(MESSAGE));
    AbcCompressed();
    AbcOutput();
  }

  /** So does the code, however the message is cut. */
  method HashAbc(pieces: seq<seq<Byte>>) returns (out: seq<Byte>)
    requires Joint(pieces) == MESSAGE
    ensures out == DIGEST
  {
    hide Output, Fold, Padded, Joint;
    AbcDigest();
    out := Hash(pieces);
  }
}
