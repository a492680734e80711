/**
 The digests the standards give as examples: "abc" (FIPS PUB 180-1, Appendix A) and the sample handshake of
 section 1.3 of RFC 6455, whose hashed text takes two blocks. Each block's schedule and rounds are written out.
 */
module Sha1Examples {
  import opened Bytes
  import opened Sha1Spec

  /** The word that the words three, eight, fourteen and sixteen places before it give. */
  function Mixed(x: word, y: word, z: word, w: word): word
  {
    RotL(1, x ^ y ^ z ^ w)
  }

  lemma WordUnfolds(block: seq<byte>, t: nat)
    requires |block| == 64 && 16 <= t < 80
    ensures Schedule(block, t) == Mixed(Schedule(block, t - 3), Schedule(block, t - 8), Schedule(block, t - 14), Schedule(block, t - 16))
  {
  }

  /** Sixteen words of the schedule, from the word t on. */
  predicate Sixteen(block: seq<byte>, t: nat,
                    w0: word, w1: word, w2: word, w3: word, w4: word, w5: word, w6: word, w7: word,
                    w8: word, w9: word, w10: word, w11: word, w12: word, w13: word, w14: word, w15: word)
    requires |block| == 64 && t + 16 <= 80
  {
    Schedule(block, t + 0) == w0 && Schedule(block, t + 1) == w1 && Schedule(block, t + 2) == w2 && Schedule(block, t + 3) == w3 &&
    Schedule(block, t + 4) == w4 && Schedule(block, t + 5) == w5 && Schedule(block, t + 6) == w6 && Schedule(block, t + 7) == w7 &&
    Schedule(block, t + 8) == w8 && Schedule(block, t + 9) == w9 && Schedule(block, t + 10) == w10 && Schedule(block, t + 11) == w11 &&
    Schedule(block, t + 12) == w12 && Schedule(block, t + 13) == w13 && Schedule(block, t + 14) == w14 && Schedule(block, t + 15) == w15
  }

  /** Sixteen words of the schedule give the next sixteen. */
  lemma NextWords(block: seq<byte>, t: nat,
                  w0: word, w1: word, w2: word, w3: word, w4: word, w5: word, w6: word, w7: word,
                  w8: word, w9: word, w10: word, w11: word, w12: word, w13: word, w14: word, w15: word,
                  n0: word, n1: word, n2: word, n3: word, n4: word, n5: word, n6: word, n7: word,
                  n8: word, n9: word, n10: word, n11: word, n12: word, n13: word, n14: word, n15: word)
    requires |block| == 64 && t + 32 <= 80
    requires Sixteen(block, t, w0, w1, w2, w3, w4, w5, w6, w7, w8, w9, w10, w11, w12, w13, w14, w15)
    requires n0 == Mixed(w13, w8, w2, w0)
    requires n1 == Mixed(w14, w9, w3, w1)
    requires n2 == Mixed(w15, w10, w4, w2)
    requires n3 == Mixed(n0, w11, w5, w3)
    requires n4 == Mixed(n1, w12, w6, w4)
    requires n5 == Mixed(n2, w13, w7, w5)
    requires n6 == Mixed(n3, w14, w8, w6)
    requires n7 == Mixed(n4, w15, w9, w7)
    requires n8 == Mixed(n5, n0, w10, w8)
    requires n9 == Mixed(n6, n1, w11, w9)
    requires n10 == Mixed(n7, n2, w12, w10)
    requires n11 == Mixed(n8, n3, w13, w11)
    requires n12 == Mixed(n9, n4, w14, w12)
    requires n13 == Mixed(n10, n5, w15, w13)
    requires n14 == Mixed(n11, n6, n0, w14)
    requires n15 == Mixed(n12, n7, n1, w15)
    ensures Sixteen(block, t + 16, n0, n1, n2, n3, n4, n5, n6, n7, n8, n9, n10, n11, n12, n13, n14, n15)
  {
    hide Schedule, Mixed;
    WordUnfolds(block, t + 16);
    WordUnfolds(block, t + 17);
    WordUnfolds(block, t + 18);
    WordUnfolds(block, t + 19);
    WordUnfolds(block, t + 20);
    WordUnfolds(block, t + 21);
    WordUnfolds(block, t + 22);
    WordUnfolds(block, t + 23);
    WordUnfolds(block, t + 24);
    WordUnfolds(block, t + 25);
    WordUnfolds(block, t + 26);
    WordUnfolds(block, t + 27);
    WordUnfolds(block, t + 28);
    WordUnfolds(block, t + 29);
    WordUnfolds(block, t + 30);
    WordUnfolds(block, t + 31);
  }

  /** The registers, read off the last five values of A. */
  function Registers(r0: word, r1: word, r2: word, r3: word, r4: word): State
  {
    State(r4, r3, RotL(30, r2), RotL(30, r1), RotL(30, r0))
  }

  lemma Turn(block: seq<byte>, h: State, t: nat)
    requires |block| == 64 && t < 80
    ensures var s := Rounds(block, h, t);
            Rounds(block, h, t + 1) ==
            State(Plus(Plus(Plus(Plus(RotL(5, s.a), F(t, s.b, s.c, s.d)), s.e), Schedule(block, t)), K(t)), s.a, RotL(30, s.b), s.c, s.d)
  {
    hide Schedule, RotL, Plus, F, K;
  }

  /** Sixteen rounds, from the last five values of A and sixteen words. */
  lemma NextRounds(block: seq<byte>, h: State, t: nat, r0: word, r1: word, r2: word, r3: word, r4: word,
                   w0: word, w1: word, w2: word, w3: word, w4: word, w5: word, w6: word, w7: word,
                   w8: word, w9: word, w10: word, w11: word, w12: word, w13: word, w14: word, w15: word,
                   r5: word, r6: word, r7: word, r8: word, r9: word, r10: word, r11: word, r12: word,
                   r13: word, r14: word, r15: word, r16: word, r17: word, r18: word, r19: word, r20: word)
    requires |block| == 64 && t + 16 <= 80
    requires Rounds(block, h, t) == Registers(r0, r1, r2, r3, r4)
    requires Sixteen(block, t, w0, w1, w2, w3, w4, w5, w6, w7, w8, w9, w10, w11, w12, w13, w14, w15)
    requires r5 == Plus(Plus(Plus(Plus(RotL(5, r4), F(t + 0, r3, RotL(30, r2), RotL(30, r1))), RotL(30, r0)), w0), K(t + 0))
    requires r6 == Plus(Plus(Plus(Plus(RotL(5, r5), F(t + 1, r4, RotL(30, r3), RotL(30, r2))), RotL(30, r1)), w1), K(t + 1))
    requires r7 == Plus(Plus(Plus(Plus(RotL(5, r6), F(t + 2, r5, RotL(30, r4), RotL(30, r3))), RotL(30, r2)), w2), K(t + 2))
    requires r8 == Plus(Plus(Plus(Plus(RotL(5, r7), F(t + 3, r6, RotL(30, r5), RotL(30, r4))), RotL(30, r3)), w3), K(t + 3))
    requires r9 == Plus(Plus(Plus(Plus(RotL(5, r8), F(t + 4, r7, RotL(30, r6), RotL(30, r5))), RotL(30, r4)), w4), K(t + 4))
    requires r10 == Plus(Plus(Plus(Plus(RotL(5, r9), F(t + 5, r8, RotL(30, r7), RotL(30, r6))), RotL(30, r5)), w5), K(t + 5))
    requires r11 == Plus(Plus(Plus(Plus(RotL(5, r10), F(t + 6, r9, RotL(30, r8), RotL(30, r7))), RotL(30, r6)), w6), K(t + 6))
    requires r12 == Plus(Plus(Plus(Plus(RotL(5, r11), F(t + 7, r10, RotL(30, r9), RotL(30, r8))), RotL(30, r7)), w7), K(t + 7))
    requires r13 == Plus(Plus(Plus(Plus(RotL(5, r12), F(t + 8, r11, RotL(30, r10), RotL(30, r9))), RotL(30, r8)), w8), K(t + 8))
    requires r14 == Plus(Plus(Plus(Plus(RotL(5, r13), F(t + 9, r12, RotL(30, r11), RotL(30, r10))), RotL(30, r9)), w9), K(t + 9))
    requires r15 == Plus(Plus(Plus(Plus(RotL(5, r14), F(t + 10, r13, RotL(30, r12), RotL(30, r11))), RotL(30, r10)), w10), K(t + 10))
    requires r16 == Plus(Plus(Plus(Plus(RotL(5, r15), F(t + 11, r14, RotL(30, r13), RotL(30, r12))), RotL(30, r11)), w11), K(t + 11))
    requires r17 == Plus(Plus(Plus(Plus(RotL(5, r16), F(t + 12, r15, RotL(30, r14), RotL(30, r13))), RotL(30, r12)), w12), K(t + 12))
    requires r18 == Plus(Plus(Plus(Plus(RotL(5, r17), F(t + 13, r16, RotL(30, r15), RotL(30, r14))), RotL(30, r13)), w13), K(t + 13))
    requires r19 == Plus(Plus(Plus(Plus(RotL(5, r18), F(t + 14, r17, RotL(30, r16), RotL(30, r15))), RotL(30, r14)), w14), K(t + 14))
    requires r20 == Plus(Plus(Plus(Plus(RotL(5, r19), F(t + 15, r18, RotL(30, r17), RotL(30, r16))), RotL(30, r15)), w15), K(t + 15))
    ensures Rounds(block, h, t + 16) == Registers(r16, r17, r18, r19, r20)
  {
    hide Schedule, Rounds, RotL, Plus, F, K;
    Turn(block, h, t + 0);
    Turn(block, h, t + 1);
    Turn(block, h, t + 2);
    Turn(block, h, t + 3);
    Turn(block, h, t + 4);
    Turn(block, h, t + 5);
    Turn(block, h, t + 6);
    Turn(block, h, t + 7);
    Turn(block, h, t + 8);
    Turn(block, h, t + 9);
    Turn(block, h, t + 10);
    Turn(block, h, t + 11);
    Turn(block, h, t + 12);
    Turn(block, h, t + 13);
    Turn(block, h, t + 14);
    Turn(block, h, t + 15);
  }

  lemma NoRounds(block: seq<byte>, h: State)
    requires |block| == 64
    ensures Rounds(block, h, 0) == h
  {
  }

  lemma AbcBegins(block: seq<byte>, h: State, t: nat)
    requires |block| == 64 && h == State(0x67452301, 0xEFCDAB89, 0x98BADCFE, 0x10325476, 0xC3D2E1F0) && t == 48
    requires Sixteen(block, 0,
                     0x61626380, 0x00000000, 0x00000000, 0x00000000, 0x00000000, 0x00000000, 0x00000000, 0x00000000,
                     0x00000000, 0x00000000, 0x00000000, 0x00000000, 0x00000000, 0x00000000, 0x00000000, 0x00000018)
    ensures Sixteen(block, t - 16,
                    0x8E9A9202, 0x00000600, 0xB131C0F0, 0x16263BC6, 0x4EBED41E, 0x626380A1, 0x16263806, 0x000018C0,
                    0xD2E138C4, 0x00000F00, 0x3AFB5079, 0x898E04E5, 0xE2BA3C2B, 0x000060C0, 0x053A37CD, 0x74458547)
    ensures Rounds(block, h, t) == Registers(0xEE1B1AAF, 0x40F28E09, 0x1C51E1F2, 0xA01B846C, 0xBEAD02CA)
  {
    hide Schedule, Rounds, Sixteen;
    NoRounds(block, h);
    NextRounds(block, h, 0, 0x0F4B87C3, 0x40C951D8, 0x62EB73FA, 0xEFCDAB89, 0x67452301,
               0x61626380, 0x00000000, 0x00000000, 0x00000000, 0x00000000, 0x00000000, 0x00000000, 0x00000000,
               0x00000000, 0x00000000, 0x00000000, 0x00000000, 0x00000000, 0x00000000, 0x00000000, 0x00000018,
               0x0116FC33, 0x8990536D, 0xA1390F08, 0xCDD8E11B, 0xCFD499DE, 0x3FC7CA40, 0x993E30C1, 0x9E8C07D4,
               0x4B6AE328, 0x8351F929, 0xFBDA9E89, 0x63188FE4, 0x4607B664, 0x9128F695, 0x196BEE77, 0x20BDD62F);
    NextWords(block, 0,
              0x61626380, 0x00000000, 0x00000000, 0x00000000, 0x00000000, 0x00000000, 0x00000000, 0x00000000,
              0x00000000, 0x00000000, 0x00000000, 0x00000000, 0x00000000, 0x00000000, 0x00000000, 0x00000018,
              0xC2C4C700, 0x00000000, 0x00000030, 0x85898E01, 0x00000000, 0x00000060, 0x0B131C03, 0x00000030,
              0x85898EC1, 0x16263806, 0x00000000, 0x00000180, 0x2C4C700C, 0x000000F0, 0x93AFB507, 0x5898E048);
    NextRounds(block, h, 16, 0x63188FE4, 0x4607B664, 0x9128F695, 0x196BEE77, 0x20BDD62F,
               0xC2C4C700, 0x00000000, 0x00000030, 0x85898E01, 0x00000000, 0x00000060, 0x0B131C03, 0x00000030,
               0x85898EC1, 0x16263806, 0x00000000, 0x00000180, 0x2C4C700C, 0x000000F0, 0x93AFB507, 0x5898E048,
               0x4E925823, 0x82AA6728, 0xDC64901D, 0xFD9E1D7D, 0x1A37B0CA, 0x33A23BFC, 0x21283486, 0xD541F12D,
               0xC7567DC6, 0x48413BA4, 0xBE35FBD5, 0x4AA84D97, 0x8370B52E, 0xC5FBAF5D, 0x1267B407, 0x3B845D33);
    NextWords(block, 16,
              0xC2C4C700, 0x00000000, 0x00000030, 0x85898E01, 0x00000000, 0x00000060, 0x0B131C03, 0x00000030,
              0x85898EC1, 0x16263806, 0x00000000, 0x00000180, 0x2C4C700C, 0x000000F0, 0x93AFB507, 0x5898E048,
              0x8E9A9202, 0x00000600, 0xB131C0F0, 0x16263BC6, 0x4EBED41E, 0x626380A1, 0x16263806, 0x000018C0,
              0xD2E138C4, 0x00000F00, 0x3AFB5079, 0x898E04E5, 0xE2BA3C2B, 0x000060C0, 0x053A37CD, 0x74458547);
    NextRounds(block, h, 32, 0x4AA84D97, 0x8370B52E, 0xC5FBAF5D, 0x1267B407, 0x3B845D33,
               0x8E9A9202, 0x00000600, 0xB131C0F0, 0x16263BC6, 0x4EBED41E, 0x626380A1, 0x16263806, 0x000018C0,
               0xD2E138C4, 0x00000F00, 0x3AFB5079, 0x898E04E5, 0xE2BA3C2B, 0x000060C0, 0x053A37CD, 0x74458547,
               0x046FAA0A, 0x2C0EBC11, 0x21796AD4, 0xDCBBB0CB, 0x0F511FD8, 0xDC63973F, 0x4C986405, 0x32DE1CBA,
               0xFC87DEDF, 0x970A0D5C, 0x7F193DC5, 0xEE1B1AAF, 0x40F28E09, 0x1C51E1F2, 0xA01B846C, 0xBEAD02CA);
  }

  lemma AbcRounds(block: seq<byte>, h: State, t: nat)
    requires |block| == 64 && h == State(0x67452301, 0xEFCDAB89, 0x98BADCFE, 0x10325476, 0xC3D2E1F0) && t == 80
    requires Sixteen(block, 0,
                     0x61626380, 0x00000000, 0x00000000, 0x00000000, 0x00000000, 0x00000000, 0x00000000, 0x00000000,
                     0x00000000, 0x00000000, 0x00000000, 0x00000000, 0x00000000, 0x00000000, 0x00000000, 0x00000018)
    ensures AddStates(h, Rounds(block, h, t)) == State(0xA9993E36, 0x4706816A, 0xBA3E2571, 0x7850C26C, 0x9CD0D89D)
  {
    hide Schedule, Rounds, Sixteen;
    AbcBegins(block, h, 48);
    NextWords(block, 32,
              0x8E9A9202, 0x00000600, 0xB131C0F0, 0x16263BC6, 0x4EBED41E, 0x626380A1, 0x16263806, 0x000018C0,
              0xD2E138C4, 0x00000F00, 0x3AFB5079, 0x898E04E5, 0xE2BA3C2B, 0x000060C0, 0x053A37CD, 0x74458547,
              0xDA9415ED, 0x26380A16, 0x626383A1, 0x4EBF54DE, 0x3835B44B, 0x0000F600, 0x1E84C7A3, 0x98E04D98,
              0x651D16A0, 0x62658CA1, 0x458544D6, 0x44584CB7, 0x7BA06619, 0x6380AEA2, 0x0AE55269, 0x627B49A1);
    NextRounds(block, h, 48, 0xEE1B1AAF, 0x40F28E09, 0x1C51E1F2, 0xA01B846C, 0xBEAD02CA,
               0xDA9415ED, 0x26380A16, 0x626383A1, 0x4EBF54DE, 0x3835B44B, 0x0000F600, 0x1E84C7A3, 0x98E04D98,
               0x651D16A0, 0x62658CA1, 0x458544D6, 0x44584CB7, 0x7BA06619, 0x6380AEA2, 0x0AE55269, 0x627B49A1,
               0xBAF39337, 0x120731C5, 0x641DB2CE, 0x3847AD66, 0xE490436D, 0x27E9F1D8, 0x7B71F76D, 0x5E6456AF,
               0xC846093F, 0xD262FF50, 0x09D785FD, 0x3F52DE5A, 0xD756C147, 0x548C9CB2, 0xB66C020B, 0x6B61C9E1);
    NextWords(block, 48,
              0xDA9415ED, 0x26380A16, 0x626383A1, 0x4EBF54DE, 0x3835B44B, 0x0000F600, 0x1E84C7A3, 0x98E04D98,
              0x651D16A0, 0x62658CA1, 0x458544D6, 0x44584CB7, 0x7BA06619, 0x6380AEA2, 0x0AE55269, 0x627B49A1,
              0x7CD45C9D, 0x000F0000, 0xFB50753A, 0xEC6765E8, 0xBA3C2BE2, 0x0060C000, 0x3A37CD05, 0x458546F4,
              0xB8599DD6, 0x380A1A26, 0x01E02203, 0xE7CC3456, 0xE6E60B69, 0x00F60A00, 0x5795EF4F, 0x822E0879);
    NextRounds(block, h, 64, 0x3F52DE5A, 0xD756C147, 0x548C9CB2, 0xB66C020B, 0x6B61C9E1,
               0x7CD45C9D, 0x000F0000, 0xFB50753A, 0xEC6765E8, 0xBA3C2BE2, 0x0060C000, 0x3A37CD05, 0x458546F4,
               0xB8599DD6, 0x380A1A26, 0x01E02203, 0xE7CC3456, 0xE6E60B69, 0x00F60A00, 0x5795EF4F, 0x822E0879,
               0x19DFA7AC, 0x101655F9, 0x0C3DF2B4, 0x78DD4D2B, 0x497093C0, 0x3F2588C2, 0xC199F8C7, 0x39859DE7,
               0xEDB42DE4, 0x11793F6F, 0x5EE76897, 0x63F7DAB7, 0xA079B7D9, 0x860D21CC, 0x5738D5E1, 0x42541B35);
  }

  lemma KeyStartBegins(block: seq<byte>, h: State, t: nat)
    requires |block| == 64 && h == State(0x67452301, 0xEFCDAB89, 0x98BADCFE, 0x10325476, 0xC3D2E1F0) && t == 48
    requires Sixteen(block, 0,
                     0x6447686C, 0x49484E68, 0x62584273, 0x5A534275, 0x6232356A, 0x5A513D3D, 0x32353845, 0x41464135,
                     0x2D453931, 0x342D3437, 0x44412D39, 0x3543412D, 0x43354142, 0x30444338, 0x35423131, 0x80000000)
    ensures Sixteen(block, t - 16,
                    0x15CDAE35, 0x531E5DC5, 0x6FB6B7D0, 0x6C16E4AC, 0x4DDD36BD, 0x35D36946, 0xE8AE8B9C, 0x4A933AD0,
                    0xCE8628B4, 0x415DBA9E, 0x2792F049, 0x8E9B79E7, 0x79C425C5, 0x6353B49D, 0x00994218, 0x8A950ED1)
    ensures Rounds(block, h, t) == Registers(0x6DC6A3D7, 0x5F5F3452, 0x72FF334D, 0xDEE4B7A8, 0xABE1748A)
  {
    hide Schedule, Rounds, Sixteen;
    NoRounds(block, h);
    NextRounds(block, h, 0, 0x0F4B87C3, 0x40C951D8, 0x62EB73FA, 0xEFCDAB89, 0x67452301,
               0x6447686C, 0x49484E68, 0x62584273, 0x5A534275, 0x6232356A, 0x5A513D3D, 0x32353845, 0x41464135,
               0x2D453931, 0x342D3437, 0x44412D39, 0x3543412D, 0x43354142, 0x30444338, 0x35423131, 0x80000000,
               0x03FC011F, 0x2F793F55, 0xBE90EE8F, 0x53E039AC, 0xDD8C7C12, 0x7320B969, 0x73553E84, 0x2E0CE601,
               0x32BEB05A, 0xFAAD2675, 0x5FF4238C, 0x34CEB986, 0x61BDB2BF, 0xAE1A096E, 0xE922CC9D, 0xA004C468);
    NextWords(block, 0,
              0x6447686C, 0x49484E68, 0x62584273, 0x5A534275, 0x6232356A, 0x5A513D3D, 0x32353845, 0x41464135,
              0x2D453931, 0x342D3437, 0x44412D39, 0x3543412D, 0x43354142, 0x30444338, 0x35423131, 0x80000000,
              0x363CA02C, 0x24E81236, 0x8856B441, 0x06FB3C92, 0x6FB4BCB6, 0x460B16E3, 0x599219AE, 0x35BF9369,
              0x3267458E, 0xF828FD04, 0x753A96A7, 0x6336F612, 0xC3D66383, 0x06EB86F9, 0x73B4FD42, 0xA503C5B8);
    NextRounds(block, h, 16, 0x34CEB986, 0x61BDB2BF, 0xAE1A096E, 0xE922CC9D, 0xA004C468,
               0x363CA02C, 0x24E81236, 0x8856B441, 0x06FB3C92, 0x6FB4BCB6, 0x460B16E3, 0x599219AE, 0x35BF9369,
               0x3267458E, 0xF828FD04, 0x753A96A7, 0x6336F612, 0xC3D66383, 0x06EB86F9, 0x73B4FD42, 0xA503C5B8,
               0xD7DAF575, 0x7EBB296B, 0x8DC510B6, 0x091AB97C, 0x518470A3, 0xD12F0B56, 0xBEAFD554, 0x250E26EF,
               0x23D1C91B, 0x748B39A0, 0xEF012F20, 0x571F7D82, 0x1ABB1C37, 0x081B63E5, 0xB7DABC8B, 0xA6680A1F);
    NextWords(block, 16,
              0x363CA02C, 0x24E81236, 0x8856B441, 0x06FB3C92, 0x6FB4BCB6, 0x460B16E3, 0x599219AE, 0x35BF9369,
              0x3267458E, 0xF828FD04, 0x753A96A7, 0x6336F612, 0xC3D66383, 0x06EB86F9, 0x73B4FD42, 0xA503C5B8,
              0x15CDAE35, 0x531E5DC5, 0x6FB6B7D0, 0x6C16E4AC, 0x4DDD36BD, 0x35D36946, 0xE8AE8B9C, 0x4A933AD0,
              0xCE8628B4, 0x415DBA9E, 0x2792F049, 0x8E9B79E7, 0x79C425C5, 0x6353B49D, 0x00994218, 0x8A950ED1);
    NextRounds(block, h, 32, 0x571F7D82, 0x1ABB1C37, 0x081B63E5, 0xB7DABC8B, 0xA6680A1F,
               0x15CDAE35, 0x531E5DC5, 0x6FB6B7D0, 0x6C16E4AC, 0x4DDD36BD, 0x35D36946, 0xE8AE8B9C, 0x4A933AD0,
               0xCE8628B4, 0x415DBA9E, 0x2792F049, 0x8E9B79E7, 0x79C425C5, 0x6353B49D, 0x00994218, 0x8A950ED1,
               0x1AE360A9, 0xEEABA35A, 0x149BB4D3, 0x9DE793C8, 0x4CCD2227, 0x68760824, 0xD0869081, 0x2BA2C83E,
               0xCB8C52D0, 0x4F589A44, 0x868829B7, 0x6DC6A3D7, 0x5F5F3452, 0x72FF334D, 0xDEE4B7A8, 0xABE1748A);
  }

  lemma KeyStartRounds(block: seq<byte>, h: State, t: nat)
    requires |block| == 64 && h == State(0x67452301, 0xEFCDAB89, 0x98BADCFE, 0x10325476, 0xC3D2E1F0) && t == 80
    requires Sixteen(block, 0,
                     0x6447686C, 0x49484E68, 0x62584273, 0x5A534275, 0x6232356A, 0x5A513D3D, 0x32353845, 0x41464135,
                     0x2D453931, 0x342D3437, 0x44412D39, 0x3543412D, 0x43354142, 0x30444338, 0x35423131, 0x80000000)
    ensures AddStates(h, Rounds(block, h, t)) == State(0x5BCF7727, 0x7327416A, 0xBE7BFBF9, 0x5A781878, 0x5E46A4E2)
  {
    hide Schedule, Rounds, Sixteen;
    KeyStartBegins(block, h, 48);
    NextWords(block, 32,
              0x15CDAE35, 0x531E5DC5, 0x6FB6B7D0, 0x6C16E4AC, 0x4DDD36BD, 0x35D36946, 0xE8AE8B9C, 0x4A933AD0,
              0xCE8628B4, 0x415DBA9E, 0x2792F049, 0x8E9B79E7, 0x79C425C5, 0x6353B49D, 0x00994218, 0x8A950ED1,
              0xAF5D0B99, 0xFD9883DE, 0x1ED8FFEB, 0xF007FF28, 0x425E3674, 0x059631C0, 0xAD6C3C31, 0x860B71D7,
              0x87BFC548, 0x3E64F92D, 0x8D0AB761, 0x34E1EE35, 0x0ACF5108, 0xC2B479DA, 0x6C93370A, 0xF7935BA1);
    NextRounds(block, h, 48, 0x6DC6A3D7, 0x5F5F3452, 0x72FF334D, 0xDEE4B7A8, 0xABE1748A,
               0xAF5D0B99, 0xFD9883DE, 0x1ED8FFEB, 0xF007FF28, 0x425E3674, 0x059631C0, 0xAD6C3C31, 0x860B71D7,
               0x87BFC548, 0x3E64F92D, 0x8D0AB761, 0x34E1EE35, 0x0ACF5108, 0xC2B479DA, 0x6C93370A, 0xF7935BA1,
               0x7510D04F, 0x065F8486, 0x0E5D77C4, 0x10E7F671, 0x26C69395, 0x4C608AC4, 0x50C9104C, 0x7E1242F2,
               0x6EF6FEF4, 0x0C247C2E, 0xD284F163, 0x4872D85A, 0xCD4200B8, 0x90F00D8F, 0x840054D3, 0x685E2FF6);
    NextWords(block, 48,
              0xAF5D0B99, 0xFD9883DE, 0x1ED8FFEB, 0xF007FF28, 0x425E3674, 0x059631C0, 0xAD6C3C31, 0x860B71D7,
              0x87BFC548, 0x3E64F92D, 0x8D0AB761, 0x34E1EE35, 0x0ACF5108, 0xC2B479DA, 0x6C93370A, 0xF7935BA1,
              0xE91C91C1, 0xBED165A2, 0x4C3E4ABE, 0x50D96238, 0xB6587DDE, 0x1A2EE6E6, 0x2D335896, 0xF3495D0B,
              0xF30E0A1D, 0x32CE5459, 0x7165E3B8, 0xAB05FF94, 0xC5949F0B, 0xBCD84E4A, 0x07720392, 0xFF3FF806);
    NextRounds(block, h, 64, 0x4872D85A, 0xCD4200B8, 0x90F00D8F, 0x840054D3, 0x685E2FF6,
               0xE91C91C1, 0xBED165A2, 0x4C3E4ABE, 0x50D96238, 0xB6587DDE, 0x1A2EE6E6, 0x2D335896, 0xF3495D0B,
               0xF30E0A1D, 0x32CE5459, 0x7165E3B8, 0xAB05FF94, 0xC5949F0B, 0xBCD84E4A, 0x07720392, 0xFF3FF806,
               0xA4CEE018, 0xC3C2E45B, 0x53131A40, 0xCF8658EC, 0x966E049A, 0x07381B7E, 0x80D59773, 0x7E65E044,
               0x628E7B47, 0x143A8388, 0xE20983F9, 0x69CF0BCA, 0x29171009, 0x97047BEC, 0x835995E1, 0xF48A5426);
  }

  lemma KeyEndBegins(block: seq<byte>, h: State, t: nat)
    requires |block| == 64 && h == State(0x5BCF7727, 0x7327416A, 0xBE7BFBF9, 0x5A781878, 0x5E46A4E2) && t == 48
    requires Sixteen(block, 0,
                     0x00000000, 0x00000000, 0x00000000, 0x00000000, 0x00000000, 0x00000000, 0x00000000, 0x00000000,
                     0x00000000, 0x00000000, 0x00000000, 0x00000000, 0x00000000, 0x00000000, 0x00000000, 0x000001E0)
    ensures Sixteen(block, t - 16,
                    0x00000000, 0x00007800, 0x00000F00, 0x00003300, 0x0000F000, 0x00000F00, 0x00000000, 0x0001EF00,
                    0x00000000, 0x0000CC00, 0x0003C000, 0x00004380, 0x00000000, 0x00078F00, 0x0000FF00, 0x00032680)
    ensures Rounds(block, h, t) == Registers(0x1E934ACF, 0xFC7BD35F, 0x3BD9203B, 0xC8CDA3DA, 0xA3EF857E)
  {
    hide Schedule, Rounds, Sixteen;
    NoRounds(block, h);
    NextRounds(block, h, 0, 0x791A9389, 0x69E061E1, 0xF9EFEFE6, 0x7327416A, 0x5BCF7727,
               0x00000000, 0x00000000, 0x00000000, 0x00000000, 0x00000000, 0x00000000, 0x00000000, 0x00000000,
               0x00000000, 0x00000000, 0x00000000, 0x00000000, 0x00000000, 0x00000000, 0x00000000, 0x000001E0,
               0x6D335CDE, 0x186006B8, 0xF9FB295D, 0x15855523, 0xE43DD2F2, 0x93A5EFBB, 0xB3BBCAFE, 0x25C018BE,
               0x80946593, 0x0B0814C3, 0x4CE92417, 0x250601AD, 0x6576D2DC, 0xAD43F39E, 0x990B7BE7, 0x986DF268);
    NextWords(block, 0,
              0x00000000, 0x00000000, 0x00000000, 0x00000000, 0x00000000, 0x00000000, 0x00000000, 0x00000000,
              0x00000000, 0x00000000, 0x00000000, 0x00000000, 0x00000000, 0x00000000, 0x00000000, 0x000001E0,
              0x00000000, 0x00000000, 0x000003C0, 0x00000000, 0x00000000, 0x00000780, 0x00000000, 0x000003C0,
              0x00000F00, 0x00000000, 0x00000000, 0x00001E00, 0x00000000, 0x00000CC0, 0x00003C00, 0x00000440);
    NextRounds(block, h, 16, 0x250601AD, 0x6576D2DC, 0xAD43F39E, 0x990B7BE7, 0x986DF268,
               0x00000000, 0x00000000, 0x000003C0, 0x00000000, 0x00000000, 0x00000780, 0x00000000, 0x000003C0,
               0x00000F00, 0x00000000, 0x00000000, 0x00001E00, 0x00000000, 0x00000CC0, 0x00003C00, 0x00000440,
               0x3AD7440E, 0x72198F06, 0x2F193A09, 0x2A008B51, 0x12315B2B, 0x40FBCF98, 0x3E5179E7, 0x53C73650,
               0x1D24C44A, 0x646C677D, 0xD2E726DA, 0x9327DF6F, 0xF57CB53E, 0x243EE057, 0xF4DDD7B7, 0x3CF6EB58);
    NextWords(block, 16,
              0x00000000, 0x00000000, 0x000003C0, 0x00000000, 0x00000000, 0x00000780, 0x00000000, 0x000003C0,
              0x00000F00, 0x00000000, 0x00000000, 0x00001E00, 0x00000000, 0x00000CC0, 0x00003C00, 0x00000440,
              0x00000000, 0x00007800, 0x00000F00, 0x00003300, 0x0000F000, 0x00000F00, 0x00000000, 0x0001EF00,
              0x00000000, 0x0000CC00, 0x0003C000, 0x00004380, 0x00000000, 0x00078F00, 0x0000FF00, 0x00032680);
    NextRounds(block, h, 32, 0x9327DF6F, 0xF57CB53E, 0x243EE057, 0xF4DDD7B7, 0x3CF6EB58,
               0x00000000, 0x00007800, 0x00000F00, 0x00003300, 0x0000F000, 0x00000F00, 0x00000000, 0x0001EF00,
               0x00000000, 0x0000CC00, 0x0003C000, 0x00004380, 0x00000000, 0x00078F00, 0x0000FF00, 0x00032680,
               0x730E9170, 0x96D9E59E, 0x942AC4D3, 0x76922A14, 0x7DBCF2ED, 0x796ADEF3, 0xC6FF0CD3, 0x6F698F1A,
               0x78716769, 0xFC343A02, 0xEDFCD85B, 0x1E934ACF, 0xFC7BD35F, 0x3BD9203B, 0xC8CDA3DA, 0xA3EF857E);
  }

  lemma KeyEndRounds(block: seq<byte>, h: State, t: nat)
    requires |block| == 64 && h == State(0x5BCF7727, 0x7327416A, 0xBE7BFBF9, 0x5A781878, 0x5E46A4E2) && t == 80
    requires Sixteen(block, 0,
                     0x00000000, 0x00000000, 0x00000000, 0x00000000, 0x00000000, 0x00000000, 0x00000000, 0x00000000,
                     0x00000000, 0x00000000, 0x00000000, 0x00000000, 0x00000000, 0x00000000, 0x00000000, 0x000001E0)
    ensures AddStates(h, Rounds(block, h, t)) == State(0xB37A4F2C, 0xC0624F16, 0x90F64606, 0xCF385945, 0xB2BEC4EA)
  {
    hide Schedule, Rounds, Sixteen;
    KeyEndBegins(block, h, 48);
    NextWords(block, 32,
              0x00000000, 0x00007800, 0x00000F00, 0x00003300, 0x0000F000, 0x00000F00, 0x00000000, 0x0001EF00,
              0x00000000, 0x0000CC00, 0x0003C000, 0x00004380, 0x00000000, 0x00078F00, 0x0000FF00, 0x00032680,
              0x000F0000, 0x0000F000, 0x00003300, 0x001EFF00, 0x00000000, 0x000CB800, 0x003C0000, 0x00040B00,
              0x0000F000, 0x0078FF00, 0x000FF000, 0x00338700, 0x00F00000, 0x000FC300, 0x0000F000, 0x01EFBB00);
    NextRounds(block, h, 48, 0x1E934ACF, 0xFC7BD35F, 0x3BD9203B, 0xC8CDA3DA, 0xA3EF857E,
               0x000F0000, 0x0000F000, 0x00003300, 0x001EFF00, 0x00000000, 0x000CB800, 0x003C0000, 0x00040B00,
               0x0000F000, 0x0078FF00, 0x000FF000, 0x00338700, 0x00F00000, 0x000FC300, 0x0000F000, 0x01EFBB00,
               0xA39F2041, 0xA516F265, 0xA3ABE4F5, 0x5FE2A3DB, 0x9E540637, 0x2C73BD78, 0x660DD0B1, 0xA1B68141,
               0x05033FA3, 0x21289715, 0x085EB2FE, 0x56119F19, 0x77489E23, 0x11132F8F, 0xD5EF1ED7, 0xA5937450);
    NextWords(block, 48,
              0x000F0000, 0x0000F000, 0x00003300, 0x001EFF00, 0x00000000, 0x000CB800, 0x003C0000, 0x00040B00,
              0x0000F000, 0x0078FF00, 0x000FF000, 0x00338700, 0x00F00000, 0x000FC300, 0x0000F000, 0x01EFBB00,
              0x00000000, 0x00CC0000, 0x03C0F000, 0x00438000, 0x00000000, 0x078F0000, 0x00FF0000, 0x03269E00,
              0x0F000000, 0x00F0F000, 0x00333C00, 0x1EFF8800, 0x00000000, 0x0CB88800, 0x3C00F000, 0x040A4A00);
    NextRounds(block, h, 64, 0x56119F19, 0x77489E23, 0x11132F8F, 0xD5EF1ED7, 0xA5937450,
               0x00000000, 0x00CC0000, 0x03C0F000, 0x00438000, 0x00000000, 0x078F0000, 0x00FF0000, 0x03269E00,
               0x0F000000, 0x00F0F000, 0x00333C00, 0x1EFF8800, 0x00000000, 0x0CB88800, 0x3C00F000, 0x040A4A00,
               0x9ECFA66C, 0x17A22EF7, 0xC97F1968, 0x097A511C, 0x4E363DB9, 0xBF3A7F95, 0xF6D1AFEE, 0xC90888CA,
               0xC7652EDB, 0x26F99990, 0xE22B36D1, 0x51E08021, 0xD3010335, 0x49E92837, 0x4D3B0DAC, 0x57AAD805);
  }

  lemma Word(block: seq<byte>, t: nat, b0: byte, b1: byte, b2: byte, b3: byte)
    requires |block| == 64 && t < 16
    requires block[4 * t] == b0 && block[4 * t + 1] == b1 && block[4 * t + 2] == b2 && block[4 * t + 3] == b3
    ensures Schedule(block, t) == BigEndianWord(b0, b1, b2, b3)
  {
  }

  /** A run of zero words. */
  lemma ZeroWords(block: seq<byte>, from: nat, end: nat)
    requires |block| == 64 && end <= 16 && forall k :: 4 * from <= k < 4 * end ==> block[k] == 0
    ensures forall t :: from <= t < end ==> Schedule(block, t) == 0
  {
    forall t | from <= t < end
      ensures Schedule(block, t) == 0
    {
      Word(block, t, 0, 0, 0, 0);
    }
  }

  lemma OneBlock(p: seq<byte>)
    requires |p| == 64
    ensures HashBlocks(p) == Compress(INITIAL, p)
  {
    hide Compress;
    assert p[..0] == [] && p[0..] == p;
    assert HashBlocks([]) == INITIAL;
  }

  lemma TwoBlocks(p: seq<byte>)
    requires |p| == 128
    ensures HashBlocks(p) == Compress(Compress(INITIAL, p[..64]), p[64..])
  {
    hide Compress;
    OneBlock(p[..64]);
  }

  lemma AbcBlock(p: seq<byte>)
    requires p == Pad([0x61, 0x62, 0x63])
    ensures |p| == 64 && p[0] == 0x61 && p[1] == 0x62 && p[2] == 0x63 && p[3] == 0x80 && p[63] == 0x18
    ensures forall k :: 4 <= k < 63 ==> p[k] == 0
  {
    assert BigEndian64(24) == [0, 0, 0, 0, 0, 0, 0, 0x18];
    assert ZeroCount(3) == 52;
  }

  lemma AbcSixteen(block: seq<byte>)
    requires block == Pad([0x61, 0x62, 0x63]) && |block| == 64
    ensures Sixteen(block, 0,
                    0x61626380, 0x00000000, 0x00000000, 0x00000000, 0x00000000, 0x00000000, 0x00000000, 0x00000000,
                    0x00000000, 0x00000000, 0x00000000, 0x00000000, 0x00000000, 0x00000000, 0x00000000, 0x00000018)
  {
    hide Schedule, Pad;
    AbcBlock(block);
    Word(block, 0, 0x61, 0x62, 0x63, 0x80);
    ZeroWords(block, 1, 15);
    Word(block, 15, 0, 0, 0, 0x18);
  }

  /** The example of Appendix A of FIPS PUB 180-1. */
  lemma Abc()
    ensures DigestOf([0x61, 0x62, 0x63]) == State(0xA9993E36, 0x4706816A, 0xBA3E2571, 0x7850C26C, 0x9CD0D89D)
  {
    hide Pad, HashBlocks, Rounds, Sixteen;
    var p := Pad([0x61, 0x62, 0x63]);
    AbcBlock(p);
    OneBlock(p);
    AbcSixteen(p);
    AbcRounds(p, INITIAL, 80);
  }

  /** The sample key of section 1.3 of RFC 6455 followed by the fixed identifier, in three parts. */
  function SampleText(): (m: seq<byte>)
    ensures |m| == 60
  {
    SampleStart() + SampleMiddle() + SampleEnd()
  }

  function SampleStart(): (m: seq<byte>)
    ensures |m| == 20
  {
    [0x64, 0x47, 0x68, 0x6C, 0x49, 0x48, 0x4E, 0x68, 0x62, 0x58, 0x42, 0x73, 0x5A, 0x53, 0x42, 0x75, 0x62, 0x32, 0x35, 0x6A]
  }

  function SampleMiddle(): (m: seq<byte>)
    ensures |m| == 20
  {
    [0x5A, 0x51, 0x3D, 0x3D, 0x32, 0x35, 0x38, 0x45, 0x41, 0x46, 0x41, 0x35, 0x2D, 0x45, 0x39, 0x31, 0x34, 0x2D, 0x34, 0x37]
  }

  function SampleEnd(): (m: seq<byte>)
    ensures |m| == 20
  {
    [0x44, 0x41, 0x2D, 0x39, 0x35, 0x43, 0x41, 0x2D, 0x43, 0x35, 0x41, 0x42, 0x30, 0x44, 0x43, 0x38, 0x35, 0x42, 0x31, 0x31]
  }

  lemma SampleBlocks(p: seq<byte>)
    requires p == Pad(SampleText())
    ensures |p| == 128 && p[..60] == SampleText() && p[60] == 0x80 && p[126] == 0x01 && p[127] == 0xE0
    ensures forall k :: 61 <= k < 126 ==> p[k] == 0
  {
    hide SampleText;
    assert BigEndian64(480) == [0, 0, 0, 0, 0, 0, 0x01, 0xE0];
    assert ZeroCount(60) == 59;
  }

  lemma SampleStartWords(block: seq<byte>, m: seq<byte>)
    requires |block| == 64 && m == SampleStart() && forall k :: 0 <= k < 20 ==> block[0 + k] == m[k]
    ensures Schedule(block, 0) == 0x6447686C && Schedule(block, 1) == 0x49484E68 && Schedule(block, 2) == 0x62584273
    ensures Schedule(block, 3) == 0x5A534275 && Schedule(block, 4) == 0x6232356A
  {
    hide Schedule;
    SampleStartIs(m);
    Word(block, 0, 0x64, 0x47, 0x68, 0x6C);
    Word(block, 1, 0x49, 0x48, 0x4E, 0x68);
    Word(block, 2, 0x62, 0x58, 0x42, 0x73);
    Word(block, 3, 0x5A, 0x53, 0x42, 0x75);
    Word(block, 4, 0x62, 0x32, 0x35, 0x6A);
  }

  lemma SampleStartIs(m: seq<byte>)
    requires m == SampleStart()
    ensures m[0] == 0x64 && m[1] == 0x47 && m[2] == 0x68 && m[3] == 0x6C && m[4] == 0x49 && m[5] == 0x48 && m[6] == 0x4E && m[7] == 0x68 && m[8] == 0x62 && m[9] == 0x58
    ensures m[10] == 0x42 && m[11] == 0x73 && m[12] == 0x5A && m[13] == 0x53 && m[14] == 0x42 && m[15] == 0x75 && m[16] == 0x62 && m[17] == 0x32 && m[18] == 0x35 && m[19] == 0x6A
  {
  }

  lemma SampleMiddleWords(block: seq<byte>, m: seq<byte>)
    requires |block| == 64 && m == SampleMiddle() && forall k :: 0 <= k < 20 ==> block[20 + k] == m[k]
    ensures Schedule(block, 5) == 0x5A513D3D && Schedule(block, 6) == 0x32353845 && Schedule(block, 7) == 0x41464135
    ensures Schedule(block, 8) == 0x2D453931 && Schedule(block, 9) == 0x342D3437
  {
    hide Schedule;
    SampleMiddleIs(m);
    Word(block, 5, 0x5A, 0x51, 0x3D, 0x3D);
    Word(block, 6, 0x32, 0x35, 0x38, 0x45);
    Word(block, 7, 0x41, 0x46, 0x41, 0x35);
    Word(block, 8, 0x2D, 0x45, 0x39, 0x31);
    Word(block, 9, 0x34, 0x2D, 0x34, 0x37);
  }

  lemma SampleMiddleIs(m: seq<byte>)
    requires m == SampleMiddle()
    ensures m[0] == 0x5A && m[1] == 0x51 && m[2] == 0x3D && m[3] == 0x3D && m[4] == 0x32 && m[5] == 0x35 && m[6] == 0x38 && m[7] == 0x45 && m[8] == 0x41 && m[9] == 0x46
    ensures m[10] == 0x41 && m[11] == 0x35 && m[12] == 0x2D && m[13] == 0x45 && m[14] == 0x39 && m[15] == 0x31 && m[16] == 0x34 && m[17] == 0x2D && m[18] == 0x34 && m[19] == 0x37
  {
  }

  lemma SampleEndWords(block: seq<byte>, m: seq<byte>)
    requires |block| == 64 && m == SampleEnd() && forall k :: 0 <= k < 20 ==> block[40 + k] == m[k]
    ensures Schedule(block, 10) == 0x44412D39 && Schedule(block, 11) == 0x3543412D && Schedule(block, 12) == 0x43354142
    ensures Schedule(block, 13) == 0x30444338 && Schedule(block, 14) == 0x35423131
  {
    hide Schedule;
    SampleEndIs(m);
    Word(block, 10, 0x44, 0x41, 0x2D, 0x39);
    Word(block, 11, 0x35, 0x43, 0x41, 0x2D);
    Word(block, 12, 0x43, 0x35, 0x41, 0x42);
    Word(block, 13, 0x30, 0x44, 0x43, 0x38);
    Word(block, 14, 0x35, 0x42, 0x31, 0x31);
  }

  lemma SampleEndIs(m: seq<byte>)
    requires m == SampleEnd()
    ensures m[0] == 0x44 && m[1] == 0x41 && m[2] == 0x2D && m[3] == 0x39 && m[4] == 0x35 && m[5] == 0x43 && m[6] == 0x41 && m[7] == 0x2D && m[8] == 0x43 && m[9] == 0x35
    ensures m[10] == 0x41 && m[11] == 0x42 && m[12] == 0x30 && m[13] == 0x44 && m[14] == 0x43 && m[15] == 0x38 && m[16] == 0x35 && m[17] == 0x42 && m[18] == 0x31 && m[19] == 0x31
  {
  }

  lemma StartSixteen(block: seq<byte>)
    requires |block| == 64 && block[..60] == SampleText() && block[60] == 0x80 && block[61] == block[62] == block[63] == 0
    ensures Sixteen(block, 0,
                    0x6447686C, 0x49484E68, 0x62584273, 0x5A534275, 0x6232356A, 0x5A513D3D, 0x32353845, 0x41464135,
                    0x2D453931, 0x342D3437, 0x44412D39, 0x3543412D, 0x43354142, 0x30444338, 0x35423131, 0x80000000)
  {
    hide Schedule, SampleStart, SampleMiddle, SampleEnd;
    var m := SampleText();
    assert forall k :: 0 <= k < 60 ==> block[k] == block[..60][k] == m[k];
    assert forall k :: 0 <= k < 20 ==> block[k] == m[k] == SampleStart()[k];
    assert forall k :: 0 <= k < 20 ==> block[20 + k] == m[20 + k] == SampleMiddle()[k];
    assert forall k :: 0 <= k < 20 ==> block[40 + k] == m[40 + k] == SampleEnd()[k];
    SampleStartWords(block, SampleStart());
    SampleMiddleWords(block, SampleMiddle());
    SampleEndWords(block, SampleEnd());
    Word(block, 15, 0x80, 0, 0, 0);
  }

  lemma EndSixteen(block: seq<byte>)
    requires |block| == 64 && (forall k :: 0 <= k < 62 ==> block[k] == 0) && block[62] == 0x01 && block[63] == 0xE0
    ensures Sixteen(block, 0,
                    0x00000000, 0x00000000, 0x00000000, 0x00000000, 0x00000000, 0x00000000, 0x00000000, 0x00000000,
                    0x00000000, 0x00000000, 0x00000000, 0x00000000, 0x00000000, 0x00000000, 0x00000000, 0x000001E0)
  {
    hide Schedule;
    ZeroWords(block, 0, 15);
    Word(block, 15, 0, 0, 0x01, 0xE0);
  }

  /** The digest section 1.3 of RFC 6455 gives for its sample key. */
  lemma SampleDigest()
    ensures DigestOf(SampleText()) == State(0xB37A4F2C, 0xC0624F16, 0x90F64606, 0xCF385945, 0xB2BEC4EA)
  {
    hide Pad, HashBlocks, Rounds, Sixteen, SampleText;
    var p := Pad(SampleText());
    SampleBlocks(p);
    TwoBlocks(p);
    assert p[..64][..60] == SampleText();
    StartSixteen(p[..64]);
    KeyStartRounds(p[..64], INITIAL, 80);
    EndSixteen(p[64..]);
    KeyEndRounds(p[64..], State(0x5BCF7727, 0x7327416A, 0xBE7BFBF9, 0x5A781878, 0x5E46A4E2), 80);
  }
}
