/** A known answer: the digest of the three bytes "abc", and where the round constants come from. Code and
    definition share the constants, so that only their values can tell them from others. */
module Sha1Answer {
  import opened Bytes
  import opened Wire
  import opened Sha1Spec

  /** Section 4.2.1 of FIPS 180-4 takes its constants from the square roots of 2, 3, 5 and 10: K(t) is
      the integer part of 2^30 times the root. */
  lemma ConstantsAreRoots(t: nat)
    ensures var k, c := K(t) as nat, if t < 20 then 2 else if t < 40 then 3 else if t < 60 then 5 else 10;
            k * k <= c * 0x1000_0000_0000_0000 < (k + 1) * (k + 1)
  {
  }

  /** The length field and the digest words have their most significant byte first. */
  lemma BytesOfNumbers(v: nat, w: nat)
    requires v < 0x1_0000_0000 && w < 0x1_0000_0000_0000_0000
    ensures Value(BigEndian32(v)) == v && Value(BigEndian64(w)) == w
  {
    hide BigEndian32;
    Bytes32(v);
    Bytes32(w / 0x1_0000_0000);
    Bytes32(w % 0x1_0000_0000);
    ValueJoin(BigEndian32(w / 0x1_0000_0000), BigEndian32(w % 0x1_0000_0000));
    assert w == 0x1_0000_0000 * (w / 0x1_0000_0000) + w % 0x1_0000_0000;
  }

  lemma Bytes32(v: nat)
    requires v < 0x1_0000_0000
    ensures Value(BigEndian32(v)) == v
  {
    var b := BigEndian32(v);
    Value4(b[0], b[1], b[2], b[3]);
    assert b == [b[0], b[1], b[2], b[3]];
    Digits(v);
  }

  lemma ValueJoin(a: bytes, b: bytes)
    requires |b| == 4
    ensures Value(a + b) == 0x1_0000_0000 * Value(a) + Value(b)
  {
    Value4(b[0], b[1], b[2], b[3]);
    assert b == [b[0], b[1], b[2], b[3]];
    ValuePush(a + b[..3], b[3]);
    ValuePush(a + b[..2], b[2]);
    ValuePush(a + b[..1], b[1]);
    ValuePush(a, b[0]);
    assert a + b == a + b[..3] + [b[3]] && a + b[..3] == a + b[..2] + [b[2]];
    assert a + b[..2] == a + b[..1] + [b[1]] && a + b[..1] == a + [b[0]];
  }

  lemma ValuePush(a: bytes, x: byte)
    ensures Value(a + [x]) == 256 * Value(a) + x
  {
    assert (a + [x])[..|a|] == a;
  }

  const ABC: bytes := [0x61, 0x62, 0x63]

  /** The one block of the padded message. */
  function AbcBlock(): (block: bytes)
    ensures |block| == 64
  {
    ABC + [0x80] + Zeros(52) + [0, 0, 0, 0, 0, 0, 0, 24]
  }

  lemma AbcPadded()
    ensures Pad(ABC) == AbcBlock()
  {
    assert ZeroCount(3) == 52;
    assert BigEndian64(24) == [0, 0, 0, 0, 0, 0, 0, 24];
  }

  /** Words of its schedule, and registers after t rounds. */
  function S(t: nat): word {
    Schedule(AbcBlock(), t)
  }

  function R(t: nat): Regs {
    Rounds(INITIAL, AbcBlock(), t)
  }

  // ---------------------------------------------------------------------------- the schedule

  lemma FirstWord(t: nat)
    requires t < 16
    ensures S(t) == if t == 0 then 0x61626380 else if t == 15 then 24 else 0
  {
    hide AbcBlock, Word;
    AbcSlice(t);
    AbcWords();
  }

  lemma AbcSlice(t: nat)
    requires t < 16
    ensures AbcBlock()[4 * t..4 * t + 4]
         == if t == 0 then [0x61, 0x62, 0x63, 0x80] else if t == 15 then [0, 0, 0, 24] else [0, 0, 0, 0]
  {
  }

  lemma AbcWords()
    ensures Word([0x61, 0x62, 0x63, 0x80]) == 0x61626380
    ensures Word([0, 0, 0, 0]) == 0 && Word([0, 0, 0, 24]) == 24
  {
    hide Word;
    AbcWord();
    SmallWord(0);
    SmallWord(24);
  }

  lemma AbcWord()
    ensures Word([0x61, 0x62, 0x63, 0x80]) == 0x61626380
  {
    hide Word;
    var x: word := 0x61626380;
    assert x as nat == 0x61626380;
    SameWord(0x61626380, x);
    WordOf(0x61, 0x62, 0x63, 0x80, 0x61626380);
  }

  lemma WordOf(p: byte, q: byte, r: byte, s: byte, v: nat)
    requires v == p * 0x100_0000 + q * 0x1_0000 + r * 0x100 + s
    ensures v < 0x1_0000_0000 && Word([p, q, r, s]) == v as word
  {
  }

  lemma SameWord(v: nat, x: word)
    requires x as nat == v
    ensures v < 0x1_0000_0000 && v as word == x
  {
  }

  lemma SmallWord(b: byte)
    ensures Word([0, 0, 0, b]) == b as word
  {
  }

  lemma NextWord(t: nat)
    requires t >= 16
    ensures S(t) == Rotl(S(t - 3) ^ S(t - 8) ^ S(t - 14) ^ S(t - 16), 1)
  {
    hide AbcBlock;
  }

  // ------------------------------------------------------------------------------ the rounds

  /** One round with its parts spelt out: x and z are the rotated registers, f the mixed ones. */
  lemma NextRound(t: nat, a: word, b: word, c: word, d: word, e: word, x: word, f: word, z: word, w: word, n: word)
    requires R(t) == Regs(a, b, c, d, e) && S(t) == w
    requires Rotl(a, 5) == x && F(t, b, c, d) == f && Rotl(b, 30) == z && Sum(x, f, e, K(t), w) == n
    ensures R(t + 1) == Regs(n, a, z, c, d)
  {
    hide AbcBlock, Schedule, Rotl, F, Sum, K;
  }

  lemma Words0()
    ensures S(0) == 0x61626380 && S(1) == 0x00000000 && S(2) == 0x00000000 && S(3) == 0x00000000
    ensures S(4) == 0x00000000 && S(5) == 0x00000000 && S(6) == 0x00000000 && S(7) == 0x00000000
    ensures S(8) == 0x00000000 && S(9) == 0x00000000 && S(10) == 0x00000000 && S(11) == 0x00000000
    ensures S(12) == 0x00000000 && S(13) == 0x00000000 && S(14) == 0x00000000 && S(15) == 0x00000018
  {
    hide S;
    FirstWord(0); FirstWord(1); FirstWord(2); FirstWord(3);
    FirstWord(4); FirstWord(5); FirstWord(6); FirstWord(7);
    FirstWord(8); FirstWord(9); FirstWord(10); FirstWord(11);
    FirstWord(12); FirstWord(13); FirstWord(14); FirstWord(15);
  }

  lemma Words16()
    ensures S(16) == 0xc2c4c700 && S(17) == 0x00000000 && S(18) == 0x00000030 && S(19) == 0x85898e01
    ensures S(20) == 0x00000000 && S(21) == 0x00000060 && S(22) == 0x0b131c03 && S(23) == 0x00000030
  {
    hide S;
    Words0();
    NextWord(16); NextWord(17); NextWord(18); NextWord(19);
    NextWord(20); NextWord(21); NextWord(22); NextWord(23);
  }

  lemma Words24()
    ensures S(24) == 0x85898ec1 && S(25) == 0x16263806 && S(26) == 0x00000000 && S(27) == 0x00000180
    ensures S(28) == 0x2c4c700c && S(29) == 0x000000f0 && S(30) == 0x93afb507 && S(31) == 0x5898e048
  {
    hide S;
    Words0(); Words16();
    NextWord(24); NextWord(25); NextWord(26); NextWord(27);
    NextWord(28); NextWord(29); NextWord(30); NextWord(31);
  }

  lemma Words32()
    ensures S(32) == 0x8e9a9202 && S(33) == 0x00000600 && S(34) == 0xb131c0f0 && S(35) == 0x16263bc6
    ensures S(36) == 0x4ebed41e && S(37) == 0x626380a1 && S(38) == 0x16263806 && S(39) == 0x000018c0
  {
    hide S;
    Words16(); Words24();
    NextWord(32); NextWord(33); NextWord(34); NextWord(35);
    NextWord(36); NextWord(37); NextWord(38); NextWord(39);
  }

  lemma Words40()
    ensures S(40) == 0xd2e138c4 && S(41) == 0x00000f00 && S(42) == 0x3afb5079 && S(43) == 0x898e04e5
    ensures S(44) == 0xe2ba3c2b && S(45) == 0x000060c0 && S(46) == 0x053a37cd && S(47) == 0x74458547
  {
    hide S;
    Words24(); Words32();
    NextWord(40); NextWord(41); NextWord(42); NextWord(43);
    NextWord(44); NextWord(45); NextWord(46); NextWord(47);
  }

  lemma Words48()
    ensures S(48) == 0xda9415ed && S(49) == 0x26380a16 && S(50) == 0x626383a1 && S(51) == 0x4ebf54de
    ensures S(52) == 0x3835b44b && S(53) == 0x0000f600 && S(54) == 0x1e84c7a3 && S(55) == 0x98e04d98
  {
    hide S;
    Words32(); Words40();
    NextWord(48); NextWord(49); NextWord(50); NextWord(51);
    NextWord(52); NextWord(53); NextWord(54); NextWord(55);
  }

  lemma Words56()
    ensures S(56) == 0x651d16a0 && S(57) == 0x62658ca1 && S(58) == 0x458544d6 && S(59) == 0x44584cb7
    ensures S(60) == 0x7ba06619 && S(61) == 0x6380aea2 && S(62) == 0x0ae55269 && S(63) == 0x627b49a1
  {
    hide S;
    Words40(); Words48();
    NextWord(56); NextWord(57); NextWord(58); NextWord(59);
    NextWord(60); NextWord(61); NextWord(62); NextWord(63);
  }

  lemma Words64()
    ensures S(64) == 0x7cd45c9d && S(65) == 0x000f0000 && S(66) == 0xfb50753a && S(67) == 0xec6765e8
    ensures S(68) == 0xba3c2be2 && S(69) == 0x0060c000 && S(70) == 0x3a37cd05 && S(71) == 0x458546f4
  {
    hide S;
    Words48(); Words56();
    NextWord(64); NextWord(65); NextWord(66); NextWord(67);
    NextWord(68); NextWord(69); NextWord(70); NextWord(71);
  }

  lemma Words72()
    ensures S(72) == 0xb8599dd6 && S(73) == 0x380a1a26 && S(74) == 0x01e02203 && S(75) == 0xe7cc3456
    ensures S(76) == 0xe6e60b69 && S(77) == 0x00f60a00 && S(78) == 0x5795ef4f && S(79) == 0x822e0879
  {
    hide S;
    Words56(); Words64();
    NextWord(72); NextWord(73); NextWord(74); NextWord(75);
    NextWord(76); NextWord(77); NextWord(78); NextWord(79);
  }

  lemma Rounds0()
    ensures R(0) == Regs(0x67452301, 0xefcdab89, 0x98badcfe, 0x10325476, 0xc3d2e1f0)
  {
    hide AbcBlock;
  }

  lemma Rounds20()
    ensures R(20) == Regs(0xfd9e1d7d, 0xdc64901d, 0x20aa99ca, 0xd3a49608, 0xc82f758b)
  {
    hide S, R;
    Rounds0();
    Words0(); Words16();
    NextRound(0, 0x67452301, 0xefcdab89, 0x98badcfe, 0x10325476, 0xc3d2e1f0,
              0xe8a4602c, 0x98badcfe, 0x7bf36ae2, 0x61626380, 0x0116fc33);
    NextRound(1, 0x0116fc33, 0x67452301, 0x7bf36ae2, 0x98badcfe, 0x10325476,
              0x22df8660, 0xfbfbfefe, 0x59d148c0, 0x00000000, 0x8990536d);
    NextRound(2, 0x8990536d, 0x0116fc33, 0x59d148c0, 0x7bf36ae2, 0x98badcfe,
              0x320a6db1, 0x7bf14ac0, 0xc045bf0c, 0x00000000, 0xa1390f08);
    NextRound(3, 0xa1390f08, 0x8990536d, 0xc045bf0c, 0x59d148c0, 0x7bf36ae2,
              0x2721e114, 0xd0411b8c, 0x626414db, 0x00000000, 0xcdd8e11b);
    NextRound(4, 0xcdd8e11b, 0xa1390f08, 0x626414db, 0xc045bf0c, 0x59d148c0,
              0xbb1c2379, 0x6064b40c, 0x284e43c2, 0x00000000, 0xcfd499de);
    NextRound(5, 0xcfd499de, 0xcdd8e11b, 0x284e43c2, 0x626414db, 0xc045bf0c,
              0xfa933bd9, 0x2a6c55c2, 0xf3763846, 0x00000000, 0x3fc7ca40);
    NextRound(6, 0x3fc7ca40, 0xcfd499de, 0xf3763846, 0x284e43c2, 0x626414db,
              0xf8f94807, 0xe35e5a46, 0xb3f52677, 0x00000000, 0x993e30c1);
    NextRound(7, 0x993e30c1, 0x3fc7ca40, 0xb3f52677, 0xf3763846, 0x284e43c2,
              0x27c61833, 0xf3f53246, 0x0ff1f290, 0x00000000, 0x9e8c07d4);
    NextRound(8, 0x9e8c07d4, 0x993e30c1, 0x0ff1f290, 0xb3f52677, 0xf3763846,
              0xd180fa93, 0x2bf136b6, 0x664f8c30, 0x00000000, 0x4b6ae328);
    NextRound(9, 0x4b6ae328, 0x9e8c07d4, 0x664f8c30, 0x0ff1f290, 0xb3f52677,
              0x6d5c6509, 0x077df410, 0x27a301f5, 0x00000000, 0x8351f929);
    NextRound(10, 0x8351f929, 0x4b6ae328, 0x27a301f5, 0x664f8c30, 0x0ff1f290,
              0x6a3f2530, 0x27270d30, 0x12dab8ca, 0x00000000, 0xfbda9e89);
    NextRound(11, 0xfbda9e89, 0x8351f929, 0x12dab8ca, 0x27a301f5, 0x664f8c30,
              0x7b53d13f, 0x26f2b8dc, 0x60d47e4a, 0x00000000, 0x63188fe4);
    NextRound(12, 0x63188fe4, 0xfbda9e89, 0x60d47e4a, 0x12dab8ca, 0x27a301f5,
              0x6311fc8c, 0x60d03e4a, 0x7ef6a7a2, 0x00000000, 0x4607b664);
    NextRound(13, 0x4607b664, 0x63188fe4, 0x7ef6a7a2, 0x60d47e4a, 0x12dab8ca,
              0xc0f6cc88, 0x62d4f7aa, 0x18c623f9, 0x00000000, 0x9128f695);
    NextRound(14, 0x9128f695, 0x4607b664, 0x18c623f9, 0x7ef6a7a2, 0x60d47e4a,
              0x251ed2b2, 0x38f623e2, 0x1181ed99, 0x00000000, 0x196bee77);
    NextRound(15, 0x196bee77, 0x9128f695, 0x1181ed99, 0x18c623f9, 0x7ef6a7a2,
              0x2d7dcee3, 0x19c6e5f9, 0x644a3da5, 0x00000018, 0x20bdd62f);
    NextRound(16, 0x20bdd62f, 0x196bee77, 0x644a3da5, 0x1181ed99, 0x18c623f9,
              0x17bac5e4, 0x00ca2dad, 0xc65afb9d, 0xc2c4c700, 0x4e925823);
    NextRound(17, 0x4e925823, 0x20bdd62f, 0xc65afb9d, 0x644a3da5, 0x1181ed99,
              0xd24b0469, 0x445afb8d, 0xc82f758b, 0x00000000, 0x82aa6728);
    NextRound(18, 0x82aa6728, 0x4e925823, 0xc82f758b, 0xc65afb9d, 0x644a3da5,
              0x554ce510, 0xc84af39f, 0xd3a49608, 0x00000030, 0xdc64901d);
    NextRound(19, 0xdc64901d, 0x82aa6728, 0xd3a49608, 0xc82f758b, 0xc65afb9d,
              0x8c9203bb, 0xcaa5168b, 0x20aa99ca, 0x85898e01, 0xfd9e1d7d);
  }

  lemma Rounds40()
    ensures R(40) == Regs(0x32de1cba, 0x4c986405, 0xf718e5cf, 0x03d447f6, 0xf72eec32)
  {
    hide S, R;
    Rounds20();
    Words16(); Words24(); Words32();
    NextRound(20, 0xfd9e1d7d, 0xdc64901d, 0x20aa99ca, 0xd3a49608, 0xc82f758b,
              0xb3c3afbf, 0x2f6a9fdf, 0x77192407, 0x00000000, 0x1a37b0ca);
    NextRound(21, 0x1a37b0ca, 0xfd9e1d7d, 0x77192407, 0x20aa99ca, 0xd3a49608,
              0x46f61943, 0xaa2da0b0, 0x7f67875f, 0x00000060, 0x33a23bfc);
    NextRound(22, 0x33a23bfc, 0x1a37b0ca, 0x7f67875f, 0x77192407, 0x20aa99ca,
              0x74477f86, 0x12491392, 0x868dec32, 0x0b131c03, 0x21283486);
    NextRound(23, 0x21283486, 0x33a23bfc, 0x868dec32, 0x7f67875f, 0x77192407,
              0x250690c4, 0xca485091, 0x0ce88eff, 0x00000030, 0xd541f12d);
    NextRound(24, 0xd541f12d, 0x21283486, 0x0ce88eff, 0x868dec32, 0x7f67875f,
              0xa83e25ba, 0xab4d564b, 0x884a0d21, 0x85898ec1, 0xc7567dc6);
    NextRound(25, 0xc7567dc6, 0xd541f12d, 0x884a0d21, 0x0ce88eff, 0x868dec32,
              0xeacfb8d8, 0x51e372f3, 0x75507c4b, 0x16263806, 0x48413ba4);
    NextRound(26, 0x48413ba4, 0xc7567dc6, 0x75507c4b, 0x884a0d21, 0x0ce88eff,
              0x08277489, 0x3a4c0cac, 0xb1d59f71, 0x00000000, 0xbe35fbd5);
    NextRound(27, 0xbe35fbd5, 0x48413ba4, 0xb1d59f71, 0x75507c4b, 0x884a0d21,
              0xc6bf7ab7, 0x8cc4d89e, 0x12104ee9, 0x00000180, 0x4aa84d97);
    NextRound(28, 0x4aa84d97, 0xbe35fbd5, 0x12104ee9, 0xb1d59f71, 0x75507c4b,
              0x5509b2e9, 0x1df02a4d, 0x6f8d7ef5, 0x2c4c700c, 0x8370b52e);
    NextRound(29, 0x8370b52e, 0x4aa84d97, 0x6f8d7ef5, 0x12104ee9, 0xb1d59f71,
              0x6e16a5d0, 0x37357d8b, 0xd2aa1365, 0x000000f0, 0xc5fbaf5d);
    NextRound(30, 0xc5fbaf5d, 0x8370b52e, 0xd2aa1365, 0x6f8d7ef5, 0x12104ee9,
              0xbf75ebb8, 0x3e57d8be, 0xa0dc2d4b, 0x93afb507, 0x1267b407);
    NextRound(31, 0x1267b407, 0xc5fbaf5d, 0xa0dc2d4b, 0xd2aa1365, 0x6f8d7ef5,
              0x4cf680e2, 0xb78d9173, 0x717eebd7, 0x5898e048, 0x3b845d33);
    NextRound(32, 0x3b845d33, 0x1267b407, 0x717eebd7, 0xa0dc2d4b, 0xd2aa1365,
              0x708ba667, 0xc3c5729b, 0xc499ed01, 0x8e9a9202, 0x046faa0a);
    NextRound(33, 0x046faa0a, 0x3b845d33, 0xc499ed01, 0x717eebd7, 0xa0dc2d4b,
              0x8df54140, 0x8e635be5, 0xcee1174c, 0x00000600, 0x2c0ebc11);
    NextRound(34, 0x2c0ebc11, 0x046faa0a, 0xcee1174c, 0xc499ed01, 0x717eebd7,
              0x81d78225, 0x0e175047, 0x811bea82, 0xb131c0f0, 0x21796ad4);
    NextRound(35, 0x21796ad4, 0x2c0ebc11, 0x811bea82, 0xcee1174c, 0xc499ed01,
              0x2f2d5a84, 0x63f441df, 0x4b03af04, 0x16263bc6, 0xdcbbb0cb);
    NextRound(36, 0xdcbbb0cb, 0x21796ad4, 0x4b03af04, 0x811bea82, 0xcee1174c,
              0x9776197b, 0xeb612f52, 0x085e5ab5, 0x4ebed41e, 0x0f511fd8);
    NextRound(37, 0x0f511fd8, 0xdcbbb0cb, 0x085e5ab5, 0x4b03af04, 0x811bea82,
              0xea23fb01, 0x9fe6457a, 0xf72eec32, 0x626380a1, 0xdc63973f);
    NextRound(38, 0xdc63973f, 0x0f511fd8, 0xf72eec32, 0x085e5ab5, 0x4b03af04,
              0x8c72e7fb, 0xf021a95f, 0x03d447f6, 0x16263806, 0x4c986405);
    NextRound(39, 0x4c986405, 0xdc63973f, 0x03d447f6, 0xf72eec32, 0x085e5ab5,
              0x930c80a9, 0x28993cfb, 0xf718e5cf, 0x000018c0, 0x32de1cba);
  }

  lemma Rounds60()
    ensures R(60) == Regs(0x3f52de5a, 0x09d785fd, 0x3498bfd4, 0xf211824f, 0xd79915ab)
  {
    hide S, R;
    Rounds40();
    Words40(); Words48(); Words56();
    NextRound(40, 0x32de1cba, 0x4c986405, 0xf718e5cf, 0x03d447f6, 0xf72eec32,
              0x5bc39746, 0x479865c7, 0x53261901, 0xd2e138c4, 0xfc87dedf);
    NextRound(41, 0xfc87dedf, 0x32de1cba, 0x53261901, 0xf718e5cf, 0x03d447f6,
              0x90fbdbff, 0x731e1d8b, 0x8cb7872e, 0x00000f00, 0x970a0d5c);
    NextRound(42, 0x970a0d5c, 0xfc87dedf, 0x8cb7872e, 0x53261901, 0xf718e5cf,
              0xe141ab92, 0xdca79f0f, 0xff21f7b7, 0x3afb5079, 0x7f193dc5);
    NextRound(43, 0x7f193dc5, 0x970a0d5c, 0xff21f7b7, 0x8cb7872e, 0x53261901,
              0xe327b8af, 0x9f23873e, 0x25c28357, 0x898e04e5, 0xee1b1aaf);
    NextRound(44, 0xee1b1aaf, 0x7f193dc5, 0x25c28357, 0xff21f7b7, 0x8cb7872e,
              0xc36355fd, 0x7f01b7d7, 0x5fc64f71, 0xe2ba3c2b, 0x40f28e09);
    NextRound(45, 0x40f28e09, 0xee1b1aaf, 0x5fc64f71, 0x25c28357, 0xff21f7b7,
              0x1e51c128, 0x6fc20b77, 0xfb86c6ab, 0x000060c0, 0x1c51e1f2);
    NextRound(46, 0x1c51e1f2, 0x40f28e09, 0xfb86c6ab, 0x5fc64f71, 0x25c28357,
              0x8a3c3e43, 0x5bc6ce29, 0x503ca382, 0x053a37cd, 0xa01b846c);
    NextRound(47, 0xa01b846c, 0x1c51e1f2, 0x503ca382, 0xfb86c6ab, 0x5fc64f71,
              0x03708d94, 0x5814e3a2, 0x8714787c, 0x74458547, 0xbead02ca);
    NextRound(48, 0xbead02ca, 0xa01b846c, 0x8714787c, 0x503ca382, 0xfb86c6ab,
              0xd5a05957, 0x801ca06c, 0x2806e11b, 0xda9415ed, 0xbaf39337);
    NextRound(49, 0xbaf39337, 0xbead02ca, 0x2806e11b, 0x8714787c, 0x503ca382,
              0x5e7266f7, 0xae04605a, 0xafab40b2, 0x26380a16, 0x120731c5);
    NextRound(50, 0x120731c5, 0xbaf39337, 0xafab40b2, 0x2806e11b, 0x8714787c,
              0x40e638a2, 0xaaa3c133, 0xeebce4cd, 0x626383a1, 0x641db2ce);
    NextRound(51, 0x641db2ce, 0x120731c5, 0xeebce4cd, 0xafab40b2, 0x2806e11b,
              0x83b659cc, 0xaeaf60c5, 0x4481cc71, 0x4ebf54de, 0x3847ad66);
    NextRound(52, 0x3847ad66, 0x641db2ce, 0x4481cc71, 0xeebce4cd, 0xafab40b2,
              0x08f5acc7, 0x649de4cd, 0x99076cb3, 0x3835b44b, 0xe490436d);
    NextRound(53, 0xe490436d, 0x3847ad66, 0x99076cb3, 0x4481cc71, 0xeebce4cd,
              0x92086dbc, 0x1807ec73, 0x8e11eb59, 0x0000f600, 0x27e9f1d8);
    NextRound(54, 0x27e9f1d8, 0xe490436d, 0x8e11eb59, 0x99076cb3, 0x4481cc71,
              0xfd3e3b04, 0x8c116b79, 0x792410db, 0x1e84c7a3, 0x7b71f76d);
    NextRound(55, 0x7b71f76d, 0x27e9f1d8, 0x792410db, 0x8e11eb59, 0x99076cb3,
              0x6e3eedaf, 0x2f21f1d9, 0x09fa7c76, 0x98e04d98, 0x5e6456af);
    NextRound(56, 0x5e6456af, 0x7b71f76d, 0x09fa7c76, 0x792410db, 0x8e11eb59,
              0xcc8ad5eb, 0x7970747f, 0x5edc7ddb, 0x651d16a0, 0xc846093f);
    NextRound(57, 0xc846093f, 0x5e6456af, 0x5edc7ddb, 0x09fa7c76, 0x792410db,
              0x08c127f9, 0x5efc7cff, 0xd79915ab, 0x62658ca1, 0xd262ff50);
    NextRound(58, 0xd262ff50, 0xc846093f, 0xd79915ab, 0x5edc7ddb, 0x09fa7c76,
              0x4c5fea1a, 0xdedc1dbb, 0xf211824f, 0x458544d6, 0x09d785fd);
    NextRound(59, 0x09d785fd, 0xd262ff50, 0xf211824f, 0xd79915ab, 0x5edc7ddb,
              0x3af0bfa1, 0xd211974b, 0x3498bfd4, 0x44584cb7, 0x3f52de5a);
  }

  lemma Rounds80()
    ensures R(80) == Regs(0x42541b35, 0x5738d5e1, 0x21834873, 0x681e6df6, 0xd8fdf6ad)
  {
    hide S, R;
    Rounds60();
    Words56(); Words64(); Words72();
    NextRound(60, 0x3f52de5a, 0x09d785fd, 0x3498bfd4, 0xf211824f, 0xd79915ab,
              0xea5bcb47, 0xcf5eb866, 0x4275e17f, 0x7ba06619, 0xd756c147);
    NextRound(61, 0xd756c147, 0x3f52de5a, 0x4275e17f, 0x3498bfd4, 0xf211824f,
              0xead828fa, 0x49bf80f1, 0x8fd4b796, 0x6380aea2, 0x548c9cb2);
    NextRound(62, 0x548c9cb2, 0xd756c147, 0x8fd4b796, 0x4275e17f, 0x3498bfd4,
              0x9193964a, 0x1af797ae, 0xf5d5b051, 0x0ae55269, 0xb66c020b);
    NextRound(63, 0xb66c020b, 0x548c9cb2, 0xf5d5b051, 0x8fd4b796, 0x4275e17f,
              0xcd804176, 0x2e8d9b75, 0x9523272c, 0x627b49a1, 0x6b61c9e1);
    NextRound(64, 0x6b61c9e1, 0xb66c020b, 0x9523272c, 0xf5d5b051, 0x8fd4b796,
              0x6c393c2d, 0xd69a9576, 0xed9b0082, 0x7cd45c9d, 0x19dfa7ac);
    NextRound(65, 0x19dfa7ac, 0x6b61c9e1, 0xed9b0082, 0x9523272c, 0xf5d5b051,
              0x3bf4f583, 0x13d9ee4f, 0x5ad87278, 0x000f0000, 0x101655f9);
    NextRound(66, 0x101655f9, 0x19dfa7ac, 0x5ad87278, 0xed9b0082, 0x9523272c,
              0x02cabf22, 0xae9cd556, 0x0677e9eb, 0xfb50753a, 0x0c3df2b4);
    NextRound(67, 0x0c3df2b4, 0x101655f9, 0x0677e9eb, 0x5ad87278, 0xed9b0082,
              0x87be5681, 0x4cb9ce6a, 0x4405957e, 0xec6765e8, 0x78dd4d2b);
    NextRound(68, 0x78dd4d2b, 0x0c3df2b4, 0x4405957e, 0x0677e9eb, 0x5ad87278,
              0x1ba9a56f, 0x4e4f8e21, 0x030f7cad, 0xba3c2be2, 0x497093c0);
    NextRound(69, 0x497093c0, 0x78dd4d2b, 0x030f7cad, 0x4405957e, 0x0677e9eb,
              0x2e127809, 0x3fd7a4f8, 0xde37534a, 0x0060c000, 0x3f2588c2);
    NextRound(70, 0x3f2588c2, 0x497093c0, 0xde37534a, 0x030f7cad, 0x4405957e,
              0xe4b11847, 0x9448bc27, 0x125c24f0, 0x3a37cd05, 0xc199f8c7);
    NextRound(71, 0xc199f8c7, 0x3f2588c2, 0x125c24f0, 0xde37534a, 0x030f7cad,
              0x333f18f8, 0xf34eff78, 0x8fc96230, 0x458546f4, 0x39859de7);
    NextRound(72, 0x39859de7, 0xc199f8c7, 0x8fc96230, 0x125c24f0, 0xde37534a,
              0x30b3bce7, 0x5c0cbe07, 0xf0667e31, 0xb8599dd6, 0xedb42de4);
    NextRound(73, 0xedb42de4, 0x39859de7, 0xf0667e31, 0x8fc96230, 0x125c24f0,
              0xb685bc9d, 0x462a81e6, 0xce616779, 0x380a1a26, 0x11793f6f);
    NextRound(74, 0x11793f6f, 0xedb42de4, 0xce616779, 0xf0667e31, 0x8fc96230,
              0x2f27ede2, 0xd3b334ac, 0x3b6d0b79, 0x01e02203, 0x5ee76897);
    NextRound(75, 0x5ee76897, 0x11793f6f, 0x3b6d0b79, 0xce616779, 0xf0667e31,
              0xdced12eb, 0xe475536f, 0xc45e4fdb, 0xe7cc3456, 0x63f7dab7);
    NextRound(76, 0x63f7dab7, 0x5ee76897, 0xc45e4fdb, 0x3b6d0b79, 0xce616779,
              0x7efb56ec, 0xa1d42c35, 0xd7b9da25, 0xe6e60b69, 0xa079b7d9);
    NextRound(77, 0xa079b7d9, 0x63f7dab7, 0xd7b9da25, 0xc45e4fdb, 0x3b6d0b79,
              0x0f36fb34, 0x70104f49, 0xd8fdf6ad, 0x00f60a00, 0x860d21cc);
    NextRound(78, 0x860d21cc, 0xa079b7d9, 0xd8fdf6ad, 0xd7b9da25, 0xc45e4fdb,
              0xc1a43990, 0xaf3d9b51, 0x681e6df6, 0x5795ef4f, 0x5738d5e1);
    NextRound(79, 0x5738d5e1, 0x860d21cc, 0x681e6df6, 0xd8fdf6ad, 0xd7b9da25,
              0xe71abc2a, 0x36eeba97, 0x21834873, 0x822e0879, 0x42541b35);
  }

  /** SHA-1 of "abc". */
  lemma AbcDigest()
    ensures Sha1(ABC) == [0xa9, 0x99, 0x3e, 0x36, 0x47, 0x06, 0x81, 0x6a, 0xba, 0x3e,
                           0x25, 0x71, 0x78, 0x50, 0xc2, 0x6c, 0x9c, 0xd0, 0xd8, 0x9d]
  {
    hide AbcBlock, Rounds, Pad, BigEndian32;
    AbcPadded();
    Rounds80();
    var h := Compress(INITIAL, AbcBlock());
    assert h == Regs(0xa9993e36, 0x4706816a, 0xba3e2571, 0x7850c26c, 0x9cd0d89d);
    assert Chain(INITIAL, AbcBlock()) == h by { OneBlock(INITIAL, AbcBlock()); }
    DigestBytes();
  }

  lemma OneBlock(h: Regs, block: bytes)
    requires |block| == 64
    ensures Chain(h, block) == Compress(h, block)
  {
    hide Compress;
    assert block[..64] == block && block[64..] == [];
  }

  lemma DigestBytes()
    ensures DigestOf(Regs(0xa9993e36, 0x4706816a, 0xba3e2571, 0x7850c26c, 0x9cd0d89d))
         == [0xa9, 0x99, 0x3e, 0x36, 0x47, 0x06, 0x81, 0x6a, 0xba, 0x3e,
             0x25, 0x71, 0x78, 0x50, 0xc2, 0x6c, 0x9c, 0xd0, 0xd8, 0x9d]
  {
    assert BigEndian32(0xa9993e36) == [0xa9, 0x99, 0x3e, 0x36];
    assert BigEndian32(0x4706816a) == [0x47, 0x06, 0x81, 0x6a];
    assert BigEndian32(0xba3e2571) == [0xba, 0x3e, 0x25, 0x71];
    assert BigEndian32(0x7850c26c) == [0x78, 0x50, 0xc2, 0x6c];
    assert BigEndian32(0x9cd0d89d) == [0x9c, 0xd0, 0xd8, 0x9d];
  }
}
