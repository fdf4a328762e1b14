/** SHA-1 of the message "abc", step by step: a known digest of FIPS 180-4. */
module Sha1Example {
  import opened Sequences
  import opened Sha1
  import opened Sha1Spec

  const ABC: seq<Byte> := [0x61, 0x62, 0x63]

  // The schedule of its one block, sixteen words at a time.
  const WORDS0: seq<Word> := [
    0x61626380, 0x00000000, 0x00000000, 0x00000000, 0x00000000, 0x00000000, 0x00000000, 0x00000000,
    0x00000000, 0x00000000, 0x00000000, 0x00000000, 0x00000000, 0x00000000, 0x00000000, 0x00000018
  ]
  const WORDS16: seq<Word> := [
    0xc2c4c700, 0x00000000, 0x00000030, 0x85898e01, 0x00000000, 0x00000060, 0x0b131c03, 0x00000030,
    0x85898ec1, 0x16263806, 0x00000000, 0x00000180, 0x2c4c700c, 0x000000f0, 0x93afb507, 0x5898e048
  ]
  const WORDS32: seq<Word> := [
    0x8e9a9202, 0x00000600, 0xb131c0f0, 0x16263bc6, 0x4ebed41e, 0x626380a1, 0x16263806, 0x000018c0,
    0xd2e138c4, 0x00000f00, 0x3afb5079, 0x898e04e5, 0xe2ba3c2b, 0x000060c0, 0x053a37cd, 0x74458547
  ]
  const WORDS48: seq<Word> := [
    0xda9415ed, 0x26380a16, 0x626383a1, 0x4ebf54de, 0x3835b44b, 0x0000f600, 0x1e84c7a3, 0x98e04d98,
    0x651d16a0, 0x62658ca1, 0x458544d6, 0x44584cb7, 0x7ba06619, 0x6380aea2, 0x0ae55269, 0x627b49a1
  ]
  const WORDS64: seq<Word> := [
    0x7cd45c9d, 0x000f0000, 0xfb50753a, 0xec6765e8, 0xba3c2be2, 0x0060c000, 0x3a37cd05, 0x458546f4,
    0xb8599dd6, 0x380a1a26, 0x01e02203, 0xe7cc3456, 0xe6e60b69, 0x00f60a00, 0x5795ef4f, 0x822e0879
  ]

  ghost predicate WordsAre(w: seq<Word>, from: nat, values: seq<Word>) {
    && from + 16 <= |w| && |values| == 16
    && w[from + 0] == values[0] && w[from + 1] == values[1] && w[from + 2] == values[2] && w[from + 3] == values[3]
    && w[from + 4] == values[4] && w[from + 5] == values[5] && w[from + 6] == values[6] && w[from + 7] == values[7]
    && w[from + 8] == values[8] && w[from + 9] == values[9] && w[from + 10] == values[10] && w[from + 11] == values[11]
    && w[from + 12] == values[12] && w[from + 13] == values[13]
    && w[from + 14] == values[14] && w[from + 15] == values[15]
  }

  lemma Words16To31(w: seq<Word>, tr: seq<Vars>)
    requires |w| == 80 && |tr| == 81 && Computed(w, tr, |w|) && WordsAre(w, 0, WORDS0)
    ensures WordsAre(w, 16, WORDS16)
  {
    forall t | 16 <= t < 32
      ensures ScheduledAt(w, t)
    {
      ComputedAt(w, tr, |w|, t);
    }
    assert ScheduledAt(w, 16) && w[16] == WORDS16[0];
    assert ScheduledAt(w, 17) && w[17] == WORDS16[1];
    assert ScheduledAt(w, 18) && w[18] == WORDS16[2];
    assert ScheduledAt(w, 19) && w[19] == WORDS16[3];
    assert ScheduledAt(w, 20) && w[20] == WORDS16[4];
    assert ScheduledAt(w, 21) && w[21] == WORDS16[5];
    assert ScheduledAt(w, 22) && w[22] == WORDS16[6];
    assert ScheduledAt(w, 23) && w[23] == WORDS16[7];
    assert ScheduledAt(w, 24) && w[24] == WORDS16[8];
    assert ScheduledAt(w, 25) && w[25] == WORDS16[9];
    assert ScheduledAt(w, 26) && w[26] == WORDS16[10];
    assert ScheduledAt(w, 27) && w[27] == WORDS16[11];
    assert ScheduledAt(w, 28) && w[28] == WORDS16[12];
    assert ScheduledAt(w, 29) && w[29] == WORDS16[13];
    assert ScheduledAt(w, 30) && w[30] == WORDS16[14];
    assert ScheduledAt(w, 31) && w[31] == WORDS16[15];
  }

  lemma Words32To47(w: seq<Word>, tr: seq<Vars>)
    requires |w| == 80 && |tr| == 81 && Computed(w, tr, |w|) && WordsAre(w, 16, WORDS16)
    ensures WordsAre(w, 32, WORDS32)
  {
    forall t | 32 <= t < 48
      ensures ScheduledAt(w, t)
    {
      ComputedAt(w, tr, |w|, t);
    }
    assert ScheduledAt(w, 32) && w[32] == WORDS32[0];
    assert ScheduledAt(w, 33) && w[33] == WORDS32[1];
    assert ScheduledAt(w, 34) && w[34] == WORDS32[2];
    assert ScheduledAt(w, 35) && w[35] == WORDS32[3];
    assert ScheduledAt(w, 36) && w[36] == WORDS32[4];
    assert ScheduledAt(w, 37) && w[37] == WORDS32[5];
    assert ScheduledAt(w, 38) && w[38] == WORDS32[6];
    assert ScheduledAt(w, 39) && w[39] == WORDS32[7];
    assert ScheduledAt(w, 40) && w[40] == WORDS32[8];
    assert ScheduledAt(w, 41) && w[41] == WORDS32[9];
    assert ScheduledAt(w, 42) && w[42] == WORDS32[10];
    assert ScheduledAt(w, 43) && w[43] == WORDS32[11];
    assert ScheduledAt(w, 44) && w[44] == WORDS32[12];
    assert ScheduledAt(w, 45) && w[45] == WORDS32[13];
    assert ScheduledAt(w, 46) && w[46] == WORDS32[14];
    assert ScheduledAt(w, 47) && w[47] == WORDS32[15];
  }

  lemma Words48To63(w: seq<Word>, tr: seq<Vars>)
    requires |w| == 80 && |tr| == 81 && Computed(w, tr, |w|) && WordsAre(w, 32, WORDS32)
    ensures WordsAre(w, 48, WORDS48)
  {
    forall t | 48 <= t < 64
      ensures ScheduledAt(w, t)
    {
      ComputedAt(w, tr, |w|, t);
    }
    assert ScheduledAt(w, 48) && w[48] == WORDS48[0];
    assert ScheduledAt(w, 49) && w[49] == WORDS48[1];
    assert ScheduledAt(w, 50) && w[50] == WORDS48[2];
    assert ScheduledAt(w, 51) && w[51] == WORDS48[3];
    assert ScheduledAt(w, 52) && w[52] == WORDS48[4];
    assert ScheduledAt(w, 53) && w[53] == WORDS48[5];
    assert ScheduledAt(w, 54) && w[54] == WORDS48[6];
    assert ScheduledAt(w, 55) && w[55] == WORDS48[7];
    assert ScheduledAt(w, 56) && w[56] == WORDS48[8];
    assert ScheduledAt(w, 57) && w[57] == WORDS48[9];
    assert ScheduledAt(w, 58) && w[58] == WORDS48[10];
    assert ScheduledAt(w, 59) && w[59] == WORDS48[11];
    assert ScheduledAt(w, 60) && w[60] == WORDS48[12];
    assert ScheduledAt(w, 61) && w[61] == WORDS48[13];
    assert ScheduledAt(w, 62) && w[62] == WORDS48[14];
    assert ScheduledAt(w, 63) && w[63] == WORDS48[15];
  }

  lemma Words64To79(w: seq<Word>, tr: seq<Vars>)
    requires |w| == 80 && |tr| == 81 && Computed(w, tr, |w|) && WordsAre(w, 48, WORDS48)
    ensures WordsAre(w, 64, WORDS64)
  {
    forall t | 64 <= t < 80
      ensures ScheduledAt(w, t)
    {
      ComputedAt(w, tr, |w|, t);
    }
    assert ScheduledAt(w, 64) && w[64] == WORDS64[0];
    assert ScheduledAt(w, 65) && w[65] == WORDS64[1];
    assert ScheduledAt(w, 66) && w[66] == WORDS64[2];
    assert ScheduledAt(w, 67) && w[67] == WORDS64[3];
    assert ScheduledAt(w, 68) && w[68] == WORDS64[4];
    assert ScheduledAt(w, 69) && w[69] == WORDS64[5];
    assert ScheduledAt(w, 70) && w[70] == WORDS64[6];
    assert ScheduledAt(w, 71) && w[71] == WORDS64[7];
    assert ScheduledAt(w, 72) && w[72] == WORDS64[8];
    assert ScheduledAt(w, 73) && w[73] == WORDS64[9];
    assert ScheduledAt(w, 74) && w[74] == WORDS64[10];
    assert ScheduledAt(w, 75) && w[75] == WORDS64[11];
    assert ScheduledAt(w, 76) && w[76] == WORDS64[12];
    assert ScheduledAt(w, 77) && w[77] == WORDS64[13];
    assert ScheduledAt(w, 78) && w[78] == WORDS64[14];
    assert ScheduledAt(w, 79) && w[79] == WORDS64[15];
  }

  lemma OneRound(w: seq<Word>, tr: seq<Vars>, t: nat, before: Vars, word: Word, after: Vars)
    requires t < 80 == |w| && |tr| == 81 && Computed(w, tr, |w|)
    requires tr[t] == before && w[t] == word && Round(before, t, word) == after
    ensures tr[t + 1] == after
  {
    ComputedAt(w, tr, |w|, t);
  }

  // The working variables after every fifth round.
  const VARS0 := Vars(0x67452301, 0xefcdab89, 0x98badcfe, 0x10325476, 0xc3d2e1f0)
  const VARS5 := Vars(0xcfd499de, 0xcdd8e11b, 0x284e43c2, 0x626414db, 0xc045bf0c)
  const VARS10 := Vars(0x8351f929, 0x4b6ae328, 0x27a301f5, 0x664f8c30, 0x0ff1f290)
  const VARS15 := Vars(0x196bee77, 0x9128f695, 0x1181ed99, 0x18c623f9, 0x7ef6a7a2)
  const VARS20 := Vars(0xfd9e1d7d, 0xdc64901d, 0x20aa99ca, 0xd3a49608, 0xc82f758b)
  const VARS25 := Vars(0xc7567dc6, 0xd541f12d, 0x884a0d21, 0x0ce88eff, 0x868dec32)
  const VARS30 := Vars(0xc5fbaf5d, 0x8370b52e, 0xd2aa1365, 0x6f8d7ef5, 0x12104ee9)
  const VARS35 := Vars(0x21796ad4, 0x2c0ebc11, 0x811bea82, 0xcee1174c, 0xc499ed01)
  const VARS40 := Vars(0x32de1cba, 0x4c986405, 0xf718e5cf, 0x03d447f6, 0xf72eec32)
  const VARS45 := Vars(0x40f28e09, 0xee1b1aaf, 0x5fc64f71, 0x25c28357, 0xff21f7b7)
  const VARS50 := Vars(0x120731c5, 0xbaf39337, 0xafab40b2, 0x2806e11b, 0x8714787c)
  const VARS55 := Vars(0x7b71f76d, 0x27e9f1d8, 0x792410db, 0x8e11eb59, 0x99076cb3)
  const VARS60 := Vars(0x3f52de5a, 0x09d785fd, 0x3498bfd4, 0xf211824f, 0xd79915ab)
  const VARS65 := Vars(0x19dfa7ac, 0x6b61c9e1, 0xed9b0082, 0x9523272c, 0xf5d5b051)
  const VARS70 := Vars(0x3f2588c2, 0x497093c0, 0xde37534a, 0x030f7cad, 0x4405957e)
  const VARS75 := Vars(0x5ee76897, 0x11793f6f, 0x3b6d0b79, 0xce616779, 0xf0667e31)
  const VARS80 := Vars(0x42541b35, 0x5738d5e1, 0x21834873, 0x681e6df6, 0xd8fdf6ad)

  lemma Vars5(w: seq<Word>, tr: seq<Vars>)
    requires |w| == 80 && |tr| == 81 && Computed(w, tr, |w|) && WordsAre(w, 0, WORDS0)
    requires tr[0] == VARS0
    ensures tr[5] == VARS5
  {
    OneRound(w, tr, 0, Vars(0x67452301, 0xefcdab89, 0x98badcfe, 0x10325476, 0xc3d2e1f0),
      0x61626380, Vars(0x0116fc33, 0x67452301, 0x7bf36ae2, 0x98badcfe, 0x10325476));
    OneRound(w, tr, 1, Vars(0x0116fc33, 0x67452301, 0x7bf36ae2, 0x98badcfe, 0x10325476),
      0x00000000, Vars(0x8990536d, 0x0116fc33, 0x59d148c0, 0x7bf36ae2, 0x98badcfe));
    OneRound(w, tr, 2, Vars(0x8990536d, 0x0116fc33, 0x59d148c0, 0x7bf36ae2, 0x98badcfe),
      0x00000000, Vars(0xa1390f08, 0x8990536d, 0xc045bf0c, 0x59d148c0, 0x7bf36ae2));
    OneRound(w, tr, 3, Vars(0xa1390f08, 0x8990536d, 0xc045bf0c, 0x59d148c0, 0x7bf36ae2),
      0x00000000, Vars(0xcdd8e11b, 0xa1390f08, 0x626414db, 0xc045bf0c, 0x59d148c0));
    OneRound(w, tr, 4, Vars(0xcdd8e11b, 0xa1390f08, 0x626414db, 0xc045bf0c, 0x59d148c0),
      0x00000000, Vars(0xcfd499de, 0xcdd8e11b, 0x284e43c2, 0x626414db, 0xc045bf0c));
  }

  lemma Vars10(w: seq<Word>, tr: seq<Vars>)
    requires |w| == 80 && |tr| == 81 && Computed(w, tr, |w|) && WordsAre(w, 0, WORDS0)
    requires tr[5] == VARS5
    ensures tr[10] == VARS10
  {
    OneRound(w, tr, 5, Vars(0xcfd499de, 0xcdd8e11b, 0x284e43c2, 0x626414db, 0xc045bf0c),
      0x00000000, Vars(0x3fc7ca40, 0xcfd499de, 0xf3763846, 0x284e43c2, 0x626414db));
    OneRound(w, tr, 6, Vars(0x3fc7ca40, 0xcfd499de, 0xf3763846, 0x284e43c2, 0x626414db),
      0x00000000, Vars(0x993e30c1, 0x3fc7ca40, 0xb3f52677, 0xf3763846, 0x284e43c2));
    OneRound(w, tr, 7, Vars(0x993e30c1, 0x3fc7ca40, 0xb3f52677, 0xf3763846, 0x284e43c2),
      0x00000000, Vars(0x9e8c07d4, 0x993e30c1, 0x0ff1f290, 0xb3f52677, 0xf3763846));
    OneRound(w, tr, 8, Vars(0x9e8c07d4, 0x993e30c1, 0x0ff1f290, 0xb3f52677, 0xf3763846),
      0x00000000, Vars(0x4b6ae328, 0x9e8c07d4, 0x664f8c30, 0x0ff1f290, 0xb3f52677));
    OneRound(w, tr, 9, Vars(0x4b6ae328, 0x9e8c07d4, 0x664f8c30, 0x0ff1f290, 0xb3f52677),
      0x00000000, Vars(0x8351f929, 0x4b6ae328, 0x27a301f5, 0x664f8c30, 0x0ff1f290));
  }

  lemma Vars15(w: seq<Word>, tr: seq<Vars>)
    requires |w| == 80 && |tr| == 81 && Computed(w, tr, |w|) && WordsAre(w, 0, WORDS0)
    requires tr[10] == VARS10
    ensures tr[15] == VARS15
  {
    OneRound(w, tr, 10, Vars(0x8351f929, 0x4b6ae328, 0x27a301f5, 0x664f8c30, 0x0ff1f290),
      0x00000000, Vars(0xfbda9e89, 0x8351f929, 0x12dab8ca, 0x27a301f5, 0x664f8c30));
    OneRound(w, tr, 11, Vars(0xfbda9e89, 0x8351f929, 0x12dab8ca, 0x27a301f5, 0x664f8c30),
      0x00000000, Vars(0x63188fe4, 0xfbda9e89, 0x60d47e4a, 0x12dab8ca, 0x27a301f5));
    OneRound(w, tr, 12, Vars(0x63188fe4, 0xfbda9e89, 0x60d47e4a, 0x12dab8ca, 0x27a301f5),
      0x00000000, Vars(0x4607b664, 0x63188fe4, 0x7ef6a7a2, 0x60d47e4a, 0x12dab8ca));
    OneRound(w, tr, 13, Vars(0x4607b664, 0x63188fe4, 0x7ef6a7a2, 0x60d47e4a, 0x12dab8ca),
      0x00000000, Vars(0x9128f695, 0x4607b664, 0x18c623f9, 0x7ef6a7a2, 0x60d47e4a));
    OneRound(w, tr, 14, Vars(0x9128f695, 0x4607b664, 0x18c623f9, 0x7ef6a7a2, 0x60d47e4a),
      0x00000000, Vars(0x196bee77, 0x9128f695, 0x1181ed99, 0x18c623f9, 0x7ef6a7a2));
  }

  lemma Vars20(w: seq<Word>, tr: seq<Vars>)
    requires |w| == 80 && |tr| == 81 && Computed(w, tr, |w|) && WordsAre(w, 0, WORDS0) && WordsAre(w, 16, WORDS16)
    requires tr[15] == VARS15
    ensures tr[20] == VARS20
  {
    OneRound(w, tr, 15, Vars(0x196bee77, 0x9128f695, 0x1181ed99, 0x18c623f9, 0x7ef6a7a2),
      0x00000018, Vars(0x20bdd62f, 0x196bee77, 0x644a3da5, 0x1181ed99, 0x18c623f9));
    OneRound(w, tr, 16, Vars(0x20bdd62f, 0x196bee77, 0x644a3da5, 0x1181ed99, 0x18c623f9),
      0xc2c4c700, Vars(0x4e925823, 0x20bdd62f, 0xc65afb9d, 0x644a3da5, 0x1181ed99));
    OneRound(w, tr, 17, Vars(0x4e925823, 0x20bdd62f, 0xc65afb9d, 0x644a3da5, 0x1181ed99),
      0x00000000, Vars(0x82aa6728, 0x4e925823, 0xc82f758b, 0xc65afb9d, 0x644a3da5));
    OneRound(w, tr, 18, Vars(0x82aa6728, 0x4e925823, 0xc82f758b, 0xc65afb9d, 0x644a3da5),
      0x00000030, Vars(0xdc64901d, 0x82aa6728, 0xd3a49608, 0xc82f758b, 0xc65afb9d));
    OneRound(w, tr, 19, Vars(0xdc64901d, 0x82aa6728, 0xd3a49608, 0xc82f758b, 0xc65afb9d),
      0x85898e01, Vars(0xfd9e1d7d, 0xdc64901d, 0x20aa99ca, 0xd3a49608, 0xc82f758b));
  }

  lemma Vars25(w: seq<Word>, tr: seq<Vars>)
    requires |w| == 80 && |tr| == 81 && Computed(w, tr, |w|) && WordsAre(w, 16, WORDS16)
    requires tr[20] == VARS20
    ensures tr[25] == VARS25
  {
    OneRound(w, tr, 20, Vars(0xfd9e1d7d, 0xdc64901d, 0x20aa99ca, 0xd3a49608, 0xc82f758b),
      0x00000000, Vars(0x1a37b0ca, 0xfd9e1d7d, 0x77192407, 0x20aa99ca, 0xd3a49608));
    OneRound(w, tr, 21, Vars(0x1a37b0ca, 0xfd9e1d7d, 0x77192407, 0x20aa99ca, 0xd3a49608),
      0x00000060, Vars(0x33a23bfc, 0x1a37b0ca, 0x7f67875f, 0x77192407, 0x20aa99ca));
    OneRound(w, tr, 22, Vars(0x33a23bfc, 0x1a37b0ca, 0x7f67875f, 0x77192407, 0x20aa99ca),
      0x0b131c03, Vars(0x21283486, 0x33a23bfc, 0x868dec32, 0x7f67875f, 0x77192407));
    OneRound(w, tr, 23, Vars(0x21283486, 0x33a23bfc, 0x868dec32, 0x7f67875f, 0x77192407),
      0x00000030, Vars(0xd541f12d, 0x21283486, 0x0ce88eff, 0x868dec32, 0x7f67875f));
    OneRound(w, tr, 24, Vars(0xd541f12d, 0x21283486, 0x0ce88eff, 0x868dec32, 0x7f67875f),
      0x85898ec1, Vars(0xc7567dc6, 0xd541f12d, 0x884a0d21, 0x0ce88eff, 0x868dec32));
  }

  lemma Vars30(w: seq<Word>, tr: seq<Vars>)
    requires |w| == 80 && |tr| == 81 && Computed(w, tr, |w|) && WordsAre(w, 16, WORDS16)
    requires tr[25] == VARS25
    ensures tr[30] == VARS30
  {
    OneRound(w, tr, 25, Vars(0xc7567dc6, 0xd541f12d, 0x884a0d21, 0x0ce88eff, 0x868dec32),
      0x16263806, Vars(0x48413ba4, 0xc7567dc6, 0x75507c4b, 0x884a0d21, 0x0ce88eff));
    OneRound(w, tr, 26, Vars(0x48413ba4, 0xc7567dc6, 0x75507c4b, 0x884a0d21, 0x0ce88eff),
      0x00000000, Vars(0xbe35fbd5, 0x48413ba4, 0xb1d59f71, 0x75507c4b, 0x884a0d21));
    OneRound(w, tr, 27, Vars(0xbe35fbd5, 0x48413ba4, 0xb1d59f71, 0x75507c4b, 0x884a0d21),
      0x00000180, Vars(0x4aa84d97, 0xbe35fbd5, 0x12104ee9, 0xb1d59f71, 0x75507c4b));
    OneRound(w, tr, 28, Vars(0x4aa84d97, 0xbe35fbd5, 0x12104ee9, 0xb1d59f71, 0x75507c4b),
      0x2c4c700c, Vars(0x8370b52e, 0x4aa84d97, 0x6f8d7ef5, 0x12104ee9, 0xb1d59f71));
    OneRound(w, tr, 29, Vars(0x8370b52e, 0x4aa84d97, 0x6f8d7ef5, 0x12104ee9, 0xb1d59f71),
      0x000000f0, Vars(0xc5fbaf5d, 0x8370b52e, 0xd2aa1365, 0x6f8d7ef5, 0x12104ee9));
  }

  lemma Vars35(w: seq<Word>, tr: seq<Vars>)
    requires |w| == 80 && |tr| == 81 && Computed(w, tr, |w|) && WordsAre(w, 16, WORDS16) && WordsAre(w, 32, WORDS32)
    requires tr[30] == VARS30
    ensures tr[35] == VARS35
  {
    OneRound(w, tr, 30, Vars(0xc5fbaf5d, 0x8370b52e, 0xd2aa1365, 0x6f8d7ef5, 0x12104ee9),
      0x93afb507, Vars(0x1267b407, 0xc5fbaf5d, 0xa0dc2d4b, 0xd2aa1365, 0x6f8d7ef5));
    OneRound(w, tr, 31, Vars(0x1267b407, 0xc5fbaf5d, 0xa0dc2d4b, 0xd2aa1365, 0x6f8d7ef5),
      0x5898e048, Vars(0x3b845d33, 0x1267b407, 0x717eebd7, 0xa0dc2d4b, 0xd2aa1365));
    OneRound(w, tr, 32, Vars(0x3b845d33, 0x1267b407, 0x717eebd7, 0xa0dc2d4b, 0xd2aa1365),
      0x8e9a9202, Vars(0x046faa0a, 0x3b845d33, 0xc499ed01, 0x717eebd7, 0xa0dc2d4b));
    OneRound(w, tr, 33, Vars(0x046faa0a, 0x3b845d33, 0xc499ed01, 0x717eebd7, 0xa0dc2d4b),
      0x00000600, Vars(0x2c0ebc11, 0x046faa0a, 0xcee1174c, 0xc499ed01, 0x717eebd7));
    OneRound(w, tr, 34, Vars(0x2c0ebc11, 0x046faa0a, 0xcee1174c, 0xc499ed01, 0x717eebd7),
      0xb131c0f0, Vars(0x21796ad4, 0x2c0ebc11, 0x811bea82, 0xcee1174c, 0xc499ed01));
  }

  lemma Vars40(w: seq<Word>, tr: seq<Vars>)
    requires |w| == 80 && |tr| == 81 && Computed(w, tr, |w|) && WordsAre(w, 32, WORDS32)
    requires tr[35] == VARS35
    ensures tr[40] == VARS40
  {
    OneRound(w, tr, 35, Vars(0x21796ad4, 0x2c0ebc11, 0x811bea82, 0xcee1174c, 0xc499ed01),
      0x16263bc6, Vars(0xdcbbb0cb, 0x21796ad4, 0x4b03af04, 0x811bea82, 0xcee1174c));
    OneRound(w, tr, 36, Vars(0xdcbbb0cb, 0x21796ad4, 0x4b03af04, 0x811bea82, 0xcee1174c),
      0x4ebed41e, Vars(0x0f511fd8, 0xdcbbb0cb, 0x085e5ab5, 0x4b03af04, 0x811bea82));
    OneRound(w, tr, 37, Vars(0x0f511fd8, 0xdcbbb0cb, 0x085e5ab5, 0x4b03af04, 0x811bea82),
      0x626380a1, Vars(0xdc63973f, 0x0f511fd8, 0xf72eec32, 0x085e5ab5, 0x4b03af04));
    OneRound(w, tr, 38, Vars(0xdc63973f, 0x0f511fd8, 0xf72eec32, 0x085e5ab5, 0x4b03af04),
      0x16263806, Vars(0x4c986405, 0xdc63973f, 0x03d447f6, 0xf72eec32, 0x085e5ab5));
    OneRound(w, tr, 39, Vars(0x4c986405, 0xdc63973f, 0x03d447f6, 0xf72eec32, 0x085e5ab5),
      0x000018c0, Vars(0x32de1cba, 0x4c986405, 0xf718e5cf, 0x03d447f6, 0xf72eec32));
  }

  lemma Vars45(w: seq<Word>, tr: seq<Vars>)
    requires |w| == 80 && |tr| == 81 && Computed(w, tr, |w|) && WordsAre(w, 32, WORDS32)
    requires tr[40] == VARS40
    ensures tr[45] == VARS45
  {
    OneRound(w, tr, 40, Vars(0x32de1cba, 0x4c986405, 0xf718e5cf, 0x03d447f6, 0xf72eec32),
      0xd2e138c4, Vars(0xfc87dedf, 0x32de1cba, 0x53261901, 0xf718e5cf, 0x03d447f6));
    OneRound(w, tr, 41, Vars(0xfc87dedf, 0x32de1cba, 0x53261901, 0xf718e5cf, 0x03d447f6),
      0x00000f00, Vars(0x970a0d5c, 0xfc87dedf, 0x8cb7872e, 0x53261901, 0xf718e5cf));
    OneRound(w, tr, 42, Vars(0x970a0d5c, 0xfc87dedf, 0x8cb7872e, 0x53261901, 0xf718e5cf),
      0x3afb5079, Vars(0x7f193dc5, 0x970a0d5c, 0xff21f7b7, 0x8cb7872e, 0x53261901));
    OneRound(w, tr, 43, Vars(0x7f193dc5, 0x970a0d5c, 0xff21f7b7, 0x8cb7872e, 0x53261901),
      0x898e04e5, Vars(0xee1b1aaf, 0x7f193dc5, 0x25c28357, 0xff21f7b7, 0x8cb7872e));
    OneRound(w, tr, 44, Vars(0xee1b1aaf, 0x7f193dc5, 0x25c28357, 0xff21f7b7, 0x8cb7872e),
      0xe2ba3c2b, Vars(0x40f28e09, 0xee1b1aaf, 0x5fc64f71, 0x25c28357, 0xff21f7b7));
  }

  lemma Vars50(w: seq<Word>, tr: seq<Vars>)
    requires |w| == 80 && |tr| == 81 && Computed(w, tr, |w|) && WordsAre(w, 32, WORDS32) && WordsAre(w, 48, WORDS48)
    requires tr[45] == VARS45
    ensures tr[50] == VARS50
  {
    OneRound(w, tr, 45, Vars(0x40f28e09, 0xee1b1aaf, 0x5fc64f71, 0x25c28357, 0xff21f7b7),
      0x000060c0, Vars(0x1c51e1f2, 0x40f28e09, 0xfb86c6ab, 0x5fc64f71, 0x25c28357));
    OneRound(w, tr, 46, Vars(0x1c51e1f2, 0x40f28e09, 0xfb86c6ab, 0x5fc64f71, 0x25c28357),
      0x053a37cd, Vars(0xa01b846c, 0x1c51e1f2, 0x503ca382, 0xfb86c6ab, 0x5fc64f71));
    OneRound(w, tr, 47, Vars(0xa01b846c, 0x1c51e1f2, 0x503ca382, 0xfb86c6ab, 0x5fc64f71),
      0x74458547, Vars(0xbead02ca, 0xa01b846c, 0x8714787c, 0x503ca382, 0xfb86c6ab));
    OneRound(w, tr, 48, Vars(0xbead02ca, 0xa01b846c, 0x8714787c, 0x503ca382, 0xfb86c6ab),
      0xda9415ed, Vars(0xbaf39337, 0xbead02ca, 0x2806e11b, 0x8714787c, 0x503ca382));
    OneRound(w, tr, 49, Vars(0xbaf39337, 0xbead02ca, 0x2806e11b, 0x8714787c, 0x503ca382),
      0x26380a16, Vars(0x120731c5, 0xbaf39337, 0xafab40b2, 0x2806e11b, 0x8714787c));
  }

  lemma Vars55(w: seq<Word>, tr: seq<Vars>)
    requires |w| == 80 && |tr| == 81 && Computed(w, tr, |w|) && WordsAre(w, 48, WORDS48)
    requires tr[50] == VARS50
    ensures tr[55] == VARS55
  {
    OneRound(w, tr, 50, Vars(0x120731c5, 0xbaf39337, 0xafab40b2, 0x2806e11b, 0x8714787c),
      0x626383a1, Vars(0x641db2ce, 0x120731c5, 0xeebce4cd, 0xafab40b2, 0x2806e11b));
    OneRound(w, tr, 51, Vars(0x641db2ce, 0x120731c5, 0xeebce4cd, 0xafab40b2, 0x2806e11b),
      0x4ebf54de, Vars(0x3847ad66, 0x641db2ce, 0x4481cc71, 0xeebce4cd, 0xafab40b2));
    OneRound(w, tr, 52, Vars(0x3847ad66, 0x641db2ce, 0x4481cc71, 0xeebce4cd, 0xafab40b2),
      0x3835b44b, Vars(0xe490436d, 0x3847ad66, 0x99076cb3, 0x4481cc71, 0xeebce4cd));
    OneRound(w, tr, 53, Vars(0xe490436d, 0x3847ad66, 0x99076cb3, 0x4481cc71, 0xeebce4cd),
      0x0000f600, Vars(0x27e9f1d8, 0xe490436d, 0x8e11eb59, 0x99076cb3, 0x4481cc71));
    OneRound(w, tr, 54, Vars(0x27e9f1d8, 0xe490436d, 0x8e11eb59, 0x99076cb3, 0x4481cc71),
      0x1e84c7a3, Vars(0x7b71f76d, 0x27e9f1d8, 0x792410db, 0x8e11eb59, 0x99076cb3));
  }

  lemma Vars60(w: seq<Word>, tr: seq<Vars>)
    requires |w| == 80 && |tr| == 81 && Computed(w, tr, |w|) && WordsAre(w, 48, WORDS48)
    requires tr[55] == VARS55
    ensures tr[60] == VARS60
  {
    OneRound(w, tr, 55, Vars(0x7b71f76d, 0x27e9f1d8, 0x792410db, 0x8e11eb59, 0x99076cb3),
      0x98e04d98, Vars(0x5e6456af, 0x7b71f76d, 0x09fa7c76, 0x792410db, 0x8e11eb59));
    OneRound(w, tr, 56, Vars(0x5e6456af, 0x7b71f76d, 0x09fa7c76, 0x792410db, 0x8e11eb59),
      0x651d16a0, Vars(0xc846093f, 0x5e6456af, 0x5edc7ddb, 0x09fa7c76, 0x792410db));
    OneRound(w, tr, 57, Vars(0xc846093f, 0x5e6456af, 0x5edc7ddb, 0x09fa7c76, 0x792410db),
      0x62658ca1, Vars(0xd262ff50, 0xc846093f, 0xd79915ab, 0x5edc7ddb, 0x09fa7c76));
    OneRound(w, tr, 58, Vars(0xd262ff50, 0xc846093f, 0xd79915ab, 0x5edc7ddb, 0x09fa7c76),
      0x458544d6, Vars(0x09d785fd, 0xd262ff50, 0xf211824f, 0xd79915ab, 0x5edc7ddb));
    OneRound(w, tr, 59, Vars(0x09d785fd, 0xd262ff50, 0xf211824f, 0xd79915ab, 0x5edc7ddb),
      0x44584cb7, Vars(0x3f52de5a, 0x09d785fd, 0x3498bfd4, 0xf211824f, 0xd79915ab));
  }

  lemma Vars65(w: seq<Word>, tr: seq<Vars>)
    requires |w| == 80 && |tr| == 81 && Computed(w, tr, |w|) && WordsAre(w, 48, WORDS48) && WordsAre(w, 64, WORDS64)
    requires tr[60] == VARS60
    ensures tr[65] == VARS65
  {
    OneRound(w, tr, 60, Vars(0x3f52de5a, 0x09d785fd, 0x3498bfd4, 0xf211824f, 0xd79915ab),
      0x7ba06619, Vars(0xd756c147, 0x3f52de5a, 0x4275e17f, 0x3498bfd4, 0xf211824f));
    OneRound(w, tr, 61, Vars(0xd756c147, 0x3f52de5a, 0x4275e17f, 0x3498bfd4, 0xf211824f),
      0x6380aea2, Vars(0x548c9cb2, 0xd756c147, 0x8fd4b796, 0x4275e17f, 0x3498bfd4));
    OneRound(w, tr, 62, Vars(0x548c9cb2, 0xd756c147, 0x8fd4b796, 0x4275e17f, 0x3498bfd4),
      0x0ae55269, Vars(0xb66c020b, 0x548c9cb2, 0xf5d5b051, 0x8fd4b796, 0x4275e17f));
    OneRound(w, tr, 63, Vars(0xb66c020b, 0x548c9cb2, 0xf5d5b051, 0x8fd4b796, 0x4275e17f),
      0x627b49a1, Vars(0x6b61c9e1, 0xb66c020b, 0x9523272c, 0xf5d5b051, 0x8fd4b796));
    OneRound(w, tr, 64, Vars(0x6b61c9e1, 0xb66c020b, 0x9523272c, 0xf5d5b051, 0x8fd4b796),
      0x7cd45c9d, Vars(0x19dfa7ac, 0x6b61c9e1, 0xed9b0082, 0x9523272c, 0xf5d5b051));
  }

  lemma Vars70(w: seq<Word>, tr: seq<Vars>)
    requires |w| == 80 && |tr| == 81 && Computed(w, tr, |w|) && WordsAre(w, 64, WORDS64)
    requires tr[65] == VARS65
    ensures tr[70] == VARS70
  {
    OneRound(w, tr, 65, Vars(0x19dfa7ac, 0x6b61c9e1, 0xed9b0082, 0x9523272c, 0xf5d5b051),
      0x000f0000, Vars(0x101655f9, 0x19dfa7ac, 0x5ad87278, 0xed9b0082, 0x9523272c));
    OneRound(w, tr, 66, Vars(0x101655f9, 0x19dfa7ac, 0x5ad87278, 0xed9b0082, 0x9523272c),
      0xfb50753a, Vars(0x0c3df2b4, 0x101655f9, 0x0677e9eb, 0x5ad87278, 0xed9b0082));
    OneRound(w, tr, 67, Vars(0x0c3df2b4, 0x101655f9, 0x0677e9eb, 0x5ad87278, 0xed9b0082),
      0xec6765e8, Vars(0x78dd4d2b, 0x0c3df2b4, 0x4405957e, 0x0677e9eb, 0x5ad87278));
    OneRound(w, tr, 68, Vars(0x78dd4d2b, 0x0c3df2b4, 0x4405957e, 0x0677e9eb, 0x5ad87278),
      0xba3c2be2, Vars(0x497093c0, 0x78dd4d2b, 0x030f7cad, 0x4405957e, 0x0677e9eb));
    OneRound(w, tr, 69, Vars(0x497093c0, 0x78dd4d2b, 0x030f7cad, 0x4405957e, 0x0677e9eb),
      0x0060c000, Vars(0x3f2588c2, 0x497093c0, 0xde37534a, 0x030f7cad, 0x4405957e));
  }

  lemma Vars75(w: seq<Word>, tr: seq<Vars>)
    requires |w| == 80 && |tr| == 81 && Computed(w, tr, |w|) && WordsAre(w, 64, WORDS64)
    requires tr[70] == VARS70
    ensures tr[75] == VARS75
  {
    OneRound(w, tr, 70, Vars(0x3f2588c2, 0x497093c0, 0xde37534a, 0x030f7cad, 0x4405957e),
      0x3a37cd05, Vars(0xc199f8c7, 0x3f2588c2, 0x125c24f0, 0xde37534a, 0x030f7cad));
    OneRound(w, tr, 71, Vars(0xc199f8c7, 0x3f2588c2, 0x125c24f0, 0xde37534a, 0x030f7cad),
      0x458546f4, Vars(0x39859de7, 0xc199f8c7, 0x8fc96230, 0x125c24f0, 0xde37534a));
    OneRound(w, tr, 72, Vars(0x39859de7, 0xc199f8c7, 0x8fc96230, 0x125c24f0, 0xde37534a),
      0xb8599dd6, Vars(0xedb42de4, 0x39859de7, 0xf0667e31, 0x8fc96230, 0x125c24f0));
    OneRound(w, tr, 73, Vars(0xedb42de4, 0x39859de7, 0xf0667e31, 0x8fc96230, 0x125c24f0),
      0x380a1a26, Vars(0x11793f6f, 0xedb42de4, 0xce616779, 0xf0667e31, 0x8fc96230));
    OneRound(w, tr, 74, Vars(0x11793f6f, 0xedb42de4, 0xce616779, 0xf0667e31, 0x8fc96230),
      0x01e02203, Vars(0x5ee76897, 0x11793f6f, 0x3b6d0b79, 0xce616779, 0xf0667e31));
  }

  lemma Vars80(w: seq<Word>, tr: seq<Vars>)
    requires |w| == 80 && |tr| == 81 && Computed(w, tr, |w|) && WordsAre(w, 64, WORDS64)
    requires tr[75] == VARS75
    ensures tr[80] == VARS80
  {
    OneRound(w, tr, 75, Vars(0x5ee76897, 0x11793f6f, 0x3b6d0b79, 0xce616779, 0xf0667e31),
      0xe7cc3456, Vars(0x63f7dab7, 0x5ee76897, 0xc45e4fdb, 0x3b6d0b79, 0xce616779));
    OneRound(w, tr, 76, Vars(0x63f7dab7, 0x5ee76897, 0xc45e4fdb, 0x3b6d0b79, 0xce616779),
      0xe6e60b69, Vars(0xa079b7d9, 0x63f7dab7, 0xd7b9da25, 0xc45e4fdb, 0x3b6d0b79));
    OneRound(w, tr, 77, Vars(0xa079b7d9, 0x63f7dab7, 0xd7b9da25, 0xc45e4fdb, 0x3b6d0b79),
      0x00f60a00, Vars(0x860d21cc, 0xa079b7d9, 0xd8fdf6ad, 0xd7b9da25, 0xc45e4fdb));
    OneRound(w, tr, 78, Vars(0x860d21cc, 0xa079b7d9, 0xd8fdf6ad, 0xd7b9da25, 0xc45e4fdb),
      0x5795ef4f, Vars(0x5738d5e1, 0x860d21cc, 0x681e6df6, 0xd8fdf6ad, 0xd7b9da25));
    OneRound(w, tr, 79, Vars(0x5738d5e1, 0x860d21cc, 0x681e6df6, 0xd8fdf6ad, 0xd7b9da25),
      0x822e0879, Vars(0x42541b35, 0x5738d5e1, 0x21834873, 0x681e6df6, 0xd8fdf6ad));
  }

  // One block: the three bytes, the bit 1, zeros, and the length 24.
  lemma PaddedBlock()
    ensures |Pad(ABC)| == 64 && BlockOf(Pad(ABC)) == WORDS0
  {
    PaddedMessage();
    var block := BlockOf(PADDED);
    FirstWord();
    forall i | 1 <= i < 16
      ensures block[i] == WORDS0[i]
    {
      OtherWords(i);
    }
    assert block[0] == WORDS0[0];
  }

  const PADDED: seq<Byte> := [0x61, 0x62, 0x63, 0x80] + Repeat(0, 59) + [24]

  lemma PaddedMessage()
    ensures Pad(ABC) == PADDED
  {
    assert ZeroCount(3) == 52;
    LengthIs24();
    assert Repeat(0 as Byte, 59) == Repeat(0, 52) + Repeat(0, 7);
  }

  lemma FirstWord()
    ensures WordOf(PADDED[4 * 0..4 * 0 + 4]) == 0x61626380
  {
    assert PADDED[..4] == [0x61, 0x62, 0x63, 0x80];
  }

  lemma OtherWords(i: nat)
    requires 1 <= i < 16
    ensures WordOf(PADDED[4 * i..4 * i + 4]) == if i == 15 then 0x18 else 0
    ensures WORDS0[i] == if i == 15 then 0x18 else 0
  {
    var b := PADDED[4 * i..4 * i + 4];
    assert b == if i == 15 then [0, 0, 0, 24] else [0, 0, 0, 0];
  }

  lemma LengthIs24()
    ensures BigEndian(24, 8) == Repeat(0, 7) + [24]
  {
    ZerosBelow(7);
    assert BigEndian(24, 8) == BigEndian(0, 7) + [24];
  }

  lemma {:induction false} ZerosBelow(k: nat)
    ensures BigEndian(0, k) == Repeat(0, k)
  {
    if k > 0 {
      ZerosBelow(k - 1);
    }
  }

  lemma Compressed()
    ensures Compress(INITIAL_HASH, WORDS0) ==
            Vars(0xa9993e36, 0x4706816a, 0xba3e2571, 0x7850c26c, 0x9cd0d89d)
  {
    var w := Schedule(WORDS0);
    var tr := Trace([INITIAL_HASH], w);
    TraceComputed(WORDS0, INITIAL_HASH, 80);
    assert tr[0] == VARS0 && WordsAre(w, 0, WORDS0);
    Words16To31(w, tr);
    Words32To47(w, tr);
    Words48To63(w, tr);
    Words64To79(w, tr);
    Vars5(w, tr);
    Vars10(w, tr);
    Vars15(w, tr);
    Vars20(w, tr);
    Vars25(w, tr);
    Vars30(w, tr);
    Vars35(w, tr);
    Vars40(w, tr);
    Vars45(w, tr);
    Vars50(w, tr);
    Vars55(w, tr);
    Vars60(w, tr);
    Vars65(w, tr);
    Vars70(w, tr);
    Vars75(w, tr);
    Vars80(w, tr);
  }

  // SHA-1("abc") = a9993e36 4706816a ba3e2571 7850c26c 9cd0d89d
  lemma DigestOfAbc()
    ensures Sha1Spec.Sha1(ABC) == [
              0xa9, 0x99, 0x3e, 0x36, 0x47, 0x06, 0x81, 0x6a, 0xba, 0x3e,
              0x25, 0x71, 0x78, 0x50, 0xc2, 0x6c, 0x9c, 0xd0, 0xd8, 0x9d
            ]
  {
    PaddedBlock();
    Compressed();
    var p := Pad(ABC);
    assert p[..0] == [] && p[0..] == p;
    assert Fold(p) == Compress(Fold([]), BlockOf(p));
  }
}
