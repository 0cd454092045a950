/** The hash of particular keys, worked out step by step down to the number. Between them the keys take every branch:
    a block, an 8-byte step, a tail of three bytes and one of four, and no byte at all. */
module KnownHashes {
  import opened Words
  import opened Casts
  import opened ChibiHash

  /** The empty key. */
  lemma HashOfNothing()
    ensures Hash([], 0) == 0xD4F6_9E3E_CCF1_28FC
  {
    assert Combine(Absorb(Init(0), [])) == 0xAB15_7AC5_4152_3430 by {
      assert Init(0) == [0x0000_0000_0000_0000, 0x2B7E_1516_28AE_D2A7,
                        0x8C21_D5E9_8C21_D5E8, 0x8E2A_7CE6_9D16_903E];
      assert Absorb(Init(0), []) == Init(0);
    }
    hide Absorb, Combine, Init;
    assert LengthWord(ToWord(0)) == 0;
  }

  const ABCD: seq<Byte> := [0x61, 0x62, 0x63, 0x64]

  /** The first key of the test program, with its seed. */
  lemma HashOfAbcd()
    ensures Hash(ABCD, 0xFFFF_FFFF_FFFF_FFFF) == 0xC821_B054_EB72_2DF4
  {
    var st: Lanes := [0xFFFF_FFFF_FFFF_FFFF, 0x2B7E_1516_28AE_D2A6,
                     0x8C21_55E9_8C21_55E8, 0x8E29_FCE6_9D16_103E];
    var end: Lanes := [0xFFFF_FFFF_FFFF_FFFF, 0x2B7E_1516_28AE_D2A6,
                      0x8C21_55E9_E842_3789, 0x8E29_FCE6_F975_725F];
    assert Init(0xFFFF_FFFF_FFFF_FFFF) == st;
    assert Absorb(st, ABCD) == end;
    assert Combine(end) == 0x53C8_E5D6_B229_C870;
    assert ToWord(4) == 4;
  }

  // 43 times the letter a.
  const KEY: seq<Byte> := seq(43, i => 0x61)

  // The lanes at the start, after each stripe, after the 8-byte step and at the end.
  const START: Lanes := [0x0000_0000_0000_0000, 0x2B7E_1516_28AE_D2A7,
                         0x8C21_D5E9_8C21_D5E8, 0x8E2A_7CE6_9D16_903E]
  const AFTER1: Lanes := [0x63E9_2325_C056_1847, 0x3689_2021_33B9_DDB2,
                          0x8C21_D5E9_8C21_D5E8, 0x8E2A_7CE6_9D16_903E]
  const AFTER2: Lanes := [0x63E9_2325_C056_1847, 0x2F23_2F81_756D_BB65,
                          0x972C_E0F4_972C_E0F3, 0x8E2A_7CE6_9D16_903E]
  const AFTER3: Lanes := [0x63E9_2325_C056_1847, 0x2F23_2F81_756D_BB65,
                          0x257F_8E40_0C4E_2CCC, 0x9935_87F1_A821_9B49]
  const AFTER4: Lanes := [0x6EF4_2E30_CB61_2352, 0x2F23_2F81_756D_BB65,
                          0x257F_8E40_0C4E_2CCC, 0x4D6C_EA16_F342_46E6]
  const PAIRED: Lanes := [0x765F_831A_1323_0545, 0xD2BE_92CB_6DF1_809C,
                          0x257F_8E40_0C4E_2CCC, 0x4D6C_EA16_F342_46E6]
  const END: Lanes := [0x765F_831A_1323_0545, 0xD2BE_92CB_6DF1_809C,
                       0x257F_8E40_0C4E_2CAD, 0x4D6C_EA16_F342_2787]

  lemma Loads(p: nat)
    requires p + 4 <= |KEY|
    ensures Load32(KEY, p) == 0x6161_6161
    ensures p + 8 <= |KEY| ==> Load64(KEY, p) == 0x6161_6161_6161_6161
  {
    assert Pack(0x61, 0x61, 0x61, 0x61) == 0x6161_6161;
    hide Pack;
    assert Join(0x6161_6161, 0x6161_6161) == 0x6161_6161_6161_6161;
  }

  lemma Stripe0()
    ensures Stripe(START, 0, 0x6161_6161_6161_6161) == AFTER1
  {
  }

  lemma Stripe1()
    ensures Stripe(AFTER1, 1, 0x6161_6161_6161_6161) == AFTER2
  {
  }

  lemma Stripe2()
    ensures Stripe(AFTER2, 2, 0x6161_6161_6161_6161) == AFTER3
  {
  }

  lemma Stripe3()
    ensures Stripe(AFTER3, 3, 0x6161_6161_6161_6161) == AFTER4
  {
  }

  lemma BlockAbsorbed()
    ensures Blocks(START, KEY, 1) == AFTER4
  {
    hide Stripe, Load64;
    Stripe0();
    Stripe1();
    Stripe2();
    Stripe3();
    Loads(0);
    Loads(8);
    Loads(16);
    Loads(24);
    assert Blocks(START, KEY, 0) == START && Stripes(START, KEY, 0, 0) == START;
    assert Stripes(START, KEY, 0, 1) == AFTER1;
    assert Stripes(START, KEY, 0, 2) == AFTER2;
    assert Stripes(START, KEY, 0, 3) == AFTER3;
    assert Stripes(START, KEY, 0, 4) == AFTER4;
  }

  lemma PairAbsorbed()
    ensures WordPairs(AFTER4, KEY, 32, 1) == PAIRED
  {
    hide Load32;
    Loads(32);
    Loads(36);
    assert WordPairs(AFTER4, KEY, 32, 0) == AFTER4;
  }

  lemma TailAbsorbed()
    ensures Tail(PAIRED, KEY, 40) == END
  {
  }

  lemma KeyAbsorbed()
    ensures Absorb(START, KEY) == END
  {
    hide Blocks, WordPairs, Tail;
    BlockAbsorbed();
    PairAbsorbed();
    TailAbsorbed();
  }

  /** A key of 43 bytes: one block, one 8-byte step and three more bytes. */
  lemma HashOfKey()
    ensures Hash(KEY, 0) == 0x6165_56CD_6164_F961
  {
    KeyAbsorbed();
    hide Absorb;
    assert Init(0) == START;
    assert Combine(END) == 0x94B2_2602_C4CB_6BE9;
    assert ToWord(43) == 43;
  }
}
