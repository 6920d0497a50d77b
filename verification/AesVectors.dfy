/**
 * The example of Appendix C.1 of FIPS 197, step by step: what the specification in `Aes` and `AesCode`, and so the
 * code, gives for it. It ties key expansion and cipher to the bytes the standard prints.
 */
module AesVectors {
  import opened AesField
  import opened Aes
  import opened AesCode

  /** A state given by its columns as words. */
  function Words(a: bv32, b: bv32, c: bv32, d: bv32): State { State(Unpack(a), Unpack(b), Unpack(c), Unpack(d)) }

  // ----- the key schedule -----

  /** The four words of round key `r`, from those of the one before. */
  ghost predicate NextKey(r: nat, a: bv32, b: bv32, c: bv32, d: bv32, a': bv32, b': bv32, c': bv32, d': bv32)
    requires r > 0
  {
    && a' == Xor32(Xor32(SubWord(RotWord(d)), a), Rcon(r - 1))
    && b' == Xor32(b, a') && c' == Xor32(c, b') && d' == Xor32(d, c')
  }

  lemma NextKeyIs(k: seq<bv32>, r: nat, a: bv32, b: bv32, c: bv32, d: bv32, a': bv32, b': bv32, c': bv32, d': bv32)
    requires |k| == 4 && r > 0 && NextKey(r, a, b, c, d, a', b', c', d')
    requires Expand(k, 4 * r - 4) == a && Expand(k, 4 * r - 3) == b
    requires Expand(k, 4 * r - 2) == c && Expand(k, 4 * r - 1) == d
    ensures Expand(k, 4 * r) == a' && Expand(k, 4 * r + 1) == b'
    ensures Expand(k, 4 * r + 2) == c' && Expand(k, 4 * r + 3) == d'
  {
    hide SubWord, RotWord, Xor32, Rcon;
    assert 4 * r % 4 == 0 && (4 * r + 1) % 4 == 1 && (4 * r + 2) % 4 == 2 && (4 * r + 3) % 4 == 3 && 4 * r / 4 == r;
  }

  lemma Key1()
    ensures NextKey(1, 0x0001_0203, 0x0405_0607, 0x0809_0a0b, 0x0c0d_0e0f,
                    0xd6aa_74fd, 0xd2af_72fa, 0xdaa6_78f1, 0xd6ab_76fe)
  {
  }

  lemma Key2()
    ensures NextKey(2, 0xd6aa_74fd, 0xd2af_72fa, 0xdaa6_78f1, 0xd6ab_76fe,
                    0xb692_cf0b, 0x643d_bdf1, 0xbe9b_c500, 0x6830_b3fe)
  {
  }

  lemma Key3()
    ensures NextKey(3, 0xb692_cf0b, 0x643d_bdf1, 0xbe9b_c500, 0x6830_b3fe,
                    0xb6ff_744e, 0xd2c2_c9bf, 0x6c59_0cbf, 0x0469_bf41)
  {
  }

  lemma Key4()
    ensures NextKey(4, 0xb6ff_744e, 0xd2c2_c9bf, 0x6c59_0cbf, 0x0469_bf41,
                    0x47f7_f7bc, 0x9535_3e03, 0xf96c_32bc, 0xfd05_8dfd)
  {
  }

  lemma Key5()
    ensures NextKey(5, 0x47f7_f7bc, 0x9535_3e03, 0xf96c_32bc, 0xfd05_8dfd,
                    0x3caa_a3e8, 0xa99f_9deb, 0x50f3_af57, 0xadf6_22aa)
  {
  }

  lemma Key6()
    ensures NextKey(6, 0x3caa_a3e8, 0xa99f_9deb, 0x50f3_af57, 0xadf6_22aa,
                    0x5e39_0f7d, 0xf7a6_9296, 0xa755_3dc1, 0x0aa3_1f6b)
  {
  }

  lemma Key7()
    ensures NextKey(7, 0x5e39_0f7d, 0xf7a6_9296, 0xa755_3dc1, 0x0aa3_1f6b,
                    0x14f9_701a, 0xe35f_e28c, 0x440a_df4d, 0x4ea9_c026)
  {
  }

  lemma Key8()
    ensures NextKey(8, 0x14f9_701a, 0xe35f_e28c, 0x440a_df4d, 0x4ea9_c026,
                    0x4743_8735, 0xa41c_65b9, 0xe016_baf4, 0xaebf_7ad2)
  {
  }

  lemma Key9()
    ensures NextKey(9, 0x4743_8735, 0xa41c_65b9, 0xe016_baf4, 0xaebf_7ad2,
                    0x5499_32d1, 0xf085_5768, 0x1093_ed9c, 0xbe2c_974e)
  {
  }

  lemma Key10()
    ensures NextKey(10, 0x5499_32d1, 0xf085_5768, 0x1093_ed9c, 0xbe2c_974e,
                    0x1311_1d7f, 0xe394_4a17, 0xf307_a78b, 0x4d2b_30c5)
  {
  }

  /** The round keys of key 000102030405060708090a0b0c0d0e0f. */
  lemma Schedule(k: seq<bv32>)
    requires k == [0x0001_0203, 0x0405_0607, 0x0809_0a0b, 0x0c0d_0e0f]
    ensures EncSchedule(k)(0) == Words(0x0001_0203, 0x0405_0607, 0x0809_0a0b, 0x0c0d_0e0f)
    ensures EncSchedule(k)(1) == Words(0xd6aa_74fd, 0xd2af_72fa, 0xdaa6_78f1, 0xd6ab_76fe)
    ensures EncSchedule(k)(2) == Words(0xb692_cf0b, 0x643d_bdf1, 0xbe9b_c500, 0x6830_b3fe)
    ensures EncSchedule(k)(3) == Words(0xb6ff_744e, 0xd2c2_c9bf, 0x6c59_0cbf, 0x0469_bf41)
    ensures EncSchedule(k)(4) == Words(0x47f7_f7bc, 0x9535_3e03, 0xf96c_32bc, 0xfd05_8dfd)
    ensures EncSchedule(k)(5) == Words(0x3caa_a3e8, 0xa99f_9deb, 0x50f3_af57, 0xadf6_22aa)
    ensures EncSchedule(k)(6) == Words(0x5e39_0f7d, 0xf7a6_9296, 0xa755_3dc1, 0x0aa3_1f6b)
    ensures EncSchedule(k)(7) == Words(0x14f9_701a, 0xe35f_e28c, 0x440a_df4d, 0x4ea9_c026)
    ensures EncSchedule(k)(8) == Words(0x4743_8735, 0xa41c_65b9, 0xe016_baf4, 0xaebf_7ad2)
    ensures EncSchedule(k)(9) == Words(0x5499_32d1, 0xf085_5768, 0x1093_ed9c, 0xbe2c_974e)
    ensures EncSchedule(k)(10) == Words(0x1311_1d7f, 0xe394_4a17, 0xf307_a78b, 0x4d2b_30c5)
  {
    hide Expand, NextKey, Unpack;
    ExpandKeyWord(k, 0);
    ExpandKeyWord(k, 1);
    ExpandKeyWord(k, 2);
    ExpandKeyWord(k, 3);
    Key1();
    NextKeyIs(k, 1, 0x0001_0203, 0x0405_0607, 0x0809_0a0b, 0x0c0d_0e0f,
              0xd6aa_74fd, 0xd2af_72fa, 0xdaa6_78f1, 0xd6ab_76fe);
    Key2();
    NextKeyIs(k, 2, 0xd6aa_74fd, 0xd2af_72fa, 0xdaa6_78f1, 0xd6ab_76fe,
              0xb692_cf0b, 0x643d_bdf1, 0xbe9b_c500, 0x6830_b3fe);
    Key3();
    NextKeyIs(k, 3, 0xb692_cf0b, 0x643d_bdf1, 0xbe9b_c500, 0x6830_b3fe,
              0xb6ff_744e, 0xd2c2_c9bf, 0x6c59_0cbf, 0x0469_bf41);
    Key4();
    NextKeyIs(k, 4, 0xb6ff_744e, 0xd2c2_c9bf, 0x6c59_0cbf, 0x0469_bf41,
              0x47f7_f7bc, 0x9535_3e03, 0xf96c_32bc, 0xfd05_8dfd);
    Key5();
    NextKeyIs(k, 5, 0x47f7_f7bc, 0x9535_3e03, 0xf96c_32bc, 0xfd05_8dfd,
              0x3caa_a3e8, 0xa99f_9deb, 0x50f3_af57, 0xadf6_22aa);
    Key6();
    NextKeyIs(k, 6, 0x3caa_a3e8, 0xa99f_9deb, 0x50f3_af57, 0xadf6_22aa,
              0x5e39_0f7d, 0xf7a6_9296, 0xa755_3dc1, 0x0aa3_1f6b);
    Key7();
    NextKeyIs(k, 7, 0x5e39_0f7d, 0xf7a6_9296, 0xa755_3dc1, 0x0aa3_1f6b,
              0x14f9_701a, 0xe35f_e28c, 0x440a_df4d, 0x4ea9_c026);
    Key8();
    NextKeyIs(k, 8, 0x14f9_701a, 0xe35f_e28c, 0x440a_df4d, 0x4ea9_c026,
              0x4743_8735, 0xa41c_65b9, 0xe016_baf4, 0xaebf_7ad2);
    Key9();
    NextKeyIs(k, 9, 0x4743_8735, 0xa41c_65b9, 0xe016_baf4, 0xaebf_7ad2,
              0x5499_32d1, 0xf085_5768, 0x1093_ed9c, 0xbe2c_974e);
    Key10();
    NextKeyIs(k, 10, 0x5499_32d1, 0xf085_5768, 0x1093_ed9c, 0xbe2c_974e,
              0x1311_1d7f, 0xe394_4a17, 0xf307_a78b, 0x4d2b_30c5);
  }

  // ----- the rounds -----

  ghost function Mixed(x: State, k: State): State { AddRoundKey(MixColumns(ShiftRows(x)), k) }

  lemma SubWords(a: bv32, b: bv32, c: bv32, d: bv32)
    ensures SubBytes(Words(a, b, c, d)) == Words(SubWord(a), SubWord(b), SubWord(c), SubWord(d))
  {
    hide Pack, Unpack, SubCol;
    UnpackPack(SubCol(Unpack(a)));
    UnpackPack(SubCol(Unpack(b)));
    UnpackPack(SubCol(Unpack(c)));
    UnpackPack(SubCol(Unpack(d)));
  }

  lemma Sub1a()
    ensures SubWord(0x0010_2030) == 0x63ca_b704 && SubWord(0x4050_6070) == 0x0953_d051
  {
  }

  lemma Sub1b()
    ensures SubWord(0x8090_a0b0) == 0xcd60_e0e7 && SubWord(0xc0d0_e0f0) == 0xba70_e18c
  {
  }

  lemma Mix1()
    ensures Mixed(Words(0x63ca_b704, 0x0953_d051, 0xcd60_e0e7, 0xba70_e18c),
                  Words(0xd6aa_74fd, 0xd2af_72fa, 0xdaa6_78f1, 0xd6ab_76fe))
         == Words(0x89d8_10e8, 0x855a_ce68, 0x2d18_43d8, 0xcb12_8fe4)
  {
  }

  lemma Sub2a()
    ensures SubWord(0x89d8_10e8) == 0xa761_ca9b && SubWord(0x855a_ce68) == 0x97be_8b45
  {
  }

  lemma Sub2b()
    ensures SubWord(0x2d18_43d8) == 0xd8ad_1a61 && SubWord(0xcb12_8fe4) == 0x1fc9_7369
  {
  }

  lemma Mix2()
    ensures Mixed(Words(0xa761_ca9b, 0x97be_8b45, 0xd8ad_1a61, 0x1fc9_7369),
                  Words(0xb692_cf0b, 0x643d_bdf1, 0xbe9b_c500, 0x6830_b3fe))
         == Words(0x4915_598f, 0x55e5_d7a0, 0xdaca_94fa, 0x1f0a_63f7)
  {
  }

  lemma Sub3a()
    ensures SubWord(0x4915_598f) == 0x3b59_cb73 && SubWord(0x55e5_d7a0) == 0xfcd9_0ee0
  {
  }

  lemma Sub3b()
    ensures SubWord(0xdaca_94fa) == 0x5774_222d && SubWord(0x1f0a_63f7) == 0xc067_fb68
  {
  }

  lemma Mix3()
    ensures Mixed(Words(0x3b59_cb73, 0xfcd9_0ee0, 0x5774_222d, 0xc067_fb68),
                  Words(0xb6ff_744e, 0xd2c2_c9bf, 0x6c59_0cbf, 0x0469_bf41))
         == Words(0xfa63_6a28, 0x25b3_39c9, 0x4066_8a31, 0x5724_4d17)
  {
  }

  lemma Sub4a()
    ensures SubWord(0xfa63_6a28) == 0x2dfb_0234 && SubWord(0x25b3_39c9) == 0x3f6d_12dd
  {
  }

  lemma Sub4b()
    ensures SubWord(0x4066_8a31) == 0x0933_7ec7 && SubWord(0x5724_4d17) == 0x5b36_e3f0
  {
  }

  lemma Mix4()
    ensures Mixed(Words(0x2dfb_0234, 0x3f6d_12dd, 0x0933_7ec7, 0x5b36_e3f0),
                  Words(0x47f7_f7bc, 0x9535_3e03, 0xf96c_32bc, 0xfd05_8dfd))
         == Words(0x2472_4023, 0x6966_b3fa, 0x6ed2_7532, 0x8842_5b6c)
  {
  }

  lemma Sub5a()
    ensures SubWord(0x2472_4023) == 0x3640_0926 && SubWord(0x6966_b3fa) == 0xf933_6d2d
  {
  }

  lemma Sub5b()
    ensures SubWord(0x6ed2_7532) == 0x9fb5_9d23 && SubWord(0x8842_5b6c) == 0xc42c_3950
  {
  }

  lemma Mix5()
    ensures Mixed(Words(0x3640_0926, 0xf933_6d2d, 0x9fb5_9d23, 0xc42c_3950),
                  Words(0x3caa_a3e8, 0xa99f_9deb, 0x50f3_af57, 0xadf6_22aa))
         == Words(0xc816_77bc, 0x9b7a_c93b, 0x2502_7992, 0xb026_1996)
  {
  }

  lemma Sub6a()
    ensures SubWord(0xc816_77bc) == 0xe847_f565 && SubWord(0x9b7a_c93b) == 0x14da_dde2
  {
  }

  lemma Sub6b()
    ensures SubWord(0x2502_7992) == 0x3f77_b64f && SubWord(0xb026_1996) == 0xe7f7_d490
  {
  }

  lemma Mix6()
    ensures Mixed(Words(0xe847_f565, 0x14da_dde2, 0x3f77_b64f, 0xe7f7_d490),
                  Words(0x5e39_0f7d, 0xf7a6_9296, 0xa755_3dc1, 0x0aa3_1f6b))
         == Words(0xc62f_e109, 0xf75e_edc3, 0xcc79_395d, 0x84f9_cf5d)
  {
  }

  lemma Sub7a()
    ensures SubWord(0xc62f_e109) == 0xb415_f801 && SubWord(0xf75e_edc3) == 0x6858_552e
  {
  }

  lemma Sub7b()
    ensures SubWord(0xcc79_395d) == 0x4bb6_124c && SubWord(0x84f9_cf5d) == 0x5f99_8a4c
  {
  }

  lemma Mix7()
    ensures Mixed(Words(0xb415_f801, 0x6858_552e, 0x4bb6_124c, 0x5f99_8a4c),
                  Words(0x14f9_701a, 0xe35f_e28c, 0x440a_df4d, 0x4ea9_c026))
         == Words(0xd187_6c0f, 0x79c4_300a, 0xb455_94ad, 0xd66f_f41f)
  {
  }

  lemma Sub8a()
    ensures SubWord(0xd187_6c0f) == 0x3e17_5076 && SubWord(0x79c4_300a) == 0xb61c_0467
  {
  }

  lemma Sub8b()
    ensures SubWord(0xb455_94ad) == 0x8dfc_2295 && SubWord(0xd66f_f41f) == 0xf6a8_bfc0
  {
  }

  lemma Mix8()
    ensures Mixed(Words(0x3e17_5076, 0xb61c_0467, 0x8dfc_2295, 0xf6a8_bfc0),
                  Words(0x4743_8735, 0xa41c_65b9, 0xe016_baf4, 0xaebf_7ad2))
         == Words(0xfde3_bad2, 0x05e5_d0d7, 0x3547_964e, 0xf1fe_37f1)
  {
  }

  lemma Sub9a()
    ensures SubWord(0xfde3_bad2) == 0x5411_f4b5 && SubWord(0x05e5_d0d7) == 0x6bd9_700e
  {
  }

  lemma Sub9b()
    ensures SubWord(0x3547_964e) == 0x96a0_902f && SubWord(0xf1fe_37f1) == 0xa1bb_9aa1
  {
  }

  lemma Mix9()
    ensures Mixed(Words(0x5411_f4b5, 0x6bd9_700e, 0x96a0_902f, 0xa1bb_9aa1),
                  Words(0x5499_32d1, 0xf085_5768, 0x1093_ed9c, 0xbe2c_974e))
         == Words(0xbd6e_7c3d, 0xf2b5_779e, 0x0b61_216e, 0x8b10_b689)
  {
  }

  lemma Sub10a()
    ensures SubWord(0xbd6e_7c3d) == 0x7a9f_1027 && SubWord(0xf2b5_779e) == 0x89d5_f50b
  {
  }

  lemma Sub10b()
    ensures SubWord(0x0b61_216e) == 0x2bef_fd9f && SubWord(0x8b10_b689) == 0x3dca_4ea7
  {
  }

  lemma FirstAndLast()
    ensures AddRoundKey(Words(0x0011_2233, 0x4455_6677, 0x8899_aabb, 0xccdd_eeff),
                        Words(0x0001_0203, 0x0405_0607, 0x0809_0a0b, 0x0c0d_0e0f))
         == Words(0x0010_2030, 0x4050_6070, 0x8090_a0b0, 0xc0d0_e0f0)
    ensures AddRoundKey(ShiftRows(Words(0x7a9f_1027, 0x89d5_f50b, 0x2bef_fd9f, 0x3dca_4ea7)),
                        Words(0x1311_1d7f, 0xe394_4a17, 0xf307_a78b, 0x4d2b_30c5))
         == Words(0x69c4_e0d8, 0x6a7b_0430, 0xd8cd_b780, 0x70b4_c55a)
  {
  }

  lemma RoundsAre(x: State, w: Schedule, r: nat)
    ensures EncRounds(x, w, 0) == AddRoundKey(x, w(0))
    ensures EncRounds(x, w, r + 1) == Mixed(SubBytes(EncRounds(x, w, r)), w(r + 1))
  {
    hide AddRoundKey, MixColumns, ShiftRows, SubBytes;
  }

  /** The cipher takes 00112233445566778899aabbccddeeff to 69c4e0d86a7b0430d8cdb78070b4c55a. */
  lemma CipherVector(k: seq<bv32>)
    requires k == [0x0001_0203, 0x0405_0607, 0x0809_0a0b, 0x0c0d_0e0f]
    ensures Cipher(Words(0x0011_2233, 0x4455_6677, 0x8899_aabb, 0xccdd_eeff), EncSchedule(k), 10)
         == Words(0x69c4_e0d8, 0x6a7b_0430, 0xd8cd_b780, 0x70b4_c55a)
  {
    hide EncRounds, Mixed, AddRoundKey, MixColumns, ShiftRows, SubBytes, SubWord, Words, EncSchedule;
    var x, w := Words(0x0011_2233, 0x4455_6677, 0x8899_aabb, 0xccdd_eeff), EncSchedule(k);
    Schedule(k);
    FirstAndLast();
    RoundsAre(x, w, 0);
    SubWords(0x0010_2030, 0x4050_6070, 0x8090_a0b0, 0xc0d0_e0f0);
    Sub1a();
    Sub1b();
    Mix1();
    RoundsAre(x, w, 1);
    SubWords(0x89d8_10e8, 0x855a_ce68, 0x2d18_43d8, 0xcb12_8fe4);
    Sub2a();
    Sub2b();
    Mix2();
    RoundsAre(x, w, 2);
    SubWords(0x4915_598f, 0x55e5_d7a0, 0xdaca_94fa, 0x1f0a_63f7);
    Sub3a();
    Sub3b();
    Mix3();
    RoundsAre(x, w, 3);
    SubWords(0xfa63_6a28, 0x25b3_39c9, 0x4066_8a31, 0x5724_4d17);
    Sub4a();
    Sub4b();
    Mix4();
    RoundsAre(x, w, 4);
    SubWords(0x2472_4023, 0x6966_b3fa, 0x6ed2_7532, 0x8842_5b6c);
    Sub5a();
    Sub5b();
    Mix5();
    RoundsAre(x, w, 5);
    SubWords(0xc816_77bc, 0x9b7a_c93b, 0x2502_7992, 0xb026_1996);
    Sub6a();
    Sub6b();
    Mix6();
    RoundsAre(x, w, 6);
    SubWords(0xc62f_e109, 0xf75e_edc3, 0xcc79_395d, 0x84f9_cf5d);
    Sub7a();
    Sub7b();
    Mix7();
    RoundsAre(x, w, 7);
    SubWords(0xd187_6c0f, 0x79c4_300a, 0xb455_94ad, 0xd66f_f41f);
    Sub8a();
    Sub8b();
    Mix8();
    RoundsAre(x, w, 8);
    SubWords(0xfde3_bad2, 0x05e5_d0d7, 0x3547_964e, 0xf1fe_37f1);
    Sub9a();
    Sub9b();
    Mix9();
    SubWords(0xbd6e_7c3d, 0xf2b5_779e, 0x0b61_216e, 0x8b10_b689);
    Sub10a();
    Sub10b();
  }

  // ----- the code -----

  /** The code gives it too, byte by byte, and takes it back. */
  method BlockVector() returns (cipher: seq<bv8>, plain: seq<bv8>)
    ensures cipher == [0x69, 0xc4, 0xe0, 0xd8, 0x6a, 0x7b, 0x04, 0x30, 0xd8, 0xcd, 0xb7, 0x80, 0x70, 0xb4, 0xc5, 0x5a]
    ensures plain == [0x00, 0x11, 0x22, 0x33, 0x44, 0x55, 0x66, 0x77, 0x88, 0x99, 0xaa, 0xbb, 0xcc, 0xdd, 0xee, 0xff]
  {
    hide Cipher, EncSchedule, Words, KeyWords, BlockState;
    var key: seq<bv8> :=
      [0x00, 0x01, 0x02, 0x03, 0x04, 0x05, 0x06, 0x07, 0x08, 0x09, 0x0a, 0x0b, 0x0c, 0x0d, 0x0e, 0x0f];
    var block: seq<bv8> :=
      [0x00, 0x11, 0x22, 0x33, 0x44, 0x55, 0x66, 0x77, 0x88, 0x99, 0xaa, 0xbb, 0xcc, 0xdd, 0xee, 0xff];
    ghost var result: seq<bv8> :=
      [0x69, 0xc4, 0xe0, 0xd8, 0x6a, 0x7b, 0x04, 0x30, 0xd8, 0xcd, 0xb7, 0x80, 0x70, 0xb4, 0xc5, 0x5a];
    cipher, plain := EncryptThenDecrypt(key, 128, block);
    KeyVector(key);
    CipherVector(KeyWords(key, 4));
    BlockVectors(block, result);
    SameBlock(cipher, result);
  }

  lemma KeyVector(key: seq<bv8>)
    requires key == [0x00, 0x01, 0x02, 0x03, 0x04, 0x05, 0x06, 0x07, 0x08, 0x09, 0x0a, 0x0b, 0x0c, 0x0d, 0x0e, 0x0f]
    ensures KeyWords(key, 4) == [0x0001_0203, 0x0405_0607, 0x0809_0a0b, 0x0c0d_0e0f]
  {
    hide Pack, KeyWords;
    var k := KeyWords(key, 4);
    forall i | 0 <= i < 4 ensures k[i] == Pack(Col(key[4 * i], key[4 * i + 1], key[4 * i + 2], key[4 * i + 3])) {
      PackUnpack(k[i]);
    }
    Packed();
  }

  lemma Packed()
    ensures Pack(Col(0x00, 0x01, 0x02, 0x03)) == 0x0001_0203 && Pack(Col(0x04, 0x05, 0x06, 0x07)) == 0x0405_0607
    ensures Pack(Col(0x08, 0x09, 0x0a, 0x0b)) == 0x0809_0a0b && Pack(Col(0x0c, 0x0d, 0x0e, 0x0f)) == 0x0c0d_0e0f
  {
  }

  lemma BlockVectors(block: seq<bv8>, result: seq<bv8>)
    requires block == [0x00, 0x11, 0x22, 0x33, 0x44, 0x55, 0x66, 0x77, 0x88, 0x99, 0xaa, 0xbb, 0xcc, 0xdd, 0xee, 0xff]
    requires result == [0x69, 0xc4, 0xe0, 0xd8, 0x6a, 0x7b, 0x04, 0x30, 0xd8, 0xcd, 0xb7, 0x80, 0x70, 0xb4, 0xc5, 0x5a]
    ensures BlockState(block) == Words(0x0011_2233, 0x4455_6677, 0x8899_aabb, 0xccdd_eeff)
    ensures BlockState(result) == Words(0x69c4_e0d8, 0x6a7b_0430, 0xd8cd_b780, 0x70b4_c55a)
  {
  }
}
