/** The message "abc", the first test of section 7.3 of RFC 3174, worked out. */
module Sha1Vector {
  import opened Machine
  import opened Sha1Spec

  // ---------------------------------------------------------------- the numbers

  /** The eighty words of the schedule. */
  function Word(t: nat): word
    requires t < 80
  {
    if t < 8 then Word0(t) else if t < 16 then Word8(t) else if t < 24 then Word16(t) else
    if t < 32 then Word24(t) else if t < 40 then Word32(t) else if t < 48 then Word40(t) else
    if t < 56 then Word48(t) else if t < 64 then Word56(t) else if t < 72 then Word64(t) else
    Word72(t)
  }

  function Word0(t: nat): word {
    if t == 0 then 0x61626380 else if t == 1 then 0x00000000 else if t == 2 then 0x00000000 else if t == 3 then 0x00000000 else
    if t == 4 then 0x00000000 else if t == 5 then 0x00000000 else if t == 6 then 0x00000000 else 0x00000000
  }

  function Word8(t: nat): word {
    if t == 8 then 0x00000000 else if t == 9 then 0x00000000 else if t == 10 then 0x00000000 else if t == 11 then 0x00000000 else
    if t == 12 then 0x00000000 else if t == 13 then 0x00000000 else if t == 14 then 0x00000000 else 0x00000018
  }

  function Word16(t: nat): word {
    if t == 16 then 0xC2C4C700 else if t == 17 then 0x00000000 else if t == 18 then 0x00000030 else if t == 19 then 0x85898E01 else
    if t == 20 then 0x00000000 else if t == 21 then 0x00000060 else if t == 22 then 0x0B131C03 else 0x00000030
  }

  function Word24(t: nat): word {
    if t == 24 then 0x85898EC1 else if t == 25 then 0x16263806 else if t == 26 then 0x00000000 else if t == 27 then 0x00000180 else
    if t == 28 then 0x2C4C700C else if t == 29 then 0x000000F0 else if t == 30 then 0x93AFB507 else 0x5898E048
  }

  function Word32(t: nat): word {
    if t == 32 then 0x8E9A9202 else if t == 33 then 0x00000600 else if t == 34 then 0xB131C0F0 else if t == 35 then 0x16263BC6 else
    if t == 36 then 0x4EBED41E else if t == 37 then 0x626380A1 else if t == 38 then 0x16263806 else 0x000018C0
  }

  function Word40(t: nat): word {
    if t == 40 then 0xD2E138C4 else if t == 41 then 0x00000F00 else if t == 42 then 0x3AFB5079 else if t == 43 then 0x898E04E5 else
    if t == 44 then 0xE2BA3C2B else if t == 45 then 0x000060C0 else if t == 46 then 0x053A37CD else 0x74458547
  }

  function Word48(t: nat): word {
    if t == 48 then 0xDA9415ED else if t == 49 then 0x26380A16 else if t == 50 then 0x626383A1 else if t == 51 then 0x4EBF54DE else
    if t == 52 then 0x3835B44B else if t == 53 then 0x0000F600 else if t == 54 then 0x1E84C7A3 else 0x98E04D98
  }

  function Word56(t: nat): word {
    if t == 56 then 0x651D16A0 else if t == 57 then 0x62658CA1 else if t == 58 then 0x458544D6 else if t == 59 then 0x44584CB7 else
    if t == 60 then 0x7BA06619 else if t == 61 then 0x6380AEA2 else if t == 62 then 0x0AE55269 else 0x627B49A1
  }

  function Word64(t: nat): word {
    if t == 64 then 0x7CD45C9D else if t == 65 then 0x000F0000 else if t == 66 then 0xFB50753A else if t == 67 then 0xEC6765E8 else
    if t == 68 then 0xBA3C2BE2 else if t == 69 then 0x0060C000 else if t == 70 then 0x3A37CD05 else 0x458546F4
  }

  function Word72(t: nat): word {
    if t == 72 then 0xB8599DD6 else if t == 73 then 0x380A1A26 else if t == 74 then 0x01E02203 else if t == 75 then 0xE7CC3456 else
    if t == 76 then 0xE6E60B69 else if t == 77 then 0x00F60A00 else if t == 78 then 0x5795EF4F else 0x822E0879
  }

  /** Register a after t - 4 rounds; the first ones stand for the other registers at the start. */
  function A(t: nat): word
    requires t < 85
  {
    if t < 8 then A0(t) else if t < 16 then A8(t) else if t < 24 then A16(t) else
    if t < 32 then A24(t) else if t < 40 then A32(t) else if t < 48 then A40(t) else
    if t < 56 then A48(t) else if t < 64 then A56(t) else if t < 72 then A64(t) else
    if t < 80 then A72(t) else A80(t)
  }

  function A0(t: nat): word {
    if t == 0 then 0x0F4B87C3 else if t == 1 then 0x40C951D8 else if t == 2 then 0x62EB73FA else if t == 3 then 0xEFCDAB89 else
    if t == 4 then 0x67452301 else if t == 5 then 0x0116FC33 else if t == 6 then 0x8990536D else 0xA1390F08
  }

  function A8(t: nat): word {
    if t == 8 then 0xCDD8E11B else if t == 9 then 0xCFD499DE else if t == 10 then 0x3FC7CA40 else if t == 11 then 0x993E30C1 else
    if t == 12 then 0x9E8C07D4 else if t == 13 then 0x4B6AE328 else if t == 14 then 0x8351F929 else 0xFBDA9E89
  }

  function A16(t: nat): word {
    if t == 16 then 0x63188FE4 else if t == 17 then 0x4607B664 else if t == 18 then 0x9128F695 else if t == 19 then 0x196BEE77 else
    if t == 20 then 0x20BDD62F else if t == 21 then 0x4E925823 else if t == 22 then 0x82AA6728 else 0xDC64901D
  }

  function A24(t: nat): word {
    if t == 24 then 0xFD9E1D7D else if t == 25 then 0x1A37B0CA else if t == 26 then 0x33A23BFC else if t == 27 then 0x21283486 else
    if t == 28 then 0xD541F12D else if t == 29 then 0xC7567DC6 else if t == 30 then 0x48413BA4 else 0xBE35FBD5
  }

  function A32(t: nat): word {
    if t == 32 then 0x4AA84D97 else if t == 33 then 0x8370B52E else if t == 34 then 0xC5FBAF5D else if t == 35 then 0x1267B407 else
    if t == 36 then 0x3B845D33 else if t == 37 then 0x046FAA0A else if t == 38 then 0x2C0EBC11 else 0x21796AD4
  }

  function A40(t: nat): word {
    if t == 40 then 0xDCBBB0CB else if t == 41 then 0x0F511FD8 else if t == 42 then 0xDC63973F else if t == 43 then 0x4C986405 else
    if t == 44 then 0x32DE1CBA else if t == 45 then 0xFC87DEDF else if t == 46 then 0x970A0D5C else 0x7F193DC5
  }

  function A48(t: nat): word {
    if t == 48 then 0xEE1B1AAF else if t == 49 then 0x40F28E09 else if t == 50 then 0x1C51E1F2 else if t == 51 then 0xA01B846C else
    if t == 52 then 0xBEAD02CA else if t == 53 then 0xBAF39337 else if t == 54 then 0x120731C5 else 0x641DB2CE
  }

  function A56(t: nat): word {
    if t == 56 then 0x3847AD66 else if t == 57 then 0xE490436D else if t == 58 then 0x27E9F1D8 else if t == 59 then 0x7B71F76D else
    if t == 60 then 0x5E6456AF else if t == 61 then 0xC846093F else if t == 62 then 0xD262FF50 else 0x09D785FD
  }

  function A64(t: nat): word {
    if t == 64 then 0x3F52DE5A else if t == 65 then 0xD756C147 else if t == 66 then 0x548C9CB2 else if t == 67 then 0xB66C020B else
    if t == 68 then 0x6B61C9E1 else if t == 69 then 0x19DFA7AC else if t == 70 then 0x101655F9 else 0x0C3DF2B4
  }

  function A72(t: nat): word {
    if t == 72 then 0x78DD4D2B else if t == 73 then 0x497093C0 else if t == 74 then 0x3F2588C2 else if t == 75 then 0xC199F8C7 else
    if t == 76 then 0x39859DE7 else if t == 77 then 0xEDB42DE4 else if t == 78 then 0x11793F6F else 0x5EE76897
  }

  function A80(t: nat): word {
    if t == 80 then 0x63F7DAB7 else if t == 81 then 0xA079B7D9 else if t == 82 then 0x860D21CC else if t == 83 then 0x5738D5E1 else
    0x42541B35
  }

  // ---------------------------------------------------------------- they follow from one another

  predicate WordOk(t: nat)
    requires 16 <= t < 80
  {
    Word(t) == Mix(Word(t - 3), Word(t - 8), Word(t - 14), Word(t - 16))
  }

  predicate RoundOk(t: nat)
    requires t < 80
  {
    A(t + 5) == Temp(Rotl(5, A(t + 4)), F(t, A(t + 3), Rotl(30, A(t + 2)), Rotl(30, A(t + 1))), Rotl(30, A(t)), Word(t), K(t))
  }

  lemma Words16()
    ensures WordOk(16) && WordOk(17) && WordOk(18) && WordOk(19) && WordOk(20) && WordOk(21) && WordOk(22) && WordOk(23)
  {
  }

  lemma Words24()
    ensures WordOk(24) && WordOk(25) && WordOk(26) && WordOk(27) && WordOk(28) && WordOk(29) && WordOk(30) && WordOk(31)
  {
  }

  lemma Words32()
    ensures WordOk(32) && WordOk(33) && WordOk(34) && WordOk(35) && WordOk(36) && WordOk(37) && WordOk(38) && WordOk(39)
  {
  }

  lemma Words40()
    ensures WordOk(40) && WordOk(41) && WordOk(42) && WordOk(43) && WordOk(44) && WordOk(45) && WordOk(46) && WordOk(47)
  {
  }

  lemma Words48()
    ensures WordOk(48) && WordOk(49) && WordOk(50) && WordOk(51) && WordOk(52) && WordOk(53) && WordOk(54) && WordOk(55)
  {
  }

  lemma Words56()
    ensures WordOk(56) && WordOk(57) && WordOk(58) && WordOk(59) && WordOk(60) && WordOk(61) && WordOk(62) && WordOk(63)
  {
  }

  lemma Words64()
    ensures WordOk(64) && WordOk(65) && WordOk(66) && WordOk(67) && WordOk(68) && WordOk(69) && WordOk(70) && WordOk(71)
  {
  }

  lemma Words72()
    ensures WordOk(72) && WordOk(73) && WordOk(74) && WordOk(75) && WordOk(76) && WordOk(77) && WordOk(78) && WordOk(79)
  {
  }

  lemma Rounds0()
    ensures RoundOk(0) && RoundOk(1) && RoundOk(2) && RoundOk(3) && RoundOk(4) && RoundOk(5) && RoundOk(6) && RoundOk(7) && RoundOk(8) && RoundOk(9)
  {
  }

  lemma Rounds10()
    ensures RoundOk(10) && RoundOk(11) && RoundOk(12) && RoundOk(13) && RoundOk(14) && RoundOk(15) && RoundOk(16) && RoundOk(17) && RoundOk(18) && RoundOk(19)
  {
  }

  lemma Rounds20()
    ensures RoundOk(20) && RoundOk(21) && RoundOk(22) && RoundOk(23) && RoundOk(24) && RoundOk(25) && RoundOk(26) && RoundOk(27) && RoundOk(28) && RoundOk(29)
  {
  }

  lemma Rounds30()
    ensures RoundOk(30) && RoundOk(31) && RoundOk(32) && RoundOk(33) && RoundOk(34) && RoundOk(35) && RoundOk(36) && RoundOk(37) && RoundOk(38) && RoundOk(39)
  {
  }

  lemma Rounds40()
    ensures RoundOk(40) && RoundOk(41) && RoundOk(42) && RoundOk(43) && RoundOk(44) && RoundOk(45) && RoundOk(46) && RoundOk(47) && RoundOk(48) && RoundOk(49)
  {
  }

  lemma Rounds50()
    ensures RoundOk(50) && RoundOk(51) && RoundOk(52) && RoundOk(53) && RoundOk(54) && RoundOk(55) && RoundOk(56) && RoundOk(57) && RoundOk(58) && RoundOk(59)
  {
  }

  lemma Rounds60()
    ensures RoundOk(60) && RoundOk(61) && RoundOk(62) && RoundOk(63) && RoundOk(64) && RoundOk(65) && RoundOk(66) && RoundOk(67) && RoundOk(68) && RoundOk(69)
  {
  }

  lemma Rounds70()
    ensures RoundOk(70) && RoundOk(71) && RoundOk(72) && RoundOk(73) && RoundOk(74) && RoundOk(75) && RoundOk(76) && RoundOk(77) && RoundOk(78) && RoundOk(79)
  {
  }

  lemma WordsFollow(t: nat)
    requires 16 <= t < 80
    ensures WordOk(t)
  {
    hide WordOk;
    if t < 24 {
      Words16();
      assert t == 16 || t == 17 || t == 18 || t == 19 || t == 20 || t == 21 || t == 22 || t == 23;
    } else if t < 32 {
      Words24();
      assert t == 24 || t == 25 || t == 26 || t == 27 || t == 28 || t == 29 || t == 30 || t == 31;
    } else if t < 40 {
      Words32();
      assert t == 32 || t == 33 || t == 34 || t == 35 || t == 36 || t == 37 || t == 38 || t == 39;
    } else if t < 48 {
      Words40();
      assert t == 40 || t == 41 || t == 42 || t == 43 || t == 44 || t == 45 || t == 46 || t == 47;
    } else if t < 56 {
      Words48();
      assert t == 48 || t == 49 || t == 50 || t == 51 || t == 52 || t == 53 || t == 54 || t == 55;
    } else if t < 64 {
      Words56();
      assert t == 56 || t == 57 || t == 58 || t == 59 || t == 60 || t == 61 || t == 62 || t == 63;
    } else if t < 72 {
      Words64();
      assert t == 64 || t == 65 || t == 66 || t == 67 || t == 68 || t == 69 || t == 70 || t == 71;
    } else {
      Words72();
      assert t == 72 || t == 73 || t == 74 || t == 75 || t == 76 || t == 77 || t == 78 || t == 79;
    }
  }

  lemma EarlyRounds(t: nat)
    requires 0 <= t < 40
    ensures RoundOk(t)
  {
    hide RoundOk;
    if t < 10 {
      Rounds0();
      assert t == 0 || t == 1 || t == 2 || t == 3 || t == 4 || t == 5 || t == 6 || t == 7 || t == 8 || t == 9;
    } else if t < 20 {
      Rounds10();
      assert t == 10 || t == 11 || t == 12 || t == 13 || t == 14 || t == 15 || t == 16 || t == 17 || t == 18 || t == 19;
    } else if t < 30 {
      Rounds20();
      assert t == 20 || t == 21 || t == 22 || t == 23 || t == 24 || t == 25 || t == 26 || t == 27 || t == 28 || t == 29;
    } else {
      Rounds30();
      assert t == 30 || t == 31 || t == 32 || t == 33 || t == 34 || t == 35 || t == 36 || t == 37 || t == 38 || t == 39;
    }
  }

  lemma LateRounds(t: nat)
    requires 40 <= t < 80
    ensures RoundOk(t)
  {
    hide RoundOk;
    if t < 50 {
      Rounds40();
      assert t == 40 || t == 41 || t == 42 || t == 43 || t == 44 || t == 45 || t == 46 || t == 47 || t == 48 || t == 49;
    } else if t < 60 {
      Rounds50();
      assert t == 50 || t == 51 || t == 52 || t == 53 || t == 54 || t == 55 || t == 56 || t == 57 || t == 58 || t == 59;
    } else if t < 70 {
      Rounds60();
      assert t == 60 || t == 61 || t == 62 || t == 63 || t == 64 || t == 65 || t == 66 || t == 67 || t == 68 || t == 69;
    } else {
      Rounds70();
      assert t == 70 || t == 71 || t == 72 || t == 73 || t == 74 || t == 75 || t == 76 || t == 77 || t == 78 || t == 79;
    }
  }

  // ---------------------------------------------------------------- the digest

  const MESSAGE: seq<byte> := [0x61, 0x62, 0x63]

  function Block(): seq<byte> {
    Pad(MESSAGE)
  }

  lemma LengthIs()
    ensures LengthBytes(24) == [0, 0, 0, 0, 0, 0, 0, 24]
  {
    assert LowWord(0) == 0 && LowWord(24) == 24;
    assert BigEndianBytes(0) == [0, 0, 0, 0];
    assert BigEndianBytes(24) == [0, 0, 0, 24];
  }

  lemma BlockIs()
    ensures |Block()| == 64 && Block()[..4] == [0x61, 0x62, 0x63, 0x80] && Block()[63] == 24
    ensures forall i :: 4 <= i < 63 ==> Block()[i] == 0
  {
    assert ZeroCount(3) == 52;
    LengthIs();
    hide LengthBytes, ZeroCount;
    assert Block() == [0x61, 0x62, 0x63] + ([0x80] + Repeat(0, 52) + [0, 0, 0, 0, 0, 0, 0, 24]);
  }

  lemma FirstWords(t: nat)
    requires t < 16
    ensures |Block()| == 64 && W(Block(), t) == Word(t)
  {
    BlockIs();
    hide Block;
    assert BigEndian(0x61, 0x62, 0x63, 0x80) == 0x61626380 && BigEndian(0, 0, 0, 0) == 0 && BigEndian(0, 0, 0, 24) == 24;
    hide BigEndian;
  }

  lemma {:induction false} WordsAre(t: nat)
    requires t < 80 && |Block()| == 64
    ensures W(Block(), t) == Word(t)
  {
    hide Block, Word, Mix, BigEndian;
    if t < 16 {
      FirstWords(t);
    } else {
      WordsAre(t - 3);
      WordsAre(t - 8);
      WordsAre(t - 14);
      WordsAre(t - 16);
      WordsFollow(t);
    }
  }

  function At(t: nat): Registers
    requires t <= 80
  {
    Registers(A(t + 4), A(t + 3), Rotl(30, A(t + 2)), Rotl(30, A(t + 1)), Rotl(30, A(t)))
  }

  lemma AtTheStart()
    ensures At(0) == INITIAL
  {
  }

  lemma {:induction false} RoundsAre(t: nat)
    requires t <= 80 && |Block()| == 64
    ensures Rounds(Block(), INITIAL, t) == At(t)
  {
    hide Block, A, Word, W, F, K, Rotl, Temp;
    if t == 0 {
      AtTheStart();
    } else {
      RoundsAre(t - 1);
      WordsAre(t - 1);
      if t <= 40 { EarlyRounds(t - 1); } else { LateRounds(t - 1); }
    }
  }

  /** A9993E36 4706816A BA3E2571 7850C26C 9CD0D89D */
  lemma PublishedDigest()
    ensures Sha1(MESSAGE) == [0xA9, 0x99, 0x3E, 0x36, 0x47, 0x06, 0x81, 0x6A, 0xBA, 0x3E, 0x25, 0x71,
                              0x78, 0x50, 0xC2, 0x6C, 0x9C, 0xD0, 0xD8, 0x9D]
  {
    hide W, Rounds, Pad, Digest, At;
    assert Block() == Pad(MESSAGE);
    BlockIs();
    RoundsAre(80);
    AbsorbOne(INITIAL, Block());
    LastSum();
  }

  lemma LastSum()
    ensures Digest(Sum(INITIAL, At(80))) == [0xA9, 0x99, 0x3E, 0x36, 0x47, 0x06, 0x81, 0x6A, 0xBA, 0x3E, 0x25, 0x71,
                                             0x78, 0x50, 0xC2, 0x6C, 0x9C, 0xD0, 0xD8, 0x9D]
  {
  }
}
