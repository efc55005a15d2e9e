/**
 A known answer for the transcription of the standard: the digest of "abc", with the words and the working variables
 on the way to it.
 */
module Sha1KnownAnswer {
  import opened Bytes
  import opened Sha1Standard

  const ABC: ByteString := [0x61, 0x62, 0x63]

  /** The one block of the padded message. */
  ghost predicate IsAbc(m: Block) {
    m[0] == 0x61626380 && (forall i | 1 <= i < 15 :: m[i] == 0) && m[15] == 24
  }

  // ---- the message schedule ----

  lemma WordsFrom16(m: Block)
    requires IsAbc(m)
    ensures W(m, 16) == 0xc2c4c700 && W(m, 17) == 0x00000000 && W(m, 18) == 0x00000030 && W(m, 19) == 0x85898e01
    ensures W(m, 20) == 0x00000000 && W(m, 21) == 0x00000060 && W(m, 22) == 0x0b131c03 && W(m, 23) == 0x00000030
    ensures W(m, 24) == 0x85898ec1 && W(m, 25) == 0x16263806 && W(m, 26) == 0x00000000 && W(m, 27) == 0x00000180
    ensures W(m, 28) == 0x2c4c700c && W(m, 29) == 0x000000f0 && W(m, 30) == 0x93afb507 && W(m, 31) == 0x5898e048
  {
  }

  lemma WordsFrom32(m: Block)
    requires IsAbc(m)
    ensures W(m, 32) == 0x8e9a9202 && W(m, 33) == 0x00000600 && W(m, 34) == 0xb131c0f0 && W(m, 35) == 0x16263bc6
    ensures W(m, 36) == 0x4ebed41e && W(m, 37) == 0x626380a1 && W(m, 38) == 0x16263806 && W(m, 39) == 0x000018c0
    ensures W(m, 40) == 0xd2e138c4 && W(m, 41) == 0x00000f00 && W(m, 42) == 0x3afb5079 && W(m, 43) == 0x898e04e5
    ensures W(m, 44) == 0xe2ba3c2b && W(m, 45) == 0x000060c0 && W(m, 46) == 0x053a37cd && W(m, 47) == 0x74458547
  {
    WordsFrom16(m);
  }

  lemma WordsFrom48(m: Block)
    requires IsAbc(m)
    ensures W(m, 48) == 0xda9415ed && W(m, 49) == 0x26380a16 && W(m, 50) == 0x626383a1 && W(m, 51) == 0x4ebf54de
    ensures W(m, 52) == 0x3835b44b && W(m, 53) == 0x0000f600 && W(m, 54) == 0x1e84c7a3 && W(m, 55) == 0x98e04d98
    ensures W(m, 56) == 0x651d16a0 && W(m, 57) == 0x62658ca1 && W(m, 58) == 0x458544d6 && W(m, 59) == 0x44584cb7
    ensures W(m, 60) == 0x7ba06619 && W(m, 61) == 0x6380aea2 && W(m, 62) == 0x0ae55269 && W(m, 63) == 0x627b49a1
  {
    WordsFrom32(m);
  }

  lemma WordsFrom64(m: Block)
    requires IsAbc(m)
    ensures W(m, 64) == 0x7cd45c9d && W(m, 65) == 0x000f0000 && W(m, 66) == 0xfb50753a && W(m, 67) == 0xec6765e8
    ensures W(m, 68) == 0xba3c2be2 && W(m, 69) == 0x0060c000 && W(m, 70) == 0x3a37cd05 && W(m, 71) == 0x458546f4
    ensures W(m, 72) == 0xb8599dd6 && W(m, 73) == 0x380a1a26 && W(m, 74) == 0x01e02203 && W(m, 75) == 0xe7cc3456
    ensures W(m, 76) == 0xe6e60b69 && W(m, 77) == 0x00f60a00 && W(m, 78) == 0x5795ef4f && W(m, 79) == 0x822e0879
  {
    WordsFrom48(m);
  }

  // ---- the rounds ----

  lemma RoundsFrom0(m: Block)
    requires IsAbc(m)
    ensures Rounds(IV, m, 10) == Words(0x8351f929, 0x4b6ae328, 0x27a301f5, 0x664f8c30, 0x0ff1f290)
  {
    assert Rounds(IV, m, 1) == Words(0x0116fc33, 0x67452301, 0x7bf36ae2, 0x98badcfe, 0x10325476);
    assert Rounds(IV, m, 2) == Words(0x8990536d, 0x0116fc33, 0x59d148c0, 0x7bf36ae2, 0x98badcfe);
    assert Rounds(IV, m, 3) == Words(0xa1390f08, 0x8990536d, 0xc045bf0c, 0x59d148c0, 0x7bf36ae2);
    assert Rounds(IV, m, 4) == Words(0xcdd8e11b, 0xa1390f08, 0x626414db, 0xc045bf0c, 0x59d148c0);
    assert Rounds(IV, m, 5) == Words(0xcfd499de, 0xcdd8e11b, 0x284e43c2, 0x626414db, 0xc045bf0c);
    assert Rounds(IV, m, 6) == Words(0x3fc7ca40, 0xcfd499de, 0xf3763846, 0x284e43c2, 0x626414db);
    assert Rounds(IV, m, 7) == Words(0x993e30c1, 0x3fc7ca40, 0xb3f52677, 0xf3763846, 0x284e43c2);
    assert Rounds(IV, m, 8) == Words(0x9e8c07d4, 0x993e30c1, 0x0ff1f290, 0xb3f52677, 0xf3763846);
    assert Rounds(IV, m, 9) == Words(0x4b6ae328, 0x9e8c07d4, 0x664f8c30, 0x0ff1f290, 0xb3f52677);
  }

  lemma RoundsFrom10(m: Block)
    requires IsAbc(m)
    ensures Rounds(IV, m, 20) == Words(0xfd9e1d7d, 0xdc64901d, 0x20aa99ca, 0xd3a49608, 0xc82f758b)
  {
    WordsFrom16(m);
    RoundsFrom0(m);
    assert Rounds(IV, m, 11) == Words(0xfbda9e89, 0x8351f929, 0x12dab8ca, 0x27a301f5, 0x664f8c30);
    assert Rounds(IV, m, 12) == Words(0x63188fe4, 0xfbda9e89, 0x60d47e4a, 0x12dab8ca, 0x27a301f5);
    assert Rounds(IV, m, 13) == Words(0x4607b664, 0x63188fe4, 0x7ef6a7a2, 0x60d47e4a, 0x12dab8ca);
    assert Rounds(IV, m, 14) == Words(0x9128f695, 0x4607b664, 0x18c623f9, 0x7ef6a7a2, 0x60d47e4a);
    assert Rounds(IV, m, 15) == Words(0x196bee77, 0x9128f695, 0x1181ed99, 0x18c623f9, 0x7ef6a7a2);
    assert Rounds(IV, m, 16) == Words(0x20bdd62f, 0x196bee77, 0x644a3da5, 0x1181ed99, 0x18c623f9);
    assert Rounds(IV, m, 17) == Words(0x4e925823, 0x20bdd62f, 0xc65afb9d, 0x644a3da5, 0x1181ed99);
    assert Rounds(IV, m, 18) == Words(0x82aa6728, 0x4e925823, 0xc82f758b, 0xc65afb9d, 0x644a3da5);
    assert Rounds(IV, m, 19) == Words(0xdc64901d, 0x82aa6728, 0xd3a49608, 0xc82f758b, 0xc65afb9d);
  }

  lemma RoundsFrom20(m: Block)
    requires IsAbc(m)
    ensures Rounds(IV, m, 30) == Words(0xc5fbaf5d, 0x8370b52e, 0xd2aa1365, 0x6f8d7ef5, 0x12104ee9)
  {
    WordsFrom16(m);
    RoundsFrom10(m);
    assert Rounds(IV, m, 21) == Words(0x1a37b0ca, 0xfd9e1d7d, 0x77192407, 0x20aa99ca, 0xd3a49608);
    assert Rounds(IV, m, 22) == Words(0x33a23bfc, 0x1a37b0ca, 0x7f67875f, 0x77192407, 0x20aa99ca);
    assert Rounds(IV, m, 23) == Words(0x21283486, 0x33a23bfc, 0x868dec32, 0x7f67875f, 0x77192407);
    assert Rounds(IV, m, 24) == Words(0xd541f12d, 0x21283486, 0x0ce88eff, 0x868dec32, 0x7f67875f);
    assert Rounds(IV, m, 25) == Words(0xc7567dc6, 0xd541f12d, 0x884a0d21, 0x0ce88eff, 0x868dec32);
    assert Rounds(IV, m, 26) == Words(0x48413ba4, 0xc7567dc6, 0x75507c4b, 0x884a0d21, 0x0ce88eff);
    assert Rounds(IV, m, 27) == Words(0xbe35fbd5, 0x48413ba4, 0xb1d59f71, 0x75507c4b, 0x884a0d21);
    assert Rounds(IV, m, 28) == Words(0x4aa84d97, 0xbe35fbd5, 0x12104ee9, 0xb1d59f71, 0x75507c4b);
    assert Rounds(IV, m, 29) == Words(0x8370b52e, 0x4aa84d97, 0x6f8d7ef5, 0x12104ee9, 0xb1d59f71);
  }

  lemma RoundsFrom30(m: Block)
    requires IsAbc(m)
    ensures Rounds(IV, m, 40) == Words(0x32de1cba, 0x4c986405, 0xf718e5cf, 0x03d447f6, 0xf72eec32)
  {
    WordsFrom16(m);
    WordsFrom32(m);
    RoundsFrom20(m);
    assert Rounds(IV, m, 31) == Words(0x1267b407, 0xc5fbaf5d, 0xa0dc2d4b, 0xd2aa1365, 0x6f8d7ef5);
    assert Rounds(IV, m, 32) == Words(0x3b845d33, 0x1267b407, 0x717eebd7, 0xa0dc2d4b, 0xd2aa1365);
    assert Rounds(IV, m, 33) == Words(0x046faa0a, 0x3b845d33, 0xc499ed01, 0x717eebd7, 0xa0dc2d4b);
    assert Rounds(IV, m, 34) == Words(0x2c0ebc11, 0x046faa0a, 0xcee1174c, 0xc499ed01, 0x717eebd7);
    assert Rounds(IV, m, 35) == Words(0x21796ad4, 0x2c0ebc11, 0x811bea82, 0xcee1174c, 0xc499ed01);
    assert Rounds(IV, m, 36) == Words(0xdcbbb0cb, 0x21796ad4, 0x4b03af04, 0x811bea82, 0xcee1174c);
    assert Rounds(IV, m, 37) == Words(0x0f511fd8, 0xdcbbb0cb, 0x085e5ab5, 0x4b03af04, 0x811bea82);
    assert Rounds(IV, m, 38) == Words(0xdc63973f, 0x0f511fd8, 0xf72eec32, 0x085e5ab5, 0x4b03af04);
    assert Rounds(IV, m, 39) == Words(0x4c986405, 0xdc63973f, 0x03d447f6, 0xf72eec32, 0x085e5ab5);
  }

  lemma RoundsFrom40(m: Block)
    requires IsAbc(m)
    ensures Rounds(IV, m, 50) == Words(0x120731c5, 0xbaf39337, 0xafab40b2, 0x2806e11b, 0x8714787c)
  {
    WordsFrom32(m);
    WordsFrom48(m);
    RoundsFrom30(m);
    assert Rounds(IV, m, 41) == Words(0xfc87dedf, 0x32de1cba, 0x53261901, 0xf718e5cf, 0x03d447f6);
    assert Rounds(IV, m, 42) == Words(0x970a0d5c, 0xfc87dedf, 0x8cb7872e, 0x53261901, 0xf718e5cf);
    assert Rounds(IV, m, 43) == Words(0x7f193dc5, 0x970a0d5c, 0xff21f7b7, 0x8cb7872e, 0x53261901);
    assert Rounds(IV, m, 44) == Words(0xee1b1aaf, 0x7f193dc5, 0x25c28357, 0xff21f7b7, 0x8cb7872e);
    assert Rounds(IV, m, 45) == Words(0x40f28e09, 0xee1b1aaf, 0x5fc64f71, 0x25c28357, 0xff21f7b7);
    assert Rounds(IV, m, 46) == Words(0x1c51e1f2, 0x40f28e09, 0xfb86c6ab, 0x5fc64f71, 0x25c28357);
    assert Rounds(IV, m, 47) == Words(0xa01b846c, 0x1c51e1f2, 0x503ca382, 0xfb86c6ab, 0x5fc64f71);
    assert Rounds(IV, m, 48) == Words(0xbead02ca, 0xa01b846c, 0x8714787c, 0x503ca382, 0xfb86c6ab);
    assert Rounds(IV, m, 49) == Words(0xbaf39337, 0xbead02ca, 0x2806e11b, 0x8714787c, 0x503ca382);
  }

  lemma RoundsFrom50(m: Block)
    requires IsAbc(m)
    ensures Rounds(IV, m, 60) == Words(0x3f52de5a, 0x09d785fd, 0x3498bfd4, 0xf211824f, 0xd79915ab)
  {
    WordsFrom48(m);
    RoundsFrom40(m);
    assert Rounds(IV, m, 51) == Words(0x641db2ce, 0x120731c5, 0xeebce4cd, 0xafab40b2, 0x2806e11b);
    assert Rounds(IV, m, 52) == Words(0x3847ad66, 0x641db2ce, 0x4481cc71, 0xeebce4cd, 0xafab40b2);
    assert Rounds(IV, m, 53) == Words(0xe490436d, 0x3847ad66, 0x99076cb3, 0x4481cc71, 0xeebce4cd);
    assert Rounds(IV, m, 54) == Words(0x27e9f1d8, 0xe490436d, 0x8e11eb59, 0x99076cb3, 0x4481cc71);
    assert Rounds(IV, m, 55) == Words(0x7b71f76d, 0x27e9f1d8, 0x792410db, 0x8e11eb59, 0x99076cb3);
    assert Rounds(IV, m, 56) == Words(0x5e6456af, 0x7b71f76d, 0x09fa7c76, 0x792410db, 0x8e11eb59);
    assert Rounds(IV, m, 57) == Words(0xc846093f, 0x5e6456af, 0x5edc7ddb, 0x09fa7c76, 0x792410db);
    assert Rounds(IV, m, 58) == Words(0xd262ff50, 0xc846093f, 0xd79915ab, 0x5edc7ddb, 0x09fa7c76);
    assert Rounds(IV, m, 59) == Words(0x09d785fd, 0xd262ff50, 0xf211824f, 0xd79915ab, 0x5edc7ddb);
  }

  lemma RoundsFrom60(m: Block)
    requires IsAbc(m)
    ensures Rounds(IV, m, 70) == Words(0x3f2588c2, 0x497093c0, 0xde37534a, 0x030f7cad, 0x4405957e)
  {
    WordsFrom48(m);
    WordsFrom64(m);
    RoundsFrom50(m);
    assert Rounds(IV, m, 61) == Words(0xd756c147, 0x3f52de5a, 0x4275e17f, 0x3498bfd4, 0xf211824f);
    assert Rounds(IV, m, 62) == Words(0x548c9cb2, 0xd756c147, 0x8fd4b796, 0x4275e17f, 0x3498bfd4);
    assert Rounds(IV, m, 63) == Words(0xb66c020b, 0x548c9cb2, 0xf5d5b051, 0x8fd4b796, 0x4275e17f);
    assert Rounds(IV, m, 64) == Words(0x6b61c9e1, 0xb66c020b, 0x9523272c, 0xf5d5b051, 0x8fd4b796);
    assert Rounds(IV, m, 65) == Words(0x19dfa7ac, 0x6b61c9e1, 0xed9b0082, 0x9523272c, 0xf5d5b051);
    assert Rounds(IV, m, 66) == Words(0x101655f9, 0x19dfa7ac, 0x5ad87278, 0xed9b0082, 0x9523272c);
    assert Rounds(IV, m, 67) == Words(0x0c3df2b4, 0x101655f9, 0x0677e9eb, 0x5ad87278, 0xed9b0082);
    assert Rounds(IV, m, 68) == Words(0x78dd4d2b, 0x0c3df2b4, 0x4405957e, 0x0677e9eb, 0x5ad87278);
    assert Rounds(IV, m, 69) == Words(0x497093c0, 0x78dd4d2b, 0x030f7cad, 0x4405957e, 0x0677e9eb);
  }

  lemma RoundsFrom70(m: Block)
    requires IsAbc(m)
    ensures Rounds(IV, m, 80) == Words(0x42541b35, 0x5738d5e1, 0x21834873, 0x681e6df6, 0xd8fdf6ad)
  {
    WordsFrom64(m);
    RoundsFrom60(m);
    assert Rounds(IV, m, 71) == Words(0xc199f8c7, 0x3f2588c2, 0x125c24f0, 0xde37534a, 0x030f7cad);
    assert Rounds(IV, m, 72) == Words(0x39859de7, 0xc199f8c7, 0x8fc96230, 0x125c24f0, 0xde37534a);
    assert Rounds(IV, m, 73) == Words(0xedb42de4, 0x39859de7, 0xf0667e31, 0x8fc96230, 0x125c24f0);
    assert Rounds(IV, m, 74) == Words(0x11793f6f, 0xedb42de4, 0xce616779, 0xf0667e31, 0x8fc96230);
    assert Rounds(IV, m, 75) == Words(0x5ee76897, 0x11793f6f, 0x3b6d0b79, 0xce616779, 0xf0667e31);
    assert Rounds(IV, m, 76) == Words(0x63f7dab7, 0x5ee76897, 0xc45e4fdb, 0x3b6d0b79, 0xce616779);
    assert Rounds(IV, m, 77) == Words(0xa079b7d9, 0x63f7dab7, 0xd7b9da25, 0xc45e4fdb, 0x3b6d0b79);
    assert Rounds(IV, m, 78) == Words(0x860d21cc, 0xa079b7d9, 0xd8fdf6ad, 0xd7b9da25, 0xc45e4fdb);
    assert Rounds(IV, m, 79) == Words(0x5738d5e1, 0x860d21cc, 0x681e6df6, 0xd8fdf6ad, 0xd7b9da25);
  }

  // ---- the digest ----

  lemma FirstWord()
    ensures Word(0x61, 0x62, 0x63, 0x80) == 0x61626380
  {
    assert 0x61 * 0x100_0000 + 0x62 * 0x1_0000 + 0x63 * 0x100 + 0x80 == 0x61626380;
  }

  lemma LengthWord()
    ensures Word(0, 0, 0, 24) == 24
  {
  }

  lemma ZeroWord()
    ensures Word(0, 0, 0, 0) == 0
  {
  }

  lemma AbcPadded(s: ByteString)
    requires s == ABC + Padding(3, 24)
    ensures |s| == 64 && s[0] == 0x61 && s[1] == 0x62 && s[2] == 0x63 && s[3] == 0x80 && s[63] == 24
    ensures forall i | 4 <= i < 63 :: s[i] == 0
  {
    assert BigEndian64(24) == [0, 0, 0, 0, 0, 0, 0, 24];
  }

  lemma AbcBlock(s: ByteString)
    requires s == ABC + Padding(3, 24)
    ensures |s| == 64 && IsAbc(BlockWords(s))
  {
    AbcPadded(s);
    FirstWord();
    LengthWord();
    ZeroWord();
    hide Word, Padding;
    forall i | 1 <= i < 15 ensures BlockWords(s)[i] == 0 {
      assert s[4 * i] == s[4 * i + 1] == s[4 * i + 2] == s[4 * i + 3] == 0;
    }
  }

  /** The example of FIPS 180 for a message of one block: a9993e36 4706816a ba3e2571 7850c26c 9cd0d89d. */
  lemma AbcDigest()
    ensures Sha1(ABC) == [0xa9, 0x99, 0x3e, 0x36, 0x47, 0x06, 0x81, 0x6a, 0xba, 0x3e, 0x25, 0x71,
                          0x78, 0x50, 0xc2, 0x6c, 0x9c, 0xd0, 0xd8, 0x9d]
  {
    var s := ABC + Padding(3, 24);
    AbcBlock(s);
    var m := BlockWords(s);
    RoundsFrom70(m);
    AbcCompressed(m);
    assert s[..0] == [] && s[0..] == s;
    assert HashBlocks([]) == IV;
    assert HashBlocks(s) == Compress(IV, m);
    AbcBytes();
  }

  lemma AbcCompressed(m: Block)
    requires IsAbc(m)
    ensures Compress(IV, m) == Words(0xa9993e36, 0x4706816a, 0xba3e2571, 0x7850c26c, 0x9cd0d89d)
  {
    RoundsFrom70(m);
  }

  lemma AbcBytes()
    ensures DigestBytes(Words(0xa9993e36, 0x4706816a, 0xba3e2571, 0x7850c26c, 0x9cd0d89d))
         == [0xa9, 0x99, 0x3e, 0x36, 0x47, 0x06, 0x81, 0x6a, 0xba, 0x3e, 0x25, 0x71,
             0x78, 0x50, 0xc2, 0x6c, 0x9c, 0xd0, 0xd8, 0x9d]
  {
  }
}
