/** The examples of FIPS 180-2 for the message "abc", round by round: appendices A.1 and B.1. */
module HashExamples {
  import opened Fips180
  import opened Padding

  const ABC: seq<byte> := [0x61, 0x62, 0x63]

  // The one block of the padded message.
  ghost predicate IsBlock(b: seq<byte>) {
    && |b| == 64
    && b[0] == 0x61 && b[1] == 0x62 && b[2] == 0x63 && b[3] == 0x80 && b[63] == 0x18
    && forall i | 4 <= i < 63 :: b[i] == 0
  }

  lemma {:induction false} ZeroBits(w: nat)
    ensures NatBits(0, w) == Zeros(w)
  {
    if w > 0 {
      ZeroBits(w - 1);
      assert Zeros(w) == Zeros(w - 1) + [false];
    }
  }

  lemma LengthIs(len: seq<byte>)
    requires len == ZeroBytes(7) + [0x18]
    ensures Bits(len) == NatBits(24, 64)
  {
    hide Bits, NatBits, ByteBits;
    BitsAppend(ZeroBytes(7), [0x18]);
    ZeroBytesBits(7);
    BitsOne(0x18);
    ByteNatBits(24);
    NatBitsByte(24, 56);
    ZeroBits(56);
  }

  lemma BlockIsPadded()
    ensures var b := PaddedBlocks(Bits(ABC)); IsBlock(b)
  {
    hide Bits, NatBits, PaddedBlocks;
    var len := ZeroBytes(7) + [0x18];
    LengthIs(len);
    PadByteIs();
    PadLayout(ABC, [], 0x80, len, 24);
    assert Bits(ABC) + [] == Bits(ABC);
    assert ZeroFill(3) == 52;
  }

  lemma PadByteIs()
    ensures IsPadByte(0x80, [])
  {
  }

  lemma Size(b: seq<byte>)
    requires IsBlock(b)
    ensures |b| == 64
  {
  }

  lemma FirstWords(b: seq<byte>, t: nat)
    requires IsBlock(b) && t < 16
    ensures BlockWord(b, t) == if t == 0 then 0x61626380 else if t == 15 then 0x18 else 0
  {
    hide BigEndianWord;
    WordsAre();
  }

  lemma WordsAre()
    ensures BigEndianWord(0x61, 0x62, 0x63, 0x80) == 0x61626380
    ensures BigEndianWord(0, 0, 0, 0x18) == 0x18 && BigEndianWord(0, 0, 0, 0) == 0
  {
  }

  lemma OneBlock(v: ShaVersion, block: seq<byte>)
    requires |block| == 64
    ensures HashBlocks(v, block) == Compress(v, InitialHash(v), block)
  {
    hide Compress, InitialHash;
    assert block[..0] == [] && block[0..] == block;
    assert HashBlocks(v, []) == InitialHash(v);
  }

  lemma DigestSplits(h: seq<word>, high: seq<word>, low: seq<word>)
    requires h == high + low
    ensures DigestBytes(h, 4 * |h|) == DigestBytes(high, 4 * |high|) + DigestBytes(low, 4 * |low|)
  {
    hide WordByte;
  }

  // ----- SHA-1, appendix A.1 -----

  predicate Word1(b: seq<byte>, t: nat, w: word) {
    |b| == 64 && Schedule1(b, t) == w
  }

  lemma First1(b: seq<byte>, t: nat)
    requires IsBlock(b) && t < 16
    ensures Word1(b, t, if t == 0 then 0x61626380 else if t == 15 then 0x18 else 0)
  {
    FirstWords(b, t);
    hide BlockWord;
  }

  lemma Later1(b: seq<byte>, t: nat, w3: word, w8: word, w14: word, w16: word)
    requires 16 <= t && Word1(b, t - 3, w3) && Word1(b, t - 8, w8)
    requires Word1(b, t - 14, w14) && Word1(b, t - 16, w16)
    ensures Word1(b, t, Expand1(w3, w8, w14, w16))
  {
    hide Expand1;
  }

  lemma FirstSixteen1(b: seq<byte>)
    requires IsBlock(b)
    ensures Word1(b, 0, 0x61626380) && Word1(b, 1, 0x00000000) && Word1(b, 2, 0x00000000) && Word1(b, 3, 0x00000000)
    ensures Word1(b, 4, 0x00000000) && Word1(b, 5, 0x00000000) && Word1(b, 6, 0x00000000) && Word1(b, 7, 0x00000000)
    ensures Word1(b, 8, 0x00000000) && Word1(b, 9, 0x00000000) && Word1(b, 10, 0x00000000) && Word1(b, 11, 0x00000000)
    ensures Word1(b, 12, 0x00000000) && Word1(b, 13, 0x00000000) && Word1(b, 14, 0x00000000) && Word1(b, 15, 0x00000018)
  {
    First1(b, 0);
    First1(b, 1);
    First1(b, 2);
    First1(b, 3);
    First1(b, 4);
    First1(b, 5);
    First1(b, 6);
    First1(b, 7);
    First1(b, 8);
    First1(b, 9);
    First1(b, 10);
    First1(b, 11);
    First1(b, 12);
    First1(b, 13);
    First1(b, 14);
    First1(b, 15);
    hide Word1, IsBlock;
  }

  lemma Words1From16(b: seq<byte>)
    requires IsBlock(b)
    ensures Word1(b, 16, 0xc2c4c700) && Word1(b, 17, 0x00000000) && Word1(b, 18, 0x00000030) && Word1(b, 19, 0x85898e01)
    ensures Word1(b, 20, 0x00000000) && Word1(b, 21, 0x00000060) && Word1(b, 22, 0x0b131c03) && Word1(b, 23, 0x00000030)
  {
    hide Word1, IsBlock;
    FirstSixteen1(b);
    Later1(b, 16, 0x00000000, 0x00000000, 0x00000000, 0x61626380);
    Later1(b, 17, 0x00000000, 0x00000000, 0x00000000, 0x00000000);
    Later1(b, 18, 0x00000018, 0x00000000, 0x00000000, 0x00000000);
    Later1(b, 19, 0xc2c4c700, 0x00000000, 0x00000000, 0x00000000);
    Later1(b, 20, 0x00000000, 0x00000000, 0x00000000, 0x00000000);
    Later1(b, 21, 0x00000030, 0x00000000, 0x00000000, 0x00000000);
    Later1(b, 22, 0x85898e01, 0x00000000, 0x00000000, 0x00000000);
    Later1(b, 23, 0x00000000, 0x00000018, 0x00000000, 0x00000000);
  }

  lemma Words1From24(b: seq<byte>)
    requires IsBlock(b)
    ensures Word1(b, 24, 0x85898ec1) && Word1(b, 25, 0x16263806) && Word1(b, 26, 0x00000000) && Word1(b, 27, 0x00000180)
    ensures Word1(b, 28, 0x2c4c700c) && Word1(b, 29, 0x000000f0) && Word1(b, 30, 0x93afb507) && Word1(b, 31, 0x5898e048)
  {
    hide Word1, IsBlock;
    FirstSixteen1(b);
    Words1From16(b);
    Later1(b, 24, 0x00000060, 0xc2c4c700, 0x00000000, 0x00000000);
    Later1(b, 25, 0x0b131c03, 0x00000000, 0x00000000, 0x00000000);
    Later1(b, 26, 0x00000030, 0x00000030, 0x00000000, 0x00000000);
    Later1(b, 27, 0x85898ec1, 0x85898e01, 0x00000000, 0x00000000);
    Later1(b, 28, 0x16263806, 0x00000000, 0x00000000, 0x00000000);
    Later1(b, 29, 0x00000000, 0x00000060, 0x00000018, 0x00000000);
    Later1(b, 30, 0x00000180, 0x0b131c03, 0xc2c4c700, 0x00000000);
    Later1(b, 31, 0x2c4c700c, 0x00000030, 0x00000000, 0x00000018);
  }

  lemma Words1From32(b: seq<byte>)
    requires IsBlock(b)
    ensures Word1(b, 32, 0x8e9a9202) && Word1(b, 33, 0x00000600) && Word1(b, 34, 0xb131c0f0) && Word1(b, 35, 0x16263bc6)
    ensures Word1(b, 36, 0x4ebed41e) && Word1(b, 37, 0x626380a1) && Word1(b, 38, 0x16263806) && Word1(b, 39, 0x000018c0)
  {
    hide Word1, IsBlock;
    Words1From16(b);
    Words1From24(b);
    Later1(b, 32, 0x000000f0, 0x85898ec1, 0x00000030, 0xc2c4c700);
    Later1(b, 33, 0x93afb507, 0x16263806, 0x85898e01, 0x00000000);
    Later1(b, 34, 0x5898e048, 0x00000000, 0x00000000, 0x00000030);
    Later1(b, 35, 0x8e9a9202, 0x00000180, 0x00000060, 0x85898e01);
    Later1(b, 36, 0x00000600, 0x2c4c700c, 0x0b131c03, 0x00000000);
    Later1(b, 37, 0xb131c0f0, 0x000000f0, 0x00000030, 0x00000060);
    Later1(b, 38, 0x16263bc6, 0x93afb507, 0x85898ec1, 0x0b131c03);
    Later1(b, 39, 0x4ebed41e, 0x5898e048, 0x16263806, 0x00000030);
  }

  lemma Words1From40(b: seq<byte>)
    requires IsBlock(b)
    ensures Word1(b, 40, 0xd2e138c4) && Word1(b, 41, 0x00000f00) && Word1(b, 42, 0x3afb5079) && Word1(b, 43, 0x898e04e5)
    ensures Word1(b, 44, 0xe2ba3c2b) && Word1(b, 45, 0x000060c0) && Word1(b, 46, 0x053a37cd) && Word1(b, 47, 0x74458547)
  {
    hide Word1, IsBlock;
    Words1From24(b);
    Words1From32(b);
    Later1(b, 40, 0x626380a1, 0x8e9a9202, 0x00000000, 0x85898ec1);
    Later1(b, 41, 0x16263806, 0x00000600, 0x00000180, 0x16263806);
    Later1(b, 42, 0x000018c0, 0xb131c0f0, 0x2c4c700c, 0x00000000);
    Later1(b, 43, 0xd2e138c4, 0x16263bc6, 0x000000f0, 0x00000180);
    Later1(b, 44, 0x00000f00, 0x4ebed41e, 0x93afb507, 0x2c4c700c);
    Later1(b, 45, 0x3afb5079, 0x626380a1, 0x5898e048, 0x000000f0);
    Later1(b, 46, 0x898e04e5, 0x16263806, 0x8e9a9202, 0x93afb507);
    Later1(b, 47, 0xe2ba3c2b, 0x000018c0, 0x00000600, 0x5898e048);
  }

  lemma Words1From48(b: seq<byte>)
    requires IsBlock(b)
    ensures Word1(b, 48, 0xda9415ed) && Word1(b, 49, 0x26380a16) && Word1(b, 50, 0x626383a1) && Word1(b, 51, 0x4ebf54de)
    ensures Word1(b, 52, 0x3835b44b) && Word1(b, 53, 0x0000f600) && Word1(b, 54, 0x1e84c7a3) && Word1(b, 55, 0x98e04d98)
  {
    hide Word1, IsBlock;
    Words1From32(b);
    Words1From40(b);
    Later1(b, 48, 0x000060c0, 0xd2e138c4, 0xb131c0f0, 0x8e9a9202);
    Later1(b, 49, 0x053a37cd, 0x00000f00, 0x16263bc6, 0x00000600);
    Later1(b, 50, 0x74458547, 0x3afb5079, 0x4ebed41e, 0xb131c0f0);
    Later1(b, 51, 0xda9415ed, 0x898e04e5, 0x626380a1, 0x16263bc6);
    Later1(b, 52, 0x26380a16, 0xe2ba3c2b, 0x16263806, 0x4ebed41e);
    Later1(b, 53, 0x626383a1, 0x000060c0, 0x000018c0, 0x626380a1);
    Later1(b, 54, 0x4ebf54de, 0x053a37cd, 0xd2e138c4, 0x16263806);
    Later1(b, 55, 0x3835b44b, 0x74458547, 0x00000f00, 0x000018c0);
  }

  lemma Words1From56(b: seq<byte>)
    requires IsBlock(b)
    ensures Word1(b, 56, 0x651d16a0) && Word1(b, 57, 0x62658ca1) && Word1(b, 58, 0x458544d6) && Word1(b, 59, 0x44584cb7)
    ensures Word1(b, 60, 0x7ba06619) && Word1(b, 61, 0x6380aea2) && Word1(b, 62, 0x0ae55269) && Word1(b, 63, 0x627b49a1)
  {
    hide Word1, IsBlock;
    Words1From40(b);
    Words1From48(b);
    Later1(b, 56, 0x0000f600, 0xda9415ed, 0x3afb5079, 0xd2e138c4);
    Later1(b, 57, 0x1e84c7a3, 0x26380a16, 0x898e04e5, 0x00000f00);
    Later1(b, 58, 0x98e04d98, 0x626383a1, 0xe2ba3c2b, 0x3afb5079);
    Later1(b, 59, 0x651d16a0, 0x4ebf54de, 0x000060c0, 0x898e04e5);
    Later1(b, 60, 0x62658ca1, 0x3835b44b, 0x053a37cd, 0xe2ba3c2b);
    Later1(b, 61, 0x458544d6, 0x0000f600, 0x74458547, 0x000060c0);
    Later1(b, 62, 0x44584cb7, 0x1e84c7a3, 0xda9415ed, 0x053a37cd);
    Later1(b, 63, 0x7ba06619, 0x98e04d98, 0x26380a16, 0x74458547);
  }

  lemma Words1From64(b: seq<byte>)
    requires IsBlock(b)
    ensures Word1(b, 64, 0x7cd45c9d) && Word1(b, 65, 0x000f0000) && Word1(b, 66, 0xfb50753a) && Word1(b, 67, 0xec6765e8)
    ensures Word1(b, 68, 0xba3c2be2) && Word1(b, 69, 0x0060c000) && Word1(b, 70, 0x3a37cd05) && Word1(b, 71, 0x458546f4)
  {
    hide Word1, IsBlock;
    Words1From48(b);
    Words1From56(b);
    Later1(b, 64, 0x6380aea2, 0x651d16a0, 0x626383a1, 0xda9415ed);
    Later1(b, 65, 0x0ae55269, 0x62658ca1, 0x4ebf54de, 0x26380a16);
    Later1(b, 66, 0x627b49a1, 0x458544d6, 0x3835b44b, 0x626383a1);
    Later1(b, 67, 0x7cd45c9d, 0x44584cb7, 0x0000f600, 0x4ebf54de);
    Later1(b, 68, 0x000f0000, 0x7ba06619, 0x1e84c7a3, 0x3835b44b);
    Later1(b, 69, 0xfb50753a, 0x6380aea2, 0x98e04d98, 0x0000f600);
    Later1(b, 70, 0xec6765e8, 0x0ae55269, 0x651d16a0, 0x1e84c7a3);
    Later1(b, 71, 0xba3c2be2, 0x627b49a1, 0x62658ca1, 0x98e04d98);
  }

  lemma Words1From72(b: seq<byte>)
    requires IsBlock(b)
    ensures Word1(b, 72, 0xb8599dd6) && Word1(b, 73, 0x380a1a26) && Word1(b, 74, 0x01e02203) && Word1(b, 75, 0xe7cc3456)
    ensures Word1(b, 76, 0xe6e60b69) && Word1(b, 77, 0x00f60a00) && Word1(b, 78, 0x5795ef4f) && Word1(b, 79, 0x822e0879)
  {
    hide Word1, IsBlock;
    Words1From56(b);
    Words1From64(b);
    Later1(b, 72, 0x0060c000, 0x7cd45c9d, 0x458544d6, 0x651d16a0);
    Later1(b, 73, 0x3a37cd05, 0x000f0000, 0x44584cb7, 0x62658ca1);
    Later1(b, 74, 0x458546f4, 0xfb50753a, 0x7ba06619, 0x458544d6);
    Later1(b, 75, 0xb8599dd6, 0xec6765e8, 0x6380aea2, 0x44584cb7);
    Later1(b, 76, 0x380a1a26, 0xba3c2be2, 0x0ae55269, 0x7ba06619);
    Later1(b, 77, 0x01e02203, 0x0060c000, 0x627b49a1, 0x6380aea2);
    Later1(b, 78, 0xe7cc3456, 0x3a37cd05, 0x7cd45c9d, 0x0ae55269);
    Later1(b, 79, 0xe6e60b69, 0x458546f4, 0x000f0000, 0x627b49a1);
  }

  // The registers before round t.
  predicate At1(b: seq<byte>, t: nat, r: Registers1) {
    |b| == 64 && t <= 80 && Rounds1(InitialHash(SHA1), b, t) == r
  }

  lemma Start1(b: seq<byte>)
    requires |b| == 64
    ensures At1(b, 0, Registers1(0x67452301, 0xefcdab89, 0x98badcfe, 0x10325476, 0xc3d2e1f0))
  {
  }

  // Round t with its word of the schedule.
  lemma Step1(b: seq<byte>, t: nat, w: word, r: Registers1)
    requires t < 80 && At1(b, t, r) && Word1(b, t, w)
    ensures At1(b, t + 1, Round1(r, F1(t, r.b, r.c, r.d), K1(t), w))
  {
    hide Round1, K1, F1;
  }

  lemma Rounds1From0(b: seq<byte>)
    requires IsBlock(b)
    ensures At1(b, 8,
                Registers1(0x9e8c07d4, 0x993e30c1, 0x0ff1f290, 0xb3f52677, 0xf3763846))
  {
    hide Word1, At1, IsBlock;
    FirstSixteen1(b);
    Size(b);
    Start1(b);
    Step1(b, 0, 0x61626380, Registers1(0x67452301, 0xefcdab89, 0x98badcfe, 0x10325476, 0xc3d2e1f0));
    Step1(b, 1, 0x00000000, Registers1(0x0116fc33, 0x67452301, 0x7bf36ae2, 0x98badcfe, 0x10325476));
    Step1(b, 2, 0x00000000, Registers1(0x8990536d, 0x0116fc33, 0x59d148c0, 0x7bf36ae2, 0x98badcfe));
    Step1(b, 3, 0x00000000, Registers1(0xa1390f08, 0x8990536d, 0xc045bf0c, 0x59d148c0, 0x7bf36ae2));
    Step1(b, 4, 0x00000000, Registers1(0xcdd8e11b, 0xa1390f08, 0x626414db, 0xc045bf0c, 0x59d148c0));
    Step1(b, 5, 0x00000000, Registers1(0xcfd499de, 0xcdd8e11b, 0x284e43c2, 0x626414db, 0xc045bf0c));
    Step1(b, 6, 0x00000000, Registers1(0x3fc7ca40, 0xcfd499de, 0xf3763846, 0x284e43c2, 0x626414db));
    Step1(b, 7, 0x00000000, Registers1(0x993e30c1, 0x3fc7ca40, 0xb3f52677, 0xf3763846, 0x284e43c2));
  }

  lemma Rounds1From8(b: seq<byte>)
    requires IsBlock(b)
    ensures At1(b, 16,
                Registers1(0x20bdd62f, 0x196bee77, 0x644a3da5, 0x1181ed99, 0x18c623f9))
  {
    hide Word1, At1, IsBlock;
    FirstSixteen1(b);
    Rounds1From0(b);
    Step1(b, 8, 0x00000000, Registers1(0x9e8c07d4, 0x993e30c1, 0x0ff1f290, 0xb3f52677, 0xf3763846));
    Step1(b, 9, 0x00000000, Registers1(0x4b6ae328, 0x9e8c07d4, 0x664f8c30, 0x0ff1f290, 0xb3f52677));
    Step1(b, 10, 0x00000000, Registers1(0x8351f929, 0x4b6ae328, 0x27a301f5, 0x664f8c30, 0x0ff1f290));
    Step1(b, 11, 0x00000000, Registers1(0xfbda9e89, 0x8351f929, 0x12dab8ca, 0x27a301f5, 0x664f8c30));
    Step1(b, 12, 0x00000000, Registers1(0x63188fe4, 0xfbda9e89, 0x60d47e4a, 0x12dab8ca, 0x27a301f5));
    Step1(b, 13, 0x00000000, Registers1(0x4607b664, 0x63188fe4, 0x7ef6a7a2, 0x60d47e4a, 0x12dab8ca));
    Step1(b, 14, 0x00000000, Registers1(0x9128f695, 0x4607b664, 0x18c623f9, 0x7ef6a7a2, 0x60d47e4a));
    Step1(b, 15, 0x00000018, Registers1(0x196bee77, 0x9128f695, 0x1181ed99, 0x18c623f9, 0x7ef6a7a2));
  }

  lemma Rounds1From16(b: seq<byte>)
    requires IsBlock(b)
    ensures At1(b, 24,
                Registers1(0xd541f12d, 0x21283486, 0x0ce88eff, 0x868dec32, 0x7f67875f))
  {
    hide Word1, At1, IsBlock;
    Words1From16(b);
    Rounds1From8(b);
    Step1(b, 16, 0xc2c4c700, Registers1(0x20bdd62f, 0x196bee77, 0x644a3da5, 0x1181ed99, 0x18c623f9));
    Step1(b, 17, 0x00000000, Registers1(0x4e925823, 0x20bdd62f, 0xc65afb9d, 0x644a3da5, 0x1181ed99));
    Step1(b, 18, 0x00000030, Registers1(0x82aa6728, 0x4e925823, 0xc82f758b, 0xc65afb9d, 0x644a3da5));
    Step1(b, 19, 0x85898e01, Registers1(0xdc64901d, 0x82aa6728, 0xd3a49608, 0xc82f758b, 0xc65afb9d));
    Step1(b, 20, 0x00000000, Registers1(0xfd9e1d7d, 0xdc64901d, 0x20aa99ca, 0xd3a49608, 0xc82f758b));
    Step1(b, 21, 0x00000060, Registers1(0x1a37b0ca, 0xfd9e1d7d, 0x77192407, 0x20aa99ca, 0xd3a49608));
    Step1(b, 22, 0x0b131c03, Registers1(0x33a23bfc, 0x1a37b0ca, 0x7f67875f, 0x77192407, 0x20aa99ca));
    Step1(b, 23, 0x00000030, Registers1(0x21283486, 0x33a23bfc, 0x868dec32, 0x7f67875f, 0x77192407));
  }

  lemma Rounds1From24(b: seq<byte>)
    requires IsBlock(b)
    ensures At1(b, 32,
                Registers1(0x3b845d33, 0x1267b407, 0x717eebd7, 0xa0dc2d4b, 0xd2aa1365))
  {
    hide Word1, At1, IsBlock;
    Words1From24(b);
    Rounds1From16(b);
    Step1(b, 24, 0x85898ec1, Registers1(0xd541f12d, 0x21283486, 0x0ce88eff, 0x868dec32, 0x7f67875f));
    Step1(b, 25, 0x16263806, Registers1(0xc7567dc6, 0xd541f12d, 0x884a0d21, 0x0ce88eff, 0x868dec32));
    Step1(b, 26, 0x00000000, Registers1(0x48413ba4, 0xc7567dc6, 0x75507c4b, 0x884a0d21, 0x0ce88eff));
    Step1(b, 27, 0x00000180, Registers1(0xbe35fbd5, 0x48413ba4, 0xb1d59f71, 0x75507c4b, 0x884a0d21));
    Step1(b, 28, 0x2c4c700c, Registers1(0x4aa84d97, 0xbe35fbd5, 0x12104ee9, 0xb1d59f71, 0x75507c4b));
    Step1(b, 29, 0x000000f0, Registers1(0x8370b52e, 0x4aa84d97, 0x6f8d7ef5, 0x12104ee9, 0xb1d59f71));
    Step1(b, 30, 0x93afb507, Registers1(0xc5fbaf5d, 0x8370b52e, 0xd2aa1365, 0x6f8d7ef5, 0x12104ee9));
    Step1(b, 31, 0x5898e048, Registers1(0x1267b407, 0xc5fbaf5d, 0xa0dc2d4b, 0xd2aa1365, 0x6f8d7ef5));
  }

  lemma Rounds1From32(b: seq<byte>)
    requires IsBlock(b)
    ensures At1(b, 40,
                Registers1(0x32de1cba, 0x4c986405, 0xf718e5cf, 0x03d447f6, 0xf72eec32))
  {
    hide Word1, At1, IsBlock;
    Words1From32(b);
    Rounds1From24(b);
    Step1(b, 32, 0x8e9a9202, Registers1(0x3b845d33, 0x1267b407, 0x717eebd7, 0xa0dc2d4b, 0xd2aa1365));
    Step1(b, 33, 0x00000600, Registers1(0x046faa0a, 0x3b845d33, 0xc499ed01, 0x717eebd7, 0xa0dc2d4b));
    Step1(b, 34, 0xb131c0f0, Registers1(0x2c0ebc11, 0x046faa0a, 0xcee1174c, 0xc499ed01, 0x717eebd7));
    Step1(b, 35, 0x16263bc6, Registers1(0x21796ad4, 0x2c0ebc11, 0x811bea82, 0xcee1174c, 0xc499ed01));
    Step1(b, 36, 0x4ebed41e, Registers1(0xdcbbb0cb, 0x21796ad4, 0x4b03af04, 0x811bea82, 0xcee1174c));
    Step1(b, 37, 0x626380a1, Registers1(0x0f511fd8, 0xdcbbb0cb, 0x085e5ab5, 0x4b03af04, 0x811bea82));
    Step1(b, 38, 0x16263806, Registers1(0xdc63973f, 0x0f511fd8, 0xf72eec32, 0x085e5ab5, 0x4b03af04));
    Step1(b, 39, 0x000018c0, Registers1(0x4c986405, 0xdc63973f, 0x03d447f6, 0xf72eec32, 0x085e5ab5));
  }

  lemma Rounds1From40(b: seq<byte>)
    requires IsBlock(b)
    ensures At1(b, 48,
                Registers1(0xbead02ca, 0xa01b846c, 0x8714787c, 0x503ca382, 0xfb86c6ab))
  {
    hide Word1, At1, IsBlock;
    Words1From40(b);
    Rounds1From32(b);
    Step1(b, 40, 0xd2e138c4, Registers1(0x32de1cba, 0x4c986405, 0xf718e5cf, 0x03d447f6, 0xf72eec32));
    Step1(b, 41, 0x00000f00, Registers1(0xfc87dedf, 0x32de1cba, 0x53261901, 0xf718e5cf, 0x03d447f6));
    Step1(b, 42, 0x3afb5079, Registers1(0x970a0d5c, 0xfc87dedf, 0x8cb7872e, 0x53261901, 0xf718e5cf));
    Step1(b, 43, 0x898e04e5, Registers1(0x7f193dc5, 0x970a0d5c, 0xff21f7b7, 0x8cb7872e, 0x53261901));
    Step1(b, 44, 0xe2ba3c2b, Registers1(0xee1b1aaf, 0x7f193dc5, 0x25c28357, 0xff21f7b7, 0x8cb7872e));
    Step1(b, 45, 0x000060c0, Registers1(0x40f28e09, 0xee1b1aaf, 0x5fc64f71, 0x25c28357, 0xff21f7b7));
    Step1(b, 46, 0x053a37cd, Registers1(0x1c51e1f2, 0x40f28e09, 0xfb86c6ab, 0x5fc64f71, 0x25c28357));
    Step1(b, 47, 0x74458547, Registers1(0xa01b846c, 0x1c51e1f2, 0x503ca382, 0xfb86c6ab, 0x5fc64f71));
  }

  lemma Rounds1From48(b: seq<byte>)
    requires IsBlock(b)
    ensures At1(b, 56,
                Registers1(0x5e6456af, 0x7b71f76d, 0x09fa7c76, 0x792410db, 0x8e11eb59))
  {
    hide Word1, At1, IsBlock;
    Words1From48(b);
    Rounds1From40(b);
    Step1(b, 48, 0xda9415ed, Registers1(0xbead02ca, 0xa01b846c, 0x8714787c, 0x503ca382, 0xfb86c6ab));
    Step1(b, 49, 0x26380a16, Registers1(0xbaf39337, 0xbead02ca, 0x2806e11b, 0x8714787c, 0x503ca382));
    Step1(b, 50, 0x626383a1, Registers1(0x120731c5, 0xbaf39337, 0xafab40b2, 0x2806e11b, 0x8714787c));
    Step1(b, 51, 0x4ebf54de, Registers1(0x641db2ce, 0x120731c5, 0xeebce4cd, 0xafab40b2, 0x2806e11b));
    Step1(b, 52, 0x3835b44b, Registers1(0x3847ad66, 0x641db2ce, 0x4481cc71, 0xeebce4cd, 0xafab40b2));
    Step1(b, 53, 0x0000f600, Registers1(0xe490436d, 0x3847ad66, 0x99076cb3, 0x4481cc71, 0xeebce4cd));
    Step1(b, 54, 0x1e84c7a3, Registers1(0x27e9f1d8, 0xe490436d, 0x8e11eb59, 0x99076cb3, 0x4481cc71));
    Step1(b, 55, 0x98e04d98, Registers1(0x7b71f76d, 0x27e9f1d8, 0x792410db, 0x8e11eb59, 0x99076cb3));
  }

  lemma Rounds1From56(b: seq<byte>)
    requires IsBlock(b)
    ensures At1(b, 64,
                Registers1(0x6b61c9e1, 0xb66c020b, 0x9523272c, 0xf5d5b051, 0x8fd4b796))
  {
    hide Word1, At1, IsBlock;
    Words1From56(b);
    Rounds1From48(b);
    Step1(b, 56, 0x651d16a0, Registers1(0x5e6456af, 0x7b71f76d, 0x09fa7c76, 0x792410db, 0x8e11eb59));
    Step1(b, 57, 0x62658ca1, Registers1(0xc846093f, 0x5e6456af, 0x5edc7ddb, 0x09fa7c76, 0x792410db));
    Step1(b, 58, 0x458544d6, Registers1(0xd262ff50, 0xc846093f, 0xd79915ab, 0x5edc7ddb, 0x09fa7c76));
    Step1(b, 59, 0x44584cb7, Registers1(0x09d785fd, 0xd262ff50, 0xf211824f, 0xd79915ab, 0x5edc7ddb));
    Step1(b, 60, 0x7ba06619, Registers1(0x3f52de5a, 0x09d785fd, 0x3498bfd4, 0xf211824f, 0xd79915ab));
    Step1(b, 61, 0x6380aea2, Registers1(0xd756c147, 0x3f52de5a, 0x4275e17f, 0x3498bfd4, 0xf211824f));
    Step1(b, 62, 0x0ae55269, Registers1(0x548c9cb2, 0xd756c147, 0x8fd4b796, 0x4275e17f, 0x3498bfd4));
    Step1(b, 63, 0x627b49a1, Registers1(0xb66c020b, 0x548c9cb2, 0xf5d5b051, 0x8fd4b796, 0x4275e17f));
  }

  lemma Rounds1From64(b: seq<byte>)
    requires IsBlock(b)
    ensures At1(b, 72,
                Registers1(0x39859de7, 0xc199f8c7, 0x8fc96230, 0x125c24f0, 0xde37534a))
  {
    hide Word1, At1, IsBlock;
    Words1From64(b);
    Rounds1From56(b);
    Step1(b, 64, 0x7cd45c9d, Registers1(0x6b61c9e1, 0xb66c020b, 0x9523272c, 0xf5d5b051, 0x8fd4b796));
    Step1(b, 65, 0x000f0000, Registers1(0x19dfa7ac, 0x6b61c9e1, 0xed9b0082, 0x9523272c, 0xf5d5b051));
    Step1(b, 66, 0xfb50753a, Registers1(0x101655f9, 0x19dfa7ac, 0x5ad87278, 0xed9b0082, 0x9523272c));
    Step1(b, 67, 0xec6765e8, Registers1(0x0c3df2b4, 0x101655f9, 0x0677e9eb, 0x5ad87278, 0xed9b0082));
    Step1(b, 68, 0xba3c2be2, Registers1(0x78dd4d2b, 0x0c3df2b4, 0x4405957e, 0x0677e9eb, 0x5ad87278));
    Step1(b, 69, 0x0060c000, Registers1(0x497093c0, 0x78dd4d2b, 0x030f7cad, 0x4405957e, 0x0677e9eb));
    Step1(b, 70, 0x3a37cd05, Registers1(0x3f2588c2, 0x497093c0, 0xde37534a, 0x030f7cad, 0x4405957e));
    Step1(b, 71, 0x458546f4, Registers1(0xc199f8c7, 0x3f2588c2, 0x125c24f0, 0xde37534a, 0x030f7cad));
  }

  lemma Rounds1From72(b: seq<byte>)
    requires IsBlock(b)
    ensures At1(b, 80,
                Registers1(0x42541b35, 0x5738d5e1, 0x21834873, 0x681e6df6, 0xd8fdf6ad))
  {
    hide Word1, At1, IsBlock;
    Words1From72(b);
    Rounds1From64(b);
    Step1(b, 72, 0xb8599dd6, Registers1(0x39859de7, 0xc199f8c7, 0x8fc96230, 0x125c24f0, 0xde37534a));
    Step1(b, 73, 0x380a1a26, Registers1(0xedb42de4, 0x39859de7, 0xf0667e31, 0x8fc96230, 0x125c24f0));
    Step1(b, 74, 0x01e02203, Registers1(0x11793f6f, 0xedb42de4, 0xce616779, 0xf0667e31, 0x8fc96230));
    Step1(b, 75, 0xe7cc3456, Registers1(0x5ee76897, 0x11793f6f, 0x3b6d0b79, 0xce616779, 0xf0667e31));
    Step1(b, 76, 0xe6e60b69, Registers1(0x63f7dab7, 0x5ee76897, 0xc45e4fdb, 0x3b6d0b79, 0xce616779));
    Step1(b, 77, 0x00f60a00, Registers1(0xa079b7d9, 0x63f7dab7, 0xd7b9da25, 0xc45e4fdb, 0x3b6d0b79));
    Step1(b, 78, 0x5795ef4f, Registers1(0x860d21cc, 0xa079b7d9, 0xd8fdf6ad, 0xd7b9da25, 0xc45e4fdb));
    Step1(b, 79, 0x822e0879, Registers1(0x5738d5e1, 0x860d21cc, 0x681e6df6, 0xd8fdf6ad, 0xd7b9da25));
  }

  lemma Bytes1()
    ensures DigestBytes([0xa9993e36, 0x4706816a, 0xba3e2571, 0x7850c26c, 0x9cd0d89d], 20) ==
            [0xa9, 0x99, 0x3e, 0x36, 0x47, 0x06, 0x81, 0x6a, 0xba, 0x3e,
             0x25, 0x71, 0x78, 0x50, 0xc2, 0x6c, 0x9c, 0xd0, 0xd8, 0x9d]
  {
  }

  lemma Last1(b: seq<byte>)
    requires IsBlock(b)
    ensures |b| == 64
    ensures Compress1(InitialHash(SHA1), b) ==
            [0xa9993e36, 0x4706816a, 0xba3e2571, 0x7850c26c, 0x9cd0d89d]
  {
    Size(b);
    Rounds1From72(b);
    hide Rounds1, IsBlock;
  }

  /** The digest of "abc". */
  lemma SHA1OfAbc()
    ensures Sha(SHA1, Bits(ABC)) ==
            [0xa9, 0x99, 0x3e, 0x36, 0x47, 0x06, 0x81, 0x6a, 0xba, 0x3e,
             0x25, 0x71, 0x78, 0x50, 0xc2, 0x6c, 0x9c, 0xd0, 0xd8, 0x9d]
  {
    hide PaddedBlocks, Bits, HashBlocks, IsBlock, Compress1, DigestBytes, InitialHash;
    BlockIsPadded();
    var b := PaddedBlocks(Bits(ABC));
    Last1(b);
    OneBlock(SHA1, b);
    Bytes1();
  }

  // ----- SHA-256, appendix B.1 -----

  predicate Word2(b: seq<byte>, t: nat, w: word) {
    |b| == 64 && Schedule2(b, t) == w
  }

  lemma First2(b: seq<byte>, t: nat)
    requires IsBlock(b) && t < 16
    ensures Word2(b, t, if t == 0 then 0x61626380 else if t == 15 then 0x18 else 0)
  {
    FirstWords(b, t);
    hide BlockWord;
  }

  lemma Later2(b: seq<byte>, t: nat, w2: word, w7: word, w15: word, w16: word)
    requires 16 <= t && Word2(b, t - 2, w2) && Word2(b, t - 7, w7)
    requires Word2(b, t - 15, w15) && Word2(b, t - 16, w16)
    ensures Word2(b, t, Expand2(w2, w7, w15, w16))
  {
    hide Expand2;
  }

  lemma FirstSixteen2(b: seq<byte>)
    requires IsBlock(b)
    ensures Word2(b, 0, 0x61626380) && Word2(b, 1, 0x00000000) && Word2(b, 2, 0x00000000) && Word2(b, 3, 0x00000000)
    ensures Word2(b, 4, 0x00000000) && Word2(b, 5, 0x00000000) && Word2(b, 6, 0x00000000) && Word2(b, 7, 0x00000000)
    ensures Word2(b, 8, 0x00000000) && Word2(b, 9, 0x00000000) && Word2(b, 10, 0x00000000) && Word2(b, 11, 0x00000000)
    ensures Word2(b, 12, 0x00000000) && Word2(b, 13, 0x00000000) && Word2(b, 14, 0x00000000) && Word2(b, 15, 0x00000018)
  {
    First2(b, 0);
    First2(b, 1);
    First2(b, 2);
    First2(b, 3);
    First2(b, 4);
    First2(b, 5);
    First2(b, 6);
    First2(b, 7);
    First2(b, 8);
    First2(b, 9);
    First2(b, 10);
    First2(b, 11);
    First2(b, 12);
    First2(b, 13);
    First2(b, 14);
    First2(b, 15);
    hide Word2, IsBlock;
  }

  lemma Words2From16(b: seq<byte>)
    requires IsBlock(b)
    ensures Word2(b, 16, 0x61626380) && Word2(b, 17, 0x000f0000) && Word2(b, 18, 0x7da86405) && Word2(b, 19, 0x600003c6)
    ensures Word2(b, 20, 0x3e9d7b78) && Word2(b, 21, 0x0183fc00) && Word2(b, 22, 0x12dcbfdb) && Word2(b, 23, 0xe2e2c38e)
  {
    hide Word2, IsBlock;
    FirstSixteen2(b);
    Later2(b, 16, 0x00000000, 0x00000000, 0x00000000, 0x61626380);
    Later2(b, 17, 0x00000018, 0x00000000, 0x00000000, 0x00000000);
    Later2(b, 18, 0x61626380, 0x00000000, 0x00000000, 0x00000000);
    Later2(b, 19, 0x000f0000, 0x00000000, 0x00000000, 0x00000000);
    Later2(b, 20, 0x7da86405, 0x00000000, 0x00000000, 0x00000000);
    Later2(b, 21, 0x600003c6, 0x00000000, 0x00000000, 0x00000000);
    Later2(b, 22, 0x3e9d7b78, 0x00000018, 0x00000000, 0x00000000);
    Later2(b, 23, 0x0183fc00, 0x61626380, 0x00000000, 0x00000000);
  }

  lemma Words2From24(b: seq<byte>)
    requires IsBlock(b)
    ensures Word2(b, 24, 0xc8215c1a) && Word2(b, 25, 0xb73679a2) && Word2(b, 26, 0xe5bc3909) && Word2(b, 27, 0x32663c5b)
    ensures Word2(b, 28, 0x9d209d67) && Word2(b, 29, 0xec8726cb) && Word2(b, 30, 0x702138a4) && Word2(b, 31, 0xd3b7973b)
  {
    hide Word2, IsBlock;
    FirstSixteen2(b);
    Words2From16(b);
    Later2(b, 24, 0x12dcbfdb, 0x000f0000, 0x00000000, 0x00000000);
    Later2(b, 25, 0xe2e2c38e, 0x7da86405, 0x00000000, 0x00000000);
    Later2(b, 26, 0xc8215c1a, 0x600003c6, 0x00000000, 0x00000000);
    Later2(b, 27, 0xb73679a2, 0x3e9d7b78, 0x00000000, 0x00000000);
    Later2(b, 28, 0xe5bc3909, 0x0183fc00, 0x00000000, 0x00000000);
    Later2(b, 29, 0x32663c5b, 0x12dcbfdb, 0x00000000, 0x00000000);
    Later2(b, 30, 0x9d209d67, 0xe2e2c38e, 0x00000018, 0x00000000);
    Later2(b, 31, 0xec8726cb, 0xc8215c1a, 0x61626380, 0x00000018);
  }

  lemma Words2From32(b: seq<byte>)
    requires IsBlock(b)
    ensures Word2(b, 32, 0x93f5997f) && Word2(b, 33, 0x3b68ba73) && Word2(b, 34, 0xaff4ffc1) && Word2(b, 35, 0xf10a5c62)
    ensures Word2(b, 36, 0x0a8b3996) && Word2(b, 37, 0x72af830a) && Word2(b, 38, 0x9409e33e) && Word2(b, 39, 0x24641522)
  {
    hide Word2, IsBlock;
    Words2From16(b);
    Words2From24(b);
    Later2(b, 32, 0x702138a4, 0xb73679a2, 0x000f0000, 0x61626380);
    Later2(b, 33, 0xd3b7973b, 0xe5bc3909, 0x7da86405, 0x000f0000);
    Later2(b, 34, 0x93f5997f, 0x32663c5b, 0x600003c6, 0x7da86405);
    Later2(b, 35, 0x3b68ba73, 0x9d209d67, 0x3e9d7b78, 0x600003c6);
    Later2(b, 36, 0xaff4ffc1, 0xec8726cb, 0x0183fc00, 0x3e9d7b78);
    Later2(b, 37, 0xf10a5c62, 0x702138a4, 0x12dcbfdb, 0x0183fc00);
    Later2(b, 38, 0x0a8b3996, 0xd3b7973b, 0xe2e2c38e, 0x12dcbfdb);
    Later2(b, 39, 0x72af830a, 0x93f5997f, 0xc8215c1a, 0xe2e2c38e);
  }

  lemma Words2From40(b: seq<byte>)
    requires IsBlock(b)
    ensures Word2(b, 40, 0x9f47bf94) && Word2(b, 41, 0xf0a64f5a) && Word2(b, 42, 0x3e246a79) && Word2(b, 43, 0x27333ba3)
    ensures Word2(b, 44, 0x0c4763f2) && Word2(b, 45, 0x840abf27) && Word2(b, 46, 0x7a290d5d) && Word2(b, 47, 0x065c43da)
  {
    hide Word2, IsBlock;
    Words2From24(b);
    Words2From32(b);
    Later2(b, 40, 0x9409e33e, 0x3b68ba73, 0xb73679a2, 0xc8215c1a);
    Later2(b, 41, 0x24641522, 0xaff4ffc1, 0xe5bc3909, 0xb73679a2);
    Later2(b, 42, 0x9f47bf94, 0xf10a5c62, 0x32663c5b, 0xe5bc3909);
    Later2(b, 43, 0xf0a64f5a, 0x0a8b3996, 0x9d209d67, 0x32663c5b);
    Later2(b, 44, 0x3e246a79, 0x72af830a, 0xec8726cb, 0x9d209d67);
    Later2(b, 45, 0x27333ba3, 0x9409e33e, 0x702138a4, 0xec8726cb);
    Later2(b, 46, 0x0c4763f2, 0x24641522, 0xd3b7973b, 0x702138a4);
    Later2(b, 47, 0x840abf27, 0x9f47bf94, 0x93f5997f, 0xd3b7973b);
  }

  lemma Words2From48(b: seq<byte>)
    requires IsBlock(b)
    ensures Word2(b, 48, 0xfb3e89cb) && Word2(b, 49, 0xcc7617db) && Word2(b, 50, 0xb9e66c34) && Word2(b, 51, 0xa9993667)
    ensures Word2(b, 52, 0x84badedd) && Word2(b, 53, 0xc21462bc) && Word2(b, 54, 0x1487472c) && Word2(b, 55, 0xb20f7a99)
  {
    hide Word2, IsBlock;
    Words2From32(b);
    Words2From40(b);
    Later2(b, 48, 0x7a290d5d, 0xf0a64f5a, 0x3b68ba73, 0x93f5997f);
    Later2(b, 49, 0x065c43da, 0x3e246a79, 0xaff4ffc1, 0x3b68ba73);
    Later2(b, 50, 0xfb3e89cb, 0x27333ba3, 0xf10a5c62, 0xaff4ffc1);
    Later2(b, 51, 0xcc7617db, 0x0c4763f2, 0x0a8b3996, 0xf10a5c62);
    Later2(b, 52, 0xb9e66c34, 0x840abf27, 0x72af830a, 0x0a8b3996);
    Later2(b, 53, 0xa9993667, 0x7a290d5d, 0x9409e33e, 0x72af830a);
    Later2(b, 54, 0x84badedd, 0x065c43da, 0x24641522, 0x9409e33e);
    Later2(b, 55, 0xc21462bc, 0xfb3e89cb, 0x9f47bf94, 0x24641522);
  }

  lemma Words2From56(b: seq<byte>)
    requires IsBlock(b)
    ensures Word2(b, 56, 0xef57b9cd) && Word2(b, 57, 0xebe6b238) && Word2(b, 58, 0x9fe3095e) && Word2(b, 59, 0x78bc8d4b)
    ensures Word2(b, 60, 0xa43fcf15) && Word2(b, 61, 0x668b2ff8) && Word2(b, 62, 0xeeaba2cc) && Word2(b, 63, 0x12b1edeb)
  {
    hide Word2, IsBlock;
    Words2From40(b);
    Words2From48(b);
    Later2(b, 56, 0x1487472c, 0xcc7617db, 0xf0a64f5a, 0x9f47bf94);
    Later2(b, 57, 0xb20f7a99, 0xb9e66c34, 0x3e246a79, 0xf0a64f5a);
    Later2(b, 58, 0xef57b9cd, 0xa9993667, 0x27333ba3, 0x3e246a79);
    Later2(b, 59, 0xebe6b238, 0x84badedd, 0x0c4763f2, 0x27333ba3);
    Later2(b, 60, 0x9fe3095e, 0xc21462bc, 0x840abf27, 0x0c4763f2);
    Later2(b, 61, 0x78bc8d4b, 0x1487472c, 0x7a290d5d, 0x840abf27);
    Later2(b, 62, 0xa43fcf15, 0xb20f7a99, 0x065c43da, 0x7a290d5d);
    Later2(b, 63, 0x668b2ff8, 0xef57b9cd, 0xfb3e89cb, 0x065c43da);
  }

  // The registers before round t.
  predicate At2(b: seq<byte>, t: nat, r: Registers2) {
    |b| == 64 && t <= 64 && Rounds2(InitialHash(SHA256), b, t) == r
  }

  lemma Start2(b: seq<byte>)
    requires |b| == 64
    ensures At2(b, 0,
                Registers2(0x6a09e667, 0xbb67ae85, 0x3c6ef372, 0xa54ff53a, 0x510e527f, 0x9b05688c, 0x1f83d9ab, 0x5be0cd19))
  {
  }

  // The round gives the new a and e; the other registers move on.
  predicate Gives(r: Registers2, k: word, w: word, a: word, e: word) {
    Round2(r, k, w) == Registers2(a, r.a, r.b, r.c, e, r.e, r.f, r.g)
  }

  // Round t with its constant and its word of the schedule.
  lemma Step2(b: seq<byte>, t: nat, k: word, w: word, a: word, e: word, r: Registers2)
    requires t < 64 && At2(b, t, r) && Word2(b, t, w) && K2At(t) == k
    requires Gives(r, k, w, a, e)
    ensures At2(b, t + 1, Registers2(a, r.a, r.b, r.c, e, r.e, r.f, r.g))
  {
    hide Round2, K2At, Schedule2;
  }

  lemma Rounds2From0(b: seq<byte>)
    requires IsBlock(b)
    ensures At2(b, 8,
                Registers2(0x85a07b5f, 0xe5030380, 0x2b4209f5, 0x04409a6a, 0x0c657a79, 0x9b27a401, 0x714260ad, 0x43ada245))
  {
    hide Word2, At2, IsBlock;
    FirstSixteen2(b);
    Size(b);
    Start2(b);
    Step2(b, 0, 0x428a2f98, 0x61626380, 0x5d6aebcd, 0xfa2a4622,
          Registers2(0x6a09e667, 0xbb67ae85, 0x3c6ef372, 0xa54ff53a, 0x510e527f, 0x9b05688c, 0x1f83d9ab, 0x5be0cd19));
    Step2(b, 1, 0x71374491, 0x00000000, 0x5a6ad9ad, 0x78ce7989,
          Registers2(0x5d6aebcd, 0x6a09e667, 0xbb67ae85, 0x3c6ef372, 0xfa2a4622, 0x510e527f, 0x9b05688c, 0x1f83d9ab));
    Step2(b, 2, 0xb5c0fbcf, 0x00000000, 0xc8c347a7, 0xf92939eb,
          Registers2(0x5a6ad9ad, 0x5d6aebcd, 0x6a09e667, 0xbb67ae85, 0x78ce7989, 0xfa2a4622, 0x510e527f, 0x9b05688c));
    Step2(b, 3, 0xe9b5dba5, 0x00000000, 0xd550f666, 0x24e00850,
          Registers2(0xc8c347a7, 0x5a6ad9ad, 0x5d6aebcd, 0x6a09e667, 0xf92939eb, 0x78ce7989, 0xfa2a4622, 0x510e527f));
    Step2(b, 4, 0x3956c25b, 0x00000000, 0x04409a6a, 0x43ada245,
          Registers2(0xd550f666, 0xc8c347a7, 0x5a6ad9ad, 0x5d6aebcd, 0x24e00850, 0xf92939eb, 0x78ce7989, 0xfa2a4622));
    Step2(b, 5, 0x59f111f1, 0x00000000, 0x2b4209f5, 0x714260ad,
          Registers2(0x04409a6a, 0xd550f666, 0xc8c347a7, 0x5a6ad9ad, 0x43ada245, 0x24e00850, 0xf92939eb, 0x78ce7989));
    Step2(b, 6, 0x923f82a4, 0x00000000, 0xe5030380, 0x9b27a401,
          Registers2(0x2b4209f5, 0x04409a6a, 0xd550f666, 0xc8c347a7, 0x714260ad, 0x43ada245, 0x24e00850, 0xf92939eb));
    Step2(b, 7, 0xab1c5ed5, 0x00000000, 0x85a07b5f, 0x0c657a79,
          Registers2(0xe5030380, 0x2b4209f5, 0x04409a6a, 0xd550f666, 0x9b27a401, 0x714260ad, 0x43ada245, 0x24e00850));
  }

  lemma Rounds2From8(b: seq<byte>)
    requires IsBlock(b)
    ensures At2(b, 16,
                Registers2(0xb0fa238e, 0xc0645fde, 0xd932eb16, 0x87912990, 0x07590dcd, 0x0b92f20c, 0x745a48de, 0x1e578218))
  {
    hide Word2, At2, IsBlock;
    FirstSixteen2(b);
    Rounds2From0(b);
    Step2(b, 8, 0xd807aa98, 0x00000000, 0x8e04ecb9, 0x32ca2d8c,
          Registers2(0x85a07b5f, 0xe5030380, 0x2b4209f5, 0x04409a6a, 0x0c657a79, 0x9b27a401, 0x714260ad, 0x43ada245));
    Step2(b, 9, 0x12835b01, 0x00000000, 0x8c87346b, 0x1cc92596,
          Registers2(0x8e04ecb9, 0x85a07b5f, 0xe5030380, 0x2b4209f5, 0x32ca2d8c, 0x0c657a79, 0x9b27a401, 0x714260ad));
    Step2(b, 10, 0x243185be, 0x00000000, 0x4798a3f4, 0x436b23e8,
          Registers2(0x8c87346b, 0x8e04ecb9, 0x85a07b5f, 0xe5030380, 0x1cc92596, 0x32ca2d8c, 0x0c657a79, 0x9b27a401));
    Step2(b, 11, 0x550c7dc3, 0x00000000, 0xf71fc5a9, 0x816fd6e9,
          Registers2(0x4798a3f4, 0x8c87346b, 0x8e04ecb9, 0x85a07b5f, 0x436b23e8, 0x1cc92596, 0x32ca2d8c, 0x0c657a79));
    Step2(b, 12, 0x72be5d74, 0x00000000, 0x87912990, 0x1e578218,
          Registers2(0xf71fc5a9, 0x4798a3f4, 0x8c87346b, 0x8e04ecb9, 0x816fd6e9, 0x436b23e8, 0x1cc92596, 0x32ca2d8c));
    Step2(b, 13, 0x80deb1fe, 0x00000000, 0xd932eb16, 0x745a48de,
          Registers2(0x87912990, 0xf71fc5a9, 0x4798a3f4, 0x8c87346b, 0x1e578218, 0x816fd6e9, 0x436b23e8, 0x1cc92596));
    Step2(b, 14, 0x9bdc06a7, 0x00000000, 0xc0645fde, 0x0b92f20c,
          Registers2(0xd932eb16, 0x87912990, 0xf71fc5a9, 0x4798a3f4, 0x745a48de, 0x1e578218, 0x816fd6e9, 0x436b23e8));
    Step2(b, 15, 0xc19bf174, 0x00000018, 0xb0fa238e, 0x07590dcd,
          Registers2(0xc0645fde, 0xd932eb16, 0x87912990, 0xf71fc5a9, 0x0b92f20c, 0x745a48de, 0x1e578218, 0x816fd6e9));
  }

  lemma Rounds2From16(b: seq<byte>)
    requires IsBlock(b)
    ensures At2(b, 24,
                Registers2(0xc5d53d8d, 0xa7a3623f, 0xc2606d6d, 0x9dc68b63, 0xaa47c347, 0x49f5114a, 0xe1257970, 0x8ada8930))
  {
    hide Word2, At2, IsBlock;
    Words2From16(b);
    Rounds2From8(b);
    Step2(b, 16, 0xe49b69c1, 0x61626380, 0x21da9a9b, 0x8034229c,
          Registers2(0xb0fa238e, 0xc0645fde, 0xd932eb16, 0x87912990, 0x07590dcd, 0x0b92f20c, 0x745a48de, 0x1e578218));
    Step2(b, 17, 0xefbe4786, 0x000f0000, 0xc2fbd9d1, 0x846ee454,
          Registers2(0x21da9a9b, 0xb0fa238e, 0xc0645fde, 0xd932eb16, 0x8034229c, 0x07590dcd, 0x0b92f20c, 0x745a48de));
    Step2(b, 18, 0x0fc19dc6, 0x7da86405, 0xfe777bbf, 0xcc899961,
          Registers2(0xc2fbd9d1, 0x21da9a9b, 0xb0fa238e, 0xc0645fde, 0x846ee454, 0x8034229c, 0x07590dcd, 0x0b92f20c));
    Step2(b, 19, 0x240ca1cc, 0x600003c6, 0xe1f20c33, 0xb0638179,
          Registers2(0xfe777bbf, 0xc2fbd9d1, 0x21da9a9b, 0xb0fa238e, 0xcc899961, 0x846ee454, 0x8034229c, 0x07590dcd));
    Step2(b, 20, 0x2de92c6f, 0x3e9d7b78, 0x9dc68b63, 0x8ada8930,
          Registers2(0xe1f20c33, 0xfe777bbf, 0xc2fbd9d1, 0x21da9a9b, 0xb0638179, 0xcc899961, 0x846ee454, 0x8034229c));
    Step2(b, 21, 0x4a7484aa, 0x0183fc00, 0xc2606d6d, 0xe1257970,
          Registers2(0x9dc68b63, 0xe1f20c33, 0xfe777bbf, 0xc2fbd9d1, 0x8ada8930, 0xb0638179, 0xcc899961, 0x846ee454));
    Step2(b, 22, 0x5cb0a9dc, 0x12dcbfdb, 0xa7a3623f, 0x49f5114a,
          Registers2(0xc2606d6d, 0x9dc68b63, 0xe1f20c33, 0xfe777bbf, 0xe1257970, 0x8ada8930, 0xb0638179, 0xcc899961));
    Step2(b, 23, 0x76f988da, 0xe2e2c38e, 0xc5d53d8d, 0xaa47c347,
          Registers2(0xa7a3623f, 0xc2606d6d, 0x9dc68b63, 0xe1f20c33, 0x49f5114a, 0xe1257970, 0x8ada8930, 0xb0638179));
  }

  lemma Rounds2From24(b: seq<byte>)
    requires IsBlock(b)
    ensures At2(b, 32,
                Registers2(0x73b33bf5, 0xea992a22, 0xa0060b30, 0x363482c9, 0xba591112, 0x0109ab3a, 0xade79437, 0x6112a3b7))
  {
    hide Word2, At2, IsBlock;
    Words2From24(b);
    Rounds2From16(b);
    Step2(b, 24, 0x983e5152, 0xc8215c1a, 0x1c2c2838, 0x2823ef91,
          Registers2(0xc5d53d8d, 0xa7a3623f, 0xc2606d6d, 0x9dc68b63, 0xaa47c347, 0x49f5114a, 0xe1257970, 0x8ada8930));
    Step2(b, 25, 0xa831c66d, 0xb73679a2, 0xcde8037d, 0x14383d8e,
          Registers2(0x1c2c2838, 0xc5d53d8d, 0xa7a3623f, 0xc2606d6d, 0x2823ef91, 0xaa47c347, 0x49f5114a, 0xe1257970));
    Step2(b, 26, 0xb00327c8, 0xe5bc3909, 0xb62ec4bc, 0xc74c6516,
          Registers2(0xcde8037d, 0x1c2c2838, 0xc5d53d8d, 0xa7a3623f, 0x14383d8e, 0x2823ef91, 0xaa47c347, 0x49f5114a));
    Step2(b, 27, 0xbf597fc7, 0x32663c5b, 0x77d37528, 0xedffbff8,
          Registers2(0xb62ec4bc, 0xcde8037d, 0x1c2c2838, 0xc5d53d8d, 0xc74c6516, 0x14383d8e, 0x2823ef91, 0xaa47c347));
    Step2(b, 28, 0xc6e00bf3, 0x9d209d67, 0x363482c9, 0x6112a3b7,
          Registers2(0x77d37528, 0xb62ec4bc, 0xcde8037d, 0x1c2c2838, 0xedffbff8, 0xc74c6516, 0x14383d8e, 0x2823ef91));
    Step2(b, 29, 0xd5a79147, 0xec8726cb, 0xa0060b30, 0xade79437,
          Registers2(0x363482c9, 0x77d37528, 0xb62ec4bc, 0xcde8037d, 0x6112a3b7, 0xedffbff8, 0xc74c6516, 0x14383d8e));
    Step2(b, 30, 0x06ca6351, 0x702138a4, 0xea992a22, 0x0109ab3a,
          Registers2(0xa0060b30, 0x363482c9, 0x77d37528, 0xb62ec4bc, 0xade79437, 0x6112a3b7, 0xedffbff8, 0xc74c6516));
    Step2(b, 31, 0x14292967, 0xd3b7973b, 0x73b33bf5, 0xba591112,
          Registers2(0xea992a22, 0xa0060b30, 0x363482c9, 0x77d37528, 0x0109ab3a, 0xade79437, 0x6112a3b7, 0xedffbff8));
  }

  lemma Rounds2From32(b: seq<byte>)
    requires IsBlock(b)
    ensures At2(b, 40,
                Registers2(0x79ea687a, 0x6dc57a8a, 0x34df1604, 0x41a65cb1, 0x1efbc0a0, 0xf0781bc8, 0xa507a53d, 0x0772a26b))
  {
    hide Word2, At2, IsBlock;
    Words2From32(b);
    Rounds2From24(b);
    Step2(b, 32, 0x27b70a85, 0x93f5997f, 0x98e12507, 0x9cd9f5f6,
          Registers2(0x73b33bf5, 0xea992a22, 0xa0060b30, 0x363482c9, 0xba591112, 0x0109ab3a, 0xade79437, 0x6112a3b7));
    Step2(b, 33, 0x2e1b2138, 0x3b68ba73, 0xfe604df5, 0x59249dd3,
          Registers2(0x98e12507, 0x73b33bf5, 0xea992a22, 0xa0060b30, 0x9cd9f5f6, 0xba591112, 0x0109ab3a, 0xade79437));
    Step2(b, 34, 0x4d2c6dfc, 0xaff4ffc1, 0xa9a7738c, 0x085f3833,
          Registers2(0xfe604df5, 0x98e12507, 0x73b33bf5, 0xea992a22, 0x59249dd3, 0x9cd9f5f6, 0xba591112, 0x0109ab3a));
    Step2(b, 35, 0x53380d13, 0xf10a5c62, 0x65a0cfe4, 0xf4b002d6,
          Registers2(0xa9a7738c, 0xfe604df5, 0x98e12507, 0x73b33bf5, 0x085f3833, 0x59249dd3, 0x9cd9f5f6, 0xba591112));
    Step2(b, 36, 0x650a7354, 0x0a8b3996, 0x41a65cb1, 0x0772a26b,
          Registers2(0x65a0cfe4, 0xa9a7738c, 0xfe604df5, 0x98e12507, 0xf4b002d6, 0x085f3833, 0x59249dd3, 0x9cd9f5f6));
    Step2(b, 37, 0x766a0abb, 0x72af830a, 0x34df1604, 0xa507a53d,
          Registers2(0x41a65cb1, 0x65a0cfe4, 0xa9a7738c, 0xfe604df5, 0x0772a26b, 0xf4b002d6, 0x085f3833, 0x59249dd3));
    Step2(b, 38, 0x81c2c92e, 0x9409e33e, 0x6dc57a8a, 0xf0781bc8,
          Registers2(0x34df1604, 0x41a65cb1, 0x65a0cfe4, 0xa9a7738c, 0xa507a53d, 0x0772a26b, 0xf4b002d6, 0x085f3833));
    Step2(b, 39, 0x92722c85, 0x24641522, 0x79ea687a, 0x1efbc0a0,
          Registers2(0x6dc57a8a, 0x34df1604, 0x41a65cb1, 0x65a0cfe4, 0xf0781bc8, 0xa507a53d, 0x0772a26b, 0xf4b002d6));
  }

  lemma Rounds2From40(b: seq<byte>)
    requires IsBlock(b)
    ensures At2(b, 48,
                Registers2(0x4172328d, 0xa14c14b0, 0x72ab4b91, 0x26628815, 0xfecf0bc6, 0xd57b94a9, 0xb7755da1, 0xa80f11f0))
  {
    hide Word2, At2, IsBlock;
    Words2From40(b);
    Rounds2From32(b);
    Step2(b, 40, 0xa2bfe8a1, 0x9f47bf94, 0xd6670766, 0x26352d63,
          Registers2(0x79ea687a, 0x6dc57a8a, 0x34df1604, 0x41a65cb1, 0x1efbc0a0, 0xf0781bc8, 0xa507a53d, 0x0772a26b));
    Step2(b, 41, 0xa81a664b, 0xf0a64f5a, 0xdf46652f, 0x838b2711,
          Registers2(0xd6670766, 0x79ea687a, 0x6dc57a8a, 0x34df1604, 0x26352d63, 0x1efbc0a0, 0xf0781bc8, 0xa507a53d));
    Step2(b, 42, 0xc24b8b70, 0x3e246a79, 0x17aa0dfe, 0xdecd4715,
          Registers2(0xdf46652f, 0xd6670766, 0x79ea687a, 0x6dc57a8a, 0x838b2711, 0x26352d63, 0x1efbc0a0, 0xf0781bc8));
    Step2(b, 43, 0xc76c51a3, 0x27333ba3, 0x9d4baf93, 0xfda24c2e,
          Registers2(0x17aa0dfe, 0xdf46652f, 0xd6670766, 0x79ea687a, 0xdecd4715, 0x838b2711, 0x26352d63, 0x1efbc0a0));
    Step2(b, 44, 0xd192e819, 0x0c4763f2, 0x26628815, 0xa80f11f0,
          Registers2(0x9d4baf93, 0x17aa0dfe, 0xdf46652f, 0xd6670766, 0xfda24c2e, 0xdecd4715, 0x838b2711, 0x26352d63));
    Step2(b, 45, 0xd6990624, 0x840abf27, 0x72ab4b91, 0xb7755da1,
          Registers2(0x26628815, 0x9d4baf93, 0x17aa0dfe, 0xdf46652f, 0xa80f11f0, 0xfda24c2e, 0xdecd4715, 0x838b2711));
    Step2(b, 46, 0xf40e3585, 0x7a290d5d, 0xa14c14b0, 0xd57b94a9,
          Registers2(0x72ab4b91, 0x26628815, 0x9d4baf93, 0x17aa0dfe, 0xb7755da1, 0xa80f11f0, 0xfda24c2e, 0xdecd4715));
    Step2(b, 47, 0x106aa070, 0x065c43da, 0x4172328d, 0xfecf0bc6,
          Registers2(0xa14c14b0, 0x72ab4b91, 0x26628815, 0x9d4baf93, 0xd57b94a9, 0xb7755da1, 0xa80f11f0, 0xfda24c2e));
  }

  lemma Rounds2From48(b: seq<byte>)
    requires IsBlock(b)
    ensures At2(b, 56,
                Registers2(0x38cc9913, 0x3ec45cdb, 0xf5702fdb, 0x101fd28f, 0x54cb266b, 0xe50e1b4f, 0x9f4787c3, 0x529e7d00))
  {
    hide Word2, At2, IsBlock;
    Words2From48(b);
    Rounds2From40(b);
    Step2(b, 48, 0x19a4c116, 0xfb3e89cb, 0x05757ceb, 0xbd714038,
          Registers2(0x4172328d, 0xa14c14b0, 0x72ab4b91, 0x26628815, 0xfecf0bc6, 0xd57b94a9, 0xb7755da1, 0xa80f11f0));
    Step2(b, 49, 0x1e376c08, 0xcc7617db, 0xf11bfaa8, 0x6e5c390c,
          Registers2(0x05757ceb, 0x4172328d, 0xa14c14b0, 0x72ab4b91, 0xbd714038, 0xfecf0bc6, 0xd57b94a9, 0xb7755da1));
    Step2(b, 50, 0x2748774c, 0xb9e66c34, 0x7a0508a1, 0x52f1ccf7,
          Registers2(0xf11bfaa8, 0x05757ceb, 0x4172328d, 0xa14c14b0, 0x6e5c390c, 0xbd714038, 0xfecf0bc6, 0xd57b94a9));
    Step2(b, 51, 0x34b0bcb5, 0xa9993667, 0x886e7a22, 0x49231c1e,
          Registers2(0x7a0508a1, 0xf11bfaa8, 0x05757ceb, 0x4172328d, 0x52f1ccf7, 0x6e5c390c, 0xbd714038, 0xfecf0bc6));
    Step2(b, 52, 0x391c0cb3, 0x84badedd, 0x101fd28f, 0x529e7d00,
          Registers2(0x886e7a22, 0x7a0508a1, 0xf11bfaa8, 0x05757ceb, 0x49231c1e, 0x52f1ccf7, 0x6e5c390c, 0xbd714038));
    Step2(b, 53, 0x4ed8aa4a, 0xc21462bc, 0xf5702fdb, 0x9f4787c3,
          Registers2(0x101fd28f, 0x886e7a22, 0x7a0508a1, 0xf11bfaa8, 0x529e7d00, 0x49231c1e, 0x52f1ccf7, 0x6e5c390c));
    Step2(b, 54, 0x5b9cca4f, 0x1487472c, 0x3ec45cdb, 0xe50e1b4f,
          Registers2(0xf5702fdb, 0x101fd28f, 0x886e7a22, 0x7a0508a1, 0x9f4787c3, 0x529e7d00, 0x49231c1e, 0x52f1ccf7));
    Step2(b, 55, 0x682e6ff3, 0xb20f7a99, 0x38cc9913, 0x54cb266b,
          Registers2(0x3ec45cdb, 0xf5702fdb, 0x101fd28f, 0x886e7a22, 0xe50e1b4f, 0x9f4787c3, 0x529e7d00, 0x49231c1e));
  }

  lemma Rounds2From56(b: seq<byte>)
    requires IsBlock(b)
    ensures At2(b, 64,
                Registers2(0x506e3058, 0xd39a2165, 0x04d24d6c, 0xb85e2ce9, 0x5ef50f24, 0xfb121210, 0x948d25b6, 0x961f4894))
  {
    hide Word2, At2, IsBlock;
    Words2From56(b);
    Rounds2From48(b);
    Step2(b, 56, 0x748f82ee, 0xef57b9cd, 0xfcd1887b, 0x9b5e906c,
          Registers2(0x38cc9913, 0x3ec45cdb, 0xf5702fdb, 0x101fd28f, 0x54cb266b, 0xe50e1b4f, 0x9f4787c3, 0x529e7d00));
    Step2(b, 57, 0x78a5636f, 0xebe6b238, 0xc062d46f, 0x7e44008e,
          Registers2(0xfcd1887b, 0x38cc9913, 0x3ec45cdb, 0xf5702fdb, 0x9b5e906c, 0x54cb266b, 0xe50e1b4f, 0x9f4787c3));
    Step2(b, 58, 0x84c87814, 0x9fe3095e, 0xffb70472, 0x6d83bfc6,
          Registers2(0xc062d46f, 0xfcd1887b, 0x38cc9913, 0x3ec45cdb, 0x7e44008e, 0x9b5e906c, 0x54cb266b, 0xe50e1b4f));
    Step2(b, 59, 0x8cc70208, 0x78bc8d4b, 0xb6ae8fff, 0xb21bad3d,
          Registers2(0xffb70472, 0xc062d46f, 0xfcd1887b, 0x38cc9913, 0x6d83bfc6, 0x7e44008e, 0x9b5e906c, 0x54cb266b));
    Step2(b, 60, 0x90befffa, 0xa43fcf15, 0xb85e2ce9, 0x961f4894,
          Registers2(0xb6ae8fff, 0xffb70472, 0xc062d46f, 0xfcd1887b, 0xb21bad3d, 0x6d83bfc6, 0x7e44008e, 0x9b5e906c));
    Step2(b, 61, 0xa4506ceb, 0x668b2ff8, 0x04d24d6c, 0x948d25b6,
          Registers2(0xb85e2ce9, 0xb6ae8fff, 0xffb70472, 0xc062d46f, 0x961f4894, 0xb21bad3d, 0x6d83bfc6, 0x7e44008e));
    Step2(b, 62, 0xbef9a3f7, 0xeeaba2cc, 0xd39a2165, 0xfb121210,
          Registers2(0x04d24d6c, 0xb85e2ce9, 0xb6ae8fff, 0xffb70472, 0x948d25b6, 0x961f4894, 0xb21bad3d, 0x6d83bfc6));
    Step2(b, 63, 0xc67178f2, 0x12b1edeb, 0x506e3058, 0x5ef50f24,
          Registers2(0xd39a2165, 0x04d24d6c, 0xb85e2ce9, 0xb6ae8fff, 0xfb121210, 0x948d25b6, 0x961f4894, 0xb21bad3d));
  }

  lemma Bytes2High()
    ensures DigestBytes([0xba7816bf, 0x8f01cfea, 0x414140de, 0x5dae2223], 16) ==
            [0xba, 0x78, 0x16, 0xbf, 0x8f, 0x01, 0xcf, 0xea, 0x41, 0x41, 0x40, 0xde, 0x5d, 0xae, 0x22, 0x23]
  {
  }

  lemma Bytes2Low()
    ensures DigestBytes([0xb00361a3, 0x96177a9c, 0xb410ff61, 0xf20015ad], 16) ==
            [0xb0, 0x03, 0x61, 0xa3, 0x96, 0x17, 0x7a, 0x9c, 0xb4, 0x10, 0xff, 0x61, 0xf2, 0x00, 0x15, 0xad]
  {
  }

  lemma Last2(b: seq<byte>)
    requires IsBlock(b)
    ensures |b| == 64
    ensures Compress2(InitialHash(SHA256), b) ==
            [0xba7816bf, 0x8f01cfea, 0x414140de, 0x5dae2223, 0xb00361a3, 0x96177a9c, 0xb410ff61, 0xf20015ad]
  {
    Size(b);
    Rounds2From56(b);
    hide Rounds2, IsBlock;
  }

  /** The digest of "abc". */
  lemma SHA256OfAbc()
    ensures Sha(SHA256, Bits(ABC)) ==
            [0xba, 0x78, 0x16, 0xbf, 0x8f, 0x01, 0xcf, 0xea, 0x41, 0x41, 0x40, 0xde, 0x5d, 0xae, 0x22, 0x23,
             0xb0, 0x03, 0x61, 0xa3, 0x96, 0x17, 0x7a, 0x9c, 0xb4, 0x10, 0xff, 0x61, 0xf2, 0x00, 0x15, 0xad]
  {
    hide PaddedBlocks, Bits, HashBlocks, IsBlock, Compress2, DigestBytes, InitialHash;
    BlockIsPadded();
    var b := PaddedBlocks(Bits(ABC));
    Last2(b);
    OneBlock(SHA256, b);
    DigestSplits([0xba7816bf, 0x8f01cfea, 0x414140de, 0x5dae2223, 0xb00361a3, 0x96177a9c, 0xb410ff61, 0xf20015ad],
                 [0xba7816bf, 0x8f01cfea, 0x414140de, 0x5dae2223], [0xb00361a3, 0x96177a9c, 0xb410ff61, 0xf20015ad]);
    Bytes2High();
    Bytes2Low();
  }
}
