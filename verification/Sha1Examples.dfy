/**
 The digests of section 7.3 of RFC 3174, computed from the words and the rounds sixteen at a time, and what rotations
 and constants are.
 */
module Sha1Examples {
  import opened Bytes
  import opened Sha1

  // ----- rotations, constants and bytes -----

  /** Rotating by n moves bit k to bit k + n, around the end of the word. */
  lemma RotlBit(n: bv32, x: bv32, k: bv32)
    requires (n == 1 || n == 5 || n == 30) && k < 32
    ensures (Rotl(n, x) >> ((k + n) & 31)) & 1 == (x >> k) & 1
  {
    if n == 1 {
      assert (Rotl(1, x) >> ((k + 1) & 31)) & 1 == (x >> k) & 1;
    } else if n == 5 {
      assert (Rotl(5, x) >> ((k + 5) & 31)) & 1 == (x >> k) & 1;
    } else {
      assert (Rotl(30, x) >> ((k + 30) & 31)) & 1 == (x >> k) & 1;
    }
  }

  /** The constants are the square roots of 2, 3, 5 and 10, times 2^30, rounded down. */
  lemma ConstantsAreRoots(t: nat)
    ensures var k, n := K(t) as nat, if t < 20 then 2 else if t < 40 then 3 else if t < 60 then 5 else 10;
            k * k <= n * 0x1000_0000_0000_0000 < (k + 1) * (k + 1)
  {
  }

  /** The bytes of a word, the most significant one first, make it up again. */
  lemma WordOfBytes(x: bv32)
    ensures Word(ByteOf(x, 0), ByteOf(x, 1), ByteOf(x, 2), ByteOf(x, 3)) == x
  {
    BytesJoin(x, ByteOf(x, 0), ByteOf(x, 1), ByteOf(x, 2), ByteOf(x, 3));
  }

  lemma BytesJoin(x: bv32, a: bv8, b: bv8, c: bv8, d: bv8)
    requires a as bv32 == (x >> 24) & 0xFF && b as bv32 == (x >> 16) & 0xFF
    requires c as bv32 == (x >> 8) & 0xFF && d as bv32 == x & 0xFF
    ensures Word(a, b, c, d) == x
  {
  }

  // ----- sixteen words and sixteen rounds -----

  datatype Words = Words(w0: bv32, w1: bv32, w2: bv32, w3: bv32, w4: bv32, w5: bv32, w6: bv32, w7: bv32,
                         w8: bv32, w9: bv32, w10: bv32, w11: bv32, w12: bv32, w13: bv32, w14: bv32, w15: bv32)

  /** The words from t on. */
  ghost predicate WordsAre(block: seq<bv8>, t: nat, s: Words)
  {
    && |block| == 64
    && W(block, t + 0) == s.w0 && W(block, t + 1) == s.w1 && W(block, t + 2) == s.w2 && W(block, t + 3) == s.w3
    && W(block, t + 4) == s.w4 && W(block, t + 5) == s.w5 && W(block, t + 6) == s.w6 && W(block, t + 7) == s.w7
    && W(block, t + 8) == s.w8 && W(block, t + 9) == s.w9 && W(block, t + 10) == s.w10 && W(block, t + 11) == s.w11
    && W(block, t + 12) == s.w12 && W(block, t + 13) == s.w13 && W(block, t + 14) == s.w14 && W(block, t + 15) == s.w15
  }

  function NextWord(a: bv32, b: bv32, c: bv32, d: bv32): bv32
  {
    Rotl(1, Xor4(a, b, c, d))
  }

  lemma WordBehind(block: seq<bv8>, t: nat)
    requires |block| == 64 && t >= 16
    ensures W(block, t) == NextWord(W(block, t - 3), W(block, t - 8), W(block, t - 14), W(block, t - 16))
  {
    hide Word, Rotl, Xor4;
  }

  /** The sixteen words behind s. */
  predicate Follow(s: Words, n: Words)
  {
    && n.w0 == NextWord(s.w13, s.w8, s.w2, s.w0) && n.w1 == NextWord(s.w14, s.w9, s.w3, s.w1)
    && n.w2 == NextWord(s.w15, s.w10, s.w4, s.w2) && n.w3 == NextWord(n.w0, s.w11, s.w5, s.w3)
    && n.w4 == NextWord(n.w1, s.w12, s.w6, s.w4) && n.w5 == NextWord(n.w2, s.w13, s.w7, s.w5)
    && n.w6 == NextWord(n.w3, s.w14, s.w8, s.w6) && n.w7 == NextWord(n.w4, s.w15, s.w9, s.w7)
    && n.w8 == NextWord(n.w5, n.w0, s.w10, s.w8) && n.w9 == NextWord(n.w6, n.w1, s.w11, s.w9)
    && n.w10 == NextWord(n.w7, n.w2, s.w12, s.w10) && n.w11 == NextWord(n.w8, n.w3, s.w13, s.w11)
    && n.w12 == NextWord(n.w9, n.w4, s.w14, s.w12) && n.w13 == NextWord(n.w10, n.w5, s.w15, s.w13)
    && n.w14 == NextWord(n.w11, n.w6, n.w0, s.w14) && n.w15 == NextWord(n.w12, n.w7, n.w1, s.w15)
  }

  lemma SixteenWords(block: seq<bv8>, t: nat, s: Words, n: Words)
    requires WordsAre(block, t, s) && Follow(s, n)
    ensures WordsAre(block, t + 16, n)
  {
    hide W, NextWord;
    WordBehind(block, t + 16);
    WordBehind(block, t + 17);
    WordBehind(block, t + 18);
    WordBehind(block, t + 19);
    WordBehind(block, t + 20);
    WordBehind(block, t + 21);
    WordBehind(block, t + 22);
    WordBehind(block, t + 23);
    WordBehind(block, t + 24);
    WordBehind(block, t + 25);
    WordBehind(block, t + 26);
    WordBehind(block, t + 27);
    WordBehind(block, t + 28);
    WordBehind(block, t + 29);
    WordBehind(block, t + 30);
    WordBehind(block, t + 31);
  }

  function FourRounds(t: nat, a: bv32, b: bv32, c: bv32, d: bv32, g: Hash): Hash
  {
    Round(t + 3, d, Round(t + 2, c, Round(t + 1, b, Round(t, a, g))))
  }

  function SixteenRounds(t: nat, s: Words, g: Hash): Hash
  {
    var g4 := FourRounds(t, s.w0, s.w1, s.w2, s.w3, g);
    var g8 := FourRounds(t + 4, s.w4, s.w5, s.w6, s.w7, g4);
    var g12 := FourRounds(t + 8, s.w8, s.w9, s.w10, s.w11, g8);
    FourRounds(t + 12, s.w12, s.w13, s.w14, s.w15, g12)
  }

  lemma RoundBehind(h: Hash, block: seq<bv8>, t: nat)
    requires |block| == 64
    ensures Rounds(h, block, t + 1) == Round(t, W(block, t), Rounds(h, block, t))
  {
    hide W, Round;
  }

  lemma FourMore(h: Hash, block: seq<bv8>, t: nat)
    requires |block| == 64
    ensures Rounds(h, block, t + 4)
            == FourRounds(t, W(block, t), W(block, t + 1), W(block, t + 2), W(block, t + 3), Rounds(h, block, t))
  {
    hide W, Round, Rounds;
    RoundBehind(h, block, t);
    RoundBehind(h, block, t + 1);
    RoundBehind(h, block, t + 2);
    RoundBehind(h, block, t + 3);
  }

  lemma SixteenMore(h: Hash, block: seq<bv8>, t: nat, s: Words)
    requires WordsAre(block, t, s)
    ensures Rounds(h, block, t + 16) == SixteenRounds(t, s, Rounds(h, block, t))
  {
    hide W, FourRounds, Rounds;
    FourMore(h, block, t);
    FourMore(h, block, t + 4);
    FourMore(h, block, t + 8);
    FourMore(h, block, t + 12);
  }

  /** The words of the schedule and the hashes behind every sixteen rounds. */
  datatype Course = Course(s0: Words, s1: Words, s2: Words, s3: Words, s4: Words,
                           h1: Hash, h2: Hash, h3: Hash, h4: Hash, h5: Hash)

  predicate IsCourse(h: Hash, c: Course)
  {
    && Follow(c.s0, c.s1) && Follow(c.s1, c.s2) && Follow(c.s2, c.s3) && Follow(c.s3, c.s4)
    && SixteenRounds(0, c.s0, h) == c.h1 && SixteenRounds(16, c.s1, c.h1) == c.h2
    && SixteenRounds(32, c.s2, c.h2) == c.h3 && SixteenRounds(48, c.s3, c.h3) == c.h4
    && SixteenRounds(64, c.s4, c.h4) == c.h5
  }

  lemma CourseWords(h: Hash, block: seq<bv8>, c: Course)
    requires WordsAre(block, 0, c.s0) && IsCourse(h, c)
    ensures WordsAre(block, 16, c.s1) && WordsAre(block, 32, c.s2)
    ensures WordsAre(block, 48, c.s3) && WordsAre(block, 64, c.s4)
  {
    hide WordsAre, Follow, SixteenRounds;
    SixteenWords(block, 0, c.s0, c.s1);
    SixteenWords(block, 16, c.s1, c.s2);
    SixteenWords(block, 32, c.s2, c.s3);
    SixteenWords(block, 48, c.s3, c.s4);
  }

  lemma SixteenTo(h: Hash, block: seq<bv8>, t: nat, s: Words, g: Hash, r: Hash)
    requires WordsAre(block, t, s) && Rounds(h, block, t) == g && SixteenRounds(t, s, g) == r
    ensures Rounds(h, block, t + 16) == r
  {
    hide WordsAre, Rounds, SixteenRounds;
    SixteenMore(h, block, t, s);
  }

  lemma Start(h: Hash, block: seq<bv8>, s: Words)
    requires WordsAre(block, 0, s)
    ensures Rounds(h, block, 0) == h
  {
    hide W;
  }

  lemma CourseCompresses(h: Hash, block: seq<bv8>, c: Course)
    requires WordsAre(block, 0, c.s0) && IsCourse(h, c)
    ensures |block| == 64 && Compress(h, block) == AddHash(h, c.h5)
  {
    hide W, Rounds, Follow, SixteenRounds, AddHash;
    assert |block| == 64;
    hide WordsAre;
    CourseWords(h, block, c);
    Start(h, block, c.s0);
    SixteenTo(h, block, 0, c.s0, h, c.h1);
    SixteenTo(h, block, 16, c.s1, c.h1, c.h2);
    SixteenTo(h, block, 32, c.s2, c.h2, c.h3);
    SixteenTo(h, block, 48, c.s3, c.h3, c.h4);
    SixteenTo(h, block, 64, c.s4, c.h4, c.h5);
  }

  function WordAt(s: Words, t: nat): bv32
  {
    match t

    case 0 => s.w0
    case 1 => s.w1
    case 2 => s.w2
    case 3 => s.w3
    case 4 => s.w4
    case 5 => s.w5
    case 6 => s.w6
    case 7 => s.w7
    case 8 => s.w8
    case 9 => s.w9
    case 10 => s.w10
    case 11 => s.w11
    case 12 => s.w12
    case 13 => s.w13
    case 14 => s.w14
    case _ => s.w15
  }

  /** The block with the given first words. */
  function BlockOf(s: Words): (block: seq<bv8>)
    ensures |block| == 64
  {
    seq(64, i requires 0 <= i < 64 => ByteOf(WordAt(s, i / 4), i % 4))
  }

  lemma BlockByte(s: Words, t: nat, k: nat)
    requires t < 16 && k < 4
    ensures BlockOf(s)[4 * t + k] == ByteOf(WordAt(s, t), k)
  {
    hide WordAt, ByteOf;
    assert (4 * t + k) / 4 == t && (4 * t + k) % 4 == k;
  }

  lemma WordOfBlock(s: Words, t: nat)
    requires t < 16
    ensures W(BlockOf(s), t) == WordAt(s, t)
  {
    hide Word, ByteOf, WordAt, BlockOf, W;
    FirstWord(BlockOf(s), t);
    BlockByte(s, t, 0);
    BlockByte(s, t, 1);
    BlockByte(s, t, 2);
    BlockByte(s, t, 3);
    WordOfBytes(WordAt(s, t));
  }

  lemma WordsOfBlock(s: Words)
    ensures WordsAre(BlockOf(s), 0, s)
  {
    hide W, BlockOf;

    WordOfBlock(s, 0);
    WordOfBlock(s, 1);
    WordOfBlock(s, 2);
    WordOfBlock(s, 3);
    WordOfBlock(s, 4);
    WordOfBlock(s, 5);
    WordOfBlock(s, 6);
    WordOfBlock(s, 7);
    WordOfBlock(s, 8);
    WordOfBlock(s, 9);
    WordOfBlock(s, 10);
    WordOfBlock(s, 11);
    WordOfBlock(s, 12);
    WordOfBlock(s, 13);
    WordOfBlock(s, 14);
    WordOfBlock(s, 15);
  }

  // ----- "abc" -----

  const ABC_WORDS0 :=
    Words(0x61626380, 0x00000000, 0x00000000, 0x00000000, 0x00000000, 0x00000000, 0x00000000, 0x00000000,
          0x00000000, 0x00000000, 0x00000000, 0x00000000, 0x00000000, 0x00000000, 0x00000000, 0x00000018)

  const ABC_WORDS1 :=
    Words(0xC2C4C700, 0x00000000, 0x00000030, 0x85898E01, 0x00000000, 0x00000060, 0x0B131C03, 0x00000030,
          0x85898EC1, 0x16263806, 0x00000000, 0x00000180, 0x2C4C700C, 0x000000F0, 0x93AFB507, 0x5898E048)

  const ABC_WORDS2 :=
    Words(0x8E9A9202, 0x00000600, 0xB131C0F0, 0x16263BC6, 0x4EBED41E, 0x626380A1, 0x16263806, 0x000018C0,
          0xD2E138C4, 0x00000F00, 0x3AFB5079, 0x898E04E5, 0xE2BA3C2B, 0x000060C0, 0x053A37CD, 0x74458547)

  const ABC_WORDS3 :=
    Words(0xDA9415ED, 0x26380A16, 0x626383A1, 0x4EBF54DE, 0x3835B44B, 0x0000F600, 0x1E84C7A3, 0x98E04D98,
          0x651D16A0, 0x62658CA1, 0x458544D6, 0x44584CB7, 0x7BA06619, 0x6380AEA2, 0x0AE55269, 0x627B49A1)

  const ABC_WORDS4 :=
    Words(0x7CD45C9D, 0x000F0000, 0xFB50753A, 0xEC6765E8, 0xBA3C2BE2, 0x0060C000, 0x3A37CD05, 0x458546F4,
          0xB8599DD6, 0x380A1A26, 0x01E02203, 0xE7CC3456, 0xE6E60B69, 0x00F60A00, 0x5795EF4F, 0x822E0879)

  const ABC_HASH1 := Hash(0x20BDD62F, 0x196BEE77, 0x644A3DA5, 0x1181ED99, 0x18C623F9)
  const ABC_HASH2 := Hash(0x3B845D33, 0x1267B407, 0x717EEBD7, 0xA0DC2D4B, 0xD2AA1365)
  const ABC_HASH3 := Hash(0xBEAD02CA, 0xA01B846C, 0x8714787C, 0x503CA382, 0xFB86C6AB)
  const ABC_HASH4 := Hash(0x6B61C9E1, 0xB66C020B, 0x9523272C, 0xF5D5B051, 0x8FD4B796)
  const ABC_HASH5 := Hash(0x42541B35, 0x5738D5E1, 0x21834873, 0x681E6DF6, 0xD8FDF6AD)

  const ABC_COURSE :=
    Course(ABC_WORDS0, ABC_WORDS1, ABC_WORDS2, ABC_WORDS3, ABC_WORDS4,
           ABC_HASH1, ABC_HASH2, ABC_HASH3, ABC_HASH4, ABC_HASH5)

  lemma AbcWords1()
    ensures Follow(ABC_WORDS0, ABC_WORDS1)
  {
  }

  lemma AbcWords2()
    ensures Follow(ABC_WORDS1, ABC_WORDS2)
  {
  }

  lemma AbcWords3()
    ensures Follow(ABC_WORDS2, ABC_WORDS3)
  {
  }

  lemma AbcWords4()
    ensures Follow(ABC_WORDS3, ABC_WORDS4)
  {
  }

  lemma AbcRounds1()
    ensures SixteenRounds(0, ABC_WORDS0, INITIAL) == ABC_HASH1
  {
  }

  lemma AbcRounds2()
    ensures SixteenRounds(16, ABC_WORDS1, ABC_HASH1) == ABC_HASH2
  {
  }

  lemma AbcRounds3()
    ensures SixteenRounds(32, ABC_WORDS2, ABC_HASH2) == ABC_HASH3
  {
  }

  lemma AbcRounds4()
    ensures SixteenRounds(48, ABC_WORDS3, ABC_HASH3) == ABC_HASH4
  {
  }

  lemma AbcRounds5()
    ensures SixteenRounds(64, ABC_WORDS4, ABC_HASH4) == ABC_HASH5
  {
  }

  lemma AbcCompressed()
    ensures Compress(INITIAL, BlockOf(ABC_WORDS0))
            == Hash(0xA9993E36, 0x4706816A, 0xBA3E2571, 0x7850C26C, 0x9CD0D89D)
  {
    hide WordsAre, Follow, SixteenRounds, Compress, BlockOf;
    WordsOfBlock(ABC_WORDS0);
    AbcWords1();
    AbcWords2();
    AbcWords3();
    AbcWords4();
    AbcRounds1();
    AbcRounds2();
    AbcRounds3();
    AbcRounds4();
    AbcRounds5();
    CourseCompresses(INITIAL, BlockOf(ABC_WORDS0), ABC_COURSE);
  }

  const ABC: seq<bv8> := [0x61, 0x62, 0x63]

  lemma ZeroBytes(k: nat)
    requires k < 4
    ensures ByteOf(0, k) == 0
  {
  }

  lemma AbcBytes()
    ensures ByteOf(0x61626380, 0) == 0x61 && ByteOf(0x61626380, 1) == 0x62
    ensures ByteOf(0x61626380, 2) == 0x63 && ByteOf(0x61626380, 3) == 0x80
    ensures ByteOf(0x18, 0) == 0 && ByteOf(0x18, 1) == 0 && ByteOf(0x18, 2) == 0 && ByteOf(0x18, 3) == 0x18
  {
  }

  lemma LengthOf24()
    ensures LengthBytes(24) == [0, 0, 0, 0, 0, 0, 0, 0x18]
  {
    hide LowByte;
    LowBytes();
    assert 24 / 0x100_0000 == 24 / 0x1_0000 == 24 / 0x100 == 0;
  }

  lemma LowBytes()
    ensures LowByte(0) == 0 && LowByte(1) == 1 && LowByte(24) == 0x18 && LowByte(448) == 0xC0
  {
    assert 448 % 0x100 == 0xC0;
  }

  lemma AbcPadded()
    ensures Pad(ABC) == BlockOf(ABC_WORDS0)
  {
    hide ByteOf, LengthBytes;
    AbcBytes();
    LengthOf24();
    var p, b := Pad(ABC), BlockOf(ABC_WORDS0);
    forall i: nat | i < 64
      ensures p[i] == b[i]
    {
      ZeroBytes(i % 4);
      if 4 <= i < 60 {
        assert WordAt(ABC_WORDS0, i / 4) == 0;
      }
    }
  }

  /** TEST1. */
  lemma DigestOfAbc()
    ensures Digest(ABC) == Hash(0xA9993E36, 0x4706816A, 0xBA3E2571, 0x7850C26C, 0x9CD0D89D)
  {
    hide Pad, Compress, BlockOf;
    AbcPadded();
    AbcCompressed();
    OneBlock(INITIAL, BlockOf(ABC_WORDS0));
  }

  // ----- the message of 56 bytes -----

  const FIRST_OF_TWO := Hash(0xF4286818, 0xC37B27AE, 0x0408F581, 0x84677148, 0x4A566572)

  const TWO_A_WORDS0 :=
    Words(0x61626364, 0x62636465, 0x63646566, 0x64656667, 0x65666768, 0x66676869, 0x6768696A, 0x68696A6B,
          0x696A6B6C, 0x6A6B6C6D, 0x6B6C6D6E, 0x6C6D6E6F, 0x6D6E6F70, 0x6E6F7071, 0x80000000, 0x00000000)

  const TWO_A_WORDS1 :=
    Words(0x0A063A3E, 0xD8DADCDF, 0xDADCDEC0, 0xC8D2B4BE, 0x6F757B5B, 0x757B5967, 0x8DA16D70, 0xDAEEFABA,
          0xFAF6CAB6, 0xA6FB675A, 0x0C604CC8, 0x604CC02C, 0x49C0E6E2, 0x2EE8CBBC, 0xCFD72EC4, 0x97E9810E)

  const TWO_A_WORDS2 :=
    Words(0x0989CBE8, 0xF24843FE, 0x5C40D0BA, 0xA8D9CC3B, 0xB2B9666E, 0xBA7B71B7, 0x20B28A72, 0xB28AF500,
          0x8AC87842, 0x289ADDF4, 0x56D51F21, 0xD96B7FD2, 0x3868E778, 0xAB5E4848, 0x7F0E2118, 0xDE87A111)

  const TWO_A_WORDS3 :=
    Words(0xE8BE56B0, 0x1A0AE652, 0xCD5611C8, 0x46EF29DC, 0x60D3DA6D, 0xDDF3BA6E, 0x2737F5E9, 0x4888A710,
          0xD2A1177B, 0x9999633B, 0xD6C69D03, 0xCCF6127B, 0x7C58FE6D, 0xFDD99C68, 0xF8E32074, 0xE0BA3C7D)

  const TWO_A_WORDS4 :=
    Words(0x152198D6, 0x7B3F1982, 0x37F2D5B7, 0x8596323E, 0x810790D6, 0xBEA0A942, 0x11C7E1B1, 0x6158D101,
          0x5FCD77D9, 0x7F2F12E6, 0xF868CFB1, 0xD6E997E9, 0xF526B852, 0xB7578DCC, 0x55D99DF4, 0x1FF69958)

  const TWO_A_HASH1 := Hash(0x42637E39, 0xB2E7A8BE, 0x4CBE52A1, 0xA180D207, 0xB867B2A8)
  const TWO_A_HASH2 := Hash(0x52E31F60, 0xA9C84BEC, 0x816D15EC, 0x78448908, 0x3549A991)
  const TWO_A_HASH3 := Hash(0xC8A69090, 0xA2AD4F02, 0xB1BA8907, 0x26307A99, 0x58CFA558)
  const TWO_A_HASH4 := Hash(0x513F9CA0, 0x2BFAF7A8, 0x10203537, 0xCD8952C4, 0xE7BDDD70)
  const TWO_A_HASH5 := Hash(0x8CE34517, 0xD3AD7C25, 0x6B4E1883, 0x74351CD2, 0x86838382)

  const TWO_A_COURSE :=
    Course(TWO_A_WORDS0, TWO_A_WORDS1, TWO_A_WORDS2, TWO_A_WORDS3, TWO_A_WORDS4,
           TWO_A_HASH1, TWO_A_HASH2, TWO_A_HASH3, TWO_A_HASH4, TWO_A_HASH5)

  lemma TwoAWords1()
    ensures Follow(TWO_A_WORDS0, TWO_A_WORDS1)
  {
  }

  lemma TwoAWords2()
    ensures Follow(TWO_A_WORDS1, TWO_A_WORDS2)
  {
  }

  lemma TwoAWords3()
    ensures Follow(TWO_A_WORDS2, TWO_A_WORDS3)
  {
  }

  lemma TwoAWords4()
    ensures Follow(TWO_A_WORDS3, TWO_A_WORDS4)
  {
  }

  lemma TwoARounds1()
    ensures SixteenRounds(0, TWO_A_WORDS0, INITIAL) == TWO_A_HASH1
  {
  }

  lemma TwoARounds2()
    ensures SixteenRounds(16, TWO_A_WORDS1, TWO_A_HASH1) == TWO_A_HASH2
  {
  }

  lemma TwoARounds3()
    ensures SixteenRounds(32, TWO_A_WORDS2, TWO_A_HASH2) == TWO_A_HASH3
  {
  }

  lemma TwoARounds4()
    ensures SixteenRounds(48, TWO_A_WORDS3, TWO_A_HASH3) == TWO_A_HASH4
  {
  }

  lemma TwoARounds5()
    ensures SixteenRounds(64, TWO_A_WORDS4, TWO_A_HASH4) == TWO_A_HASH5
  {
  }

  lemma TwoACompressed()
    ensures Compress(INITIAL, BlockOf(TWO_A_WORDS0))
            == Hash(0xF4286818, 0xC37B27AE, 0x0408F581, 0x84677148, 0x4A566572)
  {
    hide WordsAre, Follow, SixteenRounds, Compress, BlockOf;
    WordsOfBlock(TWO_A_WORDS0);
    TwoAWords1();
    TwoAWords2();
    TwoAWords3();
    TwoAWords4();
    TwoARounds1();
    TwoARounds2();
    TwoARounds3();
    TwoARounds4();
    TwoARounds5();
    CourseCompresses(INITIAL, BlockOf(TWO_A_WORDS0), TWO_A_COURSE);
  }

  const TWO_B_WORDS0 :=
    Words(0x00000000, 0x00000000, 0x00000000, 0x00000000, 0x00000000, 0x00000000, 0x00000000, 0x00000000,
          0x00000000, 0x00000000, 0x00000000, 0x00000000, 0x00000000, 0x00000000, 0x00000000, 0x000001C0)

  const TWO_B_WORDS1 :=
    Words(0x00000000, 0x00000000, 0x00000380, 0x00000000, 0x00000000, 0x00000700, 0x00000000, 0x00000380,
          0x00000E00, 0x00000000, 0x00000000, 0x00001C00, 0x00000000, 0x00000D80, 0x00003800, 0x00000480)

  const TWO_B_WORDS2 :=
    Words(0x00000000, 0x00007000, 0x00000E00, 0x00003600, 0x0000E000, 0x00000E00, 0x00000000, 0x0001CE00,
          0x00000000, 0x0000D800, 0x00038000, 0x00004F00, 0x00000000, 0x00070E00, 0x0000EE00, 0x00037500)

  const TWO_B_WORDS3 :=
    Words(0x000E0000, 0x0000E000, 0x00003600, 0x001CEE00, 0x00000000, 0x000DF000, 0x00380000, 0x0004C600,
          0x0000E000, 0x0070EE00, 0x000EE000, 0x00369E00, 0x00E00000, 0x000ED600, 0x0000E000, 0x01CEA600)

  const TWO_B_WORDS4 :=
    Words(0x00000000, 0x00D80000, 0x0380E000, 0x004F0000, 0x00000000, 0x070E0000, 0x00EE0000, 0x03751C00,
          0x0E000000, 0x00E0E000, 0x00363800, 0x1CEE9000, 0x00000000, 0x0DF09000, 0x3800E000, 0x04C77400)

  const TWO_B_HASH1 := Hash(0xD9772360, 0x258B0BAA, 0x2898132A, 0xFFB35EEF, 0xD0E89E4B)
  const TWO_B_HASH2 := Hash(0x8A4AF384, 0x17986223, 0x028BEC42, 0xC90A6F97, 0xD7105B6B)
  const TWO_B_HASH3 := Hash(0x46F93B68, 0x7316056A, 0xB0F40CFA, 0xCF2BB5EB, 0x7B074F58)
  const TWO_B_HASH4 := Hash(0xD504902B, 0xF66D9BF4, 0x24D85327, 0xDEAAC406, 0xE996063D)
  const TWO_B_HASH5 := Hash(0x906FD62C, 0x58C0AAC0, 0xB6A55520, 0x74E9B89D, 0x9AF00B7F)

  const TWO_B_COURSE :=
    Course(TWO_B_WORDS0, TWO_B_WORDS1, TWO_B_WORDS2, TWO_B_WORDS3, TWO_B_WORDS4,
           TWO_B_HASH1, TWO_B_HASH2, TWO_B_HASH3, TWO_B_HASH4, TWO_B_HASH5)

  lemma TwoBWords1()
    ensures Follow(TWO_B_WORDS0, TWO_B_WORDS1)
  {
  }

  lemma TwoBWords2()
    ensures Follow(TWO_B_WORDS1, TWO_B_WORDS2)
  {
  }

  lemma TwoBWords3()
    ensures Follow(TWO_B_WORDS2, TWO_B_WORDS3)
  {
  }

  lemma TwoBWords4()
    ensures Follow(TWO_B_WORDS3, TWO_B_WORDS4)
  {
  }

  lemma TwoBRounds1()
    ensures SixteenRounds(0, TWO_B_WORDS0, FIRST_OF_TWO) == TWO_B_HASH1
  {
  }

  lemma TwoBRounds2()
    ensures SixteenRounds(16, TWO_B_WORDS1, TWO_B_HASH1) == TWO_B_HASH2
  {
  }

  lemma TwoBRounds3()
    ensures SixteenRounds(32, TWO_B_WORDS2, TWO_B_HASH2) == TWO_B_HASH3
  {
  }

  lemma TwoBRounds4()
    ensures SixteenRounds(48, TWO_B_WORDS3, TWO_B_HASH3) == TWO_B_HASH4
  {
  }

  lemma TwoBRounds5()
    ensures SixteenRounds(64, TWO_B_WORDS4, TWO_B_HASH4) == TWO_B_HASH5
  {
  }

  lemma TwoBCompressed()
    ensures Compress(FIRST_OF_TWO, BlockOf(TWO_B_WORDS0))
            == Hash(0x84983E44, 0x1C3BD26E, 0xBAAE4AA1, 0xF95129E5, 0xE54670F1)
  {
    hide WordsAre, Follow, SixteenRounds, Compress, BlockOf;
    WordsOfBlock(TWO_B_WORDS0);
    TwoBWords1();
    TwoBWords2();
    TwoBWords3();
    TwoBWords4();
    TwoBRounds1();
    TwoBRounds2();
    TwoBRounds3();
    TwoBRounds4();
    TwoBRounds5();
    CourseCompresses(FIRST_OF_TWO, BlockOf(TWO_B_WORDS0), TWO_B_COURSE);
  }

  /** "abcdbcdecdefdefgefghfghighijhijkijkljklmklmnlmnomnopnopq", four letters to a word. */
  const FIFTY_SIX: seq<bv8> := BlockOf(TWO_A_WORDS0)[..56]

  lemma FiftySixBytes()
    ensures ByteOf(0x80000000, 0) == 0x80 && ByteOf(0x80000000, 1) == 0
    ensures ByteOf(0x80000000, 2) == 0 && ByteOf(0x80000000, 3) == 0
    ensures ByteOf(0x1C0, 0) == 0 && ByteOf(0x1C0, 1) == 0 && ByteOf(0x1C0, 2) == 1 && ByteOf(0x1C0, 3) == 0xC0
  {
  }

  lemma LengthOf448()
    ensures LengthBytes(448) == [0, 0, 0, 0, 0, 0, 1, 0xC0]
  {
    hide LowByte;
    LowBytes();
    assert 448 / 0x100_0000 == 448 / 0x1_0000 == 0 && 448 / 0x100 == 1;
  }

  lemma FirstPadded()
    ensures FIFTY_SIX + [0x80] + Zeros(7) == BlockOf(TWO_A_WORDS0)
  {
    hide ByteOf;
    FiftySixBytes();
    var p, a := FIFTY_SIX + [0x80] + Zeros(7), BlockOf(TWO_A_WORDS0);
    forall i: nat | i < 64
      ensures p[i] == a[i]
    {
      ZeroBytes(i % 4);
    }
  }

  lemma SecondPadded()
    ensures Zeros(56) + LengthBytes(448) == BlockOf(TWO_B_WORDS0)
  {
    hide ByteOf, LengthBytes;
    FiftySixBytes();
    LengthOf448();
    var p, b := Zeros(56) + LengthBytes(448), BlockOf(TWO_B_WORDS0);
    forall i: nat | i < 64
      ensures p[i] == b[i]
    {
      ZeroBytes(i % 4);
      if i < 60 {
        assert WordAt(TWO_B_WORDS0, i / 4) == 0;
      }
    }
  }

  lemma FiftySixPadded()
    ensures Pad(FIFTY_SIX) == BlockOf(TWO_A_WORDS0) + BlockOf(TWO_B_WORDS0)
  {
    hide BlockOf, LengthBytes, Zeros;
    FirstPadded();
    SecondPadded();
    ZerosJoin(7, 56);
    assert Pad(FIFTY_SIX) == (FIFTY_SIX + [0x80] + Zeros(7)) + (Zeros(56) + LengthBytes(448));
  }

  /** TEST2. */
  lemma DigestOfFiftySix()
    ensures Digest(FIFTY_SIX) == Hash(0x84983E44, 0x1C3BD26E, 0xBAAE4AA1, 0xF95129E5, 0xE54670F1)
  {
    hide Pad, Compress, BlockOf;
    FiftySixPadded();
    TwoACompressed();
    TwoBCompressed();
    BlocksConcat(INITIAL, BlockOf(TWO_A_WORDS0), BlockOf(TWO_B_WORDS0));
    OneBlock(INITIAL, BlockOf(TWO_A_WORDS0));
    OneBlock(FIRST_OF_TWO, BlockOf(TWO_B_WORDS0));
  }
}
