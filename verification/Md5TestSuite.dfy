/** The first entry of the test suite of RFC 1321, section A.5, which pins down all constants of MD5. */
module Md5TestSuite {
  import opened Md5Compression
  import opened Md5Digest

  /** The only block of the padded empty message. */
  const EMPTY_BLOCK: Block := [0x80, 0, 0, 0, 0, 0, 0, 0, 0, 0, 0, 0, 0, 0, 0, 0]

  /** One operation, with the values of its parts. */
  lemma Line(i: nat, r: Registers, k: nat, t: Word, s: nat, f: Word, sum: Word, b: Word)
    requires i < 64 && k < 16 && 0 < s < 32 && Row(i, k, t as nat, s)
    requires RoundFunction(i, r.b, r.c, r.d) == f
    requires Sum(r.a, f, if k == 0 then 0x80 else 0, t) == sum && Combine(r.b, sum, s) == b
    ensures Operation(i, r, EMPTY_BLOCK) == Registers(r.d, b, r.b, r.c)
  {
    hide RoundFunction, T, WordIndex, Amount, Sum, Combine;
    SameWord(T(i), t);
    BlockWord(k);
    hide EMPTY_BLOCK;
  }

  lemma SameWord(n: nat, w: Word)
    requires n == w as nat
    ensures n < 0x1_0000_0000 && n as Word == w
  {
  }

  lemma BlockWord(k: nat)
    requires k < 16
    ensures EMPTY_BLOCK[k] == if k == 0 then 0x80 else 0
  {
  }

  lemma Next(n: nat, start: Registers, r: Registers)
    requires n < 64 && Operations(n, start, EMPTY_BLOCK) == r
    ensures Operations(n + 1, start, EMPTY_BLOCK) == Operation(n, r, EMPTY_BLOCK)
  {
    hide Operation;
  }

  lemma LineOne(i: nat, a: Word, b: Word, c: Word, d: Word, k: nat, t: Word, s: nat, f: Word, sum: Word, v: Word)
    requires 0 <= i < 16 && k < 16 && 0 < s < 32 && Row(i, k, t as nat, s)
    requires Operations(i, INITIAL, EMPTY_BLOCK) == Registers(a, b, c, d)
    requires F(b, c, d) == f && Sum(a, f, if k == 0 then 0x80 else 0, t) == sum && Combine(b, sum, s) == v
    ensures Operations(i + 1, INITIAL, EMPTY_BLOCK) == Registers(d, v, b, c)
  {
    hide F, Sum, Combine, Operations, Row;
    Next(i, INITIAL, Registers(a, b, c, d));
    Line(i, Registers(a, b, c, d), k, t, s, f, sum, v);
  }

  lemma LineTwo(i: nat, a: Word, b: Word, c: Word, d: Word, k: nat, t: Word, s: nat, f: Word, sum: Word, v: Word)
    requires 16 <= i < 32 && k < 16 && 0 < s < 32 && Row(i, k, t as nat, s)
    requires Operations(i, INITIAL, EMPTY_BLOCK) == Registers(a, b, c, d)
    requires G(b, c, d) == f && Sum(a, f, if k == 0 then 0x80 else 0, t) == sum && Combine(b, sum, s) == v
    ensures Operations(i + 1, INITIAL, EMPTY_BLOCK) == Registers(d, v, b, c)
  {
    hide G, Sum, Combine, Operations, Row;
    Next(i, INITIAL, Registers(a, b, c, d));
    Line(i, Registers(a, b, c, d), k, t, s, f, sum, v);
  }

  lemma LineThree(i: nat, a: Word, b: Word, c: Word, d: Word, k: nat, t: Word, s: nat, f: Word, sum: Word, v: Word)
    requires 32 <= i < 48 && k < 16 && 0 < s < 32 && Row(i, k, t as nat, s)
    requires Operations(i, INITIAL, EMPTY_BLOCK) == Registers(a, b, c, d)
    requires H(b, c, d) == f && Sum(a, f, if k == 0 then 0x80 else 0, t) == sum && Combine(b, sum, s) == v
    ensures Operations(i + 1, INITIAL, EMPTY_BLOCK) == Registers(d, v, b, c)
  {
    hide H, Sum, Combine, Operations, Row;
    Next(i, INITIAL, Registers(a, b, c, d));
    Line(i, Registers(a, b, c, d), k, t, s, f, sum, v);
  }

  lemma LineFour(i: nat, a: Word, b: Word, c: Word, d: Word, k: nat, t: Word, s: nat, f: Word, sum: Word, v: Word)
    requires 48 <= i < 64 && k < 16 && 0 < s < 32 && Row(i, k, t as nat, s)
    requires Operations(i, INITIAL, EMPTY_BLOCK) == Registers(a, b, c, d)
    requires I(b, c, d) == f && Sum(a, f, if k == 0 then 0x80 else 0, t) == sum && Combine(b, sum, s) == v
    ensures Operations(i + 1, INITIAL, EMPTY_BLOCK) == Registers(d, v, b, c)
  {
    hide I, Sum, Combine, Operations, Row;
    Next(i, INITIAL, Registers(a, b, c, d));
    Line(i, Registers(a, b, c, d), k, t, s, f, sum, v);
  }

  lemma RoundOne()
    ensures Operations(16, INITIAL, EMPTY_BLOCK)
            == Registers(0xf56c7cf1, 0xd6819c6a, 0x5aa53f75, 0x374943a7)
  {
    NoOperations(INITIAL, EMPTY_BLOCK);
    hide Operations, Row;
    Table1();
    LineOne(0, 0x67452301, 0xefcdab89, 0x98badcfe, 0x10325476, 0, 0xd76aa478, 7, 0x98badcfe, 0xd76aa4f7, 0xa5202774);
    LineOne(1, 0x10325476, 0xa5202774, 0xefcdab89, 0x98badcfe, 1, 0xe8c7b756, 12, 0xbd9afb8a, 0xb6950756, 0xf59592dd);
    LineOne(2, 0x98badcfe, 0xf59592dd, 0xa5202774, 0xefcdab89, 2, 0x242070db, 17, 0xaf482b54, 0x6c23792d, 0xe7f06b23);
    LineOne(3, 0xefcdab89, 0xe7f06b23, 0xf59592dd, 0xa5202774, 3, 0xc1bdceee, 22, 0xe5900655, 0x971b80cc, 0x1b163203);
    LineOne(4, 0xa5202774, 0x1b163203, 0xe7f06b23, 0xf59592dd, 4, 0xf57c0faf, 7, 0xe791a2df, 0x822dda02, 0x32033344);
    LineOne(5, 0xf59592dd, 0x32033344, 0x1b163203, 0xe7f06b23, 5, 0x4787c62a, 12, 0xd7f27a23, 0x150fd32a, 0x2f35d494);
    LineOne(6, 0xe7f06b23, 0x2f35d494, 0x32033344, 0x1b163203, 6, 0xa8304613, 17, 0x32033207, 0xc223e33d, 0xf5b158db);
    LineOne(7, 0x1b163203, 0xf5b158db, 0x2f35d494, 0x32033344, 7, 0xfd469501, 22, 0x27337394, 0x3f903a98, 0x9bc13ce9);
    LineOne(8, 0x32033344, 0x9bc13ce9, 0xf5b158db, 0x2f35d494, 8, 0x698098d8, 7, 0xb5b5d8dd, 0x5139a4f9, 0x3893b991);
    LineOne(9, 0x2f35d494, 0x3893b991, 0x9bc13ce9, 0xf5b158db, 9, 0x8b44f7af, 12, 0xdda178cb, 0x981c450e, 0xfce4a312);
    LineOne(10, 0xf5b158db, 0xfce4a312, 0x3893b991, 0x9bc13ce9, 10, 0xffff5bb1, 17, 0x3b81bdf9, 0x31327285, 0xe1ef0576);
    LineOne(11, 0x9bc13ce9, 0xe1ef0576, 0xfce4a312, 0x3893b991, 11, 0x895cd7be, 22, 0xf8f4b993, 0x1e12ce3a, 0x70768a29);
    LineOne(12, 0x3893b991, 0x70768a29, 0xe1ef0576, 0xfce4a312, 12, 0x6b901122, 7, 0xece62132, 0x9109ebe5, 0xf56c7cf1);
    LineOne(13, 0xfce4a312, 0xf56c7cf1, 0x70768a29, 0xe1ef0576, 13, 0xfd987193, 12, 0x70e70927, 0x6b641dcc, 0x374943a7);
    LineOne(14, 0xe1ef0576, 0x374943a7, 0xf56c7cf1, 0x70768a29, 14, 0xa679438e, 17, 0x757ec8a9, 0xfde711ad, 0x5aa53f75);
    LineOne(15, 0x70768a29, 0x5aa53f75, 0x374943a7, 0xf56c7cf1, 15, 0x49b40821, 22, 0xb74943a5, 0x7173d5ef, 0xd6819c6a);
  }

  lemma RoundTwo()
    requires Operations(16, INITIAL, EMPTY_BLOCK)
             == Registers(0xf56c7cf1, 0xd6819c6a, 0x5aa53f75, 0x374943a7)
    ensures Operations(32, INITIAL, EMPTY_BLOCK)
            == Registers(0x13707036, 0xa2205f1f, 0x1c31c384, 0xae7813db)
  {
    hide Operations, Row;
    Table2();
    LineTwo(16, 0xf56c7cf1, 0xd6819c6a, 0x5aa53f75, 0x374943a7, 1, 0xf61e2562, 5, 0x5ea53c72, 0x4a2fdec5, 0x1c7d7513);
    LineTwo(17, 0x374943a7, 0x1c7d7513, 0xd6819c6a, 0x5aa53f75, 6, 0xc040b340, 9, 0x9c25b51b, 0x93afac02, 0x7bd57a3a);
    LineTwo(18, 0x5aa53f75, 0x7bd57a3a, 0x1c7d7513, 0xd6819c6a, 11, 0x265e5a51, 14, 0x5afd793b, 0xdc011301, 0xc095f13a);
    LineTwo(19, 0xd6819c6a, 0xc095f13a, 0x7bd57a3a, 0x1c7d7513, 0, 0xe9b6c7aa, 20, 0x63957b3a, 0x23cddfce, 0xbd782e17);
    LineTwo(20, 0x1c7d7513, 0xbd782e17, 0xc095f13a, 0x7bd57a3a, 5, 0xd62f105d, 5, 0xb950ab12, 0xabfd3082, 0x3d1e3e6c);
    LineTwo(21, 0x7bd57a3a, 0x3d1e3e6c, 0xbd782e17, 0xc095f13a, 10, 0x02441453, 9, 0x3d7c3e2d, 0xbb95ccba, 0x68b7b3e3);
    LineTwo(22, 0xc095f13a, 0x68b7b3e3, 0x3d1e3e6c, 0xbd782e17, 15, 0xd8a1e681, 14, 0x2836326b, 0xc16e0a26, 0xeb41643e);
    LineTwo(23, 0xbd782e17, 0xeb41643e, 0x68b7b3e3, 0x3d1e3e6c, 4, 0xe7d3fbc8, 20, 0x69a1a5af, 0x0eedcf8e, 0xe422531a);
    LineTwo(24, 0x3d1e3e6c, 0xe422531a, 0xeb41643e, 0x68b7b3e3, 9, 0x21e1cde6, 5, 0xe362571e, 0x42626370, 0x306ec122);
    LineTwo(25, 0x68b7b3e3, 0x306ec122, 0xe422531a, 0xeb41643e, 14, 0xc33707d6, 9, 0x24625322, 0x50510edb, 0xd28c77c2);
    LineTwo(26, 0xeb41643e, 0xd28c77c2, 0x306ec122, 0xe422531a, 3, 0xf4d50d87, 14, 0xd04cd322, 0xb06344e7, 0xa3c663da);
    LineTwo(27, 0xe422531a, 0xa3c663da, 0xd28c77c2, 0x306ec122, 8, 0x455a14ed, 20, 0xe2c677c2, 0x0c42dfc9, 0xa0572807);
    LineTwo(28, 0x306ec122, 0xa0572807, 0xa3c663da, 0xd28c77c2, 13, 0xa9e3e905, 5, 0xa146201a, 0x7b98ca41, 0x13707036);
    LineTwo(29, 0xd28c77c2, 0x13707036, 0xa0572807, 0xa3c663da, 2, 0xfcefa3f8, 9, 0x03516817, 0xd2cd83d1, 0xae7813db);
    LineTwo(30, 0xa3c663da, 0xae7813db, 0x13707036, 0xa0572807, 7, 0x676f02d9, 14, 0xb3705033, 0xbea5b6e6, 0x1c31c384);
    LineTwo(31, 0xa0572807, 0x1c31c384, 0xae7813db, 0x13707036, 12, 0x8d2a4c8a, 20, 0xbc3843cd, 0xe9b9b85e, 0xa2205f1f);
  }

  lemma RoundThree()
    requires Operations(32, INITIAL, EMPTY_BLOCK)
             == Registers(0x13707036, 0xa2205f1f, 0x1c31c384, 0xae7813db)
    ensures Operations(48, INITIAL, EMPTY_BLOCK)
            == Registers(0x3f55edfd, 0xca7d2dbd, 0x68d84ea2, 0x22a31f54)
  {
    hide Operations, Row;
    Table3();
    LineThree(32, 0x13707036, 0xa2205f1f, 0x1c31c384, 0xae7813db, 5, 0xfffa3942, 4, 0x10698f40, 0x23d438b8, 0xdf63eaa1);
    LineThree(33, 0xae7813db, 0xdf63eaa1, 0xa2205f1f, 0x1c31c384, 8, 0x8771f681, 11, 0x6172763a, 0x975c8096, 0xc3689f5b);
    LineThree(34, 0x1c31c384, 0xc3689f5b, 0xdf63eaa1, 0xa2205f1f, 11, 0x6d9d6122, 16, 0xbe2b2ae5, 0x47fa4f8b, 0x12f3e755);
    LineThree(35, 0xa2205f1f, 0x12f3e755, 0xc3689f5b, 0xdf63eaa1, 14, 0xfde5380c, 23, 0x0ef892af, 0xaefe29da, 0x004b6669);
    LineThree(36, 0xdf63eaa1, 0x004b6669, 0x12f3e755, 0xc3689f5b, 1, 0xa4beea44, 4, 0xd1d01e67, 0x55f2f34c, 0x5f7a9b2e);
    LineThree(37, 0xc3689f5b, 0x5f7a9b2e, 0x004b6669, 0x12f3e755, 4, 0x4bdecfa9, 11, 0x4dc21a12, 0x5d098916, 0xabc34e16);
    LineThree(38, 0x12f3e755, 0xabc34e16, 0x5f7a9b2e, 0x004b6669, 7, 0xf6bb4b60, 16, 0xf4f2b351, 0xfea1e606, 0x91ca4cb7);
    LineThree(39, 0x004b6669, 0x91ca4cb7, 0xabc34e16, 0x5f7a9b2e, 10, 0xbebfbc70, 23, 0x6573998f, 0x247ebc68, 0xc5dc8c15);
    LineThree(40, 0x5f7a9b2e, 0xc5dc8c15, 0x91ca4cb7, 0xabc34e16, 13, 0x289b7ec6, 4, 0xffd58eb4, 0x87eba8a8, 0x4497169d);
    LineThree(41, 0xabc34e16, 0x4497169d, 0xc5dc8c15, 0x91ca4cb7, 0, 0xeaa127fa, 11, 0x1081d63f, 0xa6e64ccf, 0x76fd93d4);
    LineThree(42, 0x91ca4cb7, 0x76fd93d4, 0x4497169d, 0xc5dc8c15, 3, 0xd4ef3085, 16, 0xf7b6095c, 0x5e6f8698, 0xfd95f243);
    LineThree(43, 0xc5dc8c15, 0xfd95f243, 0x76fd93d4, 0x4497169d, 6, 0x04881d05, 23, 0xcfff770a, 0x9a642024, 0x0fe32453);
    LineThree(44, 0x4497169d, 0x0fe32453, 0xfd95f243, 0x76fd93d4, 9, 0xd9d4d039, 4, 0x848b45c4, 0xa2f72c9a, 0x3f55edfd);
    LineThree(45, 0x76fd93d4, 0x3f55edfd, 0x0fe32453, 0xfd95f243, 12, 0xe6db99e5, 11, 0xcd233bed, 0x2afc69a6, 0x22a31f54);
    LineThree(46, 0xfd95f243, 0x22a31f54, 0x3f55edfd, 0x0fe32453, 15, 0x1fa27cf8, 16, 0x1215d6fa, 0x2f4e4635, 0x68d84ea2);
    LineThree(47, 0x0fe32453, 0x68d84ea2, 0x22a31f54, 0x3f55edfd, 2, 0xc4ac5665, 23, 0x752ebc0b, 0x49be36c3, 0xca7d2dbd);
  }

  lemma RoundFour()
    requires Operations(48, INITIAL, EMPTY_BLOCK)
             == Registers(0x3f55edfd, 0xca7d2dbd, 0x68d84ea2, 0x22a31f54)
    ensures Operations(64, INITIAL, EMPTY_BLOCK)
            == Registers(0x7246fad3, 0x14e45506, 0xff4ea3eb, 0x6e10a476)
  {
    hide Operations, Row;
    Table4();
    LineFour(48, 0x3f55edfd, 0xca7d2dbd, 0x68d84ea2, 0x22a31f54, 0, 0xf4292244, 6, 0xb7a5a31d, 0xeb24b3de, 0x93aa2577);
    LineFour(49, 0x22a31f54, 0x93aa2577, 0xca7d2dbd, 0x68d84ea2, 7, 0x432aff97, 10, 0x5dd298c2, 0xc3a0b7ad, 0x1688dc85);
    LineFour(50, 0x68d84ea2, 0x1688dc85, 0x93aa2577, 0xca7d2dbd, 14, 0xab9423a7, 15, 0xa420fbb0, 0xb88d6df9, 0xcd85b8cb);
    LineFour(51, 0xca7d2dbd, 0xcd85b8cb, 0x1688dc85, 0x93aa2577, 5, 0xfc93a039, 21, 0xfb5d264e, 0xc26df444, 0x561e0689);
    LineFour(52, 0x93aa2577, 0x561e0689, 0xcd85b8cb, 0x1688dc85, 12, 0x655b59c3, 6, 0x32fa9f30, 0x2c001e6a, 0x5625a114);
    LineFour(53, 0x1688dc85, 0x5625a114, 0x561e0689, 0xcd85b8cb, 3, 0x8f0ccc92, 10, 0x2061e1bd, 0xc5f78ad4, 0x3450f42b);
    LineFour(54, 0xcd85b8cb, 0x3450f42b, 0x5625a114, 0x561e0689, 10, 0xffeff47d, 15, 0xebd45c6b, 0xb94a09b3, 0x392ad0d0);
    LineFour(55, 0x561e0689, 0x392ad0d0, 0x3450f42b, 0x5625a114, 1, 0x85845dd1, 21, 0x8daa2ad0, 0x694c8f2a, 0x1e77fa61);
    LineFour(56, 0x5625a114, 0x1e77fa61, 0x392ad0d0, 0x3450f42b, 8, 0x6fa87e4f, 6, 0xe6d52b25, 0xaca34a88, 0x474a9c8c);
    LineFour(57, 0x3450f42b, 0x474a9c8c, 0x1e77fa61, 0x392ad0d0, 15, 0xfe2ce6e0, 10, 0xd9a845ce, 0x0c2620d9, 0xdfce00bc);
    LineFour(58, 0x392ad0d0, 0xdfce00bc, 0x474a9c8c, 0x1e77fa61, 6, 0xa3014314, 15, 0xb8849932, 0x94b0ad16, 0x36594b14);
    LineFour(59, 0x1e77fa61, 0x36594b14, 0xdfce00bc, 0x474a9c8c, 13, 0x4e0811a1, 21, 0x61336bcb, 0xcdb377cd, 0x30130182);
    LineFour(60, 0x474a9c8c, 0x30130182, 0x36594b14, 0xdfce00bc, 4, 0xf7537e82, 6, 0x066ab4d7, 0x4508cfe5, 0x7246fad3);
    LineFour(61, 0xdfce00bc, 0x7246fad3, 0x30130182, 0x36594b14, 11, 0xbd3af235, 10, 0xcbf5ff79, 0x68fef26a, 0x6e10a476);
    LineFour(62, 0x36594b14, 0x6e10a476, 0x7246fad3, 0x30130182, 2, 0x2ad7d2bb, 15, 0x9dba04ac, 0xfeeb227b, 0xff4ea3eb);
    LineFour(63, 0x30130182, 0xff4ea3eb, 0x6e10a476, 0x7246fad3, 9, 0xeb86d391, 21, 0x91ef0399, 0xad88d8ac, 0x14e45506);
  }

  lemma PaddedBytes()
    ensures |Padded([])| == 56 && Padded([])[0] == 0x80 && forall i :: 1 <= i < 56 ==> Padded([])[i] == 0
  {
  }

  lemma Decoded(p: seq<Byte>, i: nat)
    requires |p| == 56 && i < 14 && p[0] == 0x80 && forall j :: 1 <= j < 56 ==> p[j] == 0
    ensures DecodeWords(p)[i] == if i == 0 then 0x80 else 0
  {
    assert DecodeWord([0x80, 0, 0, 0]) == 0x80 && DecodeWord([0, 0, 0, 0]) == 0;
    hide DecodeWord;
    assert p[4 * i..4 * i + 4] == if i == 0 then [0x80, 0, 0, 0] else [0, 0, 0, 0];
  }

  lemma NoLength()
    ensures LengthWords(0) == [0, 0]
  {
    SameWord(0, 0);
    hide ToWord;
    assert ToWord(0) == 0;
  }

  /** The padded empty message is this block. */
  lemma PaddedEmpty()
    ensures DecodeWords(Padded([])) + LengthWords(0) == EMPTY_BLOCK
  {
    hide Padded, DecodeWords, LengthWords;
    PaddedBytes();
    NoLength();
    var w := DecodeWords(Padded([])) + LengthWords(0);
    forall i | 0 <= i < 14
      ensures w[i] == if i == 0 then 0x80 else 0
    {
      Decoded(Padded([]), i);
    }
    forall i | 0 <= i < 16
      ensures w[i] == EMPTY_BLOCK[i]
    {
      BlockWord(i);
    }
  }

  lemma EmptyCompressed()
    ensures Compress(INITIAL, EMPTY_BLOCK)
            == Registers(0xd98c1dd4, 0x04b2008f, 0x980980e9, 0x7e42f8ec)
  {
    RoundOne();
    RoundTwo();
    RoundThree();
    RoundFour();
    hide Operations;
  }

  lemma OneBlock()
    ensures Digest([]) == EncodeRegisters(Compress(INITIAL, EMPTY_BLOCK))
  {
    hide Compress, DecodeWords, LengthWords, EMPTY_BLOCK, EncodeRegisters, Padded, Process, INITIAL;
    PaddedBytes();
    PaddedEmpty();
    NoBlocks();
    assert Padded([])[..0] == [] && Padded([])[0..] == Padded([]);
  }

  lemma NoBlocks()
    ensures Process(INITIAL, []) == INITIAL
  {
  }

  lemma WordsEncoded()
    ensures EncodeWord(0xd98c1dd4) == [0xd4, 0x1d, 0x8c, 0xd9]
    ensures EncodeWord(0x04b2008f) == [0x8f, 0x00, 0xb2, 0x04]
    ensures EncodeWord(0x980980e9) == [0xe9, 0x80, 0x09, 0x98]
    ensures EncodeWord(0x7e42f8ec) == [0xec, 0xf8, 0x42, 0x7e]
  {
  }

  /** MD5 ("") = d41d8cd98f00b204e9800998ecf8427e. */
  lemma EmptyMessage()
    ensures Digest([])
            == [0xd4, 0x1d, 0x8c, 0xd9, 0x8f, 0x00, 0xb2, 0x04,
                0xe9, 0x80, 0x09, 0x98, 0xec, 0xf8, 0x42, 0x7e]
  {
    OneBlock();
    EmptyCompressed();
    WordsEncoded();
    hide Compress, EncodeWord, EMPTY_BLOCK, Digest;
  }
}
