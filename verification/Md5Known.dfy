// A message of the test suite in section A.5 of RFC 1321, followed through all
// 64 steps: its digest is the one printed there.

module Md5Known {
  import opened Md5Bits
  import opened Md5Words
  import opened Md5Rfc

  /** The letters from a to z. */
  const ALPHABET: seq<Byte> :=
    [0x61, 0x62, 0x63, 0x64, 0x65, 0x66, 0x67, 0x68, 0x69, 0x6a, 0x6b, 0x6c, 0x6d,
     0x6e, 0x6f, 0x70, 0x71, 0x72, 0x73, 0x74, 0x75, 0x76, 0x77, 0x78, 0x79, 0x7a]

  /** Its only block, as words: the letters, a one bit, zeros, and the length of 208 bits. */
  const BLOCK: seq<Word> :=
    [0x64636261, 0x68676665, 0x6c6b6a69, 0x706f6e6d, 0x74737271, 0x78777675, 0x00807a79, 0x00000000,
     0x00000000, 0x00000000, 0x00000000, 0x00000000, 0x00000000, 0x00000000, 0x000000d0, 0x00000000]

  // ---- what the round functions and the rotations give ----

  lemma Values1()
    ensures F(0xefcdab89, 0x98badcfe, 0x10325476) == 0x98badcfe && RotateLeft(0x3bce06d8, 7) == 0xe7036c1d
    ensures F(0xd6d117a6, 0xefcdab89, 0x98badcfe) == 0xceebcbd8 && RotateLeft(0x304d3e09, 12) == 0xd3e09304
    ensures F(0xaab1aaaa, 0xd6d117a6, 0xefcdab89) == 0xc7dd03a3 && RotateLeft(0xf123bbe5, 17) == 0x77cbe247
    ensures F(0x227d8cf1, 0xaab1aaaa, 0xd6d117a6) == 0xf6b19ba6 && RotateLeft(0x18ac848a, 22) == 0x22862b21
    ensures F(0x4503b812, 0x227d8cf1, 0xaab1aaaa) == 0xaab18ab8 && RotateLeft(0xeb72247e, 7) == 0xb9123f75
    ensures F(0xfe15f787, 0x4503b812, 0x227d8cf1) == 0x4469b872 && RotateLeft(0xaf1a9fbb, 12) == 0xa9fbbaf1
    ensures F(0xa811b278, 0xfe15f787, 0x4503b812) == 0xed13ba02 && RotateLeft(0xb842077f, 17) == 0x0eff7084
    ensures F(0xb71122fc, 0xa811b278, 0xfe15f787) == 0xe815f77b && RotateLeft(0x2a60448e, 22) == 0x238a9811
  {
  }

  lemma Values2()
    ensures F(0xda9bbb0d, 0xb71122fc, 0xa811b278) == 0xb211227c && RotateLeft(0x19a7b2db, 7) == 0xd3d96d8c
    ensures F(0xae752899, 0xda9bbb0d, 0xb71122fc) == 0x9b112a6d && RotateLeft(0xce67d494, 12) == 0x7d494ce6
    ensures F(0x2bbe757f, 0xae752899, 0xda9bbb0d) == 0xfa35aa19 && RotateLeft(0xb14628c6, 17) == 0x518d628c
    ensures F(0x7d4bd80b, 0x2bbe757f, 0xae752899) == 0xab3e709b && RotateLeft(0x0f370366, 22) == 0xd983cdc0
    ensures F(0x56cfa5cb, 0x7d4bd80b, 0x2bbe757f) == 0x7d7bd03f && RotateLeft(0x978109fa, 7) == 0xc084fd4b
    ensures F(0x1754a316, 0x56cfa5cb, 0x7d4bd80b) == 0x7e4ff90b && RotateLeft(0xa7a6e01d, 12) == 0x6e01da7a
    ensures F(0x85567d90, 0x1754a316, 0x56cfa5cb) == 0x57dda15b && RotateLeft(0x7ba2bdc4, 17) == 0x7b88f745
    ensures F(0x00df74d5, 0x85567d90, 0x1754a316) == 0x1756f792 && RotateLeft(0xb7daa57e, 22) == 0x5fadf6a9
  {
  }

  lemma Values3()
    ensures G(0x608d6b7e, 0x00df74d5, 0x85567d90) == 0x008d6955 && RotateLeft(0x76679832, 5) == 0xccf3064e
    ensures G(0x2d8071cc, 0x608d6b7e, 0x00df74d5) == 0x60807bee && RotateLeft(0xa6982737, 9) == 0x304e6f4d
    ensures G(0x5dcee119, 0x2d8071cc, 0x608d6b7e) == 0x4d8c7198 && RotateLeft(0x74ca40be, 14) == 0x902f9d32
    ensures G(0xedfe7e4b, 0x5dcee119, 0x2d8071cc) == 0x7dcef059 && RotateLeft(0x2c7685e2, 20) == 0x5e22c768
    ensures G(0x4c2145b3, 0xedfe7e4b, 0x5dcee119) == 0xec305f53 && RotateLeft(0x685757f1, 5) == 0x0aeafe2d
    ensures G(0x570c43e0, 0x4c2145b3, 0xedfe7e4b) == 0x450d43f0 && RotateLeft(0xa520395c, 9) == 0x4072b94a
    ensures G(0x977efd2a, 0x570c43e0, 0x4c2145b3) == 0x172c4762 && RotateLeft(0xddccac2e, 14) == 0x2b0bb773
    ensures G(0xc28ab49d, 0x977efd2a, 0x570c43e0) == 0xc27abc8a && RotateLeft(0x6ae37076, 20) == 0x0766ae37
  {
  }

  lemma Values4()
    ensures G(0xc9f162d4, 0xc28ab49d, 0x977efd2a) == 0xc1f06095 && RotateLeft(0x3ade725b, 5) == 0x5bce4b67
    ensures G(0x25bfae3b, 0xc9f162d4, 0xc28ab49d) == 0x09fbe659 && RotateLeft(0x64b1ec29, 9) == 0x63d852c9
    ensures G(0x89980104, 0x25bfae3b, 0xc9f162d4) == 0xad9e8c2f && RotateLeft(0xd56dbcc0, 14) == 0x6f30355b
    ensures G(0xf8c8365f, 0x89980104, 0x25bfae3b) == 0xa888271f && RotateLeft(0xb7d39ee0, 20) == 0xee0b7d39
    ensures G(0xe6d3b398, 0xf8c8365f, 0x89980104) == 0xf0d0375b && RotateLeft(0xc073ce9b, 5) == 0x0e79d378
    ensures G(0xf54d8710, 0xe6d3b398, 0xf8c8365f) == 0xf65b8790 && RotateLeft(0xe94e96f5, 9) == 0x9d2debd2
    ensures G(0x927b72e2, 0xf54d8710, 0xe6d3b398) == 0x935f3680 && RotateLeft(0xf3966fb8, 14) == 0x9bee3ce5
    ensures G(0x2e69afc7, 0x927b72e2, 0xf54d8710) == 0x267bf7e2 && RotateLeft(0x9a79f804, 20) == 0x8049a79f
  {
  }

  lemma Values5()
    ensures H(0xaeb35766, 0x2e69afc7, 0x927b72e2) == 0x12a18a43 && RotateLeft(0x8060c10a, 4) == 0x060c10a8
    ensures H(0xb4bf680e, 0xaeb35766, 0x2e69afc7) == 0x346590af && RotateLeft(0x4e52fa12, 11) == 0x97d09272
    ensures H(0x4c8ffa80, 0xb4bf680e, 0xaeb35766) == 0x5683c5e8 && RotateLeft(0xf28ad6d1, 16) == 0xd6d1f28a
    ensures H(0x2361ed0a, 0x4c8ffa80, 0xb4bf680e) == 0xdb517f84 && RotateLeft(0x87ea0fc6, 23) == 0xe343f507
    ensures H(0x06a5e211, 0x2361ed0a, 0x4c8ffa80) == 0x694bf59b && RotateLeft(0x2b31ae52, 4) == 0xb31ae522
    ensures H(0xb9c0c733, 0x06a5e211, 0x2361ed0a) == 0x9c04c828 && RotateLeft(0xa8e704c2, 11) == 0x38261547
    ensures H(0xf1e6dc7a, 0xb9c0c733, 0x06a5e211) == 0x4e83f958 && RotateLeft(0x68a131c2, 16) == 0x31c268a1
    ensures H(0x23a9451b, 0xf1e6dc7a, 0xb9c0c733) == 0x6b8f5e52 && RotateLeft(0x30f4fcd3, 23) == 0x69987a7e
  {
  }

  lemma Values6()
    ensures H(0x8d41bf99, 0x23a9451b, 0xf1e6dc7a) == 0x5f0e26f8 && RotateLeft(0x416a6cf1, 4) == 0x16a6cf14
    ensures H(0xa3e88ead, 0x8d41bf99, 0x23a9451b) == 0x0d00742f && RotateLeft(0x4debdb04, 11) == 0x5ed8226f
    ensures H(0x02c0b11c, 0xa3e88ead, 0x8d41bf99) == 0x2c698028 && RotateLeft(0x95716435, 16) == 0x64359571
    ensures H(0x66f6468d, 0x02c0b11c, 0xa3e88ead) == 0xc7de793c && RotateLeft(0x5a28d053, 23) == 0x29ad1468
    ensures H(0x90a35af5, 0x66f6468d, 0x02c0b11c) == 0xf495ad64 && RotateLeft(0x72530c4a, 4) == 0x2530c4a7
    ensures H(0xb5d41f9c, 0x90a35af5, 0x66f6468d) == 0x438103e4 && RotateLeft(0x2d1d4ee5, 11) == 0xea772968
    ensures H(0xa04b4904, 0xb5d41f9c, 0x90a35af5) == 0x853c0c6d && RotateLeft(0x0bd4cff2, 16) == 0xcff20bd4
    ensures H(0x703d54d8, 0xa04b4904, 0xb5d41f9c) == 0x65a20240 && RotateLeft(0x275d1e03, 23) == 0x0193ae8f
  {
  }

  lemma Values7()
    ensures I(0x71d10367, 0x703d54d8, 0xa04b4904) == 0x0fc8e327 && RotateLeft(0x1e298768, 6) == 0x8a61da07
    ensures I(0xfc32dd6e, 0x71d10367, 0x703d54d8) == 0x8e23fc08 && RotateLeft(0x719a44a3, 10) == 0x69128dc6
    ensures I(0x65456b34, 0xfc32dd6e, 0x71d10367) == 0x135d22d2 && RotateLeft(0x2f2e9c21, 15) == 0x4e109797
    ensures I(0xb35602cb, 0x65456b34, 0xfc32dd6e) == 0xd69a49ef && RotateLeft(0xbd766404, 21) == 0x8097aecc
    ensures I(0x33edb197, 0xb35602cb, 0x65456b34) == 0x08a9b714 && RotateLeft(0x6a37ee45, 6) == 0x8dfb915a
    ensures I(0xc1e942f1, 0x33edb197, 0xb35602cb) == 0xfe044e62 && RotateLeft(0x62c5f495, 10) == 0x17d2558b
    ensures I(0xd9bb987c, 0xc1e942f1, 0x33edb197) == 0x1c529c8d && RotateLeft(0xcf9893d5, 15) == 0x49eae7cc
    ensures I(0x23a68048, 0xd9bb987c, 0xc1e942f1) == 0xe60d2532 && RotateLeft(0x07e69aff, 21) == 0x5fe0fcd3
  {
  }

  lemma Values8()
    ensures I(0x83877d1b, 0x23a68048, 0xd9bb987c) == 0x8461ffd3 && RotateLeft(0xb5f3c113, 6) == 0x7cf044ed
    ensures I(0x0077c208, 0x83877d1b, 0x23a68048) == 0x5ff882a4 && RotateLeft(0x37e10200, 10) == 0x840800df
    ensures I(0x847fc2e7, 0x0077c208, 0x83877d1b) == 0xfc0800ef && RotateLeft(0xc3303ec4, 15) == 0x1f626198
    ensures I(0xa3e2247f, 0x847fc2e7, 0x0077c208) == 0x7b95ff18 && RotateLeft(0x4d258dd4, 21) == 0xba89a4b1
    ensures I(0x5e6bc930, 0xa3e2247f, 0x847fc2e7) == 0xdc09d947 && RotateLeft(0x48488c42, 6) == 0x12231092
    ensures I(0x708ed9c2, 0x5e6bc930, 0xa3e2247f) == 0x22f412f2 && RotateLeft(0x64aec80e, 10) == 0xbb203992
    ensures I(0x2baf1354, 0x708ed9c2, 0x5e6bc930) == 0xdb31ee1d && RotateLeft(0x16574fc0, 15) == 0xa7e00b2b
    ensures I(0xd38f1e7f, 0x2baf1354, 0x708ed9c2) == 0xf4502d2b && RotateLeft(0x3e42c9ec, 21) == 0x3d87c859
  {
  }

  // ---- four steps at a time ----

  lemma Steps1To4()
    ensures Step(BLOCK, 0, Registers(0x67452301, 0xefcdab89, 0x98badcfe, 0x10325476)) == Registers(0x10325476, 0xd6d117a6, 0xefcdab89, 0x98badcfe)
    ensures Step(BLOCK, 1, Registers(0x10325476, 0xd6d117a6, 0xefcdab89, 0x98badcfe)) == Registers(0x98badcfe, 0xaab1aaaa, 0xd6d117a6, 0xefcdab89)
    ensures Step(BLOCK, 2, Registers(0x98badcfe, 0xaab1aaaa, 0xd6d117a6, 0xefcdab89)) == Registers(0xefcdab89, 0x227d8cf1, 0xaab1aaaa, 0xd6d117a6)
    ensures Step(BLOCK, 3, Registers(0xefcdab89, 0x227d8cf1, 0xaab1aaaa, 0xd6d117a6)) == Registers(0xd6d117a6, 0x4503b812, 0x227d8cf1, 0xaab1aaaa)
  {
    Values1();
    hide F, G, H, I, RotateLeft;
  }

  lemma Steps5To8()
    ensures Step(BLOCK, 4, Registers(0xd6d117a6, 0x4503b812, 0x227d8cf1, 0xaab1aaaa)) == Registers(0xaab1aaaa, 0xfe15f787, 0x4503b812, 0x227d8cf1)
    ensures Step(BLOCK, 5, Registers(0xaab1aaaa, 0xfe15f787, 0x4503b812, 0x227d8cf1)) == Registers(0x227d8cf1, 0xa811b278, 0xfe15f787, 0x4503b812)
    ensures Step(BLOCK, 6, Registers(0x227d8cf1, 0xa811b278, 0xfe15f787, 0x4503b812)) == Registers(0x4503b812, 0xb71122fc, 0xa811b278, 0xfe15f787)
    ensures Step(BLOCK, 7, Registers(0x4503b812, 0xb71122fc, 0xa811b278, 0xfe15f787)) == Registers(0xfe15f787, 0xda9bbb0d, 0xb71122fc, 0xa811b278)
  {
    Values1();
    hide F, G, H, I, RotateLeft;
  }

  lemma Steps9To12()
    ensures Step(BLOCK, 8, Registers(0xfe15f787, 0xda9bbb0d, 0xb71122fc, 0xa811b278)) == Registers(0xa811b278, 0xae752899, 0xda9bbb0d, 0xb71122fc)
    ensures Step(BLOCK, 9, Registers(0xa811b278, 0xae752899, 0xda9bbb0d, 0xb71122fc)) == Registers(0xb71122fc, 0x2bbe757f, 0xae752899, 0xda9bbb0d)
    ensures Step(BLOCK, 10, Registers(0xb71122fc, 0x2bbe757f, 0xae752899, 0xda9bbb0d)) == Registers(0xda9bbb0d, 0x7d4bd80b, 0x2bbe757f, 0xae752899)
    ensures Step(BLOCK, 11, Registers(0xda9bbb0d, 0x7d4bd80b, 0x2bbe757f, 0xae752899)) == Registers(0xae752899, 0x56cfa5cb, 0x7d4bd80b, 0x2bbe757f)
  {
    Values2();
    hide F, G, H, I, RotateLeft;
  }

  lemma Steps13To16()
    ensures Step(BLOCK, 12, Registers(0xae752899, 0x56cfa5cb, 0x7d4bd80b, 0x2bbe757f)) == Registers(0x2bbe757f, 0x1754a316, 0x56cfa5cb, 0x7d4bd80b)
    ensures Step(BLOCK, 13, Registers(0x2bbe757f, 0x1754a316, 0x56cfa5cb, 0x7d4bd80b)) == Registers(0x7d4bd80b, 0x85567d90, 0x1754a316, 0x56cfa5cb)
    ensures Step(BLOCK, 14, Registers(0x7d4bd80b, 0x85567d90, 0x1754a316, 0x56cfa5cb)) == Registers(0x56cfa5cb, 0x00df74d5, 0x85567d90, 0x1754a316)
    ensures Step(BLOCK, 15, Registers(0x56cfa5cb, 0x00df74d5, 0x85567d90, 0x1754a316)) == Registers(0x1754a316, 0x608d6b7e, 0x00df74d5, 0x85567d90)
  {
    Values2();
    hide F, G, H, I, RotateLeft;
  }

  lemma Steps17To20()
    ensures Step(BLOCK, 16, Registers(0x1754a316, 0x608d6b7e, 0x00df74d5, 0x85567d90)) == Registers(0x85567d90, 0x2d8071cc, 0x608d6b7e, 0x00df74d5)
    ensures Step(BLOCK, 17, Registers(0x85567d90, 0x2d8071cc, 0x608d6b7e, 0x00df74d5)) == Registers(0x00df74d5, 0x5dcee119, 0x2d8071cc, 0x608d6b7e)
    ensures Step(BLOCK, 18, Registers(0x00df74d5, 0x5dcee119, 0x2d8071cc, 0x608d6b7e)) == Registers(0x608d6b7e, 0xedfe7e4b, 0x5dcee119, 0x2d8071cc)
    ensures Step(BLOCK, 19, Registers(0x608d6b7e, 0xedfe7e4b, 0x5dcee119, 0x2d8071cc)) == Registers(0x2d8071cc, 0x4c2145b3, 0xedfe7e4b, 0x5dcee119)
  {
    Values3();
    hide F, G, H, I, RotateLeft;
  }

  lemma Steps21To24()
    ensures Step(BLOCK, 20, Registers(0x2d8071cc, 0x4c2145b3, 0xedfe7e4b, 0x5dcee119)) == Registers(0x5dcee119, 0x570c43e0, 0x4c2145b3, 0xedfe7e4b)
    ensures Step(BLOCK, 21, Registers(0x5dcee119, 0x570c43e0, 0x4c2145b3, 0xedfe7e4b)) == Registers(0xedfe7e4b, 0x977efd2a, 0x570c43e0, 0x4c2145b3)
    ensures Step(BLOCK, 22, Registers(0xedfe7e4b, 0x977efd2a, 0x570c43e0, 0x4c2145b3)) == Registers(0x4c2145b3, 0xc28ab49d, 0x977efd2a, 0x570c43e0)
    ensures Step(BLOCK, 23, Registers(0x4c2145b3, 0xc28ab49d, 0x977efd2a, 0x570c43e0)) == Registers(0x570c43e0, 0xc9f162d4, 0xc28ab49d, 0x977efd2a)
  {
    Values3();
    hide F, G, H, I, RotateLeft;
  }

  lemma Steps25To28()
    ensures Step(BLOCK, 24, Registers(0x570c43e0, 0xc9f162d4, 0xc28ab49d, 0x977efd2a)) == Registers(0x977efd2a, 0x25bfae3b, 0xc9f162d4, 0xc28ab49d)
    ensures Step(BLOCK, 25, Registers(0x977efd2a, 0x25bfae3b, 0xc9f162d4, 0xc28ab49d)) == Registers(0xc28ab49d, 0x89980104, 0x25bfae3b, 0xc9f162d4)
    ensures Step(BLOCK, 26, Registers(0xc28ab49d, 0x89980104, 0x25bfae3b, 0xc9f162d4)) == Registers(0xc9f162d4, 0xf8c8365f, 0x89980104, 0x25bfae3b)
    ensures Step(BLOCK, 27, Registers(0xc9f162d4, 0xf8c8365f, 0x89980104, 0x25bfae3b)) == Registers(0x25bfae3b, 0xe6d3b398, 0xf8c8365f, 0x89980104)
  {
    Values4();
    hide F, G, H, I, RotateLeft;
  }

  lemma Steps29To32()
    ensures Step(BLOCK, 28, Registers(0x25bfae3b, 0xe6d3b398, 0xf8c8365f, 0x89980104)) == Registers(0x89980104, 0xf54d8710, 0xe6d3b398, 0xf8c8365f)
    ensures Step(BLOCK, 29, Registers(0x89980104, 0xf54d8710, 0xe6d3b398, 0xf8c8365f)) == Registers(0xf8c8365f, 0x927b72e2, 0xf54d8710, 0xe6d3b398)
    ensures Step(BLOCK, 30, Registers(0xf8c8365f, 0x927b72e2, 0xf54d8710, 0xe6d3b398)) == Registers(0xe6d3b398, 0x2e69afc7, 0x927b72e2, 0xf54d8710)
    ensures Step(BLOCK, 31, Registers(0xe6d3b398, 0x2e69afc7, 0x927b72e2, 0xf54d8710)) == Registers(0xf54d8710, 0xaeb35766, 0x2e69afc7, 0x927b72e2)
  {
    Values4();
    hide F, G, H, I, RotateLeft;
  }

  lemma Steps33To36()
    ensures Step(BLOCK, 32, Registers(0xf54d8710, 0xaeb35766, 0x2e69afc7, 0x927b72e2)) == Registers(0x927b72e2, 0xb4bf680e, 0xaeb35766, 0x2e69afc7)
    ensures Step(BLOCK, 33, Registers(0x927b72e2, 0xb4bf680e, 0xaeb35766, 0x2e69afc7)) == Registers(0x2e69afc7, 0x4c8ffa80, 0xb4bf680e, 0xaeb35766)
    ensures Step(BLOCK, 34, Registers(0x2e69afc7, 0x4c8ffa80, 0xb4bf680e, 0xaeb35766)) == Registers(0xaeb35766, 0x2361ed0a, 0x4c8ffa80, 0xb4bf680e)
    ensures Step(BLOCK, 35, Registers(0xaeb35766, 0x2361ed0a, 0x4c8ffa80, 0xb4bf680e)) == Registers(0xb4bf680e, 0x06a5e211, 0x2361ed0a, 0x4c8ffa80)
  {
    Values5();
    hide F, G, H, I, RotateLeft;
  }

  lemma Steps37To40()
    ensures Step(BLOCK, 36, Registers(0xb4bf680e, 0x06a5e211, 0x2361ed0a, 0x4c8ffa80)) == Registers(0x4c8ffa80, 0xb9c0c733, 0x06a5e211, 0x2361ed0a)
    ensures Step(BLOCK, 37, Registers(0x4c8ffa80, 0xb9c0c733, 0x06a5e211, 0x2361ed0a)) == Registers(0x2361ed0a, 0xf1e6dc7a, 0xb9c0c733, 0x06a5e211)
    ensures Step(BLOCK, 38, Registers(0x2361ed0a, 0xf1e6dc7a, 0xb9c0c733, 0x06a5e211)) == Registers(0x06a5e211, 0x23a9451b, 0xf1e6dc7a, 0xb9c0c733)
    ensures Step(BLOCK, 39, Registers(0x06a5e211, 0x23a9451b, 0xf1e6dc7a, 0xb9c0c733)) == Registers(0xb9c0c733, 0x8d41bf99, 0x23a9451b, 0xf1e6dc7a)
  {
    Values5();
    hide F, G, H, I, RotateLeft;
  }

  lemma Steps41To44()
    ensures Step(BLOCK, 40, Registers(0xb9c0c733, 0x8d41bf99, 0x23a9451b, 0xf1e6dc7a)) == Registers(0xf1e6dc7a, 0xa3e88ead, 0x8d41bf99, 0x23a9451b)
    ensures Step(BLOCK, 41, Registers(0xf1e6dc7a, 0xa3e88ead, 0x8d41bf99, 0x23a9451b)) == Registers(0x23a9451b, 0x02c0b11c, 0xa3e88ead, 0x8d41bf99)
    ensures Step(BLOCK, 42, Registers(0x23a9451b, 0x02c0b11c, 0xa3e88ead, 0x8d41bf99)) == Registers(0x8d41bf99, 0x66f6468d, 0x02c0b11c, 0xa3e88ead)
    ensures Step(BLOCK, 43, Registers(0x8d41bf99, 0x66f6468d, 0x02c0b11c, 0xa3e88ead)) == Registers(0xa3e88ead, 0x90a35af5, 0x66f6468d, 0x02c0b11c)
  {
    Values6();
    hide F, G, H, I, RotateLeft;
  }

  lemma Steps45To48()
    ensures Step(BLOCK, 44, Registers(0xa3e88ead, 0x90a35af5, 0x66f6468d, 0x02c0b11c)) == Registers(0x02c0b11c, 0xb5d41f9c, 0x90a35af5, 0x66f6468d)
    ensures Step(BLOCK, 45, Registers(0x02c0b11c, 0xb5d41f9c, 0x90a35af5, 0x66f6468d)) == Registers(0x66f6468d, 0xa04b4904, 0xb5d41f9c, 0x90a35af5)
    ensures Step(BLOCK, 46, Registers(0x66f6468d, 0xa04b4904, 0xb5d41f9c, 0x90a35af5)) == Registers(0x90a35af5, 0x703d54d8, 0xa04b4904, 0xb5d41f9c)
    ensures Step(BLOCK, 47, Registers(0x90a35af5, 0x703d54d8, 0xa04b4904, 0xb5d41f9c)) == Registers(0xb5d41f9c, 0x71d10367, 0x703d54d8, 0xa04b4904)
  {
    Values6();
    hide F, G, H, I, RotateLeft;
  }

  lemma Steps49To52()
    ensures Step(BLOCK, 48, Registers(0xb5d41f9c, 0x71d10367, 0x703d54d8, 0xa04b4904)) == Registers(0xa04b4904, 0xfc32dd6e, 0x71d10367, 0x703d54d8)
    ensures Step(BLOCK, 49, Registers(0xa04b4904, 0xfc32dd6e, 0x71d10367, 0x703d54d8)) == Registers(0x703d54d8, 0x65456b34, 0xfc32dd6e, 0x71d10367)
    ensures Step(BLOCK, 50, Registers(0x703d54d8, 0x65456b34, 0xfc32dd6e, 0x71d10367)) == Registers(0x71d10367, 0xb35602cb, 0x65456b34, 0xfc32dd6e)
    ensures Step(BLOCK, 51, Registers(0x71d10367, 0xb35602cb, 0x65456b34, 0xfc32dd6e)) == Registers(0xfc32dd6e, 0x33edb197, 0xb35602cb, 0x65456b34)
  {
    Values7();
    hide F, G, H, I, RotateLeft;
  }

  lemma Steps53To56()
    ensures Step(BLOCK, 52, Registers(0xfc32dd6e, 0x33edb197, 0xb35602cb, 0x65456b34)) == Registers(0x65456b34, 0xc1e942f1, 0x33edb197, 0xb35602cb)
    ensures Step(BLOCK, 53, Registers(0x65456b34, 0xc1e942f1, 0x33edb197, 0xb35602cb)) == Registers(0xb35602cb, 0xd9bb987c, 0xc1e942f1, 0x33edb197)
    ensures Step(BLOCK, 54, Registers(0xb35602cb, 0xd9bb987c, 0xc1e942f1, 0x33edb197)) == Registers(0x33edb197, 0x23a68048, 0xd9bb987c, 0xc1e942f1)
    ensures Step(BLOCK, 55, Registers(0x33edb197, 0x23a68048, 0xd9bb987c, 0xc1e942f1)) == Registers(0xc1e942f1, 0x83877d1b, 0x23a68048, 0xd9bb987c)
  {
    Values7();
    hide F, G, H, I, RotateLeft;
  }

  lemma Steps57To60()
    ensures Step(BLOCK, 56, Registers(0xc1e942f1, 0x83877d1b, 0x23a68048, 0xd9bb987c)) == Registers(0xd9bb987c, 0x0077c208, 0x83877d1b, 0x23a68048)
    ensures Step(BLOCK, 57, Registers(0xd9bb987c, 0x0077c208, 0x83877d1b, 0x23a68048)) == Registers(0x23a68048, 0x847fc2e7, 0x0077c208, 0x83877d1b)
    ensures Step(BLOCK, 58, Registers(0x23a68048, 0x847fc2e7, 0x0077c208, 0x83877d1b)) == Registers(0x83877d1b, 0xa3e2247f, 0x847fc2e7, 0x0077c208)
    ensures Step(BLOCK, 59, Registers(0x83877d1b, 0xa3e2247f, 0x847fc2e7, 0x0077c208)) == Registers(0x0077c208, 0x5e6bc930, 0xa3e2247f, 0x847fc2e7)
  {
    Values8();
    hide F, G, H, I, RotateLeft;
  }

  lemma Steps61To64()
    ensures Step(BLOCK, 60, Registers(0x0077c208, 0x5e6bc930, 0xa3e2247f, 0x847fc2e7)) == Registers(0x847fc2e7, 0x708ed9c2, 0x5e6bc930, 0xa3e2247f)
    ensures Step(BLOCK, 61, Registers(0x847fc2e7, 0x708ed9c2, 0x5e6bc930, 0xa3e2247f)) == Registers(0xa3e2247f, 0x2baf1354, 0x708ed9c2, 0x5e6bc930)
    ensures Step(BLOCK, 62, Registers(0xa3e2247f, 0x2baf1354, 0x708ed9c2, 0x5e6bc930)) == Registers(0x5e6bc930, 0xd38f1e7f, 0x2baf1354, 0x708ed9c2)
    ensures Step(BLOCK, 63, Registers(0x5e6bc930, 0xd38f1e7f, 0x2baf1354, 0x708ed9c2)) == Registers(0x708ed9c2, 0x1116e6d8, 0xd38f1e7f, 0x2baf1354)
  {
    Values8();
    hide F, G, H, I, RotateLeft;
  }

  lemma NextStep(i: nat, r: Registers)
    requires i < 64 && Steps(BLOCK, i, INITIAL) == r
    ensures Steps(BLOCK, i + 1, INITIAL) == Step(BLOCK, i, r)
  {
    hide Step;
  }

  lemma Round1()
    ensures Steps(BLOCK, 16, INITIAL) == Registers(0x1754a316, 0x608d6b7e, 0x00df74d5, 0x85567d90)
  {
    hide Step;
    assert Steps(BLOCK, 0, INITIAL) == INITIAL;
    Steps1To4();
    NextStep(0, Registers(0x67452301, 0xefcdab89, 0x98badcfe, 0x10325476));
    NextStep(1, Registers(0x10325476, 0xd6d117a6, 0xefcdab89, 0x98badcfe));
    NextStep(2, Registers(0x98badcfe, 0xaab1aaaa, 0xd6d117a6, 0xefcdab89));
    NextStep(3, Registers(0xefcdab89, 0x227d8cf1, 0xaab1aaaa, 0xd6d117a6));
    Steps5To8();
    NextStep(4, Registers(0xd6d117a6, 0x4503b812, 0x227d8cf1, 0xaab1aaaa));
    NextStep(5, Registers(0xaab1aaaa, 0xfe15f787, 0x4503b812, 0x227d8cf1));
    NextStep(6, Registers(0x227d8cf1, 0xa811b278, 0xfe15f787, 0x4503b812));
    NextStep(7, Registers(0x4503b812, 0xb71122fc, 0xa811b278, 0xfe15f787));
    Steps9To12();
    NextStep(8, Registers(0xfe15f787, 0xda9bbb0d, 0xb71122fc, 0xa811b278));
    NextStep(9, Registers(0xa811b278, 0xae752899, 0xda9bbb0d, 0xb71122fc));
    NextStep(10, Registers(0xb71122fc, 0x2bbe757f, 0xae752899, 0xda9bbb0d));
    NextStep(11, Registers(0xda9bbb0d, 0x7d4bd80b, 0x2bbe757f, 0xae752899));
    Steps13To16();
    NextStep(12, Registers(0xae752899, 0x56cfa5cb, 0x7d4bd80b, 0x2bbe757f));
    NextStep(13, Registers(0x2bbe757f, 0x1754a316, 0x56cfa5cb, 0x7d4bd80b));
    NextStep(14, Registers(0x7d4bd80b, 0x85567d90, 0x1754a316, 0x56cfa5cb));
    NextStep(15, Registers(0x56cfa5cb, 0x00df74d5, 0x85567d90, 0x1754a316));
  }

  lemma Round2()
    ensures Steps(BLOCK, 32, INITIAL) == Registers(0xf54d8710, 0xaeb35766, 0x2e69afc7, 0x927b72e2)
  {
    hide Step;
    Round1();
    Steps17To20();
    NextStep(16, Registers(0x1754a316, 0x608d6b7e, 0x00df74d5, 0x85567d90));
    NextStep(17, Registers(0x85567d90, 0x2d8071cc, 0x608d6b7e, 0x00df74d5));
    NextStep(18, Registers(0x00df74d5, 0x5dcee119, 0x2d8071cc, 0x608d6b7e));
    NextStep(19, Registers(0x608d6b7e, 0xedfe7e4b, 0x5dcee119, 0x2d8071cc));
    Steps21To24();
    NextStep(20, Registers(0x2d8071cc, 0x4c2145b3, 0xedfe7e4b, 0x5dcee119));
    NextStep(21, Registers(0x5dcee119, 0x570c43e0, 0x4c2145b3, 0xedfe7e4b));
    NextStep(22, Registers(0xedfe7e4b, 0x977efd2a, 0x570c43e0, 0x4c2145b3));
    NextStep(23, Registers(0x4c2145b3, 0xc28ab49d, 0x977efd2a, 0x570c43e0));
    Steps25To28();
    NextStep(24, Registers(0x570c43e0, 0xc9f162d4, 0xc28ab49d, 0x977efd2a));
    NextStep(25, Registers(0x977efd2a, 0x25bfae3b, 0xc9f162d4, 0xc28ab49d));
    NextStep(26, Registers(0xc28ab49d, 0x89980104, 0x25bfae3b, 0xc9f162d4));
    NextStep(27, Registers(0xc9f162d4, 0xf8c8365f, 0x89980104, 0x25bfae3b));
    Steps29To32();
    NextStep(28, Registers(0x25bfae3b, 0xe6d3b398, 0xf8c8365f, 0x89980104));
    NextStep(29, Registers(0x89980104, 0xf54d8710, 0xe6d3b398, 0xf8c8365f));
    NextStep(30, Registers(0xf8c8365f, 0x927b72e2, 0xf54d8710, 0xe6d3b398));
    NextStep(31, Registers(0xe6d3b398, 0x2e69afc7, 0x927b72e2, 0xf54d8710));
  }

  lemma Round3()
    ensures Steps(BLOCK, 48, INITIAL) == Registers(0xb5d41f9c, 0x71d10367, 0x703d54d8, 0xa04b4904)
  {
    hide Step;
    Round2();
    Steps33To36();
    NextStep(32, Registers(0xf54d8710, 0xaeb35766, 0x2e69afc7, 0x927b72e2));
    NextStep(33, Registers(0x927b72e2, 0xb4bf680e, 0xaeb35766, 0x2e69afc7));
    NextStep(34, Registers(0x2e69afc7, 0x4c8ffa80, 0xb4bf680e, 0xaeb35766));
    NextStep(35, Registers(0xaeb35766, 0x2361ed0a, 0x4c8ffa80, 0xb4bf680e));
    Steps37To40();
    NextStep(36, Registers(0xb4bf680e, 0x06a5e211, 0x2361ed0a, 0x4c8ffa80));
    NextStep(37, Registers(0x4c8ffa80, 0xb9c0c733, 0x06a5e211, 0x2361ed0a));
    NextStep(38, Registers(0x2361ed0a, 0xf1e6dc7a, 0xb9c0c733, 0x06a5e211));
    NextStep(39, Registers(0x06a5e211, 0x23a9451b, 0xf1e6dc7a, 0xb9c0c733));
    Steps41To44();
    NextStep(40, Registers(0xb9c0c733, 0x8d41bf99, 0x23a9451b, 0xf1e6dc7a));
    NextStep(41, Registers(0xf1e6dc7a, 0xa3e88ead, 0x8d41bf99, 0x23a9451b));
    NextStep(42, Registers(0x23a9451b, 0x02c0b11c, 0xa3e88ead, 0x8d41bf99));
    NextStep(43, Registers(0x8d41bf99, 0x66f6468d, 0x02c0b11c, 0xa3e88ead));
    Steps45To48();
    NextStep(44, Registers(0xa3e88ead, 0x90a35af5, 0x66f6468d, 0x02c0b11c));
    NextStep(45, Registers(0x02c0b11c, 0xb5d41f9c, 0x90a35af5, 0x66f6468d));
    NextStep(46, Registers(0x66f6468d, 0xa04b4904, 0xb5d41f9c, 0x90a35af5));
    NextStep(47, Registers(0x90a35af5, 0x703d54d8, 0xa04b4904, 0xb5d41f9c));
  }

  lemma Round4()
    ensures Steps(BLOCK, 64, INITIAL) == Registers(0x708ed9c2, 0x1116e6d8, 0xd38f1e7f, 0x2baf1354)
  {
    hide Step;
    Round3();
    Steps49To52();
    NextStep(48, Registers(0xb5d41f9c, 0x71d10367, 0x703d54d8, 0xa04b4904));
    NextStep(49, Registers(0xa04b4904, 0xfc32dd6e, 0x71d10367, 0x703d54d8));
    NextStep(50, Registers(0x703d54d8, 0x65456b34, 0xfc32dd6e, 0x71d10367));
    NextStep(51, Registers(0x71d10367, 0xb35602cb, 0x65456b34, 0xfc32dd6e));
    Steps53To56();
    NextStep(52, Registers(0xfc32dd6e, 0x33edb197, 0xb35602cb, 0x65456b34));
    NextStep(53, Registers(0x65456b34, 0xc1e942f1, 0x33edb197, 0xb35602cb));
    NextStep(54, Registers(0xb35602cb, 0xd9bb987c, 0xc1e942f1, 0x33edb197));
    NextStep(55, Registers(0x33edb197, 0x23a68048, 0xd9bb987c, 0xc1e942f1));
    Steps57To60();
    NextStep(56, Registers(0xc1e942f1, 0x83877d1b, 0x23a68048, 0xd9bb987c));
    NextStep(57, Registers(0xd9bb987c, 0x0077c208, 0x83877d1b, 0x23a68048));
    NextStep(58, Registers(0x23a68048, 0x847fc2e7, 0x0077c208, 0x83877d1b));
    NextStep(59, Registers(0x83877d1b, 0xa3e2247f, 0x847fc2e7, 0x0077c208));
    Steps61To64();
    NextStep(60, Registers(0x0077c208, 0x5e6bc930, 0xa3e2247f, 0x847fc2e7));
    NextStep(61, Registers(0x847fc2e7, 0x708ed9c2, 0x5e6bc930, 0xa3e2247f));
    NextStep(62, Registers(0xa3e2247f, 0x2baf1354, 0x708ed9c2, 0x5e6bc930));
    NextStep(63, Registers(0x5e6bc930, 0xd38f1e7f, 0x2baf1354, 0x708ed9c2));
  }

  // ---- the digest ----

  lemma {:induction false} WordAt(s: seq<Byte>, k: nat)
    requires |s| % 4 == 0 && 4 * k < |s|
    ensures 4 * k + 3 < |s| && Words(s)[k] == WordOf(s[4 * k], s[4 * k + 1], s[4 * k + 2], s[4 * k + 3])
    decreases k
  {
    hide WordOf;
    if k > 0 {
      WordAt(s[4..], k - 1);
    }
  }

  lemma SmallWord(b: Byte)
    ensures WordBytes(b) == [b, 0, 0, 0]
  {
    WordBytesOf(b, 0, 0, 0);
    hide WordBytes;
  }

  lemma LengthBytes()
    ensures Bytes(BitLength(26)) == [208, 0, 0, 0, 0, 0, 0, 0]
  {
    hide WordBytes;
    assert BitLength(26) == [208, 0];
    SmallWord(208);
    SmallWord(0);
    assert [208, 0][1..] == [0] && [0][1..] == [];
    assert Bytes([0]) == [0, 0, 0, 0] + [];
    assert Bytes([208, 0]) == [208, 0, 0, 0] + Bytes([0]);
  }

  lemma LastEight(message: seq<Byte>)
    ensures var p := Padded(message); |p| >= 8 && p[|p| - 8..] == Bytes(BitLength(|message|))
  {
    hide Bytes, BitLength;
  }

  lemma PaddedLetters()
    ensures var p := Padded(ALPHABET);
            && |p| == 64 && p[..26] == ALPHABET && p[26] == 0x80 && (forall k :: 27 <= k < 56 ==> p[k] == 0)
            && p[56..] == [208, 0, 0, 0, 0, 0, 0, 0]
  {
    PaddedShape(ALPHABET);
    LastEight(ALPHABET);
    LengthBytes();
    hide Padded, Bytes, BitLength, Number;
  }

  /** The words of a block of letters, a one bit, zeros and the length. */
  lemma LetterWord(p: seq<Byte>, k: nat)
    requires |p| == 64 && p[..26] == ALPHABET && p[26] == 0x80 && (forall j :: 27 <= j < 56 ==> p[j] == 0)
    requires p[56..] == [208, 0, 0, 0, 0, 0, 0, 0] && k < 16
    ensures WordOf(p[4 * k], p[4 * k + 1], p[4 * k + 2], p[4 * k + 3]) == BLOCK[k]
  {
    match k
    case 0 => assert p[0] == ALPHABET[0] == 0x61 && p[1] == ALPHABET[1] == 0x62 && p[2] == ALPHABET[2] == 0x63 && p[3] == ALPHABET[3] == 0x64;
    case 1 => assert p[4] == ALPHABET[4] == 0x65 && p[5] == ALPHABET[5] == 0x66 && p[6] == ALPHABET[6] == 0x67 && p[7] == ALPHABET[7] == 0x68;
    case 2 => assert p[8] == ALPHABET[8] == 0x69 && p[9] == ALPHABET[9] == 0x6a && p[10] == ALPHABET[10] == 0x6b && p[11] == ALPHABET[11] == 0x6c;
    case 3 => assert p[12] == ALPHABET[12] == 0x6d && p[13] == ALPHABET[13] == 0x6e && p[14] == ALPHABET[14] == 0x6f && p[15] == ALPHABET[15] == 0x70;
    case 4 => assert p[16] == ALPHABET[16] == 0x71 && p[17] == ALPHABET[17] == 0x72 && p[18] == ALPHABET[18] == 0x73 && p[19] == ALPHABET[19] == 0x74;
    case 5 => assert p[20] == ALPHABET[20] == 0x75 && p[21] == ALPHABET[21] == 0x76 && p[22] == ALPHABET[22] == 0x77 && p[23] == ALPHABET[23] == 0x78;
    case 6 => assert p[24] == ALPHABET[24] == 0x79 && p[25] == ALPHABET[25] == 0x7a;
    case 14 => LastByte(p);
    case 15 => LastByte(p);
    case _ => assert BLOCK[k] == 0;
  }

  lemma LastByte(p: seq<Byte>)
    requires |p| == 64 && p[56..] == [208, 0, 0, 0, 0, 0, 0, 0]
    ensures p[56] == 208 && p[57] == p[58] == p[59] == p[60] == p[61] == p[62] == p[63] == 0
  {
    var q := p[56..];
    assert p[56] == q[0] && p[57] == q[1] && p[58] == q[2] && p[59] == q[3];
    assert p[60] == q[4] && p[61] == q[5] && p[62] == q[6] && p[63] == q[7];
  }

  lemma BlockWords()
    ensures |Padded(ALPHABET)| == 64 && Words(Padded(ALPHABET)) == BLOCK
  {
    var p := Padded(ALPHABET);
    PaddedLetters();
    hide Words, Padded, WordOf;
    forall k | 0 <= k < 16 ensures Words(p)[k] == BLOCK[k] {
      WordAt(p, k);
      LetterWord(p, k);
    }
  }

  /** The digest of the letters is c3fcd3d76192e4007dfb496cca67e13b. */
  lemma AlphabetDigest()
    ensures Digest(ALPHABET)
         == [0xc3, 0xfc, 0xd3, 0xd7, 0x61, 0x92, 0xe4, 0x00,
             0x7d, 0xfb, 0x49, 0x6c, 0xca, 0x67, 0xe1, 0x3b]
  {
    BlockWords();
    Round4();
    hide Steps, Words, WordBytes, Padded;
    var p := Padded(ALPHABET);
    var r := Compress(INITIAL, p);
    assert p[..64] == p && p[64..] == [];
    assert r == Registers(0xd7d3fcc3, 0x00e49261, 0x6c49fb7d, 0x3be167ca);
    assert Fold(INITIAL, p) == Fold(r, []) == r;
    WordBytesOf(0xc3, 0xfc, 0xd3, 0xd7);
    WordBytesOf(0x61, 0x92, 0xe4, 0x00);
    WordBytesOf(0x7d, 0xfb, 0x49, 0x6c);
    WordBytesOf(0xca, 0x67, 0xe1, 0x3b);
    BytesOfFour(r.a, r.b, r.c, r.d);
  }
}
