/**
 The published digest of the empty message, worked out on the reference word by word and round by round.
 It pins the round constants, the initial value, the rotations and the order of the bytes.
 */
module Sha256Empty {
  import opened Arith
  import opened BitWords
  import opened Sha256
  import opened Sha256Bits

  // ---------- the empty message ----------

  /** Its one padded block. */
  function Block0(): (b: seq<nat>)
    ensures |b| == 64
  {
    [0x80] + seq<nat>(63, i => 0)
  }

  // ---------- the schedule, eight words at a time ----------

  ghost predicate Row0(b: seq<nat>) {
    && |b| == 64 && W(b, 0) == 0x80000000 && W(b, 1) == 0x00000000 && W(b, 2) == 0x00000000 && W(b, 3) == 0x00000000
    && W(b, 4) == 0x00000000 && W(b, 5) == 0x00000000 && W(b, 6) == 0x00000000 && W(b, 7) == 0x00000000
  }

  ghost predicate Row1(b: seq<nat>) {
    && |b| == 64 && W(b, 8) == 0x00000000 && W(b, 9) == 0x00000000 && W(b, 10) == 0x00000000 && W(b, 11) == 0x00000000
    && W(b, 12) == 0x00000000 && W(b, 13) == 0x00000000 && W(b, 14) == 0x00000000 && W(b, 15) == 0x00000000
  }

  ghost predicate Row2(b: seq<nat>) {
    && |b| == 64 && W(b, 16) == 0x80000000 && W(b, 17) == 0x00000000 && W(b, 18) == 0x00205000 && W(b, 19) == 0x00000000
    && W(b, 20) == 0x22000800 && W(b, 21) == 0x00000000 && W(b, 22) == 0x05089542 && W(b, 23) == 0x80000000
  }

  ghost predicate Row3(b: seq<nat>) {
    && |b| == 64 && W(b, 24) == 0x58080000 && W(b, 25) == 0x0040a000 && W(b, 26) == 0x00162505 && W(b, 27) == 0x66001800
    && W(b, 28) == 0xd6222580 && W(b, 29) == 0x14225508 && W(b, 30) == 0xd645f95c && W(b, 31) == 0xc9282000
  }

  ghost predicate Row4(b: seq<nat>) {
    && |b| == 64 && W(b, 32) == 0xc3f10094 && W(b, 33) == 0x284ca766 && W(b, 34) == 0x06886dc6 && W(b, 35) == 0xa37bf116
    && W(b, 36) == 0x717cbe96 && W(b, 37) == 0xfec2d74a && W(b, 38) == 0xa7b67f00 && W(b, 39) == 0x811596a2
  }

  ghost predicate Row5(b: seq<nat>) {
    && |b| == 64 && W(b, 40) == 0x98a6e768 && W(b, 41) == 0x03b20c82 && W(b, 42) == 0x5d1da7c9 && W(b, 43) == 0xb156b935
    && W(b, 44) == 0xc3ddca11 && W(b, 45) == 0x249c107f && W(b, 46) == 0xc48d24ef && W(b, 47) == 0x5de54c30
  }

  ghost predicate Row6(b: seq<nat>) {
    && |b| == 64 && W(b, 48) == 0xdefece65 && W(b, 49) == 0x2ca1480d && W(b, 50) == 0x3c15332c && W(b, 51) == 0x01cec9ad
    && W(b, 52) == 0x160cccd0 && W(b, 53) == 0x0bacda98 && W(b, 54) == 0x361b8fe0 && W(b, 55) == 0xd2320ba6
  }

  ghost predicate Row7(b: seq<nat>) {
    && |b| == 64 && W(b, 56) == 0x029b7007 && W(b, 57) == 0x7546587c && W(b, 58) == 0x07f54f39 && W(b, 59) == 0xf808ddc3
    && W(b, 60) == 0xdcca7608 && W(b, 61) == 0x5e427188 && W(b, 62) == 0x44bcec5d && W(b, 63) == 0x3b5ec49b
  }

  lemma FirstWords(b: seq<nat>, t: nat)
    requires b == Block0() && t < 16
    ensures W(b, t) == if t == 0 then 0x8000_0000 else 0
  {
  }

  lemma FirstRows(b: seq<nat>)
    requires b == Block0()
    ensures Row0(b) && Row1(b)
  {
    hide W;
    forall t: nat | t < 16
      ensures W(b, t) == if t == 0 then 0x8000_0000 else 0
    {
      FirstWords(b, t);
    }
  }

  lemma Words2(b: seq<nat>)
    requires Row0(b) && Row1(b)
    ensures Row2(b)
  {
    hide W;
    WordFrom(b, 16, 0x00000000, 0x00000000, 0x00000000, 0x80000000, 0x80000000);
    WordFrom(b, 17, 0x00000000, 0x00000000, 0x00000000, 0x00000000, 0x00000000);
    WordFrom(b, 18, 0x80000000, 0x00000000, 0x00000000, 0x00000000, 0x00205000);
    WordFrom(b, 19, 0x00000000, 0x00000000, 0x00000000, 0x00000000, 0x00000000);
    WordFrom(b, 20, 0x00205000, 0x00000000, 0x00000000, 0x00000000, 0x22000800);
    WordFrom(b, 21, 0x00000000, 0x00000000, 0x00000000, 0x00000000, 0x00000000);
    WordFrom(b, 22, 0x22000800, 0x00000000, 0x00000000, 0x00000000, 0x05089542);
    WordFrom(b, 23, 0x00000000, 0x80000000, 0x00000000, 0x00000000, 0x80000000);
  }

  lemma Words3(b: seq<nat>)
    requires Row1(b) && Row2(b)
    ensures Row3(b)
  {
    hide W;
    WordFrom(b, 24, 0x05089542, 0x00000000, 0x00000000, 0x00000000, 0x58080000);
    WordFrom(b, 25, 0x80000000, 0x00205000, 0x00000000, 0x00000000, 0x0040a000);
    WordFrom(b, 26, 0x58080000, 0x00000000, 0x00000000, 0x00000000, 0x00162505);
    WordFrom(b, 27, 0x0040a000, 0x22000800, 0x00000000, 0x00000000, 0x66001800);
    WordFrom(b, 28, 0x00162505, 0x00000000, 0x00000000, 0x00000000, 0xd6222580);
    WordFrom(b, 29, 0x66001800, 0x05089542, 0x00000000, 0x00000000, 0x14225508);
    WordFrom(b, 30, 0xd6222580, 0x80000000, 0x00000000, 0x00000000, 0xd645f95c);
    WordFrom(b, 31, 0x14225508, 0x58080000, 0x80000000, 0x00000000, 0xc9282000);
  }

  lemma Words4(b: seq<nat>)
    requires Row2(b) && Row3(b)
    ensures Row4(b)
  {
    hide W;
    WordFrom(b, 32, 0xd645f95c, 0x0040a000, 0x00000000, 0x80000000, 0xc3f10094);
    WordFrom(b, 33, 0xc9282000, 0x00162505, 0x00205000, 0x00000000, 0x284ca766);
    WordFrom(b, 34, 0xc3f10094, 0x66001800, 0x00000000, 0x00205000, 0x06886dc6);
    WordFrom(b, 35, 0x284ca766, 0xd6222580, 0x22000800, 0x00000000, 0xa37bf116);
    WordFrom(b, 36, 0x06886dc6, 0x14225508, 0x00000000, 0x22000800, 0x717cbe96);
    WordFrom(b, 37, 0xa37bf116, 0xd645f95c, 0x05089542, 0x00000000, 0xfec2d74a);
    WordFrom(b, 38, 0x717cbe96, 0xc9282000, 0x80000000, 0x05089542, 0xa7b67f00);
    WordFrom(b, 39, 0xfec2d74a, 0xc3f10094, 0x58080000, 0x80000000, 0x811596a2);
  }

  lemma Words5(b: seq<nat>)
    requires Row3(b) && Row4(b)
    ensures Row5(b)
  {
    hide W;
    WordFrom(b, 40, 0xa7b67f00, 0x284ca766, 0x0040a000, 0x58080000, 0x98a6e768);
    WordFrom(b, 41, 0x811596a2, 0x06886dc6, 0x00162505, 0x0040a000, 0x03b20c82);
    WordFrom(b, 42, 0x98a6e768, 0xa37bf116, 0x66001800, 0x00162505, 0x5d1da7c9);
    WordFrom(b, 43, 0x03b20c82, 0x717cbe96, 0xd6222580, 0x66001800, 0xb156b935);
    WordFrom(b, 44, 0x5d1da7c9, 0xfec2d74a, 0x14225508, 0xd6222580, 0xc3ddca11);
    WordFrom(b, 45, 0xb156b935, 0xa7b67f00, 0xd645f95c, 0x14225508, 0x249c107f);
    WordFrom(b, 46, 0xc3ddca11, 0x811596a2, 0xc9282000, 0xd645f95c, 0xc48d24ef);
    WordFrom(b, 47, 0x249c107f, 0x98a6e768, 0xc3f10094, 0xc9282000, 0x5de54c30);
  }

  lemma Words6(b: seq<nat>)
    requires Row4(b) && Row5(b)
    ensures Row6(b)
  {
    hide W;
    WordFrom(b, 48, 0xc48d24ef, 0x03b20c82, 0x284ca766, 0xc3f10094, 0xdefece65);
    WordFrom(b, 49, 0x5de54c30, 0x5d1da7c9, 0x06886dc6, 0x284ca766, 0x2ca1480d);
    WordFrom(b, 50, 0xdefece65, 0xb156b935, 0xa37bf116, 0x06886dc6, 0x3c15332c);
    WordFrom(b, 51, 0x2ca1480d, 0xc3ddca11, 0x717cbe96, 0xa37bf116, 0x01cec9ad);
    WordFrom(b, 52, 0x3c15332c, 0x249c107f, 0xfec2d74a, 0x717cbe96, 0x160cccd0);
    WordFrom(b, 53, 0x01cec9ad, 0xc48d24ef, 0xa7b67f00, 0xfec2d74a, 0x0bacda98);
    WordFrom(b, 54, 0x160cccd0, 0x5de54c30, 0x811596a2, 0xa7b67f00, 0x361b8fe0);
    WordFrom(b, 55, 0x0bacda98, 0xdefece65, 0x98a6e768, 0x811596a2, 0xd2320ba6);
  }

  lemma Words7(b: seq<nat>)
    requires Row5(b) && Row6(b)
    ensures Row7(b)
  {
    hide W;
    WordFrom(b, 56, 0x361b8fe0, 0x2ca1480d, 0x03b20c82, 0x98a6e768, 0x029b7007);
    WordFrom(b, 57, 0xd2320ba6, 0x3c15332c, 0x5d1da7c9, 0x03b20c82, 0x7546587c);
    WordFrom(b, 58, 0x029b7007, 0x01cec9ad, 0xb156b935, 0x5d1da7c9, 0x07f54f39);
    WordFrom(b, 59, 0x7546587c, 0x160cccd0, 0xc3ddca11, 0xb156b935, 0xf808ddc3);
    WordFrom(b, 60, 0x07f54f39, 0x0bacda98, 0x249c107f, 0xc3ddca11, 0xdcca7608);
    WordFrom(b, 61, 0xf808ddc3, 0x361b8fe0, 0xc48d24ef, 0x249c107f, 0x5e427188);
    WordFrom(b, 62, 0xdcca7608, 0xd2320ba6, 0x5de54c30, 0xc48d24ef, 0x44bcec5d);
    WordFrom(b, 63, 0x5e427188, 0x029b7007, 0xdefece65, 0x5de54c30, 0x3b5ec49b);
  }

  // ---------- the rounds ----------

  /** The working variables before each round. */
  const S0 := Vars(0x6a09e667, 0xbb67ae85, 0x3c6ef372, 0xa54ff53a, 0x510e527f, 0x9b05688c, 0x1f83d9ab, 0x5be0cd19)
  const S1 := Vars(0x7c08884d, 0x6a09e667, 0xbb67ae85, 0x3c6ef372, 0x18c7e2a2, 0x510e527f, 0x9b05688c, 0x1f83d9ab)
  const S2 := Vars(0x9ce564d0, 0x7c08884d, 0x6a09e667, 0xbb67ae85, 0x2001b256, 0x18c7e2a2, 0x510e527f, 0x9b05688c)
  const S3 := Vars(0xc4ac5526, 0x9ce564d0, 0x7c08884d, 0x6a09e667, 0x6fdb22fa, 0x2001b256, 0x18c7e2a2, 0x510e527f)
  const S4 := Vars(0x4c23eacb, 0xc4ac5526, 0x9ce564d0, 0x7c08884d, 0x3037e1b5, 0x6fdb22fa, 0x2001b256, 0x18c7e2a2)
  const S5 := Vars(0x4366f730, 0x4c23eacb, 0xc4ac5526, 0x9ce564d0, 0xe7d0641e, 0x3037e1b5, 0x6fdb22fa, 0x2001b256)
  const S6 := Vars(0x292e3b42, 0x4366f730, 0x4c23eacb, 0xc4ac5526, 0x4f6540fa, 0xe7d0641e, 0x3037e1b5, 0x6fdb22fa)
  const S7 := Vars(0xf0205590, 0x292e3b42, 0x4366f730, 0x4c23eacb, 0x82ede06f, 0x4f6540fa, 0xe7d0641e, 0x3037e1b5)
  const S8 := Vars(0x7ad5b1b6, 0xf0205590, 0x292e3b42, 0x4366f730, 0x53f94dcb, 0x82ede06f, 0x4f6540fa, 0xe7d0641e)
  const S9 := Vars(0xf52d63a5, 0x7ad5b1b6, 0xf0205590, 0x292e3b42, 0x7aafc618, 0x53f94dcb, 0x82ede06f, 0x4f6540fa)
  const S10 := Vars(0xefe8bf51, 0xf52d63a5, 0x7ad5b1b6, 0xf0205590, 0x53072289, 0x7aafc618, 0x53f94dcb, 0x82ede06f)
  const S11 := Vars(0x158bb921, 0xefe8bf51, 0xf52d63a5, 0x7ad5b1b6, 0xe23643ce, 0x53072289, 0x7aafc618, 0x53f94dcb)
  const S12 := Vars(0xf5434c40, 0x158bb921, 0xefe8bf51, 0xf52d63a5, 0xd7e07c92, 0xe23643ce, 0x53072289, 0x7aafc618)
  const S13 := Vars(0x2102d2cd, 0xf5434c40, 0x158bb921, 0xefe8bf51, 0xcdfdfe52, 0xd7e07c92, 0xe23643ce, 0x53072289)
  const S14 := Vars(0x45c013a7, 0x2102d2cd, 0xf5434c40, 0x158bb921, 0x2b427296, 0xcdfdfe52, 0xd7e07c92, 0xe23643ce)
  const S15 := Vars(0xb88afddb, 0x45c013a7, 0x2102d2cd, 0xf5434c40, 0x1ccfac39, 0x2b427296, 0xcdfdfe52, 0xd7e07c92)
  const S16 := Vars(0xb40085b5, 0xb88afddb, 0x45c013a7, 0x2102d2cd, 0x5cb8e863, 0x1ccfac39, 0x2b427296, 0xcdfdfe52)
  const S17 := Vars(0x470d554a, 0xb40085b5, 0xb88afddb, 0x45c013a7, 0x70d43aa7, 0x5cb8e863, 0x1ccfac39, 0x2b427296)
  const S18 := Vars(0xdd999a2b, 0x470d554a, 0xb40085b5, 0xb88afddb, 0x608c93d3, 0x70d43aa7, 0x5cb8e863, 0x1ccfac39)
  const S19 := Vars(0x3067996a, 0xdd999a2b, 0x470d554a, 0xb40085b5, 0xd398dcea, 0x608c93d3, 0x70d43aa7, 0x5cb8e863)
  const S20 := Vars(0x0a480908, 0x3067996a, 0xdd999a2b, 0x470d554a, 0x900d27ac, 0xd398dcea, 0x608c93d3, 0x70d43aa7)
  const S21 := Vars(0x75c7f0d8, 0x0a480908, 0x3067996a, 0xdd999a2b, 0x39953ccd, 0x900d27ac, 0xd398dcea, 0x608c93d3)
  const S22 := Vars(0x99a6cb19, 0x75c7f0d8, 0x0a480908, 0x3067996a, 0xc287981e, 0x39953ccd, 0x900d27ac, 0xd398dcea)
  const S23 := Vars(0x404d8054, 0x99a6cb19, 0x75c7f0d8, 0x0a480908, 0xb1653710, 0xc287981e, 0x39953ccd, 0x900d27ac)
  const S24 := Vars(0x985bed55, 0x404d8054, 0x99a6cb19, 0x75c7f0d8, 0x2c2c028d, 0xb1653710, 0xc287981e, 0x39953ccd)
  const S25 := Vars(0x7af6d48d, 0x985bed55, 0x404d8054, 0x99a6cb19, 0xf55f8c25, 0x2c2c028d, 0xb1653710, 0xc287981e)
  const S26 := Vars(0xc5b814ae, 0x7af6d48d, 0x985bed55, 0x404d8054, 0xe57ac3f4, 0xf55f8c25, 0x2c2c028d, 0xb1653710)
  const S27 := Vars(0x2c8b2ab9, 0xc5b814ae, 0x7af6d48d, 0x985bed55, 0x9f934283, 0xe57ac3f4, 0xf55f8c25, 0x2c2c028d)
  const S28 := Vars(0x6d8cc697, 0x2c8b2ab9, 0xc5b814ae, 0x7af6d48d, 0x66ed54fa, 0x9f934283, 0xe57ac3f4, 0xf55f8c25)
  const S29 := Vars(0x64bc9e1c, 0x6d8cc697, 0x2c8b2ab9, 0xc5b814ae, 0x95696b75, 0x66ed54fa, 0x9f934283, 0xe57ac3f4)
  const S30 := Vars(0x72d3a00d, 0x64bc9e1c, 0x6d8cc697, 0x2c8b2ab9, 0xb04ab22d, 0x95696b75, 0x66ed54fa, 0x9f934283)
  const S31 := Vars(0xa0bb0cdf, 0x72d3a00d, 0x64bc9e1c, 0x6d8cc697, 0x564a6626, 0xb04ab22d, 0x95696b75, 0x66ed54fa)
  const S32 := Vars(0x11e7025f, 0xa0bb0cdf, 0x72d3a00d, 0x64bc9e1c, 0xbbd7846c, 0x564a6626, 0xb04ab22d, 0x95696b75)
  const S33 := Vars(0xe390f3b6, 0x11e7025f, 0xa0bb0cdf, 0x72d3a00d, 0xccd25d8b, 0xbbd7846c, 0x564a6626, 0xb04ab22d)
  const S34 := Vars(0xa141b695, 0xe390f3b6, 0x11e7025f, 0xa0bb0cdf, 0x0bc457df, 0xccd25d8b, 0xbbd7846c, 0x564a6626)
  const S35 := Vars(0x44a181a7, 0xa141b695, 0xe390f3b6, 0x11e7025f, 0x6973aac2, 0x0bc457df, 0xccd25d8b, 0xbbd7846c)
  const S36 := Vars(0x641fe878, 0x44a181a7, 0xa141b695, 0xe390f3b6, 0x3a705ea9, 0x6973aac2, 0x0bc457df, 0xccd25d8b)
  const S37 := Vars(0xa096535d, 0x641fe878, 0x44a181a7, 0xa141b695, 0xfac06aed, 0x3a705ea9, 0x6973aac2, 0x0bc457df)
  const S38 := Vars(0x56e3dc4e, 0xa096535d, 0x641fe878, 0x44a181a7, 0xe807ea7f, 0xfac06aed, 0x3a705ea9, 0x6973aac2)
  const S39 := Vars(0x9e58e42f, 0x56e3dc4e, 0xa096535d, 0x641fe878, 0x85a71424, 0xe807ea7f, 0xfac06aed, 0x3a705ea9)
  const S40 := Vars(0x499911b1, 0x9e58e42f, 0x56e3dc4e, 0xa096535d, 0x716bb025, 0x85a71424, 0xe807ea7f, 0xfac06aed)
  const S41 := Vars(0xfe86c833, 0x499911b1, 0x9e58e42f, 0x56e3dc4e, 0x849879df, 0x716bb025, 0x85a71424, 0xe807ea7f)
  const S42 := Vars(0x2298f88e, 0xfe86c833, 0x499911b1, 0x9e58e42f, 0xf5c58ae9, 0x849879df, 0x716bb025, 0x85a71424)
  const S43 := Vars(0xdbb545ab, 0x2298f88e, 0xfe86c833, 0x499911b1, 0xe0403eb9, 0xf5c58ae9, 0x849879df, 0x716bb025)
  const S44 := Vars(0xe8e34752, 0xdbb545ab, 0x2298f88e, 0xfe86c833, 0x29426caa, 0xe0403eb9, 0xf5c58ae9, 0x849879df)
  const S45 := Vars(0xa40972d4, 0xe8e34752, 0xdbb545ab, 0x2298f88e, 0xaa2c1810, 0x29426caa, 0xe0403eb9, 0xf5c58ae9)
  const S46 := Vars(0x32fa442b, 0xa40972d4, 0xe8e34752, 0xdbb545ab, 0xd285c679, 0xaa2c1810, 0x29426caa, 0xe0403eb9)
  const S47 := Vars(0x54982d6c, 0x32fa442b, 0xa40972d4, 0xe8e34752, 0x8a6a82b2, 0xd285c679, 0xaa2c1810, 0x29426caa)
  const S48 := Vars(0x365a34cd, 0x54982d6c, 0x32fa442b, 0xa40972d4, 0xcbb3f8eb, 0x8a6a82b2, 0xd285c679, 0xaa2c1810)
  const S49 := Vars(0x62a82a5e, 0x365a34cd, 0x54982d6c, 0x32fa442b, 0x4cab6d8a, 0xcbb3f8eb, 0x8a6a82b2, 0xd285c679)
  const S50 := Vars(0x9798f5ed, 0x62a82a5e, 0x365a34cd, 0x54982d6c, 0xe90aa770, 0x4cab6d8a, 0xcbb3f8eb, 0x8a6a82b2)
  const S51 := Vars(0xc163cb21, 0x9798f5ed, 0x62a82a5e, 0x365a34cd, 0x36068bde, 0xe90aa770, 0x4cab6d8a, 0xcbb3f8eb)
  const S52 := Vars(0xd55e06c2, 0xc163cb21, 0x9798f5ed, 0x62a82a5e, 0xa194d14f, 0x36068bde, 0xe90aa770, 0x4cab6d8a)
  const S53 := Vars(0xb1b29c90, 0xd55e06c2, 0xc163cb21, 0x9798f5ed, 0x43a5def8, 0xa194d14f, 0x36068bde, 0xe90aa770)
  const S54 := Vars(0x3a0e9477, 0xb1b29c90, 0xd55e06c2, 0xc163cb21, 0xfd99936e, 0x43a5def8, 0xa194d14f, 0x36068bde)
  const S55 := Vars(0x2caf58ca, 0x3a0e9477, 0xb1b29c90, 0xd55e06c2, 0xe588e598, 0xfd99936e, 0x43a5def8, 0xa194d14f)
  const S56 := Vars(0x01638014, 0x2caf58ca, 0x3a0e9477, 0xb1b29c90, 0xadf94e0a, 0xe588e598, 0xfd99936e, 0x43a5def8)
  const S57 := Vars(0x7ec75212, 0x01638014, 0x2caf58ca, 0x3a0e9477, 0x7951a330, 0xadf94e0a, 0xe588e598, 0xfd99936e)
  const S58 := Vars(0xe7ec45bc, 0x7ec75212, 0x01638014, 0x2caf58ca, 0xe2a91edc, 0x7951a330, 0xadf94e0a, 0xe588e598)
  const S59 := Vars(0xe923abc6, 0xe7ec45bc, 0x7ec75212, 0x01638014, 0x08e0e6ea, 0xe2a91edc, 0x7951a330, 0xadf94e0a)
  const S60 := Vars(0x04441c0e, 0xe923abc6, 0xe7ec45bc, 0x7ec75212, 0xaaefa044, 0x08e0e6ea, 0xe2a91edc, 0x7951a330)
  const S61 := Vars(0xf41fc3ea, 0x04441c0e, 0xe923abc6, 0xe7ec45bc, 0x1c71eb3c, 0xaaefa044, 0x08e0e6ea, 0xe2a91edc)
  const S62 := Vars(0x5e8d0156, 0xf41fc3ea, 0x04441c0e, 0xe923abc6, 0x8511bf70, 0x1c71eb3c, 0xaaefa044, 0x08e0e6ea)
  const S63 := Vars(0xdd946d8f, 0x5e8d0156, 0xf41fc3ea, 0x04441c0e, 0xc9962ac0, 0x8511bf70, 0x1c71eb3c, 0xaaefa044)
  const S64 := Vars(0x79a6dddb, 0xdd946d8f, 0x5e8d0156, 0xf41fc3ea, 0xd69fef65, 0xc9962ac0, 0x8511bf70, 0x1c71eb3c)

  lemma Round0(b: seq<nat>)
    requires At(b, 0, S0) && W(b, 0) == 0x80000000 && K[0] == 0x428a2f98
    ensures At(b, 1, S1)
  {
    hide W, At, K;
    Next(b, 0, S0, 0x428a2f98, 0x80000000, Values(0x3587272b, 0x1f85c98c, 0xce20b47e, 0x3a6fe667), 0x7c08884d, 0x18c7e2a2);
  }

  lemma Round1(b: seq<nat>)
    requires At(b, 1, S1) && W(b, 1) == 0x00000000 && K[1] == 0x71374491
    ensures At(b, 2, S2)
  {
    hide W, At, K;
    Next(b, 1, S1, 0x71374491, 0x00000000, Values(0xbfd1567a, 0x93064a2e, 0x3f48f7a7, 0x7a09ae45), 0x9ce564d0, 0x2001b256);
  }

  lemma Round2(b: seq<nat>)
    requires At(b, 2, S2) && W(b, 2) == 0x00000000 && K[2] == 0xb5c0fbcf
    ensures At(b, 3, S3)
  {
    hide W, At, K;
    Next(b, 2, S2, 0xb5c0fbcf, 0x00000000, Values(0x129d2def, 0x510fe22b, 0x942efc6c, 0x7c09e445), 0xc4ac5526, 0x6fdb22fa);
  }

  lemma Round3(b: seq<nat>)
    requires At(b, 3, S3) && W(b, 3) == 0x00000000 && K[3] == 0xe9b5dba5
    ensures At(b, 4, S4)
  {
    hide W, At, K;
    Next(b, 3, S3, 0xe9b5dba5, 0x00000000, Values(0x5b63ead8, 0x3005e252, 0xa949ab39, 0xdcac4444), 0x4c23eacb, 0x3037e1b5);
  }

  lemma Round4(b: seq<nat>)
    requires At(b, 4, S4) && W(b, 4) == 0x00000000 && K[4] == 0x3956c25b
    ensures At(b, 5, S5)
  {
    hide W, At, K;
    Next(b, 4, S4, 0x3956c25b, 0x00000000, Values(0xf99603e2, 0x201332f2, 0x0af9b69d, 0xcca564c2), 0x4366f730, 0xe7d0641e);
  }

  lemma Round5(b: seq<nat>)
    requires At(b, 5, S5) && W(b, 5) == 0x00000000 && K[5] == 0x59f111f1
    ensures At(b, 6, S6)
  {
    hide W, At, K;
    Next(b, 5, S5, 0x59f111f1, 0x00000000, Values(0x1071b4ef, 0x281b62f4, 0x328767f6, 0x4426f722), 0x292e3b42, 0x4f6540fa);
  }

  lemma Round6(b: seq<nat>)
    requires At(b, 6, S6) && W(b, 6) == 0x00000000 && K[6] == 0x923f82a4
    ensures At(b, 7, S7)
  {
    hide W, At, K;
    Next(b, 6, S6, 0x923f82a4, 0x00000000, Values(0x44d4048c, 0x7752e11f, 0xe8b7cf05, 0x4926fb42), 0xf0205590, 0x82ede06f);
  }

  lemma Round7(b: seq<nat>)
    requires At(b, 7, S7) && W(b, 7) == 0x00000000 && K[7] == 0xab1c5ed5
    ensures At(b, 8, S8)
  {
    hide W, At, K;
    Next(b, 7, S7, 0xab1c5ed5, 0x00000000, Values(0xc50bddfc, 0x6775447a, 0x11d9d7a6, 0x61267710), 0x7ad5b1b6, 0x53f94dcb);
  }

  lemma Round8(b: seq<nat>)
    requires At(b, 8, S8) && W(b, 8) == 0x00000000 && K[8] == 0xd807aa98
    ensures At(b, 9, S9)
  {
    hide W, At, K;
    Next(b, 8, S8, 0xd807aa98, 0x00000000, Values(0x68837fb7, 0x0eed407b, 0x45c0632b, 0x78243192), 0xf52d63a5, 0x7aafc618);
  }

  lemma Round9(b: seq<nat>)
    requires At(b, 9, S9) && W(b, 9) == 0x00000000 && K[9] == 0x12835b01
    ensures At(b, 10, S10)
  {
    hide W, At, K;
    Next(b, 9, S9, 0x12835b01, 0x00000000, Values(0xf506e6dd, 0xd2e9646f, 0xd5ea6656, 0xf02571b4), 0xefe8bf51, 0x53072289);
  }

  lemma Round10(b: seq<nat>)
    requires At(b, 10, S10) && W(b, 10) == 0x00000000 && K[10] == 0x243185be
    ensures At(b, 11, S11)
  {
    hide W, At, K;
    Next(b, 10, S10, 0x243185be, 0x00000000, Values(0xf7f738c7, 0x52ff4f4a, 0x2388172e, 0xffedb3b5), 0x158bb921, 0xe23643ce);
  }

  lemma Round11(b: seq<nat>)
    requires At(b, 11, S11) && W(b, 11) == 0x00000000 && K[11] == 0x550c7dc3
    ensures At(b, 12, S12)
  {
    hide W, At, K;
    Next(b, 11, S11, 0x550c7dc3, 0x00000000, Values(0x597578b6, 0x5a8f8698, 0xa28ec643, 0xf5a9bb21), 0xf5434c40, 0xd7e07c92);
  }

  lemma Round12(b: seq<nat>)
    requires At(b, 12, S12) && W(b, 12) == 0x00000000 && K[12] == 0x72be5d74
    ensures At(b, 13, S13)
  {
    hide W, At, K;
    Next(b, 12, S12, 0x72be5d74, 0x00000000, Values(0x293b3496, 0xc227428b, 0x52667adf, 0xf5cbbd41), 0x2102d2cd, 0xcdfdfe52);
  }

  lemma Round13(b: seq<nat>)
    requires At(b, 13, S13) && W(b, 13) == 0x00000000 && K[13] == 0x80deb1fe
    ensures At(b, 14, S14)
  {
    hide W, At, K;
    Next(b, 13, S13, 0x80deb1fe, 0x00000000, Values(0x7f916120, 0xe7e27d9e, 0xd5628821, 0x3503d841), 0x45c013a7, 0x2b427296);
  }

  lemma Round14(b: seq<nat>)
    requires At(b, 14, S14) && W(b, 14) == 0x00000000 && K[14] == 0x9bdc06a7
    ensures At(b, 15, S15)
  {
    hide W, At, K;
    Next(b, 14, S14, 0x9bdc06a7, 0x00000000, Values(0xab512a91, 0xdde07e12, 0x4c04b7fe, 0x654252c5), 0xb88afddb, 0x1ccfac39);
  }

  lemma Round15(b: seq<nat>)
    requires At(b, 15, S15) && W(b, 15) == 0x00000000 && K[15] == 0xc19bf174
    ensures At(b, 16, S16)
  {
    hide W, At, K;
    Next(b, 15, S15, 0xc19bf174, 0x00000000, Values(0x0486bbcb, 0xc9727252, 0x2b0815c3, 0x2182d3cf), 0xb40085b5, 0x5cb8e863);
  }

  lemma Round16(b: seq<nat>)
    requires At(b, 16, S16) && W(b, 16) == 0x80000000 && K[16] == 0xe49b69c1
    ensures At(b, 17, S17)
  {
    hide W, At, K;
    Next(b, 16, S16, 0xe49b69c1, 0x80000000, Values(0xdd6d4512, 0x3fcabab5, 0x42bb57b9, 0xb48095b7), 0x470d554a, 0x70d43aa7);
  }

  lemma Round17(b: seq<nat>)
    requires At(b, 17, S17) && W(b, 17) == 0x00000000 && K[17] == 0xefbe4786
    ensures At(b, 18, S18)
  {
    hide W, At, K;
    Next(b, 17, S17, 0xefbe4786, 0x00000000, Values(0xa33019d5, 0x5c9bac3b, 0x0ec44424, 0xb408d5db), 0xdd999a2b, 0x608c93d3);
  }

  lemma Round18(b: seq<nat>)
    requires At(b, 18, S18) && W(b, 18) == 0x00205000 && K[18] == 0x0fc19dc6
    ensures At(b, 19, S19)
  {
    hide W, At, K;
    Next(b, 18, S18, 0x0fc19dc6, 0x00205000, Values(0x71a7ca6d, 0x7cb47aa3, 0x40502530, 0xd509952b), 0x3067996a, 0xd398dcea);
  }

  lemma Round19(b: seq<nat>)
    requires At(b, 19, S19) && W(b, 19) == 0x00000000 && K[19] == 0x240ca1cc
    ensures At(b, 20, S20)
  {
    hide W, At, K;
    Next(b, 19, S19, 0x240ca1cc, 0x00000000, Values(0xfa7a6501, 0x60ccb2c7, 0xd92dcda7, 0x550d996a), 0x0a480908, 0x900d27ac);
  }

  lemma Round20(b: seq<nat>)
    requires At(b, 20, S20) && W(b, 20) == 0x22000800 && K[20] == 0x2de92c6f
    ensures At(b, 21, S21)
  {
    hide W, At, K;
    Next(b, 20, S20, 0x2de92c6f, 0x22000800, Values(0x4141e372, 0xf08894fb, 0x6af6702b, 0x1849992a), 0x75c7f0d8, 0x39953ccd);
  }

  lemma Round21(b: seq<nat>)
    requires At(b, 21, S21) && W(b, 21) == 0x00000000 && K[21] == 0x4a7484aa
    ensures At(b, 22, S22)
  {
    hide W, At, K;
    Next(b, 21, S21, 0x4a7484aa, 0x00000000, Values(0x67df00c8, 0xd20de4ae, 0x847133de, 0x30479948), 0x99a6cb19, 0xc287981e);
  }

  lemma Round22(b: seq<nat>)
    requires At(b, 22, S22) && W(b, 22) == 0x05089542 && K[22] == 0x5cb0a9dc
    ensures At(b, 23, S23)
  {
    hide W, At, K;
    Next(b, 22, S22, 0x5cb0a9dc, 0x05089542, Values(0x3b1e41f2, 0x108d3fac, 0xa5891996, 0x19c6c918), 0x404d8054, 0xb1653710);
  }

  lemma Round23(b: seq<nat>)
    requires At(b, 23, S23) && W(b, 23) == 0x80000000 && K[23] == 0x76f988da
    ensures At(b, 24, S24)
  {
    hide W, At, K;
    Next(b, 23, S23, 0x76f988da, 0x80000000, Values(0x12483022, 0x889518dd, 0x24b03378, 0x51c7c058), 0x985bed55, 0x2c2c028d);
  }

  lemma Round24(b: seq<nat>)
    requires At(b, 24, S24) && W(b, 24) == 0x58080000 && K[24] == 0x983e5152
    ensures At(b, 25, S25)
  {
    hide W, At, K;
    Next(b, 24, S24, 0x983e5152, 0x58080000, Values(0x7314731c, 0xe2a79a12, 0x630f6feb, 0x984fc955), 0x7af6d48d, 0xf55f8c25);
  }

  lemma Round25(b: seq<nat>)
    requires At(b, 25, S25) && W(b, 25) == 0x0040a000 && K[25] == 0xa831c66d
    ensures At(b, 26, S26)
  {
    hide W, At, K;
    Next(b, 25, S25, 0xa831c66d, 0x0040a000, Values(0xbcadc73b, 0x242c3315, 0x2184577e, 0x585fc455), 0xc5b814ae, 0xe57ac3f4);
  }

  lemma Round26(b: seq<nat>)
    requires At(b, 26, S26) && W(b, 26) == 0x00162505 && K[26] == 0xb00327c8
    ensures At(b, 27, S27)
  {
    hide W, At, K;
    Next(b, 26, S26, 0xb00327c8, 0x00162505, Values(0x1068be25, 0xed5e802d, 0xf44a93fd, 0xd8fad48d), 0x2c8b2ab9, 0x9f934283);
  }

  lemma Round27(b: seq<nat>)
    requires At(b, 27, S27) && W(b, 27) == 0x66001800 && K[27] == 0xbf597fc7
    ensures At(b, 28, S28)
  {
    hide W, At, K;
    Next(b, 27, S27, 0xbf597fc7, 0x66001800, Values(0x97acfead, 0xe55ecea4, 0x32414a45, 0x6cba14ad), 0x6d8cc697, 0x66ed54fa);
  }

  lemma Round28(b: seq<nat>)
    requires At(b, 28, S28) && W(b, 28) == 0xd6222580 && K[28] == 0xc6e00bf3
    ensures At(b, 29, S29)
  {
    hide W, At, K;
    Next(b, 28, S28, 0xc6e00bf3, 0xd6222580, Values(0x007d15ca, 0x8793c386, 0xdcc20075, 0x6d8806bf), 0x64bc9e1c, 0x95696b75);
  }

  lemma Round29(b: seq<nat>)
    requires At(b, 29, S29) && W(b, 29) == 0x14225508 && K[29] == 0xd5a79147
    ensures At(b, 30, S30)
  {
    hide W, At, K;
    Next(b, 29, S29, 0xd5a79147, 0x14225508, Values(0x0c52b24a, 0x0efb40f2, 0x1bb473f1, 0x6c8c8e9d), 0x72d3a00d, 0xb04ab22d);
  }

  lemma Round30(b: seq<nat>)
    requires At(b, 30, S30) && W(b, 30) == 0xd645f95c && K[30] == 0x06ca6351
    ensures At(b, 31, S31)
  {
    hide W, At, K;
    Next(b, 30, S30, 0x06ca6351, 0xd645f95c, Values(0xd62e3546, 0xd6ed66f7, 0x125f4b55, 0x649c861d), 0xa0bb0cdf, 0x564a6626);
  }

  lemma Round31(b: seq<nat>)
    requires At(b, 31, S31) && W(b, 31) == 0xc9282000 && K[31] == 0x14292967
    ensures At(b, 32, S32)
  {
    hide W, At, K;
    Next(b, 31, S31, 0x14292967, 0xc9282000, Values(0x78a0f3ff, 0x916b2b75, 0x62e0b86d, 0x60bb8c1d), 0x11e7025f, 0xbbd7846c);
  }

  lemma Round32(b: seq<nat>)
    requires At(b, 32, S32) && W(b, 32) == 0xc3f10094 && K[32] == 0x27b70a85
    ensures At(b, 33, S33)
  {
    hide W, At, K;
    Next(b, 32, S32, 0x27b70a85, 0xc3f10094, Values(0xd4ba12bc, 0x124a3625, 0x4a8833e8, 0x30f3005f), 0xe390f3b6, 0xccd25d8b);
  }

  lemma Round33(b: seq<nat>)
    requires At(b, 33, S33) && W(b, 33) == 0x284ca766 && K[33] == 0x2e1b2138
    ensures At(b, 34, S34)
  {
    hide W, At, K;
    Next(b, 33, S33, 0x2e1b2138, 0x284ca766, Values(0xf76416db, 0x9ada262c, 0x669dfbe4, 0xa1b302df), 0xa141b695, 0x0bc457df);
  }

  lemma Round34(b: seq<nat>)
    requires At(b, 34, S34) && W(b, 34) == 0x06886dc6 && K[34] == 0x4d2c6dfc
    ensures At(b, 35, S35)
  {
    hide W, At, K;
    Next(b, 34, S34, 0x4d2c6dfc, 0x06886dc6, Values(0x65e58650, 0xb8d3d5ab, 0xda27312d, 0xa1c1b297), 0x44a181a7, 0x6973aac2);
  }

  lemma Round35(b: seq<nat>)
    requires At(b, 35, S35) && W(b, 35) == 0xa37bf116 && K[35] == 0x53380d13
    ensures At(b, 36, S36)
  {
    hide W, At, K;
    Next(b, 35, S35, 0x53380d13, 0xa37bf116, Values(0xe83d81ea, 0x8dc057cb, 0x5a14d877, 0xe181b3b7), 0x641fe878, 0x3a705ea9);
  }

  lemma Round36(b: seq<nat>)
    requires At(b, 36, S36) && W(b, 36) == 0x717cbe96 && K[36] == 0x650a7354
    ensures At(b, 37, S37)
  {
    hide W, At, K;
    Next(b, 36, S36, 0x650a7354, 0x717cbe96, Values(0x49e1dbec, 0x29f40bd6, 0x25653b71, 0x6401a0b5), 0xa096535d, 0xfac06aed);
  }

  lemma Round37(b: seq<nat>)
    requires At(b, 37, S37) && W(b, 37) == 0xfec2d74a && K[37] == 0x766a0abb
    ensures At(b, 38, S38)
  {
    hide W, At, K;
    Next(b, 37, S37, 0x766a0abb, 0xfec2d74a, Values(0x8a612f5b, 0x3b73caab, 0xab85e6e7, 0x6497c17d), 0x56e3dc4e, 0xe807ea7f);
  }

  lemma Round38(b: seq<nat>)
    requires At(b, 38, S38) && W(b, 38) == 0xa7b67f00 && K[38] == 0x81c2c92e
    ensures At(b, 39, S39)
  {
    hide W, At, K;
    Next(b, 38, S38, 0x81c2c92e, 0xa7b67f00, Values(0xb3a820a0, 0xfa707eed, 0xf8bb7956, 0x6497d85c), 0x9e58e42f, 0x85a71424);
  }

  lemma Round39(b: seq<nat>)
    requires At(b, 39, S39) && W(b, 39) == 0x811596a2 && K[39] == 0x92722c85
    ensures At(b, 40, S40)
  {
    hide W, At, K;
    Next(b, 39, S39, 0x92722c85, 0x811596a2, Values(0xc50c3af0, 0xfa476aed, 0xa57a75b5, 0x96d2d44f), 0x499911b1, 0x716bb025);
  }

  lemma Round40(b: seq<nat>)
    requires At(b, 40, S40) && W(b, 40) == 0x98a6e768 && K[40] == 0xa2bfe8a1
    ensures At(b, 41, S41)
  {
    hide W, At, K;
    Next(b, 40, S40, 0xa2bfe8a1, 0x98a6e768, Values(0x24b3910e, 0x89275a7e, 0xbbaacd82, 0x5ed9d42f), 0xfe86c833, 0x849879df);
  }

  lemma Round41(b: seq<nat>)
    requires At(b, 41, S41) && W(b, 41) == 0x03b20c82 && K[41] == 0xa81a664b
    ensures At(b, 42, S42)
  {
    hide W, At, K;
    Next(b, 41, S41, 0xa81a664b, 0x03b20c82, Values(0x09de1d2a, 0x012f3425, 0xa51e89c0, 0xde98c033), 0x2298f88e, 0xf5c58ae9);
  }

  lemma Round42(b: seq<nat>)
    requires At(b, 42, S42) && W(b, 42) == 0x5d1da7c9 && K[42] == 0xc24b8b70
    ensures At(b, 43, S43)
  {
    hide W, At, K;
    Next(b, 42, S42, 0xc24b8b70, 0x5d1da7c9, Values(0x182cda60, 0x84aa38cd, 0x2f35126e, 0x6a98d8b3), 0xdbb545ab, 0xe0403eb9);
  }

  lemma Round43(b: seq<nat>)
    requires At(b, 43, S43) && W(b, 43) == 0xb156b935 && K[43] == 0xc76c51a3
    ensures At(b, 44, S44)
  {
    hide W, At, K;
    Next(b, 43, S43, 0xc76c51a3, 0xb156b935, Values(0x10a2540d, 0xe4d84bef, 0x0ea523ae, 0xfa94c8ab), 0xe8e34752, 0x29426caa);
  }

  lemma Round44(b: seq<nat>)
    requires At(b, 44, S44) && W(b, 44) == 0xc3ddca11 && K[44] == 0xd192e819
    ensures At(b, 45, S45)
  {
    hide W, At, K;
    Next(b, 44, S44, 0xd192e819, 0xc3ddca11, Values(0x9cd674eb, 0xf4c5aee9, 0x0db2dd6d, 0xeab1458a), 0xa40972d4, 0xaa2c1810);
  }

  lemma Round45(b: seq<nat>)
    requires At(b, 45, S45) && W(b, 45) == 0x249c107f && K[45] == 0xd6990624
    ensures At(b, 46, S46)
  {
    hide W, At, K;
    Next(b, 45, S45, 0xd6990624, 0x249c107f, Values(0x56b1fdb6, 0x68402ea9, 0x9a6c2e6e, 0xe8a147d2), 0x32fa442b, 0xd285c679);
  }

  lemma Round46(b: seq<nat>)
    requires At(b, 46, S46) && W(b, 46) == 0xc48d24ef && K[46] == 0xf40e3585
    ensures At(b, 47, S47)
  {
    hide W, At, K;
    Next(b, 46, S46, 0xf40e3585, 0xc48d24ef, Values(0x6a937b48, 0xab462892, 0x04f7aa13, 0xa0eb4652), 0x54982d6c, 0x8a6a82b2);
  }

  lemma Round47(b: seq<nat>)
    requires At(b, 47, S47) && W(b, 47) == 0x5de54c30 && K[47] == 0x106aa070
    ensures At(b, 48, S48)
  {
    hide W, At, K;
    Next(b, 47, S47, 0x106aa070, 0x5de54c30, Values(0xa939be1f, 0xa2049a30, 0x1ef11ec8, 0x3498646c), 0x365a34cd, 0xcbb3f8eb);
  }

  lemma Round48(b: seq<nat>)
    requires At(b, 48, S48) && W(b, 48) == 0xdefece65 && K[48] == 0x19a4c116
    ensures At(b, 49, S49)
  {
    hide W, At, K;
    Next(b, 48, S48, 0x19a4c116, 0xdefece65, Values(0x6babcc79, 0x9a2686b2, 0x832c0b3b, 0x36da246d), 0x62a82a5e, 0x4cab6d8a);
  }

  lemma Round49(b: seq<nat>)
    requires At(b, 49, S49) && W(b, 49) == 0x2ca1480d && K[49] == 0x1e376c08
    ensures At(b, 50, S50)
  {
    hide W, At, K;
    Next(b, 49, S49, 0x1e376c08, 0x2ca1480d, Values(0xcdcdfdfd, 0xcae3eaba, 0x6af0665c, 0x76982c4c), 0x9798f5ed, 0xe90aa770);
  }

  lemma Round50(b: seq<nat>)
    requires At(b, 50, S50) && W(b, 50) == 0x3c15332c && K[50] == 0x2748774c
    ensures At(b, 51, S51)
  {
    hide W, At, K;
    Next(b, 50, S50, 0x2748774c, 0x3c15332c, Values(0xa8eab3bd, 0x4abb7d8b, 0xa95d37e2, 0x369834cd), 0xc163cb21, 0x36068bde);
  }

  lemma Round51(b: seq<nat>)
    requires At(b, 51, S51) && W(b, 51) == 0x01cec9ad && K[51] == 0x34b0bcb5
    ensures At(b, 52, S52)
  {
    hide W, At, K;
    Next(b, 51, S51, 0x34b0bcb5, 0x01cec9ad, Values(0x005b35e5, 0x68abe750, 0xa67a7ed3, 0xc3a8eb6d), 0xd55e06c2, 0xa194d14f);
  }

  lemma Round52(b: seq<nat>)
    requires At(b, 52, S52) && W(b, 52) == 0x160cccd0 && K[52] == 0x391c0cb3
    ensures At(b, 53, S53)
  {
    hide W, At, K;
    Next(b, 52, S52, 0x391c0cb3, 0x160cccd0, Values(0xdd1ac60f, 0x680ea77e, 0xfb5a2015, 0xd55ac7e1), 0xb1b29c90, 0x43a5def8);
  }

  lemma Round53(b: seq<nat>)
    requires At(b, 53, S53) && W(b, 53) == 0x0bacda98 && K[53] == 0x4ed8aa4a
    ensures At(b, 54, S54)
  {
    hide W, At, K;
    Next(b, 53, S53, 0x4ed8aa4a, 0x0bacda98, Values(0xece99fe1, 0x3586d14e, 0x029b6876, 0xd1728e80), 0x3a0e9477, 0xfd99936e);
  }

  lemma Round54(b: seq<nat>)
    requires At(b, 54, S54) && W(b, 54) == 0x361b8fe0 && K[54] == 0x5b9cca4f
    ensures At(b, 55, S55)
  {
    hide W, At, K;
    Next(b, 54, S54, 0x5b9cca4f, 0x361b8fe0, Values(0x1ae06201, 0x4185d269, 0x576ba981, 0xb11e94d2), 0x2caf58ca, 0xe588e598);
  }

  lemma Round55(b: seq<nat>)
    requires At(b, 55, S55) && W(b, 55) == 0xd2320ba6 && K[55] == 0x682e6ff3
    ensures At(b, 56, S56)
  {
    hide W, At, K;
    Next(b, 55, S55, 0x682e6ff3, 0xd2320ba6, Values(0x14f85ef8, 0xe7ad9b68, 0xf0199bfa, 0x38ae9cd2), 0x01638014, 0xadf94e0a);
  }

  lemma Round56(b: seq<nat>)
    requires At(b, 56, S56) && W(b, 56) == 0x029b7007 && K[56] == 0x748f82ee
    ensures At(b, 57, S57)
  {
    hide W, At, K;
    Next(b, 56, S56, 0x748f82ee, 0x029b7007, Values(0x17455f47, 0xf588d56c, 0x8ef8bb1c, 0x282f9056), 0x7ec75212, 0x7951a330);
  }

  lemma Round57(b: seq<nat>)
    requires At(b, 57, S57) && W(b, 57) == 0x7546587c && K[57] == 0x78a5636f
    ensures At(b, 58, S58)
  {
    hide W, At, K;
    Next(b, 57, S57, 0x78a5636f, 0x7546587c, Values(0x0f3bf484, 0xadd94688, 0x126a6b45, 0x2ce75012), 0xe7ec45bc, 0xe2a91edc);
  }

  lemma Round58(b: seq<nat>)
    requires At(b, 58, S58) && W(b, 58) == 0x07f54f39 && K[58] == 0x84c87814
    ensures At(b, 59, S59)
  {
    hide W, At, K;
    Next(b, 58, S58, 0x84c87814, 0x07f54f39, Values(0xfc999f29, 0x6d514212, 0xa50add92, 0x67e74014), 0xe923abc6, 0x08e0e6ea);
  }

  lemma Round59(b: seq<nat>)
    requires At(b, 59, S59) && W(b, 59) == 0xf808ddc3 && K[59] == 0x8cc70208
    ensures At(b, 60, S60)
  {
    hide W, At, K;
    Next(b, 59, S59, 0x8cc70208, 0xf808ddc3, Values(0x0511ea83, 0x71b107d8, 0x6ad0b848, 0xefe74396), 0x04441c0e, 0xaaefa044);
  }

  lemma Round60(b: seq<nat>)
    requires At(b, 60, S60) && W(b, 60) == 0xdcca7608 && K[60] == 0x90befffa
    ensures At(b, 61, S61)
  {
    hide W, At, K;
    Next(b, 60, S60, 0x90befffa, 0xdcca7608, Values(0x6deec120, 0x48e0bed8, 0x71111d32, 0xe5640d8e), 0xf41fc3ea, 0x1c71eb3c);
  }

  lemma Round61(b: seq<nat>)
    requires At(b, 61, S61) && W(b, 61) == 0x5e427188 && K[61] == 0xa4506ceb
    ensures At(b, 62, S62)
  {
    hide W, At, K;
    Next(b, 61, S61, 0xa4506ceb, 0x5e427188, Values(0xaf07d79f, 0x08e1a4c6, 0xdd5ffbd4, 0xe4078bce), 0x5e8d0156, 0x8511bf70);
  }

  lemma Round62(b: seq<nat>)
    requires At(b, 62, S62) && W(b, 62) == 0x44bcec5d && K[62] == 0xbef9a3f7
    ensures At(b, 63, S63)
  {
    hide W, At, K;
    Next(b, 62, S62, 0xbef9a3f7, 0x44bcec5d, Values(0xa4db5c88, 0x2effab34, 0xa914ed47, 0x540d014e), 0xdd946d8f, 0xc9962ac0);
  }

  lemma Round63(b: seq<nat>)
    requires At(b, 63, S63) && W(b, 63) == 0x3b5ec49b && K[63] == 0xc67178f2
    ensures At(b, 64, S64)
  {
    hide W, At, K;
    Next(b, 63, S63, 0xc67178f2, 0x3b5ec49b, Values(0x902a0a0a, 0x9571eb7c, 0xcaadc8b6, 0xdc9d41ce), 0x79a6dddb, 0xd69fef65);
  }

  lemma Constants0()
    ensures K[0] == 0x428a2f98 && K[1] == 0x71374491 && K[2] == 0xb5c0fbcf && K[3] == 0xe9b5dba5 && K[4] == 0x3956c25b && K[5] == 0x59f111f1 && K[6] == 0x923f82a4 && K[7] == 0xab1c5ed5
  {
    assert K[0..8] == [0x428a2f98, 0x71374491, 0xb5c0fbcf, 0xe9b5dba5, 0x3956c25b, 0x59f111f1, 0x923f82a4, 0xab1c5ed5];
  }

  lemma Rounds0(b: seq<nat>)
    requires Row0(b) && At(b, 0, S0)
    ensures At(b, 8, S8)
  {
    hide W, At, K;
    Constants0();
    Round0(b);
    Round1(b);
    Round2(b);
    Round3(b);
    Round4(b);
    Round5(b);
    Round6(b);
    Round7(b);
  }

  lemma Constants1()
    ensures K[8] == 0xd807aa98 && K[9] == 0x12835b01 && K[10] == 0x243185be && K[11] == 0x550c7dc3 && K[12] == 0x72be5d74 && K[13] == 0x80deb1fe && K[14] == 0x9bdc06a7 && K[15] == 0xc19bf174
  {
    assert K[8..16] == [0xd807aa98, 0x12835b01, 0x243185be, 0x550c7dc3, 0x72be5d74, 0x80deb1fe, 0x9bdc06a7, 0xc19bf174];
  }

  lemma Rounds1(b: seq<nat>)
    requires Row1(b) && At(b, 8, S8)
    ensures At(b, 16, S16)
  {
    hide W, At, K;
    Constants1();
    Round8(b);
    Round9(b);
    Round10(b);
    Round11(b);
    Round12(b);
    Round13(b);
    Round14(b);
    Round15(b);
  }

  lemma Constants2()
    ensures K[16] == 0xe49b69c1 && K[17] == 0xefbe4786 && K[18] == 0x0fc19dc6 && K[19] == 0x240ca1cc && K[20] == 0x2de92c6f && K[21] == 0x4a7484aa && K[22] == 0x5cb0a9dc && K[23] == 0x76f988da
  {
    assert K[16..24] == [0xe49b69c1, 0xefbe4786, 0x0fc19dc6, 0x240ca1cc, 0x2de92c6f, 0x4a7484aa, 0x5cb0a9dc, 0x76f988da];
  }

  lemma Rounds2(b: seq<nat>)
    requires Row2(b) && At(b, 16, S16)
    ensures At(b, 24, S24)
  {
    hide W, At, K;
    Constants2();
    Round16(b);
    Round17(b);
    Round18(b);
    Round19(b);
    Round20(b);
    Round21(b);
    Round22(b);
    Round23(b);
  }

  lemma Constants3()
    ensures K[24] == 0x983e5152 && K[25] == 0xa831c66d && K[26] == 0xb00327c8 && K[27] == 0xbf597fc7 && K[28] == 0xc6e00bf3 && K[29] == 0xd5a79147 && K[30] == 0x06ca6351 && K[31] == 0x14292967
  {
    assert K[24..32] == [0x983e5152, 0xa831c66d, 0xb00327c8, 0xbf597fc7, 0xc6e00bf3, 0xd5a79147, 0x06ca6351, 0x14292967];
  }

  lemma Rounds3(b: seq<nat>)
    requires Row3(b) && At(b, 24, S24)
    ensures At(b, 32, S32)
  {
    hide W, At, K;
    Constants3();
    Round24(b);
    Round25(b);
    Round26(b);
    Round27(b);
    Round28(b);
    Round29(b);
    Round30(b);
    Round31(b);
  }

  lemma Constants4()
    ensures K[32] == 0x27b70a85 && K[33] == 0x2e1b2138 && K[34] == 0x4d2c6dfc && K[35] == 0x53380d13 && K[36] == 0x650a7354 && K[37] == 0x766a0abb && K[38] == 0x81c2c92e && K[39] == 0x92722c85
  {
    assert K[32..40] == [0x27b70a85, 0x2e1b2138, 0x4d2c6dfc, 0x53380d13, 0x650a7354, 0x766a0abb, 0x81c2c92e, 0x92722c85];
  }

  lemma Rounds4(b: seq<nat>)
    requires Row4(b) && At(b, 32, S32)
    ensures At(b, 40, S40)
  {
    hide W, At, K;
    Constants4();
    Round32(b);
    Round33(b);
    Round34(b);
    Round35(b);
    Round36(b);
    Round37(b);
    Round38(b);
    Round39(b);
  }

  lemma Constants5()
    ensures K[40] == 0xa2bfe8a1 && K[41] == 0xa81a664b && K[42] == 0xc24b8b70 && K[43] == 0xc76c51a3 && K[44] == 0xd192e819 && K[45] == 0xd6990624 && K[46] == 0xf40e3585 && K[47] == 0x106aa070
  {
    assert K[40..48] == [0xa2bfe8a1, 0xa81a664b, 0xc24b8b70, 0xc76c51a3, 0xd192e819, 0xd6990624, 0xf40e3585, 0x106aa070];
  }

  lemma Rounds5(b: seq<nat>)
    requires Row5(b) && At(b, 40, S40)
    ensures At(b, 48, S48)
  {
    hide W, At, K;
    Constants5();
    Round40(b);
    Round41(b);
    Round42(b);
    Round43(b);
    Round44(b);
    Round45(b);
    Round46(b);
    Round47(b);
  }

  lemma Constants6()
    ensures K[48] == 0x19a4c116 && K[49] == 0x1e376c08 && K[50] == 0x2748774c && K[51] == 0x34b0bcb5 && K[52] == 0x391c0cb3 && K[53] == 0x4ed8aa4a && K[54] == 0x5b9cca4f && K[55] == 0x682e6ff3
  {
    assert K[48..56] == [0x19a4c116, 0x1e376c08, 0x2748774c, 0x34b0bcb5, 0x391c0cb3, 0x4ed8aa4a, 0x5b9cca4f, 0x682e6ff3];
  }

  lemma Rounds6(b: seq<nat>)
    requires Row6(b) && At(b, 48, S48)
    ensures At(b, 56, S56)
  {
    hide W, At, K;
    Constants6();
    Round48(b);
    Round49(b);
    Round50(b);
    Round51(b);
    Round52(b);
    Round53(b);
    Round54(b);
    Round55(b);
  }

  lemma Constants7()
    ensures K[56] == 0x748f82ee && K[57] == 0x78a5636f && K[58] == 0x84c87814 && K[59] == 0x8cc70208 && K[60] == 0x90befffa && K[61] == 0xa4506ceb && K[62] == 0xbef9a3f7 && K[63] == 0xc67178f2
  {
    assert K[56..64] == [0x748f82ee, 0x78a5636f, 0x84c87814, 0x8cc70208, 0x90befffa, 0xa4506ceb, 0xbef9a3f7, 0xc67178f2];
  }

  lemma Rounds7(b: seq<nat>)
    requires Row7(b) && At(b, 56, S56)
    ensures At(b, 64, S64)
  {
    hide W, At, K;
    Constants7();
    Round56(b);
    Round57(b);
    Round58(b);
    Round59(b);
    Round60(b);
    Round61(b);
    Round62(b);
    Round63(b);
  }

  // ---------- the digest ----------

  lemma StartIs(b: seq<nat>)
    requires b == Block0()
    ensures At(b, 0, S0)
  {
    hide Num, Block0;
    NumIsSum(S0.a);
    NumIsSum(S0.b);
    NumIsSum(S0.c);
    NumIsSum(S0.d);
    NumIsSum(S0.e);
    NumIsSum(S0.f);
    NumIsSum(S0.g);
    NumIsSum(S0.h);
  }

  lemma FrontIs()
    ensures (H0.a + Num(S64.a)) % TWO32 == 0xe3b0c442 && (H0.b + Num(S64.b)) % TWO32 == 0x98fc1c14 && (H0.c + Num(S64.c)) % TWO32 == 0x9afbf4c8 && (H0.d + Num(S64.d)) % TWO32 == 0x996fb924
  {
    hide Num;
    NumIsSum(S64.a);
    NumIsSum(S64.b);
    NumIsSum(S64.c);
    NumIsSum(S64.d);
  }

  lemma BackIs()
    ensures (H0.e + Num(S64.e)) % TWO32 == 0x27ae41e4 && (H0.f + Num(S64.f)) % TWO32 == 0x649b934c && (H0.g + Num(S64.g)) % TWO32 == 0xa495991b && (H0.h + Num(S64.h)) % TWO32 == 0x7852b855
  {
    hide Num;
    NumIsSum(S64.e);
    NumIsSum(S64.f);
    NumIsSum(S64.g);
    NumIsSum(S64.h);
  }

  lemma CompressedIs(b: seq<nat>)
    requires b == Block0()
    ensures |b| == 64 && IsState(H0) && Words(Compress(H0, b)) == [0xe3b0c442, 0x98fc1c14, 0x9afbf4c8, 0x996fb924, 0x27ae41e4, 0x649b934c, 0xa495991b, 0x7852b855]
  {
    hide At, S0, S8, S16, S24, S32, S40, S48, S56, S64, Nums, AddWords, Row0, Row1, Row2, Row3, Row4, Row5, Row6, Row7, Compress;
    StartIs(b);
    FirstRows(b);
    Words2(b);
    Words3(b);
    Words4(b);
    Words5(b);
    Words6(b);
    Words7(b);
    Rounds0(b);
    Rounds1(b);
    Rounds2(b);
    Rounds3(b);
    Rounds4(b);
    Rounds5(b);
    Rounds6(b);
    Rounds7(b);
    RanAll(b);
  }

  lemma RanAll(b: seq<nat>)
    requires At(b, 64, S64)
    ensures |b| == 64 && IsState(H0) && Words(Compress(H0, b)) == [0xe3b0c442, 0x98fc1c14, 0x9afbf4c8, 0x996fb924, 0x27ae41e4, 0x649b934c, 0xa495991b, 0x7852b855]
  {
    hide S64, Rounds, Num, H0;
    FrontIs();
    BackIs();
  }

  lemma PaddedIs()
    ensures Pad([]) == Block0()
  {
  }

  lemma OneBlock(b: seq<nat>)
    requires |b| == 64 && IsState(H0)
    ensures Fold(H0, b) == Compress(H0, b)
  {
    hide Compress, H0;
    assert b[..64] == b && b[64..] == [];
  }

  lemma WordBytes(v: nat)
    ensures Field(v, 4) == [v / 0x100_0000 % 256, v / 0x1_0000 % 256, v / 0x100 % 256, v % 256]
  {
    assert Pow(256, 0) == 1 && Pow(256, 1) == 0x100 && Pow(256, 2) == 0x1_0000 && Pow(256, 3) == 0x100_0000;
  }

  lemma LastWord(w: seq<nat>, v: nat, b: seq<nat>)
    requires b == [v / 0x100_0000 % 256, v / 0x1_0000 % 256, v / 0x100 % 256, v % 256]
    ensures Serialize(w + [v]) == Serialize(w) + b
  {
    assert (w + [v])[..|w + [v]| - 1] == w;
    WordBytes(v);
    hide Field;
  }

  lemma DigestBytes(w: seq<nat>)
    requires w == [0xe3b0c442, 0x98fc1c14, 0x9afbf4c8, 0x996fb924, 0x27ae41e4, 0x649b934c, 0xa495991b, 0x7852b855]
    ensures Serialize(w) == [0xe3, 0xb0, 0xc4, 0x42] + [0x98, 0xfc, 0x1c, 0x14] + [0x9a, 0xfb, 0xf4, 0xc8] + [0x99, 0x6f, 0xb9, 0x24]
      + [0x27, 0xae, 0x41, 0xe4] + [0x64, 0x9b, 0x93, 0x4c] + [0xa4, 0x95, 0x99, 0x1b] + [0x78, 0x52, 0xb8, 0x55]
  {
    hide Serialize;
    NoBytes();
    assert w[..0] == [];
    LastWord(w[..0], w[0], [0xe3, 0xb0, 0xc4, 0x42]);
    assert w[..1] == w[..0] + [w[0]];
    LastWord(w[..1], w[1], [0x98, 0xfc, 0x1c, 0x14]);
    assert w[..2] == w[..1] + [w[1]];
    LastWord(w[..2], w[2], [0x9a, 0xfb, 0xf4, 0xc8]);
    assert w[..3] == w[..2] + [w[2]];
    LastWord(w[..3], w[3], [0x99, 0x6f, 0xb9, 0x24]);
    assert w[..4] == w[..3] + [w[3]];
    LastWord(w[..4], w[4], [0x27, 0xae, 0x41, 0xe4]);
    assert w[..5] == w[..4] + [w[4]];
    LastWord(w[..5], w[5], [0x64, 0x9b, 0x93, 0x4c]);
    assert w[..6] == w[..5] + [w[5]];
    LastWord(w[..6], w[6], [0xa4, 0x95, 0x99, 0x1b]);
    assert w[..7] == w[..6] + [w[6]];
    LastWord(w[..7], w[7], [0x78, 0x52, 0xb8, 0x55]);
    assert w == w[..7] + [w[7]];
    NoPrefix([0xe3, 0xb0, 0xc4, 0x42]);
  }

  lemma NoPrefix(b: seq<nat>)
    ensures [] + b == b
  {
  }

  lemma NoBytes()
    ensures Serialize([]) == []
  {
  }

  /** The hash of the empty message is the published one. */
  lemma EmptyDigest()
    ensures Hash([]) == [0xe3, 0xb0, 0xc4, 0x42] + [0x98, 0xfc, 0x1c, 0x14] + [0x9a, 0xfb, 0xf4, 0xc8] + [0x99, 0x6f, 0xb9, 0x24]
      + [0x27, 0xae, 0x41, 0xe4] + [0x64, 0x9b, 0x93, 0x4c] + [0xa4, 0x95, 0x99, 0x1b] + [0x78, 0x52, 0xb8, 0x55]
  {
    hide Compress, Pad, Serialize, Fold, Block0, H0, Words;
    PaddedIs();
    var b := Block0();
    CompressedIs(b);
    OneBlock(b);
    DigestBytes(Words(Compress(H0, b)));
  }

  /** The program computes it, with long of 32 and of 64 bits. */
  method HashEmpty(long: nat) returns (digest: seq<nat>)
    requires LongSize(long)
    ensures digest == [0xe3, 0xb0, 0xc4, 0x42] + [0x98, 0xfc, 0x1c, 0x14] + [0x9a, 0xfb, 0xf4, 0xc8] + [0x99, 0x6f, 0xb9, 0x24]
      + [0x27, 0xae, 0x41, 0xe4] + [0x64, 0x9b, 0x93, 0x4c] + [0xa4, 0x95, 0x99, 0x1b] + [0x78, 0x52, 0xb8, 0x55]
  {
    hide Hash;
    EmptyDigest();
    var md := Sha256.Sha256(long, []);
    digest := md[..];
  }
}
