/** The hashes of the keys of the counterexample in `LostKey`, under the first two seeds. */
module LostKeyHashes {
  import opened Words
  import opened HexWords
  import opened FuseHash
  import opened FuseGeometry
  import opened FuseTable
  import opened FuseValues

  const A: u64 := 0x92094ddac82dcc44
  const B: u64 := 0x92094ddac82dcc1d
  const C: u64 := 0x92094ddac82dcc84
  const Z: u64 := 0x92094ddac82dcb99

  // The layout of a filter for five keys.
  const SMALL: Layout := Layout(8, 7, 1, 8, 24)

  lemma SmallFits()
    ensures Fits(SMALL, 3)
  {
    assert Pow2(3) == 8;
  }

  // The hash of a key under a seed, its top bit and its slots.
  ghost predicate HashIs(key: u64, seed: u64, hash: u64, top: nat, slots: Slots) {
    MixSplit(key, seed) == hash && Shr(hash, 63) == top && Positions(hash, SMALL) == slots
  }

  lemma SlotsAre(h: u64, base: nat, mid: nat, low: nat)
    requires base == h / 0x2000_0000_0000_0000 && mid == h / 0x4_0000 % 8 && low == h % 8
    ensures Positions(h, SMALL) == Slots(base, 8 + HexXor(base, mid), 16 + HexXor(base, low))
  {
    hide *;
    SmallFits();
    SmallBase(h);
    SlotIs(h, 0, base, 0);
    SlotIs(h, 1, base, mid);
    SlotIs(h, 2, base, low);
    assert HexXor(base, 0) == base by { SameDigit(base); }
    PositionsAre(h);
  }

  lemma PositionsAre(h: u64)
    ensures Positions(h, SMALL) == Slots(Hash(0, h, SMALL), Hash(1, h, SMALL), Hash(2, h, SMALL))
  {}

  lemma SameDigit(p: nat)
    requires p < 8
    ensures HexXor(p, 0) == p
  {}

  lemma SmallBase(h: u64)
    ensures MulHi(h, 8) == h / 0x2000_0000_0000_0000 < 8
  {
    hide MulHi;
    MulHiExact(h, 8);
    var x: nat := h;
    assert x * 8 / 0x1_0000_0000_0000_0000 == x / 0x2000_0000_0000_0000;
  }

  lemma SlotIs(h: u64, i: nat, base: nat, offset: nat)
    requires i <= 2 && base == MulHi(h, 8) < 8
    requires offset == if i == 0 then 0 else if i == 1 then h / 0x4_0000 % 8 else h % 8
    ensures Hash(i, h, SMALL) == 8 * i + HexXor(base, offset)
  {
    hide Hash, MulHi, Xor, HexXor, Fits;
    SmallFits();
    PositionSegment(h, i, SMALL, 3);
    OffsetIs(h, i);
    SmallXor(i, base, offset);
    assert SegmentsOn(base, i, 3) == base + 8 * i;
  }

  lemma OffsetIs(h: u64, i: nat)
    requires i <= 2
    ensures Offset(h, i, 3) == if i == 0 then 0 else if i == 1 then h / 0x4_0000 % 8 else h % 8
  {
    hide Shr, Low;
    assert Pow2(3) == 8;
    ShrIsQuotient(h, 18);
    ShrIsQuotient(h, 0);
    assert Pow2(16) == 0x1_0000 by { Pow2Add(8, 8); Pow2Values(); }
    assert Pow2(18) == 0x4_0000 && Pow2(0) == 1;
    LowIsRemainder(h, 3);
    LowIsRemainder(Shr(h, 18), 3);
  }

  lemma SmallXor(i: nat, base: nat, offset: nat)
    requires base < 8 && offset < 8
    ensures Xor(base + 8 * i, offset) == 8 * i + HexXor(base, offset)
  {
    hide Xor, HexXor;
    assert Pow2(3) == 8;
    XorKeepsHigh(i, base, offset, 3);
    XorDigits(base, offset, 0, 0);
    XorZero(0);
  }

  lemma TopBit(h: u64)
    ensures Shr(h, 63) == if h >= 0x8000_0000_0000_0000 then 1 else 0
  {
    hide Shr;
    assert Pow2(63) == 0x8000_0000_0000_0000 by { Pow2Values(); }
    ShrIsQuotient(h, 63);
  }

  lemma Seed0ValueFirst()
    ensures Multiply(XorShift(0x10a2a556c2d61962, 30), SPLIT_1) == 0x4767d15dab145231
  {
    hide XorShift;
    XorShiftIs(0x10a2a556c2d61962, 30, 0x10a2a5, [0x5, 0x6, 0xc, 0x2, 0xd, 0x6, 0x1, 0x9, 0x6, 0x2],
               [0x0, 0x0, 0x4, 0x2, 0x8, 0xa, 0x9, 0x5, 0x5, 0xb],
               [0x5, 0x6, 0x8, 0x0, 0x5, 0xc, 0x8, 0xc, 0x3, 0x9], 0x10a2a556805c8c39);
  }

  lemma Seed0ValueSecond()
    ensures Multiply(XorShift(0x4767d15dab145231, 27), SPLIT_2) == 0x6df6b225ec3f502c
  {
    hide XorShift;
    XorShiftIs(0x4767d15dab145231, 27, 0x4767d1, [0x5, 0xd, 0xa, 0xb, 0x1, 0x4, 0x5, 0x2, 0x3, 0x1],
               [0x0, 0x8, 0xe, 0xc, 0xf, 0xa, 0x2, 0xb, 0xb, 0x5],
               [0x5, 0x5, 0x4, 0x7, 0xe, 0xe, 0x7, 0x9, 0x8, 0x4], 0x4767d15547ee7984);
  }

  lemma Seed0ValueThird()
    ensures XorShift(0x6df6b225ec3f502c, 31) == 0x6df6b22537d23467
  {
    hide XorShift;
    XorShiftIs(0x6df6b225ec3f502c, 31, 0x6df6b2, [0x2, 0x5, 0xe, 0xc, 0x3, 0xf, 0x5, 0x0, 0x2, 0xc],
               [0x0, 0x0, 0xd, 0xb, 0xe, 0xd, 0x6, 0x4, 0x4, 0xb],
               [0x2, 0x5, 0x3, 0x7, 0xd, 0x2, 0x3, 0x4, 0x6, 0x7], 0x6df6b22537d23467);
  }

  lemma Seed0Value()
    ensures SplitMix(0x10a2a556c2d61962) == 0x6df6b22537d23467
  {
    hide XorShift, Multiply;
    Seed0ValueFirst();
    Seed0ValueSecond();
    Seed0ValueThird();
  }

  lemma Seed1ValueFirst()
    ensures Multiply(XorShift(0xaeda1f1042209577, 30), SPLIT_1) == 0xadfb223fa65d606
  {
    hide XorShift;
    XorShiftIs(0xaeda1f1042209577, 30, 0xaeda1f, [0x1, 0x0, 0x4, 0x2, 0x2, 0x0, 0x9, 0x5, 0x7, 0x7],
               [0x0, 0x2, 0xb, 0xb, 0x6, 0x8, 0x7, 0xc, 0x4, 0x1],
               [0x1, 0x2, 0xf, 0x9, 0x4, 0x8, 0xe, 0x9, 0x3, 0x6], 0xaeda1f12f948e936);
  }

  lemma Seed1ValueSecond()
    ensures Multiply(XorShift(0xadfb223fa65d606, 27), SPLIT_2) == 0x92ac3306235a7e13
  {
    hide XorShift;
    XorShiftIs(0xadfb223fa65d606, 27, 0xadfb2, [0x2, 0x3, 0xf, 0xa, 0x6, 0x5, 0xd, 0x6, 0x0, 0x6],
               [0x0, 0x1, 0x5, 0xb, 0xf, 0x6, 0x4, 0x4, 0x7, 0xf],
               [0x2, 0x2, 0xa, 0x1, 0x9, 0x3, 0x9, 0x2, 0x7, 0x9], 0xadfb222a1939279);
  }

  lemma Seed1ValueThird()
    ensures XorShift(0x92ac3306235a7e13, 31) == 0x92ac33070602181f
  {
    hide XorShift;
    XorShiftIs(0x92ac3306235a7e13, 31, 0x92ac33, [0x0, 0x6, 0x2, 0x3, 0x5, 0xa, 0x7, 0xe, 0x1, 0x3],
               [0x0, 0x1, 0x2, 0x5, 0x5, 0x8, 0x6, 0x6, 0x0, 0xc],
               [0x0, 0x7, 0x0, 0x6, 0x0, 0x2, 0x1, 0x8, 0x1, 0xf], 0x92ac33070602181f);
  }

  lemma Seed1Value()
    ensures SplitMix(0xaeda1f1042209577) == 0x92ac33070602181f
  {
    hide XorShift, Multiply;
    Seed1ValueFirst();
    Seed1ValueSecond();
    Seed1ValueThird();
  }

  const SEED_0: u64 := 0x6df6b22537d23467
  const SEED_1: u64 := 0x92ac33070602181f

  lemma Seeds()
    ensures SeedAt(0) == SEED_0 && SeedAt(1) == SEED_1
  {
    hide SplitMix;
    assert CounterAt(0) == 0x10a2a556c2d61962 && CounterAt(1) == 0xaeda1f1042209577;
    Seed0Value();
    Seed1Value();
  }

  // The hashes, by key and round.
  const A_0: u64 := 0x3c559f1b5179717b
  const B_0: u64 := 0xdff67dcf6e49fcea
  const C_0: u64 := 0xcd49466d59caba6a
  const A_1: u64 := 0x916cdff878aedf0f
  const B_1: u64 := 0xdbef2eca0a430691
  const C_1: u64 := 0xf981fb32052ea3b1
  const Z_1: u64 := 0x44b8d267ff65674

  lemma MurmurA0First()
    ensures Multiply(XorShift(0xab, 33), MURMUR_1) == 0x8b90753b88250cef
  {
    hide XorShift;
    XorShiftIs(0xab, 33, 0x0, [0x0, 0x0, 0x0, 0x0, 0x0, 0x0, 0x0, 0x0, 0xa, 0xb],
               [0x0, 0x0, 0x0, 0x0, 0x0, 0x0, 0x0, 0x0, 0x0, 0x0],
               [0x0, 0x0, 0x0, 0x0, 0x0, 0x0, 0x0, 0x0, 0xa, 0xb], 0xab);
  }

  lemma MurmurA0Second()
    ensures Multiply(XorShift(0x8b90753b88250cef, 33), MURMUR_2) == 0x3c559f1b4f53bef6
  {
    hide XorShift;
    XorShiftIs(0x8b90753b88250cef, 33, 0x8b9075, [0x3, 0xb, 0x8, 0x8, 0x2, 0x5, 0x0, 0xc, 0xe, 0xf],
               [0x0, 0x0, 0x4, 0x5, 0xc, 0x8, 0x3, 0xa, 0x9, 0xd],
               [0x3, 0xb, 0xc, 0xd, 0xe, 0xd, 0x3, 0x6, 0x7, 0x2], 0x8b90753bcded3672);
  }

  lemma MurmurA0Third()
    ensures XorShift(0x3c559f1b4f53bef6, 33) == 0x3c559f1b5179717b
  {
    hide XorShift;
    XorShiftIs(0x3c559f1b4f53bef6, 33, 0x3c559f, [0x1, 0xb, 0x4, 0xf, 0x5, 0x3, 0xb, 0xe, 0xf, 0x6],
               [0x0, 0x0, 0x1, 0xe, 0x2, 0xa, 0xc, 0xf, 0x8, 0xd],
               [0x1, 0xb, 0x5, 0x1, 0x7, 0x9, 0x7, 0x1, 0x7, 0xb], 0x3c559f1b5179717b);
  }

  lemma MurmurA0()
    ensures Murmur64(0xab) == 0x3c559f1b5179717b
  {
    hide XorShift, Multiply;
    MurmurA0First();
    MurmurA0Second();
    MurmurA0Third();
  }

  lemma HashA0()
    ensures HashIs(A, SEED_0, A_0, 0, Slots(1, 15, 18))
  {
    hide Murmur64, Positions, Shr;
    MurmurA0();
    TopBit(A_0);
    SlotsAre(A_0, 1, 6, 3);
  }

  lemma MurmurB0First()
    ensures Multiply(XorShift(0x84, 33), MURMUR_1) == 0xa61eab56601c99b4
  {
    hide XorShift;
    XorShiftIs(0x84, 33, 0x0, [0x0, 0x0, 0x0, 0x0, 0x0, 0x0, 0x0, 0x0, 0x8, 0x4],
               [0x0, 0x0, 0x0, 0x0, 0x0, 0x0, 0x0, 0x0, 0x0, 0x0],
               [0x0, 0x0, 0x0, 0x0, 0x0, 0x0, 0x0, 0x0, 0x8, 0x4], 0x84);
  }

  lemma MurmurB0Second()
    ensures Multiply(XorShift(0xa61eab56601c99b4, 33), MURMUR_2) == 0xdff67dcf01b2c20d
  {
    hide XorShift;
    XorShiftIs(0xa61eab56601c99b4, 33, 0xa61eab, [0x5, 0x6, 0x6, 0x0, 0x1, 0xc, 0x9, 0x9, 0xb, 0x4],
               [0x0, 0x0, 0x5, 0x3, 0x0, 0xf, 0x5, 0x5, 0xa, 0xb],
               [0x5, 0x6, 0x3, 0x3, 0x1, 0x3, 0xc, 0xc, 0x1, 0xf], 0xa61eab563313cc1f);
  }

  lemma MurmurB0Third()
    ensures XorShift(0xdff67dcf01b2c20d, 33) == 0xdff67dcf6e49fcea
  {
    hide XorShift;
    XorShiftIs(0xdff67dcf01b2c20d, 33, 0xdff67d, [0xc, 0xf, 0x0, 0x1, 0xb, 0x2, 0xc, 0x2, 0x0, 0xd],
               [0x0, 0x0, 0x6, 0xf, 0xf, 0xb, 0x3, 0xe, 0xe, 0x7],
               [0xc, 0xf, 0x6, 0xe, 0x4, 0x9, 0xf, 0xc, 0xe, 0xa], 0xdff67dcf6e49fcea);
  }

  lemma MurmurB0()
    ensures Murmur64(0x84) == 0xdff67dcf6e49fcea
  {
    hide XorShift, Multiply;
    MurmurB0First();
    MurmurB0Second();
    MurmurB0Third();
  }

  lemma HashB0()
    ensures HashIs(B, SEED_0, B_0, 1, Slots(6, 12, 20))
  {
    hide Murmur64, Positions, Shr;
    MurmurB0();
    TopBit(B_0);
    SlotsAre(B_0, 6, 2, 2);
  }

  lemma MurmurC0First()
    ensures Multiply(XorShift(0xeb, 33), MURMUR_1) == 0x5ffc6b36dd88402f
  {
    hide XorShift;
    XorShiftIs(0xeb, 33, 0x0, [0x0, 0x0, 0x0, 0x0, 0x0, 0x0, 0x0, 0x0, 0xe, 0xb],
               [0x0, 0x0, 0x0, 0x0, 0x0, 0x0, 0x0, 0x0, 0x0, 0x0],
               [0x0, 0x0, 0x0, 0x0, 0x0, 0x0, 0x0, 0x0, 0xe, 0xb], 0xeb);
  }

  lemma MurmurC0Second()
    ensures Multiply(XorShift(0x5ffc6b36dd88402f, 33), MURMUR_2) == 0xcd49466d3f6e195c
  {
    hide XorShift;
    XorShiftIs(0x5ffc6b36dd88402f, 33, 0x5ffc6b, [0x3, 0x6, 0xd, 0xd, 0x8, 0x8, 0x4, 0x0, 0x2, 0xf],
               [0x0, 0x0, 0x2, 0xf, 0xf, 0xe, 0x3, 0x5, 0x9, 0xb],
               [0x3, 0x6, 0xf, 0x2, 0x7, 0x6, 0x7, 0x5, 0xb, 0x4], 0x5ffc6b36f27675b4);
  }

  lemma MurmurC0Third()
    ensures XorShift(0xcd49466d3f6e195c, 33) == 0xcd49466d59caba6a
  {
    hide XorShift;
    XorShiftIs(0xcd49466d3f6e195c, 33, 0xcd4946, [0x6, 0xd, 0x3, 0xf, 0x6, 0xe, 0x1, 0x9, 0x5, 0xc],
               [0x0, 0x0, 0x6, 0x6, 0xa, 0x4, 0xa, 0x3, 0x3, 0x6],
               [0x6, 0xd, 0x5, 0x9, 0xc, 0xa, 0xb, 0xa, 0x6, 0xa], 0xcd49466d59caba6a);
  }

  lemma MurmurC0()
    ensures Murmur64(0xeb) == 0xcd49466d59caba6a
  {
    hide XorShift, Multiply;
    MurmurC0First();
    MurmurC0Second();
    MurmurC0Third();
  }

  lemma HashC0()
    ensures HashIs(C, SEED_0, C_0, 1, Slots(6, 12, 20))
  {
    hide Murmur64, Positions, Shr;
    MurmurC0();
    TopBit(C_0);
    SlotsAre(C_0, 6, 2, 2);
  }

  lemma MurmurA1First()
    ensures Multiply(XorShift(0x24b580e1ce2fe463, 33), MURMUR_1) == 0x1cf7a7ad2ad74737
  {
    hide XorShift;
    XorShiftIs(0x24b580e1ce2fe463, 33, 0x24b580, [0xe, 0x1, 0xc, 0xe, 0x2, 0xf, 0xe, 0x4, 0x6, 0x3],
               [0x0, 0x0, 0x1, 0x2, 0x5, 0xa, 0xc, 0x0, 0x7, 0x0],
               [0xe, 0x1, 0xd, 0xc, 0x7, 0x5, 0x2, 0x4, 0x1, 0x3], 0x24b580e1dc752413);
  }

  lemma MurmurA1Second()
    ensures Multiply(XorShift(0x1cf7a7ad2ad74737, 33), MURMUR_2) == 0x916cdff83018b0f3
  {
    hide XorShift;
    XorShiftIs(0x1cf7a7ad2ad74737, 33, 0x1cf7a7, [0xa, 0xd, 0x2, 0xa, 0xd, 0x7, 0x4, 0x7, 0x3, 0x7],
               [0x0, 0x0, 0x0, 0xe, 0x7, 0xb, 0xd, 0x3, 0xd, 0x6],
               [0xa, 0xd, 0x2, 0x4, 0xa, 0xc, 0x9, 0x4, 0xe, 0x1], 0x1cf7a7ad24ac94e1);
  }

  lemma MurmurA1Third()
    ensures XorShift(0x916cdff83018b0f3, 33) == 0x916cdff878aedf0f
  {
    hide XorShift;
    XorShiftIs(0x916cdff83018b0f3, 33, 0x916cdf, [0xf, 0x8, 0x3, 0x0, 0x1, 0x8, 0xb, 0x0, 0xf, 0x3],
               [0x0, 0x0, 0x4, 0x8, 0xb, 0x6, 0x6, 0xf, 0xf, 0xc],
               [0xf, 0x8, 0x7, 0x8, 0xa, 0xe, 0xd, 0xf, 0x0, 0xf], 0x916cdff878aedf0f);
  }

  lemma MurmurA1()
    ensures Murmur64(0x24b580e1ce2fe463) == 0x916cdff878aedf0f
  {
    hide XorShift, Multiply;
    MurmurA1First();
    MurmurA1Second();
    MurmurA1Third();
  }

  lemma HashA1()
    ensures HashIs(A, SEED_1, A_1, 1, Slots(4, 15, 19))
  {
    hide Murmur64, Positions, Shr;
    MurmurA1();
    TopBit(A_1);
    SlotsAre(A_1, 4, 3, 7);
  }

  lemma MurmurB1First()
    ensures Multiply(XorShift(0x24b580e1ce2fe43c, 33), MURMUR_1) == 0xf627cec102e3a0dc
  {
    hide XorShift;
    XorShiftIs(0x24b580e1ce2fe43c, 33, 0x24b580, [0xe, 0x1, 0xc, 0xe, 0x2, 0xf, 0xe, 0x4, 0x3, 0xc],
               [0x0, 0x0, 0x1, 0x2, 0x5, 0xa, 0xc, 0x0, 0x7, 0x0],
               [0xe, 0x1, 0xd, 0xc, 0x7, 0x5, 0x2, 0x4, 0x4, 0xc], 0x24b580e1dc75244c);
  }

  lemma MurmurB1Second()
    ensures Multiply(XorShift(0xf627cec102e3a0dc, 33), MURMUR_2) == 0xdbef2eca67b491f4
  {
    hide XorShift;
    XorShiftIs(0xf627cec102e3a0dc, 33, 0xf627ce, [0xc, 0x1, 0x0, 0x2, 0xe, 0x3, 0xa, 0x0, 0xd, 0xc],
               [0x0, 0x0, 0x7, 0xb, 0x1, 0x3, 0xe, 0x7, 0x6, 0x0],
               [0xc, 0x1, 0x7, 0x9, 0xf, 0x0, 0x4, 0x7, 0xb, 0xc], 0xf627cec179f047bc);
  }

  lemma MurmurB1Third()
    ensures XorShift(0xdbef2eca67b491f4, 33) == 0xdbef2eca0a430691
  {
    hide XorShift;
    XorShiftIs(0xdbef2eca67b491f4, 33, 0xdbef2e, [0xc, 0xa, 0x6, 0x7, 0xb, 0x4, 0x9, 0x1, 0xf, 0x4],
               [0x0, 0x0, 0x6, 0xd, 0xf, 0x7, 0x9, 0x7, 0x6, 0x5],
               [0xc, 0xa, 0x0, 0xa, 0x4, 0x3, 0x0, 0x6, 0x9, 0x1], 0xdbef2eca0a430691);
  }

  lemma MurmurB1()
    ensures Murmur64(0x24b580e1ce2fe43c) == 0xdbef2eca0a430691
  {
    hide XorShift, Multiply;
    MurmurB1First();
    MurmurB1Second();
    MurmurB1Third();
  }

  lemma HashB1()
    ensures HashIs(B, SEED_1, B_1, 1, Slots(6, 14, 23))
  {
    hide Murmur64, Positions, Shr;
    MurmurB1();
    TopBit(B_1);
    SlotsAre(B_1, 6, 0, 1);
  }

  lemma MurmurC1First()
    ensures Multiply(XorShift(0x24b580e1ce2fe4a3, 33), MURMUR_1) == 0x9a3b899f2b00e0f7
  {
    hide XorShift;
    XorShiftIs(0x24b580e1ce2fe4a3, 33, 0x24b580, [0xe, 0x1, 0xc, 0xe, 0x2, 0xf, 0xe, 0x4, 0xa, 0x3],
               [0x0, 0x0, 0x1, 0x2, 0x5, 0xa, 0xc, 0x0, 0x7, 0x0],
               [0xe, 0x1, 0xd, 0xc, 0x7, 0x5, 0x2, 0x4, 0xd, 0x3], 0x24b580e1dc7524d3);
  }

  lemma MurmurC1Second()
    ensures Multiply(XorShift(0x9a3b899f2b00e0f7, 33), MURMUR_2) == 0xf981fb3279ee5e28
  {
    hide XorShift;
    XorShiftIs(0x9a3b899f2b00e0f7, 33, 0x9a3b89, [0x9, 0xf, 0x2, 0xb, 0x0, 0x0, 0xe, 0x0, 0xf, 0x7],
               [0x0, 0x0, 0x4, 0xd, 0x1, 0xd, 0xc, 0x4, 0xc, 0xf],
               [0x9, 0xf, 0x6, 0x6, 0x1, 0xd, 0x2, 0x4, 0x3, 0x8], 0x9a3b899f661d2438);
  }

  lemma MurmurC1Third()
    ensures XorShift(0xf981fb3279ee5e28, 33) == 0xf981fb32052ea3b1
  {
    hide XorShift;
    XorShiftIs(0xf981fb3279ee5e28, 33, 0xf981fb, [0x3, 0x2, 0x7, 0x9, 0xe, 0xe, 0x5, 0xe, 0x2, 0x8],
               [0x0, 0x0, 0x7, 0xc, 0xc, 0x0, 0xf, 0xd, 0x9, 0x9],
               [0x3, 0x2, 0x0, 0x5, 0x2, 0xe, 0xa, 0x3, 0xb, 0x1], 0xf981fb32052ea3b1);
  }

  lemma MurmurC1()
    ensures Murmur64(0x24b580e1ce2fe4a3) == 0xf981fb32052ea3b1
  {
    hide XorShift, Multiply;
    MurmurC1First();
    MurmurC1Second();
    MurmurC1Third();
  }

  lemma HashC1()
    ensures HashIs(C, SEED_1, C_1, 1, Slots(7, 12, 22))
  {
    hide Murmur64, Positions, Shr;
    MurmurC1();
    TopBit(C_1);
    SlotsAre(C_1, 7, 3, 1);
  }

  lemma MurmurZ1First()
    ensures Multiply(XorShift(0x24b580e1ce2fe3b8, 33), MURMUR_1) == 0x5009236aa2c70728
  {
    hide XorShift;
    XorShiftIs(0x24b580e1ce2fe3b8, 33, 0x24b580, [0xe, 0x1, 0xc, 0xe, 0x2, 0xf, 0xe, 0x3, 0xb, 0x8],
               [0x0, 0x0, 0x1, 0x2, 0x5, 0xa, 0xc, 0x0, 0x7, 0x0],
               [0xe, 0x1, 0xd, 0xc, 0x7, 0x5, 0x2, 0x3, 0xc, 0x8], 0x24b580e1dc7523c8);
  }

  lemma MurmurZ1Second()
    ensures Multiply(XorShift(0x5009236aa2c70728, 33), MURMUR_2) == 0x44b8d267dd390e7
  {
    hide XorShift;
    XorShiftIs(0x5009236aa2c70728, 33, 0x500923, [0x6, 0xa, 0xa, 0x2, 0xc, 0x7, 0x0, 0x7, 0x2, 0x8],
               [0x0, 0x0, 0x2, 0x8, 0x0, 0x4, 0x9, 0x1, 0xb, 0x5],
               [0x6, 0xa, 0x8, 0xa, 0xc, 0x3, 0x9, 0x6, 0x9, 0xd], 0x5009236a8ac3969d);
  }

  lemma MurmurZ1Third()
    ensures XorShift(0x44b8d267dd390e7, 33) == 0x44b8d267ff65674
  {
    hide XorShift;
    XorShiftIs(0x44b8d267dd390e7, 33, 0x44b8d, [0x2, 0x6, 0x7, 0xd, 0xd, 0x3, 0x9, 0x0, 0xe, 0x7],
               [0x0, 0x0, 0x0, 0x2, 0x2, 0x5, 0xc, 0x6, 0x9, 0x3],
               [0x2, 0x6, 0x7, 0xf, 0xf, 0x6, 0x5, 0x6, 0x7, 0x4], 0x44b8d267ff65674);
  }

  lemma MurmurZ1()
    ensures Murmur64(0x24b580e1ce2fe3b8) == 0x44b8d267ff65674
  {
    hide XorShift, Multiply;
    MurmurZ1First();
    MurmurZ1Second();
    MurmurZ1Third();
  }

  lemma HashZ1()
    ensures HashIs(Z, SEED_1, Z_1, 0, Slots(0, 13, 20))
  {
    hide Murmur64, Positions, Shr;
    MurmurZ1();
    TopBit(Z_1);
    SlotsAre(Z_1, 0, 5, 4);
  }

  lemma HashZ0()
    ensures HashIs(Z, SEED_0, 0, 0, Slots(0, 8, 16))
  {
    hide Murmur64, Positions, Shr;
    MurmurOfZero();
    TopBit(0);
    SlotsAre(0, 0, 0, 0);
  }
}
