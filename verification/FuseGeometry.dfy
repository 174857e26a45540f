/** Where a hash lives: the fixed-point product, the three positions in consecutive segments,
    and the integer part of the sizing. */
module FuseGeometry {
  import opened Words
  import opened FuseTable

  // ---- The high half of a 128-bit product ----------------------------------------------------

  // The four-product branch for compilers without a 128-bit type, every step on 64 bits.
  function MulHi(a: u64, b: u64): u64 {
    var a0, a1 := a % TWO32, a / TWO32;
    var b0, b1 := b % TWO32, b / TWO32;
    Combine(a1 * b1 % TWO64, a0 * b1 % TWO64, a1 * b0 % TWO64, a0 * b0 % TWO64)
  }

  function Combine(p11: u64, p01: u64, p10: u64, p00: u64): u64 {
    var middle := (p10 + p00 / TWO32 + p01 % TWO32) % TWO64;
    (p11 + middle / TWO32 + p01 / TWO32) % TWO64
  }

  lemma ProductFits(x: nat, y: nat)
    requires x < TWO32 && y < TWO32
    ensures x * y <= 0xffff_fffe_0000_0001
    ensures x * y % TWO64 == x * y
  {
    MulMono(x, 0xffff_ffff, y);
    MulMono(y, 0xffff_ffff, 0xffff_ffff);
  }

  lemma SplitProduct(a0: nat, a1: nat, b0: nat, b1: nat, B: nat)
    ensures (a1 * B + a0) * (b1 * B + b0) == (a1 * b1) * (B * B) + (a0 * b1 + a1 * b0) * B + a0 * b0
  {
    assert (a1 * B + a0) * (b1 * B + b0) == (a1 * B) * (b1 * B) + (a1 * B) * b0 + a0 * (b1 * B) + a0 * b0;
    assert (a1 * B) * (b1 * B) == (a1 * b1) * (B * B);
    assert (a1 * B) * b0 == (a1 * b0) * B;
    assert a0 * (b1 * B) == (a0 * b1) * B;
  }

  // No sum in the portable branch wraps around.
  lemma CombineExact(product: nat, p11: u64, p01: u64, p10: u64, p00: u64)
    requires product == p11 * 0x1_0000_0000_0000_0000 + (p01 + p10) * 0x1_0000_0000 + p00
    requires p11 <= 0xffff_fffe_0000_0001 && p01 <= 0xffff_fffe_0000_0001
    requires p10 <= 0xffff_fffe_0000_0001 && p00 <= 0xffff_fffe_0000_0001
    ensures p10 + p00 / TWO32 + p01 % TWO32 < TWO64
    ensures Combine(p11, p01, p10, p00) == product / TWO64
  {
    var middle: nat := p10 + p00 / 0x1_0000_0000 + p01 % 0x1_0000_0000;
    assert product / 0x1_0000_0000_0000_0000 == p11 + middle / 0x1_0000_0000 + p01 / 0x1_0000_0000;
  }

  lemma MulHiExact(a: u64, b: u64)
    ensures MulHi(a, b) == a * b / TWO64
  {
    hide Combine;
    var a0, a1, b0, b1 := a % TWO32, a / TWO32, b % TWO32, b / TWO32;
    ProductFits(a1, b1);
    ProductFits(a0, b1);
    ProductFits(a1, b0);
    ProductFits(a0, b0);
    var p11, p01, p10, p00 := a1 * b1, a0 * b1, a1 * b0, a0 * b0;
    assert MulHi(a, b) == Combine(p11, p01, p10, p00);
    HalvesProduct(a, b, a0, a1, b0, b1);
    CombineExact(a * b, p11, p01, p10, p00);
  }

  lemma HalvesProduct(a: nat, b: nat, a0: nat, a1: nat, b0: nat, b1: nat)
    requires a == a1 * 0x1_0000_0000 + a0 && b == b1 * 0x1_0000_0000 + b0
    ensures a * b == (a1 * b1) * 0x1_0000_0000_0000_0000 + (a0 * b1 + a1 * b0) * 0x1_0000_0000 + a0 * b0
  {
    SplitProduct(a0, a1, b0, b1, 0x1_0000_0000);
  }

  // ---- The three positions ---------------------------------------------------------------------

  // The size fields of a filter.
  datatype Layout = Layout(segmentLength: u32, segmentLengthMask: u32, segmentCount: u32,
                           segmentCountLength: u32, arrayLength: u32)

  // Segments of length 2^e, at least one start segment, and two more for the other positions.
  ghost predicate Fits(L: Layout, e: nat) {
    && 2 <= e <= 18
    && L.segmentLength == Pow2(e)
    && L.segmentLengthMask == Pow2(e) - 1
    && L.segmentCount >= 1
    && L.segmentCountLength == L.segmentCount * Pow2(e)
    && L.arrayLength == (L.segmentCount + 2) * Pow2(e)
  }

  // `binary_fuse8_hash`
  function Hash(index: nat, hash: u64, L: Layout): u32
    requires index <= 2
  {
    var h := (MulHi(hash, L.segmentCountLength) + index * L.segmentLength) % TWO64;
    var hh := Low(hash, 36);
    Xor(h, And(Shr(hh, 36 - 18 * index), L.segmentLengthMask)) % TWO32
  }

  // `binary_fuse8_hash_batch`
  function HashBatch(hash: u64, L: Layout): Slots {
    var h0 := MulHi(hash, L.segmentCountLength) % TWO32;
    var h1 := (h0 + L.segmentLength) % TWO32;
    var h2 := (h1 + L.segmentLength) % TWO32;
    Slots(h0, Xor(h1, And(Low(Shr(hash, 18), 32), L.segmentLengthMask)),
          Xor(h2, And(Low(hash, 32), L.segmentLengthMask)))
  }

  function Positions(hash: u64, L: Layout): Slots {
    Slots(Hash(0, hash, L), Hash(1, hash, L), Hash(2, hash, L))
  }

  lemma HighHalfBelow(hash: u64, m: u32)
    requires m > 0
    ensures MulHi(hash, m) < m
  {
    MulHiExact(hash, m);
    MulMono(hash, TWO64 - 1, m);
    assert hash * m < m * 0x1_0000_0000_0000_0000;
  }

  // Xor with a number below 2^e moves within a segment.
  lemma XorInSegment(x: nat, m: nat, e: nat)
    requires m < Pow2(e)
    ensures Shr(Xor(x, m), e) == Shr(x, e)
  {
    XorShr(x, m, e);
    ShrVanishes(m, e, e);
    XorZero(Shr(x, e));
  }

  lemma BelowSegmentEnd(x: nat, e: nat, count: nat)
    ensures x < count * Pow2(e) <==> Shr(x, e) < count
  {
    hide Pow2, Shr, Low;
    var s, p := Shr(x, e), Pow2(e);
    ShrLow(x, e);
    if s < count {
      MulMono(s + 1, count, p);
      assert (s + 1) * p == s * p + p;
    } else {
      MulMono(count, s, p);
    }
  }

  // The masked offset that distinguishes positions 1 and 2 within their segments.
  function Offset(hash: u64, i: nat, e: nat): nat
    requires i <= 2
  {
    if i == 0 then 0 else Low(Shr(hash, 36 - 18 * i), e)
  }

  lemma MaskedOffset(hash: u64, i: nat, e: nat)
    requires i <= 2 && e <= 18
    ensures And(Shr(Low(hash, 36), 36 - 18 * i), Pow2(e) - 1) == Offset(hash, i, e) < Pow2(e)
  {
    hide Low, Shr, And, Pow2;
    AndMask(Shr(Low(hash, 36), 36 - 18 * i), e);
    ShrLow(Shr(hash, 36 - 18 * i), e);
    if i == 0 {
      ShrLow(hash, 36);
      ShrVanishes(Low(hash, 36), 36, 36);
      LowZero(e);
    } else {
      ShrOfLow(hash, 36 - 18 * i, 18 * i);
      LowLow(Shr(hash, 36 - 18 * i), 18 * i, e);
    }
  }

  // The cell `i` segments after `base`.
  function SegmentsOn(base: nat, i: nat, e: nat): nat {
    base + i * Pow2(e)
  }

  lemma BaseInRange(hash: u64, i: nat, L: Layout, e: nat)
    requires Fits(L, e) && i <= 2
    ensures var base := MulHi(hash, L.segmentCountLength);
            && Shr(SegmentsOn(base, i, e), e) == Shr(base, e) + i < L.segmentCount + 2
            && SegmentsOn(base, i, e) < L.arrayLength
  {
    hide MulHi, Shr, Pow2;
    var base, p := MulHi(hash, L.segmentCountLength), Pow2(e);
    MulMono(1, L.segmentCount, p);
    HighHalfBelow(hash, L.segmentCountLength);
    BelowSegmentEnd(base, e, L.segmentCount);
    ShrAddBlock(base, i, e);
    BelowSegmentEnd(base + i * p, e, L.segmentCount + 2);
  }

  // Position i lies in the i-th segment after the one picked by the product.
  lemma PositionSegment(hash: u64, i: nat, L: Layout, e: nat)
    requires Fits(L, e) && i <= 2
    ensures var base := MulHi(hash, L.segmentCountLength);
            && Hash(i, hash, L) == Xor(SegmentsOn(base, i, e), Offset(hash, i, e))
            && Shr(Hash(i, hash, L), e) == Shr(base, e) + i
            && Hash(i, hash, L) < L.arrayLength
  {
    assert e <= 18;
    hide *;
    var on := SegmentsOn(MulHi(hash, L.segmentCountLength), i, e);
    var x := Xor(on, Offset(hash, i, e));
    BaseInRange(hash, i, L, e);
    MaskedOffset(hash, i, e);
    XorInSegment(on, Offset(hash, i, e), e);
    InArray(x, L, e);
    Fits32(on, L.arrayLength);
    Fits32(x, L.arrayLength);
    HashBase(hash, i, L, e);
  }

  // The positions in numbers: the product picks the first segment, bits 18 and up of the hash the
  // cell of the second position, and the lowest bits that of the third.
  lemma PositionIs(hash: u64, i: nat, L: Layout, e: nat)
    requires Fits(L, e) && i <= 2
    ensures Hash(i, hash, L) == Xor(hash * L.segmentCountLength / 0x1_0000_0000_0000_0000 + i * Pow2(e),
                                    OffsetNumber(hash, i, Pow2(e)))
  {
    hide MulHi, Hash, Xor, Shr, Low, Pow2;
    PositionSegment(hash, i, L, e);
    MulHiExact(hash, L.segmentCountLength);
    OffsetIs(hash, i, e);
  }

  function OffsetNumber(hash: u64, i: nat, segmentLength: nat): nat
    requires i <= 2 && segmentLength > 0
  {
    if i == 0 then 0 else if i == 1 then hash / 0x4_0000 % segmentLength else hash % segmentLength
  }

  lemma OffsetIs(hash: u64, i: nat, e: nat)
    requires i <= 2
    ensures Offset(hash, i, e) == OffsetNumber(hash, i, Pow2(e))
  {
    hide Shr, Low, Pow2;
    LengthIsPower(2);
    ShrIsQuotient(hash, 18);
    LowIsRemainder(Shr(hash, 18), e);
    LowIsRemainder(hash, e);
    NotShifted(hash);
  }

  lemma NotShifted(hash: u64)
    ensures Shr(hash, 0) == hash
  {}

  lemma Fits32(x: nat, n: u32)
    requires x < n
    ensures x < TWO64 && x % TWO32 == x
  {}

  lemma InArray(x: nat, L: Layout, e: nat)
    requires Fits(L, e) && Shr(x, e) < L.segmentCount + 2
    ensures x < L.arrayLength
  {
    hide Shr, Pow2;
    BelowSegmentEnd(x, e, L.segmentCount + 2);
  }

  lemma HashBase(hash: u64, i: nat, L: Layout, e: nat)
    requires Fits(L, e) && i <= 2
    ensures var on := SegmentsOn(MulHi(hash, L.segmentCountLength), i, e);
            on < TWO64 ==>
              Hash(i, hash, L) == Xor(on, And(Shr(Low(hash, 36), 36 - 18 * i), Pow2(e) - 1)) % TWO32
  {
    hide MulHi, Low, Shr, And, Pow2, Xor;
  }

  lemma PositionsGood(hash: u64, L: Layout, e: nat)
    requires Fits(L, e)
    ensures Positions(hash, L).In(L.arrayLength)
  {
    hide Hash, Shr, MulHi, Xor, Offset;
    PositionSegment(hash, 0, L, e);
    PositionSegment(hash, 1, L, e);
    PositionSegment(hash, 2, L, e);
  }

  // The 32-bit sums of the batch form do not wrap.
  lemma BatchSums(base: nat, p: nat, arrayLength: u32)
    requires base + 2 * p < arrayLength
    ensures base % TWO32 == base
    ensures (base + p) % TWO32 == base + p
    ensures (base + p + p) % TWO32 == base + 2 * p
  {}

  lemma BatchOffsets(hash: u64, L: Layout, e: nat)
    requires Fits(L, e)
    ensures And(Low(Shr(hash, 18), 32), L.segmentLengthMask) == Offset(hash, 1, e)
    ensures And(Low(hash, 32), L.segmentLengthMask) == Offset(hash, 2, e)
  {
    hide Low, And, Pow2;
    AndMask(Low(Shr(hash, 18), 32), e);
    LowLow(Shr(hash, 18), 32, e);
    AndMask(Low(hash, 32), e);
    LowLow(hash, 32, e);
  }

  lemma BatchAgrees(hash: u64, L: Layout, e: nat)
    requires Fits(L, e)
    ensures HashBatch(hash, L) == Positions(hash, L)
  {
    var base := MulHi(hash, L.segmentCountLength);
    assert 2 <= e <= 18;
    hide *;
    PositionSegment(hash, 0, L, e);
    PositionSegment(hash, 1, L, e);
    PositionSegment(hash, 2, L, e);
    BaseInRange(hash, 2, L, e);
    BatchOffsets(hash, L, e);
    NoOffset(hash, e);
    XorZero(SegmentsOn(base, 0, e));
    BatchParts(hash, L, e);
  }

  // The batch form in terms of the segments and offsets.
  lemma BatchParts(hash: u64, L: Layout, e: nat)
    requires Fits(L, e) && SegmentsOn(MulHi(hash, L.segmentCountLength), 2, e) < L.arrayLength
    ensures var base, b := MulHi(hash, L.segmentCountLength), HashBatch(hash, L);
            && b.p0 == SegmentsOn(base, 0, e)
            && b.p1 == Xor(SegmentsOn(base, 1, e), And(Low(Shr(hash, 18), 32), L.segmentLengthMask))
            && b.p2 == Xor(SegmentsOn(base, 2, e), And(Low(hash, 32), L.segmentLengthMask))
    ensures Positions(hash, L) == Slots(Hash(0, hash, L), Hash(1, hash, L), Hash(2, hash, L))
  {
    hide MulHi, Low, Shr, And, Pow2, Xor, Hash;
    BatchSums(MulHi(hash, L.segmentCountLength), Pow2(e), L.arrayLength);
  }

  lemma NoOffset(hash: u64, e: nat)
    ensures Offset(hash, 0, e) == 0
  {}

  // ---- Sizing -----------------------------------------------------------------------------------

  function SegmentExponent(size: u32, exponent: nat): nat {
    if size == 0 then 2 else if exponent > 18 then 18 else exponent
  }

  function SegmentLength(size: u32, exponent: nat): (length: nat)
    requires exponent <= 31
    ensures length == Pow2(SegmentExponent(size, exponent)) <= 262144
  {
    LengthIsPower(exponent);
    var length := if size == 0 then 4 else Pow2(exponent) % TWO32;
    if length > 262144 then 262144 else length
  }

  // The segment length is the given power of two, capped at 2^18, and 4 for no keys.
  lemma SegmentLengthIs(size: u32, exponent: nat)
    requires exponent <= 31
    ensures SegmentLength(size, exponent) ==
            if size == 0 then 4 else if Pow2(exponent) < 262144 then Pow2(exponent) else 262144
  {
    hide Pow2;
    LengthIsPower(exponent);
  }

  lemma LengthIsPower(exponent: nat)
    requires exponent <= 31
    ensures Pow2(2) == 4 && Pow2(18) == 262144 && Pow2(exponent) < TWO32
    ensures exponent > 18 ==> Pow2(exponent) > 262144
    ensures exponent <= 18 ==> Pow2(exponent) <= 262144
  {
    Pow2Values();
    assert Pow2(10) == 1024;
    Pow2Add(8, 10);
    Pow2Mono(exponent, 31);
    if exponent > 18 {
      Pow2Mono(19, exponent);
    } else {
      Pow2Mono(exponent, 18);
    }
  }

  // The integer part of `binary_fuse8_allocate`: `exponent` and `capacity` are the rounded
  // results of the logarithm formulas; every operation is on 32 bits.
  function Sizing(size: u32, exponent: nat, capacity: u32): Layout
    requires exponent <= 31
  {
    var length := SegmentLength(size, exponent);
    Segments(RoundedCount(if size <= 1 then 0 else capacity, length), length)
  }

  // The 32-bit operations of the sizing.
  function Wrap(x: nat): u32 {
    x % TWO32
  }

  function Product(a: nat, b: nat): nat {
    a * b
  }

  function Quotient(x: nat, d: nat): nat
    requires d > 0
  {
    x / d
  }

  function RoundedCount(wanted: u32, length: nat): nat
    requires 0 < length
  {
    var initSegmentCount := Wrap(Quotient(Wrap(wanted as nat + length - 1), length) + TWO32 - 2);
    var arrayLength := Wrap(Product(Wrap(initSegmentCount as nat + 2), length));
    Quotient(Wrap(arrayLength as nat + length - 1), length)
  }

  function Segments(roundedCount: nat, length: nat): Layout
    requires 0 < length <= 262144
  {
    var segmentCount: nat := if roundedCount <= 2 then 1 else Wrap(roundedCount - 2);
    Layout(length, length - 1, segmentCount, Wrap(Product(segmentCount, length)),
           Wrap(Product(Wrap(segmentCount + 2), length)))
  }

  lemma QuotientFacts(x: nat, d: nat)
    requires d > 0
    ensures Product(Quotient(x, d), d) <= x < Product(Quotient(x, d), d) + d
    ensures Quotient(x, d) <= x
  {
    var q := x / d;
    assert q * d <= x < q * d + d;
    MulMono(1, d, q);
    assert d * q == q * d;
  }

  lemma QuotientOf(c: nat, d: nat)
    requires d > 0
    ensures Quotient(Product(c, d) + d - 1, d) == c
  {
    DivUnique(c * d + d - 1, d, c);
  }

  // The wrap-around of `initSegmentCount` cancels: the count is the rounded-up quotient, unless
  // rounding up itself leaves 32 bits, which gives the count 0.
  lemma RoundedCountExact(wanted: u32, length: nat, e: nat)
    requires e <= 18 && length == Pow2(e)
    ensures var c := RoundedCount(wanted, length);
            if wanted as nat + length <= TWO32
            then wanted <= Product(c, length) < wanted as nat + length && Product(c, length) < TWO32
            else c == 0
  {
    hide Product, Quotient, Pow2, RoundedCount;
    LengthIsPower(e);
    WholeSegments(e);
    var x: nat := wanted as nat + length - 1;
    if x < TWO32 {
      QuotientFacts(x, length);
      BelowWhole(Quotient(x, length), Pow2(32 - e), length);
      CountOf(wanted, length, Quotient(x, length));
    } else {
      QuotientFacts(x - TWO32, length);
      ZeroQuotient(Quotient(x - TWO32, length), length);
      CountOf(wanted, length, 0);
    }
  }

  lemma WholeSegments(e: nat)
    requires e <= 18
    ensures Pow2(e) > 0 && Product(Pow2(32 - e), Pow2(e)) == TWO32
  {
    hide Pow2;
    Pow2Add(e, 32 - e);
    Pow2Values();
  }

  // The count for a given quotient of the wrapped sum.
  lemma CountOf(wanted: u32, length: nat, c: u32)
    requires 0 < length && Quotient(Wrap(wanted as nat + length - 1), length) == c
    requires Product(c, length) + length <= TWO32
    ensures RoundedCount(wanted, length) == c
  {
    hide Product, Quotient;
    WrapCancels(c);
    QuotientOf(c, length);
  }

  lemma BelowWhole(c: nat, d: nat, length: nat)
    requires Product(c, length) < Product(d, length)
    ensures Product(c, length) + length <= Product(d, length)
  {
    MulLess(c, d, length);
    MulMono(c + 1, d, length);
    assert (c + 1) * length == c * length + length;
  }

  lemma ZeroQuotient(c: nat, length: nat)
    requires Product(c, length) < length
    ensures c == 0
  {
    MulLess(c, 1, length);
  }

  lemma WrapCancels(c: nat)
    requires c < TWO32
    ensures Wrap(Wrap(c + TWO32 - 2) as nat + 2) == c
  {}

  lemma SegmentsFit(c: nat, length: nat, e: nat)
    requires 2 <= e <= 18 && length == Pow2(e) <= 262144 && Product(c, length) < TWO32
    ensures var L := Segments(c, length);
            && Fits(L, e)
            && L.segmentCount == (if c <= 2 then 1 else c - 2)
            && L.arrayLength == if c <= 2 then 3 * length else Product(c, length)
  {
    hide Pow2, Product;
    var count := if c <= 2 then 1 else c - 2;
    if c > 2 {
      CountFacts(c, length);
    }
    SmallProducts(count, length);
  }

  lemma SmallProducts(count: nat, length: nat)
    ensures Product(count, length) == count * length && Product(count + 2, length) == (count + 2) * length
    ensures Product(1, length) == length && Product(3, length) == 3 * length
  {}

  lemma CountFacts(c: nat, length: nat)
    requires c > 2 && length > 0
    ensures c <= Product(c, length) && Product(c - 2, length) + 2 * length == Product(c, length)
  {
    MulMono(1, length, c);
  }

  // Sizing always yields a usable layout, with the rounded-up number of segments less two, but
  // at least one.  The layout holds the wanted number of slots exactly when rounding that number
  // up stays within 32 bits.
  lemma SizingFits(size: u32, exponent: nat, capacity: u32)
    requires 2 <= exponent <= 31
    ensures var L := Sizing(size, exponent, capacity);
            var wanted: nat := if size <= 1 then 0 else capacity;
            && Fits(L, SegmentExponent(size, exponent))
            && (wanted <= L.arrayLength <==> wanted + L.segmentLength <= TWO32)
            && (L.segmentCount > 1 ==> L.arrayLength < wanted + L.segmentLength)
            && (wanted + L.segmentLength > TWO32 ==> L.segmentCount == 1)
  {
    hide Pow2, RoundedCount, Segments;
    var length := SegmentLength(size, exponent);
    var wanted: u32 := if size <= 1 then 0 else capacity;
    var c := RoundedCount(wanted, length);
    RoundedCountExact(wanted, length, SegmentExponent(size, exponent));
    SegmentsFit(c, length, SegmentExponent(size, exponent));
    assert c <= 2 ==> Product(c, length) <= 2 * length;
  }
}
