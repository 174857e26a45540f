/** Split block Bloom filters: the scalar algorithm of the Parquet specification as a
    reference, on a flat sequence of 32-bit lanes, eight lanes to a block. */
module Sbbf {
  import opened Words

  const LANES: nat := 8

  // Salt of lane i, in memory order.
  function Salt(i: nat): u32
    requires i < LANES
  {
    [0x47b6137b, 0x44974d91, 0x8824ad5b, 0xa2b7289d, 0x705495c7, 0x2df1424b, 0x9efc4947, 0x5c6bfb31][i]
  }

  // `(uint32_t)h`
  function LowHalf(h: u64): u32 {
    h % TWO32
  }

  // `(uint32_t)(h >> 32)`
  function HighHalf(h: u64): u32 {
    h / TWO32
  }

  // The product of two 32-bit words, on 32 bits.
  function Times(a: u32, b: u32): u32 {
    a * b % TWO32
  }

  // The bit that a lane gets: the top five bits of the salted hash.
  function LaneBit(h32: u32, i: nat): (bit: nat)
    requires i < LANES
    ensures bit < 32
  {
    TopFive(Times(h32, Salt(i)));
    Shr(Times(h32, Salt(i)), 27)
  }

  lemma TopFive(x: u32)
    ensures Shr(x, 27) < 32
  {
    Pow2Values();
    assert Pow2(5) == 32;
    ShrBelow(x, 27, 5);
  }

  function LaneMask(h32: u32, i: nat): u32
    requires i < LANES
  {
    BitFits(LaneBit(h32, i));
    Pow2(LaneBit(h32, i))
  }

  function Mask(h: u64, i: nat): u32
    requires i < LANES
  {
    LaneMask(LowHalf(h), i)
  }

  // The fastrange block index of the specification.
  function BlockIndex(nblocks: nat, h: u64): nat {
    HighHalf(h) * nblocks / TWO32
  }

  lemma BlockInRange(nblocks: nat, h: u64)
    requires nblocks > 0
    ensures BlockIndex(nblocks, h) < nblocks
  {
    MulMono(HighHalf(h), TWO32 - 1, nblocks);
    assert HighHalf(h) * nblocks < nblocks * 0x1_0000_0000;
  }

  predicate Shape(bits: seq<u32>, nblocks: nat) {
    nblocks > 0 && |bits| == LANES * nblocks
  }

  // Whether every bit of `mask` is set in `lane`.
  predicate Has(lane: u32, mask: u32) {
    And(lane, mask) == mask
  }

  lemma HasMask(lane: u32, h: u64, i: nat)
    requires i < LANES
    ensures Has(lane, Mask(h, i)) <==> Bit(lane, LaneBit(LowHalf(h), i))
  {
    AndPow2(lane, LaneBit(LowHalf(h), i));
  }

  lemma OrHasMask(lane: u32, x: u64, h: u64, i: nat)
    requires i < LANES
    ensures Has(Or(lane, Mask(x, i)), Mask(h, i)) <==> Has(lane, Mask(h, i)) || Mask(x, i) == Mask(h, i)
    ensures !Has(0, Mask(h, i))
  {
    hide Has, Or, LaneBit, Bit, Pow2;
    var s, t := LaneBit(LowHalf(h), i), LaneBit(LowHalf(x), i);
    HasMask(Or(lane, Mask(x, i)), h, i);
    HasMask(lane, h, i);
    HasMask(0, h, i);
    OrBit(lane, Mask(x, i), s);
    Pow2Bit(t, s);
    Pow2Bit(t, t);
    Pow2Bit(s, t);
    ZeroBit(s);
  }

  // ---- Inserting -----------------------------------------------------------------------------

  // The lanes after the insertion of one hash.
  function InsertOne(bits: seq<u32>, nblocks: nat, h: u64): (r: seq<u32>)
    requires Shape(bits, nblocks)
    ensures Shape(r, nblocks)
  {
    var base := LANES * BlockIndex(nblocks, h);
    seq(|bits|, j requires 0 <= j < |bits| =>
      if base <= j < base + LANES then Or(bits[j], Mask(h, j - base)) else bits[j])
  }

  function InsertAll(bits: seq<u32>, nblocks: nat, hs: seq<u64>): (r: seq<u32>)
    requires Shape(bits, nblocks)
    ensures Shape(r, nblocks)
  {
    if hs == [] then bits
    else InsertOne(InsertAll(bits, nblocks, hs[..|hs| - 1]), nblocks, hs[|hs| - 1])
  }

  // The probe: every lane of the block has its bit.
  predicate Probe(bits: seq<u32>, nblocks: nat, h: u64)
    requires Shape(bits, nblocks)
  {
    BlockInRange(nblocks, h);
    var base := LANES * BlockIndex(nblocks, h);
    forall i :: 0 <= i < LANES ==> Has(bits[base + i], Mask(h, i))
  }

  function Empty(nblocks: nat): seq<u32> {
    seq(LANES * nblocks, _ => 0)
  }

  // ---- What the bits mean -----------------------------------------------------------------------

  // Some inserted hash of the same block sets the same bit of lane i as `h`.
  ghost predicate Covered(nblocks: nat, hs: seq<u64>, h: u64, i: nat)
    requires i < LANES
  {
    exists k :: 0 <= k < |hs| && BlockIndex(nblocks, hs[k]) == BlockIndex(nblocks, h) && Mask(hs[k], i) == Mask(h, i)
  }

  lemma InsertedLane(bits: seq<u32>, nblocks: nat, x: u64, h: u64, i: nat)
    requires Shape(bits, nblocks) && i < LANES
    ensures BlockIndex(nblocks, h) < nblocks
    ensures var j := LANES * BlockIndex(nblocks, h) + i;
            InsertOne(bits, nblocks, x)[j] ==
            if BlockIndex(nblocks, x) == BlockIndex(nblocks, h) then Or(bits[j], Mask(x, i)) else bits[j]
  {
    hide BlockIndex, Mask, Or;
    BlockInRange(nblocks, h);
    BlockInRange(nblocks, x);
  }

  // The bitset is exactly the union of the masks of the inserted hashes, block by block.
  lemma {:induction false} LaneMeaning(nblocks: nat, hs: seq<u64>, h: u64, i: nat)
    requires nblocks > 0 && i < LANES
    ensures BlockIndex(nblocks, h) < nblocks
    ensures Has(InsertAll(Empty(nblocks), nblocks, hs)[LANES * BlockIndex(nblocks, h) + i], Mask(h, i)) <==>
            Covered(nblocks, hs, h, i)
  {
    hide BlockIndex, Mask, Has, InsertOne, Or, Covered;
    BlockInRange(nblocks, h);
    if hs == [] {
      OrHasMask(0, h, h, i);
      NothingCovered(nblocks, h, i);
    } else {
      var init, x := hs[..|hs| - 1], hs[|hs| - 1];
      LaneMeaning(nblocks, init, h, i);
      var before := InsertAll(Empty(nblocks), nblocks, init);
      InsertedLane(before, nblocks, x, h, i);
      OrHasMask(before[LANES * BlockIndex(nblocks, h) + i], x, h, i);
      CoveredSnoc(nblocks, init, x, h, i);
      assert hs == init + [x];
    }
  }

  lemma NothingCovered(nblocks: nat, h: u64, i: nat)
    requires i < LANES
    ensures !Covered(nblocks, [], h, i)
  {}

  lemma CoveredSnoc(nblocks: nat, hs: seq<u64>, x: u64, h: u64, i: nat)
    requires i < LANES
    ensures Covered(nblocks, hs + [x], h, i) <==>
            Covered(nblocks, hs, h, i) || (BlockIndex(nblocks, x) == BlockIndex(nblocks, h) && Mask(x, i) == Mask(h, i))
  {
    hide BlockIndex, Mask;
    var hs' := hs + [x];
    if Covered(nblocks, hs, h, i) {
      var k :| 0 <= k < |hs| && BlockIndex(nblocks, hs[k]) == BlockIndex(nblocks, h) && Mask(hs[k], i) == Mask(h, i);
      assert hs'[k] == hs[k];
    }
    assert hs'[|hs|] == x;
  }

  // After any run of insertions a probe hits exactly when every lane bit is covered.
  lemma ProbeMeaning(nblocks: nat, hs: seq<u64>, h: u64)
    requires nblocks > 0
    ensures Probe(InsertAll(Empty(nblocks), nblocks, hs), nblocks, h) <==>
            forall i :: 0 <= i < LANES ==> Covered(nblocks, hs, h, i)
  {
    hide BlockIndex, Mask, Has, InsertAll, Covered;
    forall i | 0 <= i < LANES
      ensures BlockIndex(nblocks, h) < nblocks
      ensures Has(InsertAll(Empty(nblocks), nblocks, hs)[LANES * BlockIndex(nblocks, h) + i], Mask(h, i)) <==>
              Covered(nblocks, hs, h, i)
    {
      LaneMeaning(nblocks, hs, h, i);
    }
  }

  lemma NoFalseNegatives(nblocks: nat, hs: seq<u64>, h: u64)
    requires nblocks > 0 && h in hs
    ensures Probe(InsertAll(Empty(nblocks), nblocks, hs), nblocks, h)
  {
    hide BlockIndex, Mask, InsertAll, Probe;
    ProbeMeaning(nblocks, hs, h);
    var k :| 0 <= k < |hs| && hs[k] == h;
    forall i | 0 <= i < LANES
      ensures Covered(nblocks, hs, h, i)
    {
      assert BlockIndex(nblocks, hs[k]) == BlockIndex(nblocks, h) && Mask(hs[k], i) == Mask(h, i);
    }
  }

  // ---- The same in numbers ----------------------------------------------------------------------

  // By the published formulas the hash sets bit `b` of lane `j`: multiply-and-shift of the upper
  // half gives the block, the top five bits of the salted lower half give the bit.
  predicate SetsBit(nblocks: nat, h: u64, j: nat, b: nat) {
    && h / 0x1_0000_0000 * nblocks / 0x1_0000_0000 == j / 8
    && h % 0x1_0000_0000 * [0x47b6137b, 0x44974d91, 0x8824ad5b, 0xa2b7289d, 0x705495c7, 0x2df1424b,
                            0x9efc4947, 0x5c6bfb31][j % 8] % 0x1_0000_0000 / 0x800_0000 == b
  }

  lemma LaneBitIs(h32: u32, i: nat)
    requires i < LANES
    ensures LaneBit(h32, i) == h32 * Salt(i) % 0x1_0000_0000 / 0x800_0000
  {
    hide Shr, Pow2, Salt;
    ShrIsQuotient(Times(h32, Salt(i)), 27);
    Pow27();
  }

  lemma Pow27()
    ensures Pow2(27) == 0x800_0000
  {
    assert Pow2(3) == 8 && Pow2(6) == 64;
    Pow2Add(6, 6);
    Pow2Add(12, 12);
    Pow2Add(24, 3);
  }

  lemma SetsBitIs(nblocks: nat, h: u64, j: nat, b: nat)
    ensures SetsBit(nblocks, h, j, b) <==> BlockIndex(nblocks, h) == j / LANES && LaneBit(LowHalf(h), j % LANES) == b
  {
    hide LaneBit;
    LaneBitIs(LowHalf(h), j % LANES);
  }

  // The bits of lanes 0 to 7 that the hash 1 sets.
  lemma BitsOfOne(i: nat)
    requires i < 8
    ensures SetsBit(1, 1, i, [8, 8, 17, 20, 14, 5, 19, 11][i])
  {
    assert i == 0 || i == 1 || i == 2 || i == 3 || i == 4 || i == 5 || i == 6 || i == 7;
  }

  lemma MaskBit(h: u64, i: nat, b: nat)
    requires i < LANES
    ensures Bit(Mask(h, i), b) <==> b == LaneBit(LowHalf(h), i)
  {
    hide LaneBit, Bit, Pow2;
    Pow2Bit(LaneBit(LowHalf(h), i), b);
  }

  // An insertion adds exactly the bits of its hash.
  lemma InsertedBit(bits: seq<u32>, nblocks: nat, h: u64, j: nat, b: nat)
    requires Shape(bits, nblocks) && j < |bits|
    ensures Bit(InsertOne(bits, nblocks, h)[j], b) <==> Bit(bits[j], b) || SetsBit(nblocks, h, j, b)
  {
    hide Bit, Or, Mask, BlockIndex, LaneBit, SetsBit;
    SetsBitIs(nblocks, h, j, b);
    var base := LANES * BlockIndex(nblocks, h);
    assert base <= j < base + LANES <==> BlockIndex(nblocks, h) == j / LANES;
    if base <= j < base + LANES {
      OrBit(bits[j], Mask(h, j - base), b);
      MaskBit(h, j - base, b);
    }
  }

  lemma BitsInserted(bits: seq<u32>, nblocks: nat, h: u64)
    requires Shape(bits, nblocks)
    ensures var r := InsertOne(bits, nblocks, h);
            forall j: nat, b: nat :: j < |bits| ==> (Bit(r[j], b) <==> Bit(bits[j], b) || SetsBit(nblocks, h, j, b))
  {
    hide Bit, InsertOne, SetsBit;
    forall j: nat, b: nat | j < |bits|
      ensures Bit(InsertOne(bits, nblocks, h)[j], b) <==> Bit(bits[j], b) || SetsBit(nblocks, h, j, b)
    {
      InsertedBit(bits, nblocks, h, j, b);
    }
  }

  // After any run a bit is set exactly when some inserted hash sets it.
  lemma {:induction false} ArrayMeaning(nblocks: nat, hs: seq<u64>, j: nat, b: nat)
    requires nblocks > 0 && j < 8 * nblocks
    ensures Bit(InsertAll(Empty(nblocks), nblocks, hs)[j], b) <==>
            exists k :: 0 <= k < |hs| && SetsBit(nblocks, hs[k], j, b)
  {
    hide Bit, InsertOne, SetsBit;
    if hs == [] {
      ZeroBit(b);
    } else {
      var n := |hs| - 1;
      ArrayMeaning(nblocks, hs[..n], j, b);
      InsertedBit(InsertAll(Empty(nblocks), nblocks, hs[..n]), nblocks, hs[n], j, b);
    }
  }

  // A probe succeeds exactly when every bit that the hash sets is set.
  lemma ProbeBits(bits: seq<u32>, nblocks: nat, h: u64)
    requires Shape(bits, nblocks)
    ensures Probe(bits, nblocks, h) <==>
            forall j: nat, b: nat :: j < |bits| && SetsBit(nblocks, h, j, b) ==> Bit(bits[j], b)
  {
    hide Bit, Has, Mask, BlockIndex, LaneBit, SetsBit;
    BlockInRange(nblocks, h);
    var base := LANES * BlockIndex(nblocks, h);
    forall i | 0 <= i < LANES
      ensures SetsBit(nblocks, h, base + i, LaneBit(LowHalf(h), i))
      ensures Has(bits[base + i], Mask(h, i)) <==> Bit(bits[base + i], LaneBit(LowHalf(h), i))
    {
      SetsBitIs(nblocks, h, base + i, LaneBit(LowHalf(h), i));
      HasMask(bits[base + i], h, i);
    }
    forall j: nat, b: nat | j < |bits| && SetsBit(nblocks, h, j, b)
      ensures base <= j < base + LANES && b == LaneBit(LowHalf(h), j - base)
    {
      SetsBitIs(nblocks, h, j, b);
    }
  }

  // ---- Order and repetition -----------------------------------------------------------------------

  lemma InsertCommutes(bits: seq<u32>, nblocks: nat, x: u64, y: u64)
    requires Shape(bits, nblocks)
    ensures InsertOne(InsertOne(bits, nblocks, x), nblocks, y) == InsertOne(InsertOne(bits, nblocks, y), nblocks, x)
  {
    hide BlockIndex, Mask;
    var l := InsertOne(InsertOne(bits, nblocks, x), nblocks, y);
    var r := InsertOne(InsertOne(bits, nblocks, y), nblocks, x);
    var baseX, baseY := LANES * BlockIndex(nblocks, x), LANES * BlockIndex(nblocks, y);
    forall j | 0 <= j < |bits|
      ensures l[j] == r[j]
    {
      if baseX <= j < baseX + LANES && baseY <= j < baseY + LANES {
        OrLaws(bits[j], Mask(x, j - baseX), Mask(y, j - baseY));
      }
    }
  }

  lemma InsertIdempotent(bits: seq<u32>, nblocks: nat, x: u64)
    requires Shape(bits, nblocks)
    ensures InsertOne(InsertOne(bits, nblocks, x), nblocks, x) == InsertOne(bits, nblocks, x)
  {
    hide BlockIndex, Mask;
    var once := InsertOne(bits, nblocks, x);
    var twice := InsertOne(once, nblocks, x);
    var base := LANES * BlockIndex(nblocks, x);
    forall j | 0 <= j < |bits|
      ensures twice[j] == once[j]
    {
      if base <= j < base + LANES {
        OrLaws(bits[j], Mask(x, j - base), 0);
      }
    }
  }

  lemma {:induction false} InsertAllConcat(bits: seq<u32>, nblocks: nat, a: seq<u64>, b: seq<u64>)
    requires Shape(bits, nblocks)
    ensures InsertAll(bits, nblocks, a + b) == InsertAll(InsertAll(bits, nblocks, a), nblocks, b)
  {
    hide InsertOne;
    if b == [] {
      assert a + b == a;
    } else {
      var n := |b| - 1;
      InsertAllConcat(bits, nblocks, a, b[..n]);
      assert (a + b)[..|a + b| - 1] == a + b[..n];
    }
  }

  lemma {:induction false} InsertPastAll(bits: seq<u32>, nblocks: nat, x: u64, hs: seq<u64>)
    requires Shape(bits, nblocks)
    ensures InsertAll(InsertOne(bits, nblocks, x), nblocks, hs) == InsertOne(InsertAll(bits, nblocks, hs), nblocks, x)
  {
    hide InsertOne;
    if hs != [] {
      var n := |hs| - 1;
      InsertPastAll(bits, nblocks, x, hs[..n]);
      InsertCommutes(InsertAll(bits, nblocks, hs[..n]), nblocks, x, hs[n]);
    }
  }

  lemma {:induction false} BatchesCommute(bits: seq<u32>, nblocks: nat, a: seq<u64>, b: seq<u64>)
    requires Shape(bits, nblocks)
    ensures InsertAll(InsertAll(bits, nblocks, a), nblocks, b) == InsertAll(InsertAll(bits, nblocks, b), nblocks, a)
  {
    hide InsertOne;
    if a != [] {
      var n := |a| - 1;
      InsertPastAll(InsertAll(bits, nblocks, a[..n]), nblocks, a[n], b);
      BatchesCommute(bits, nblocks, a[..n], b);
    }
  }

  lemma {:induction false} Absorbed(bits: seq<u32>, nblocks: nat, hs: seq<u64>, x: u64)
    requires Shape(bits, nblocks) && x in hs
    ensures InsertOne(InsertAll(bits, nblocks, hs), nblocks, x) == InsertAll(bits, nblocks, hs)
  {
    hide InsertOne;
    var n := |hs| - 1;
    var before := InsertAll(bits, nblocks, hs[..n]);
    if hs[n] == x {
      InsertIdempotent(before, nblocks, x);
    } else {
      Absorbed(bits, nblocks, hs[..n], x);
      InsertCommutes(before, nblocks, hs[n], x);
    }
  }

  lemma {:induction false} AllAbsorbed(bits: seq<u32>, nblocks: nat, hs: seq<u64>, more: seq<u64>)
    requires Shape(bits, nblocks) && forall x :: x in more ==> x in hs
    ensures InsertAll(InsertAll(bits, nblocks, hs), nblocks, more) == InsertAll(bits, nblocks, hs)
  {
    hide InsertOne;
    if more != [] {
      var n := |more| - 1;
      AllAbsorbed(bits, nblocks, hs, more[..n]);
      Absorbed(bits, nblocks, hs, more[n]);
    }
  }

  // The final bits depend on the set of inserted hashes only.
  lemma StateDependsOnSet(bits: seq<u32>, nblocks: nat, a: seq<u64>, b: seq<u64>)
    requires Shape(bits, nblocks) && forall x :: x in a <==> x in b
    ensures InsertAll(bits, nblocks, a) == InsertAll(bits, nblocks, b)
  {
    AllAbsorbed(bits, nblocks, a, b);
    AllAbsorbed(bits, nblocks, b, a);
    BatchesCommute(bits, nblocks, a, b);
  }

  // ---- Batches of probes --------------------------------------------------------------------------

  function Hits(bits: seq<u32>, nblocks: nat, hs: seq<u64>): nat
    requires Shape(bits, nblocks)
  {
    if hs == [] then 0
    else Hits(bits, nblocks, hs[..|hs| - 1]) + if Probe(bits, nblocks, hs[|hs| - 1]) then 1 else 0
  }

  // It is the number of entries whose probe succeeds.
  lemma {:induction false} HitsIsCount(bits: seq<u32>, nblocks: nat, hs: seq<u64>)
    requires Shape(bits, nblocks)
    ensures Hits(bits, nblocks, hs) == |set i | 0 <= i < |hs| && Probe(bits, nblocks, hs[i])|
  {
    hide Probe;
    var found := set i | 0 <= i < |hs| && Probe(bits, nblocks, hs[i]);
    if hs == [] {
      assert found == {};
    } else {
      var n := |hs| - 1;
      var before := set i | 0 <= i < n && Probe(bits, nblocks, hs[..n][i]);
      HitsIsCount(bits, nblocks, hs[..n]);
      CountOneMore(before, found, n, Probe(bits, nblocks, hs[n]));
    }
  }

  lemma InsertAllNext(bits: seq<u32>, nblocks: nat, hs: seq<u64>, i: nat)
    requires Shape(bits, nblocks) && i < |hs|
    ensures InsertAll(bits, nblocks, hs[..i + 1]) == InsertOne(InsertAll(bits, nblocks, hs[..i]), nblocks, hs[i])
  {
    assert hs[..i + 1][..i] == hs[..i];
  }

  lemma HitsNext(bits: seq<u32>, nblocks: nat, hs: seq<u64>, i: nat)
    requires Shape(bits, nblocks) && i < |hs|
    ensures Hits(bits, nblocks, hs[..i + 1]) ==
            Hits(bits, nblocks, hs[..i]) + if Probe(bits, nblocks, hs[i]) then 1 else 0
  {
    assert hs[..i + 1][..i] == hs[..i];
  }
}
