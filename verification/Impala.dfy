/** The by-the-book scalar filter, for any number of blocks, and its agreement with the
    vectorised one. */
module Impala {
  import opened Words
  import opened Sbbf
  import Quick = QuickBloom

  class Impala {
    const bits: array<u32>
    const nblocks: nat

    ghost predicate Valid() {
      0 < nblocks && bits.Length == LANES * nblocks
    }

    // The addition wraps for the last 255 sizes, which give one block.
    constructor (nbits: u64)
      ensures Valid() && bits[..] == Empty(nblocks) && fresh(bits)
      ensures nbits <= TWO64 - 256 ==> nbits <= 256 * nblocks && (nblocks > 1 ==> 256 * (nblocks - 1) < nbits)
      ensures nbits > TWO64 - 256 ==> nblocks == 1
    {
      var n := (nbits as nat + 255) % TWO64 / 256;
      if n == 0 {
        n := 1;
      }
      nblocks := n;
      bits := new u32[8 * n](_ => 0);
    }

    constructor WithBlocks(n: nat)
      requires n > 0
      ensures Valid() && nblocks == n && bits[..] == Empty(n) && fresh(bits)
    {
      nblocks := n;
      bits := new u32[8 * n](_ => 0);
    }

    // `block_mask`
    method BlockMask(h32: u32) returns (out: array<u32>)
      ensures out.Length == LANES && fresh(out)
      ensures forall i :: 0 <= i < LANES ==> out[i] == LaneMask(h32, i)
    {
      hide LaneMask;
      out := new u32[8];
      for i := 0 to 8
        invariant forall k :: 0 <= k < i ==> out[k] == LaneMask(h32, k)
      {
        var bit := Shr(Times(h32, Salt(i)), 27);
        BitIsMask(h32, i);
        out[i] := Pow2(bit);
      }
    }

    static lemma BitIsMask(h32: u32, i: nat)
      requires i < LANES
      ensures Pow2(Shr(Times(h32, Salt(i)), 27)) == LaneMask(h32, i)
    {}

    method BlockFor(h: u64) returns (offset: nat)
      requires Valid()
      ensures offset == LANES * BlockIndex(nblocks, h) && offset + LANES <= bits.Length
    {
      BlockInRange(nblocks, h);
      offset := HighHalf(h) * nblocks / TWO32 * 8;
    }

    method InsertPrehash(h: u64)
      requires Valid()
      modifies bits
      ensures bits[..] == InsertOne(old(bits[..]), nblocks, h)
      ensures forall j: nat, b: nat :: j < bits.Length ==>
                (Bit(bits[j], b) <==> Bit(old(bits[j]), b) || SetsBit(nblocks, h, j, b))
    {
      BitsInserted(bits[..], nblocks, h);
      hide Bit, SetsBit, LaneMask, BlockIndex, Or;
      var blk := BlockFor(h);
      var mask := BlockMask(LowHalf(h));
      ghost var before := bits[..];
      for i := 0 to 8
        invariant forall k :: 0 <= k < LANES ==> mask[k] == LaneMask(LowHalf(h), k)
        invariant forall j :: 0 <= j < bits.Length ==>
                    bits[j] == if blk <= j < blk + i then Or(before[j], Mask(h, j - blk)) else before[j]
      {
        bits[blk + i] := Or(bits[blk + i], mask[i]);
      }
      assert bits[..] == InsertOne(before, nblocks, h);
    }

    method ContainsPrehash(h: u64) returns (found: bool)
      requires Valid()
      ensures found == Probe(bits[..], nblocks, h)
      ensures found <==> forall j: nat, b: nat :: j < bits.Length && SetsBit(nblocks, h, j, b) ==> Bit(bits[j], b)
    {
      ProbeBits(bits[..], nblocks, h);
      hide Bit, SetsBit, LaneMask, BlockIndex, And;
      var blk := BlockFor(h);
      var mask := BlockMask(LowHalf(h));
      for i := 0 to 8
        invariant forall k :: 0 <= k < i ==> Has(bits[blk + k], Mask(h, k))
      {
        if And(bits[blk + i], mask[i]) != mask[i] {
          assert !Has(bits[blk + i], Mask(h, i));
          return false;
        }
      }
      return true;
    }

    method InsertPrehashBulk(hashes: seq<u64>)
      requires Valid()
      modifies bits
      ensures bits[..] == InsertAll(old(bits[..]), nblocks, hashes)
    {
      hide InsertOne;
      ghost var before := bits[..];
      for i := 0 to |hashes|
        invariant bits[..] == InsertAll(before, nblocks, hashes[..i])
      {
        InsertPrehash(hashes[i]);
        InsertAllNext(before, nblocks, hashes, i);
      }
      assert hashes[..|hashes|] == hashes;
    }

    method ContainsPrehashBulk(hashes: seq<u64>) returns (hits: nat)
      requires Valid()
      ensures hits == Hits(bits[..], nblocks, hashes)
      ensures hits == |set i | 0 <= i < |hashes| && Probe(bits[..], nblocks, hashes[i])|
    {
      HitsIsCount(bits[..], nblocks, hashes);
      hide Probe;
      hits := 0;
      for i := 0 to |hashes|
        invariant hits == Hits(bits[..], nblocks, hashes[..i])
      {
        var found := ContainsPrehash(hashes[i]);
        HitsNext(bits[..], nblocks, hashes, i);
        hits := hits + if found then 1 else 0;
      }
      assert hashes[..|hashes|] == hashes;
    }
  }

  // The same hashes, in any order and grouped any way, into a vectorised and a scalar filter
  // of the same number of blocks: the lanes are equal word for word, and every probe agrees.
  method Agree(q: Quick.QuickBloom, s: Impala, a: seq<u64>, b: seq<u64>, probe: u64)
    returns (inQuick: bool, inScalar: bool)
    requires q.Valid() && s.Valid() && q.Blocks() == s.nblocks && q.bits != s.bits
    requires q.bits[..] == s.bits[..]
    requires forall x :: x in a <==> x in b
    modifies q.bits, s.bits
    ensures q.bits[..] == s.bits[..]
    ensures inQuick == inScalar && (probe in a ==> inQuick)
  {
    ghost var before := q.bits[..];
    assert Shape(before, s.nblocks);
    hide InsertAll, Probe;
    q.InsertPrehashBulk(a);
    s.InsertPrehashBulk(b);
    StateDependsOnSet(before, s.nblocks, a, b);
    inQuick := q.ContainsPrehash(probe);
    inScalar := s.ContainsPrehash(probe);
    if probe in a {
      StillFound(before, s.nblocks, a, probe);
    }
  }

  // An inserted hash is found whatever the filter held before.
  lemma StillFound(bits: seq<u32>, nblocks: nat, hs: seq<u64>, h: u64)
    requires Shape(bits, nblocks) && h in hs
    ensures Probe(InsertAll(bits, nblocks, hs), nblocks, h)
  {
    hide InsertAll, Mask, BlockIndex, Has, Or;
    var after := InsertAll(bits, nblocks, hs);
    Absorbed(bits, nblocks, hs, h);
    BlockInRange(nblocks, h);
    forall i | 0 <= i < LANES
      ensures Has(after[LANES * BlockIndex(nblocks, h) + i], Mask(h, i))
    {
      InsertedLane(after, nblocks, h, h, i);
      OrHasMask(after[LANES * BlockIndex(nblocks, h) + i], h, h, i);
    }
  }
}
