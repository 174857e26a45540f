/** The AVX2 filter: 256-bit vectors as eight lanes, a right shift as the block index, and
    unrolled batch loops, proved against the scalar specification. */
module QuickBloom {
  import opened Words
  import opened Sbbf

  // ---- 256-bit vectors ------------------------------------------------------------------------

  type Vec = v: seq<u32> | |v| == LANES witness [0, 0, 0, 0, 0, 0, 0, 0]

  // Arguments from the highest lane to the lowest.
  function SetEpi32(e7: u32, e6: u32, e5: u32, e4: u32, e3: u32, e2: u32, e1: u32, e0: u32): Vec {
    [e0, e1, e2, e3, e4, e5, e6, e7]
  }

  function Set1(x: u32): Vec {
    seq(LANES, _ => x)
  }

  function MulLo(a: Vec, b: Vec): Vec {
    seq(LANES, i requires 0 <= i < LANES => Times(a[i], b[i]))
  }

  function Srl(x: u32, n: nat): u32 {
    ShrShrinks(x, n);
    Shr(x, n)
  }

  // A count of 32 or more gives zero.
  function Sllv(x: u32, n: u32): u32 {
    if n < 32 then x * Pow2(n) % TWO32 else 0
  }

  function ShiftRight(a: Vec, n: nat): Vec
  {
    seq(LANES, i requires 0 <= i < LANES => Srl(a[i], n))
  }

  // Per-lane variable shift.
  function ShiftLeftVar(a: Vec, counts: Vec): Vec {
    seq(LANES, i requires 0 <= i < LANES => Sllv(a[i], counts[i]))
  }

  function OrVec(a: Vec, b: Vec): Vec {
    seq(LANES, i requires 0 <= i < LANES => Or(a[i], b[i]))
  }

  // All bits of `m` set in `c`: the carry flag of vptest, from the and-not.
  predicate TestC(c: Vec, m: Vec) {
    forall i :: 0 <= i < LANES ==> AndNot(c[i], m[i]) == 0
  }

  function AndNot(c: u32, m: u32): nat {
    And(TWO32 - 1 - c, m)
  }

  lemma AndNotHas(c: u32, m: u32)
    ensures AndNot(c, m) == 0 <==> Has(c, m)
  {
    Pow2Values();
    AndNotZero(c, m, 32);
  }

  function MaskFor(h32: u32): Vec {
    var salt := SetEpi32(0x5c6bfb31, 0x9efc4947, 0x2df1424b, 0x705495c7,
                         0xa2b7289d, 0x8824ad5b, 0x44974d91, 0x47b6137b);
    ShiftLeftVar(Set1(1), ShiftRight(MulLo(Set1(h32), salt), 27))
  }

  // The vector computes the scalar lane masks, in the same lane order.
  lemma MaskForLanes(h32: u32)
    ensures forall i :: 0 <= i < LANES ==> MaskFor(h32)[i] == LaneMask(h32, i)
  {
    forall i | 0 <= i < LANES
      ensures MaskFor(h32)[i] == LaneMask(h32, i)
    {
      hide Times, Sllv, Srl, LaneBit, Pow2;
      ShiftsToMask(h32, i);
    }
  }

  lemma ShiftsToMask(h32: u32, i: nat)
    requires i < LANES
    ensures Sllv(1, Srl(Times(h32, Salt(i)), 27)) == LaneMask(h32, i)
  {
    hide Times, Salt, Shr, Pow2;
    BitFits(LaneBit(h32, i));
  }

  // ---- The block index ----------------------------------------------------------------------------

  // On a power of two blocks, fastrange is a single right shift.
  lemma ShiftIsFastrange(hi: u32, k: nat)
    requires k <= 31
    ensures Shr(hi, 32 - k) == hi * Pow2(k) / TWO32
    ensures Shr(hi, 32 - k) < Pow2(k)
  {
    var p, q, x := Pow2(k), Pow2(32 - k), Shr(hi, 32 - k);
    ShrLow(hi, 32 - k);
    Pow2Add(k, 32 - k);
    Pow2Values();
    FloorBetween(hi, x, p, q);
    ShrBelow(hi, 32 - k, k);
  }

  lemma FloorBetween(hi: nat, x: nat, p: nat, q: nat)
    requires p > 0 && p * q == TWO32 && x * q <= hi < x * q + q
    ensures hi * p / TWO32 == x
  {
    MulMono(x * q, hi, p);
    MulMono(hi + 1, x * q + q, p);
    assert (x * q) * p == x * (p * q);
    assert (x * q + q) * p == x * (p * q) + p * q;
    assert x * 0x1_0000_0000 <= hi * p < x * 0x1_0000_0000 + 0x1_0000_0000;
  }

  // The lane offset computed by `block_for`.
  function BlockOffset(idxShift: nat, h: u64): nat {
    Shr(HighHalf(h), idxShift) * 8
  }

  lemma OffsetIsSpec(idxShift: nat, nblocks: nat, h: u64)
    requires 1 <= idxShift <= 32 && nblocks == Pow2(32 - idxShift)
    ensures BlockOffset(idxShift, h) == LANES * BlockIndex(nblocks, h)
    ensures BlockOffset(idxShift, h) + LANES <= LANES * nblocks
  {
    ShiftIsFastrange(HighHalf(h), 32 - idxShift);
  }

  // ---- Keys ---------------------------------------------------------------------------------------

  // The two byte hashes: one for 16-byte keys, one for every other length.
  datatype KeyHash = KeyHash(hash16: seq<Byte> -> u64, variable: seq<Byte> -> u64) {
    function BloomHash(key: seq<Byte>): u64 {
      if |key| == 16 then hash16(key) else variable(key)
    }
  }

  // The number of bytes of `n` keys.
  function Extent(klen: nat, n: nat): nat {
    n * klen
  }

  lemma ExtentStep(klen: nat, i: nat, n: nat)
    requires i < n
    ensures Extent(klen, i) + klen == Extent(klen, i + 1) <= Extent(klen, n)
  {
    MulMono(i + 1, n, klen);
  }

  function KeyAt(keys: seq<Byte>, klen: nat, i: nat): seq<Byte>
    requires Extent(klen, i + 1) <= |keys|
  {
    ExtentStep(klen, i, i + 1);
    keys[Extent(klen, i)..Extent(klen, i + 1)]
  }

  // The hashes of `n` consecutive keys.
  function KeyHashes(f: KeyHash, keys: seq<Byte>, klen: nat, n: nat): (hs: seq<u64>)
    requires Extent(klen, n) <= |keys|
    ensures |hs| == n
  {
    seq(n, i requires 0 <= i < n =>
      ExtentStep(klen, i, n);
      f.BloomHash(KeyAt(keys, klen, i)))
  }

  lemma KeyHashAt(f: KeyHash, keys: seq<Byte>, klen: nat, n: nat, i: nat)
    requires Extent(klen, n) <= |keys| && i < n
    ensures Extent(klen, i + 1) <= |keys| && |KeyAt(keys, klen, i)| == klen
    ensures KeyHashes(f, keys, klen, n)[i] == f.BloomHash(KeyAt(keys, klen, i))
  {
    ExtentStep(klen, i, n);
  }

  // Key i are the bytes from i * klen on; keys of 16 bytes have a hash of their own.
  lemma KeyHashesAre(f: KeyHash, keys: seq<Byte>, klen: nat, n: nat, i: nat)
    requires n * klen <= |keys| && i < n
    ensures i * klen <= (i + 1) * klen <= |keys|
    ensures KeyHashes(f, keys, klen, n)[i] ==
            var key := keys[i * klen..(i + 1) * klen];
            if klen == 16 then f.hash16(key) else f.variable(key)
  {
    KeyHashAt(f, keys, klen, n, i);
  }

  lemma Key16At(f: KeyHash, keys: seq<Byte>, n: nat, i: nat)
    requires Extent(16, n) <= |keys| && i < n
    ensures Extent(16, i + 1) <= |keys|
    ensures KeyHashes(f, keys, 16, n)[i] == f.hash16(KeyAt(keys, 16, i))
  {
    KeyHashAt(f, keys, 16, n, i);
  }

  // ---- The filter -----------------------------------------------------------------------------------

  const MAX_NBLOCKS: nat := 0x8000_0000

  // `log2_pow2`
  method Log2Pow2(n: nat) returns (k: nat)
    requires 0 < n <= MAX_NBLOCKS
    ensures k <= 31 && n <= Pow2(k) && (k > 0 ==> Pow2(k - 1) < n)
  {
    k := 0;
    assert Pow2(31) == MAX_NBLOCKS by { Pow31(); }
    while Pow2(k) < n
      invariant k <= 31
      invariant k > 0 ==> Pow2(k - 1) < n
      decreases 31 - k
    {
      k := k + 1;
    }
  }

  lemma Pow31()
    ensures Pow2(31) == MAX_NBLOCKS
  {
    Pow2Values();
    Pow2Add(31, 1);
  }

  class QuickBloom {
    const bits: array<u32>
    const nblocksMask: nat
    const idxShift: nat

    function Blocks(): nat {
      nblocksMask + 1
    }

    // A power of two blocks, and the shift that goes with it.
    ghost predicate Valid() {
      && 1 <= idxShift <= 32
      && Blocks() == Pow2(32 - idxShift)
      && bits.Length == LANES * Blocks()
    }

    constructor (nblocks: nat, ghost k: nat)
      requires k <= 31 && nblocks == Pow2(k)
      ensures Valid() && Blocks() == nblocks && bits[..] == Empty(nblocks)
      ensures fresh(bits)
    {
      Pow31();
      if k < 31 {
        Pow2Strict(k, 31);
      }
      var log := Log2Pow2(nblocks);
      SameLog(log, k);
      bits := new u32[8 * nblocks](_ => 0);
      nblocksMask := nblocks - 1;
      idxShift := 32 - log;
    }

    // `_mm256_load_si256` on a block pointer
    method Load(p: nat) returns (v: Vec)
      requires p + LANES <= bits.Length
      ensures forall i :: 0 <= i < LANES ==> v[i] == bits[p + i]
    {
      v := bits[p..p + 8];
    }

    // `_mm256_store_si256` on a block pointer
    method Store(p: nat, v: Vec)
      requires p + LANES <= bits.Length
      modifies bits
      ensures forall j :: 0 <= j < bits.Length ==>
                bits[j] == if p <= j < p + LANES then v[j - p] else old(bits[j])
    {
      forall i | 0 <= i < 8 {
        bits[p + i] := v[i];
      }
    }

    // Load, OR, store: the effect on the lanes is that of inserting the hash behind `p`, `m`.
    method Apply(p: nat, m: Vec, ghost h: u64)
      requires Valid() && p == LANES * BlockIndex(Blocks(), h) && p + LANES <= bits.Length
      requires forall i :: 0 <= i < LANES ==> m[i] == Mask(h, i)
      modifies bits
      ensures Valid() && bits[..] == InsertOne(old(bits[..]), Blocks(), h)
    {
      assert bits.Length == LANES * Blocks();
      hide Mask, BlockIndex, Or, Valid;
      ghost var before := bits[..];
      var cur := Load(p);
      Store(p, OrVec(cur, m));
      ghost var after := InsertOne(before, Blocks(), h);
      assert forall j :: 0 <= j < bits.Length ==> bits[j] == after[j];
      assert bits[..] == after;
    }

    // The block pointer and the mask of a hash.
    method Locate(h: u64) returns (p: nat, m: Vec)
      requires Valid()
      ensures p == LANES * BlockIndex(Blocks(), h) && p + LANES <= bits.Length
      ensures forall i :: 0 <= i < LANES ==> m[i] == Mask(h, i)
    {
      p := Shr(HighHalf(h), idxShift) * 8;
      OffsetIsSpec(idxShift, Blocks(), h);
      m := MaskFor(LowHalf(h));
      MaskForLanes(LowHalf(h));
    }

    method InsertPrehash(h: u64)
      requires Valid()
      modifies bits
      ensures Valid() && bits[..] == InsertOne(old(bits[..]), Blocks(), h)
      ensures forall j: nat, b: nat :: j < bits.Length ==>
                (Bit(bits[j], b) <==> Bit(old(bits[j]), b) || SetsBit(Blocks(), h, j, b))
    {
      ghost var before := bits[..];
      BitsInserted(before, Blocks(), h);
      hide *;
      var p, m := Locate(h);
      Apply(p, m, h);
    }

    method Test(p: nat, m: Vec, ghost h: u64) returns (found: bool)
      requires Valid() && p == LANES * BlockIndex(Blocks(), h) && p + LANES <= bits.Length
      requires forall i :: 0 <= i < LANES ==> m[i] == Mask(h, i)
      ensures found == Probe(bits[..], Blocks(), h)
    {
      hide Mask, BlockIndex, Has, AndNot;
      var cur := Load(p);
      found := TestC(cur, m);
      forall i | 0 <= i < LANES
        ensures AndNot(cur[i], m[i]) == 0 <==> Has(cur[i], m[i])
      {
        AndNotHas(cur[i], m[i]);
      }
    }

    method ContainsPrehash(h: u64) returns (found: bool)
      requires Valid()
      ensures found == Probe(bits[..], Blocks(), h)
      ensures found <==> forall j: nat, b: nat :: j < bits.Length && SetsBit(Blocks(), h, j, b) ==> Bit(bits[j], b)
    {
      ProbeBits(bits[..], Blocks(), h);
      hide *;
      var p, m := Locate(h);
      found := Test(p, m, h);
    }

    // Four keys: all pointers and masks first, then the four updates in order.
    method InsertFour(h0: u64, h1: u64, h2: u64, h3: u64)
      requires Valid()
      modifies bits
      ensures Valid() && bits[..] == InsertedFour(old(bits[..]), Blocks(), h0, h1, h2, h3)
    {
      hide InsertOne, Mask, BlockIndex, Pow2;
      var p0, m0 := Locate(h0);
      var p1, m1 := Locate(h1);
      var p2, m2 := Locate(h2);
      var p3, m3 := Locate(h3);
      Apply(p0, m0, h0);
      Apply(p1, m1, h1);
      Apply(p2, m2, h2);
      Apply(p3, m3, h3);
    }

    // The unrolled part of a batch.
    method InsertFours(hashes: seq<u64>) returns (i: nat)
      requires Valid()
      modifies bits
      ensures i <= |hashes| < i + 4
      ensures bits[..] == InsertAll(old(bits[..]), Blocks(), hashes[..i])
    {
      ghost var before := bits[..];
      assert Shape(before, Blocks());
      hide InsertOne, InsertAll, Valid, InsertedFour;
      var n := |hashes|;
      i := 0;
      NoInserts(before, Blocks(), hashes);
      while i + 4 <= n
        invariant i <= n && bits[..] == InsertAll(before, Blocks(), hashes[..i])
      {
        InsertFour(hashes[i], hashes[i + 1], hashes[i + 2], hashes[i + 3]);
        FourInserts(before, Blocks(), hashes, i);
        i := i + 4;
      }
    }

    method InsertPrehashBulk(hashes: seq<u64>)
      requires Valid()
      modifies bits
      ensures Valid() && bits[..] == InsertAll(old(bits[..]), Blocks(), hashes)
    {
      ghost var before := bits[..];
      assert Shape(before, Blocks());
      hide InsertOne, InsertAll, Shape, Valid;
      var n := |hashes|;
      var i := InsertFours(hashes);
      while i < n
        invariant i <= n && bits[..] == InsertAll(before, Blocks(), hashes[..i])
      {
        InsertPrehash(hashes[i]);
        InsertAllNext(before, Blocks(), hashes, i);
        i := i + 1;
      }
      assert hashes[..n] == hashes;
    }

    method TestFour(h0: u64, h1: u64, h2: u64, h3: u64) returns (hits: nat)
      requires Valid()
      ensures hits == HitsOfFour(bits[..], Blocks(), h0, h1, h2, h3)
    {
      hide Probe, Mask, BlockIndex, Pow2;
      var p0, m0 := Locate(h0);
      var p1, m1 := Locate(h1);
      var p2, m2 := Locate(h2);
      var p3, m3 := Locate(h3);
      var c0 := Test(p0, m0, h0);
      var c1 := Test(p1, m1, h1);
      var c2 := Test(p2, m2, h2);
      var c3 := Test(p3, m3, h3);
      hits := (if c0 then 1 else 0) + (if c1 then 1 else 0) + (if c2 then 1 else 0) + if c3 then 1 else 0;
    }

    method ContainsPrehashBulk(hashes: seq<u64>) returns (hits: nat)
      requires Valid()
      ensures hits == Hits(bits[..], Blocks(), hashes)
      ensures hits == |set i | 0 <= i < |hashes| && Probe(bits[..], Blocks(), hashes[i])|
    {
      HitsIsCount(bits[..], Blocks(), hashes);
      hide Hits, Probe, Pow2, HitsOfFour;
      ghost var now := bits[..];
      var i, n := 0, |hashes|;
      hits := 0;
      NoHits(now, Blocks(), hashes);
      while i + 4 <= n
        invariant i <= n && hits == Hits(now, Blocks(), hashes[..i])
      {
        var more := TestFour(hashes[i], hashes[i + 1], hashes[i + 2], hashes[i + 3]);
        FourHits(now, Blocks(), hashes, i);
        hits := hits + more;
        i := i + 4;
      }
      while i < n
        invariant i <= n && hits == Hits(now, Blocks(), hashes[..i])
      {
        var found := ContainsPrehash(hashes[i]);
        HitsNext(now, Blocks(), hashes, i);
        hits := hits + if found then 1 else 0;
        i := i + 1;
      }
      assert hashes[..n] == hashes;
    }

    // ---- Keys given as bytes ----

    method Insert(f: KeyHash, key: seq<Byte>)
      requires Valid()
      modifies bits
      ensures Valid() && bits[..] == InsertOne(old(bits[..]), Blocks(), f.BloomHash(key))
    {
      InsertPrehash(f.BloomHash(key));
    }

    method Contains(f: KeyHash, key: seq<Byte>) returns (found: bool)
      requires Valid()
      ensures found == Probe(bits[..], Blocks(), f.BloomHash(key))
    {
      found := ContainsPrehash(f.BloomHash(key));
    }

    // The unrolled part: 16-byte keys are hashed four at a time without the length test.
    method InsertKeys16(f: KeyHash, keys: seq<Byte>, n: nat) returns (i: nat)
      requires Valid() && Extent(16, n) <= |keys|
      modifies bits
      ensures Valid() && i <= n < i + 4
      ensures bits[..] == InsertAll(old(bits[..]), Blocks(), KeyHashes(f, keys, 16, n)[..i])
    {
      ghost var before, hs := bits[..], KeyHashes(f, keys, 16, n);
      assert Shape(before, Blocks());
      hide InsertOne, InsertAll, Valid, InsertedFour, Shape, KeyHashes, Extent;
      i := 0;
      NoInserts(before, Blocks(), hs);
      while i + 4 <= n
        invariant i <= n && Valid()
        invariant bits[..] == InsertAll(before, Blocks(), hs[..i])
      {
        Key16At(f, keys, n, i);
        Key16At(f, keys, n, i + 1);
        Key16At(f, keys, n, i + 2);
        Key16At(f, keys, n, i + 3);
        InsertFour(f.hash16(KeyAt(keys, 16, i)), f.hash16(KeyAt(keys, 16, i + 1)),
                   f.hash16(KeyAt(keys, 16, i + 2)), f.hash16(KeyAt(keys, 16, i + 3)));
        FourInserts(before, Blocks(), hs, i);
        i := i + 4;
      }
    }

    // The remaining keys one by one.
    method InsertRest(f: KeyHash, keys: seq<Byte>, klen: nat, n: nat, first: nat, ghost before: seq<u32>)
      requires Valid() && Extent(klen, n) <= |keys| && first <= n && Shape(before, Blocks())
      requires bits[..] == InsertAll(before, Blocks(), KeyHashes(f, keys, klen, n)[..first])
      modifies bits
      ensures bits[..] == InsertAll(before, Blocks(), KeyHashes(f, keys, klen, n))
    {
      hide InsertOne, InsertAll, Valid, Shape, KeyHashes, KeyAt, Extent, KeyHash.BloomHash;
      ghost var hs := KeyHashes(f, keys, klen, n);
      var i := first;
      while i < n
        invariant i <= n && bits[..] == InsertAll(before, Blocks(), hs[..i])
      {
        KeyHashAt(f, keys, klen, n, i);
        Insert(f, KeyAt(keys, klen, i));
        InsertAllNext(before, Blocks(), hs, i);
        i := i + 1;
      }
      assert hs[..n] == hs;
    }

    method InsertBulk(f: KeyHash, keys: seq<Byte>, klen: nat, n: nat)
      requires Valid() && Extent(klen, n) <= |keys|
      modifies bits
      ensures Valid() && bits[..] == InsertAll(old(bits[..]), Blocks(), KeyHashes(f, keys, klen, n))
    {
      ghost var before := bits[..];
      var i := 0;
      NoInserts(before, Blocks(), KeyHashes(f, keys, klen, n));
      hide *;
      if klen == 16 {
        i := InsertKeys16(f, keys, n);
      }
      InsertRest(f, keys, klen, n, i, before);
    }

    method CountKeys16(f: KeyHash, keys: seq<Byte>, n: nat) returns (i: nat, hits: nat)
      requires Valid() && Extent(16, n) <= |keys|
      ensures i <= n < i + 4
      ensures hits == Hits(bits[..], Blocks(), KeyHashes(f, keys, 16, n)[..i])
    {
      ghost var now, hs := bits[..], KeyHashes(f, keys, 16, n);
      assert Shape(now, Blocks());
      hide Hits, Valid, HitsOfFour, KeyHashes, Extent;
      i, hits := 0, 0;
      NoHits(now, Blocks(), hs);
      while i + 4 <= n
        invariant i <= n && hits == Hits(now, Blocks(), hs[..i])
      {
        Key16At(f, keys, n, i);
        Key16At(f, keys, n, i + 1);
        Key16At(f, keys, n, i + 2);
        Key16At(f, keys, n, i + 3);
        var more := TestFour(f.hash16(KeyAt(keys, 16, i)), f.hash16(KeyAt(keys, 16, i + 1)),
                             f.hash16(KeyAt(keys, 16, i + 2)), f.hash16(KeyAt(keys, 16, i + 3)));
        FourHits(now, Blocks(), hs, i);
        hits := hits + more;
        i := i + 4;
      }
    }

    method CountRest(f: KeyHash, keys: seq<Byte>, klen: nat, n: nat, first: nat) returns (hits: nat)
      requires Valid() && Extent(klen, n) <= |keys| && first <= n
      ensures Hits(bits[..], Blocks(), KeyHashes(f, keys, klen, n)[..first]) + hits ==
              Hits(bits[..], Blocks(), KeyHashes(f, keys, klen, n))
    {
      ghost var now, hs := bits[..], KeyHashes(f, keys, klen, n);
      assert Shape(now, Blocks());
      hide Hits, Probe, Valid, Shape, KeyHashes, KeyAt, Extent, KeyHash.BloomHash;
      var i := first;
      hits := 0;
      while i < n
        invariant i <= n && Hits(now, Blocks(), hs[..first]) + hits == Hits(now, Blocks(), hs[..i])
      {
        KeyHashAt(f, keys, klen, n, i);
        var found := Contains(f, KeyAt(keys, klen, i));
        HitsNext(now, Blocks(), hs, i);
        hits := hits + if found then 1 else 0;
        i := i + 1;
      }
      assert hs[..n] == hs;
    }

    method ContainsBulk(f: KeyHash, keys: seq<Byte>, klen: nat, n: nat) returns (hits: nat)
      requires Valid() && Extent(klen, n) <= |keys|
      ensures hits == Hits(bits[..], Blocks(), KeyHashes(f, keys, klen, n))
      ensures hits == |set i | 0 <= i < n && Probe(bits[..], Blocks(), KeyHashes(f, keys, klen, n)[i])|
    {
      HitsIsCount(bits[..], Blocks(), KeyHashes(f, keys, klen, n));
      var i, first := 0, 0;
      NoHits(bits[..], Blocks(), KeyHashes(f, keys, klen, n));
      hide *;
      if klen == 16 {
        i, first := CountKeys16(f, keys, n);
      }
      hits := CountRest(f, keys, klen, n, i);
      hits := first + hits;
    }
  }

  function InsertedFour(bits: seq<u32>, nblocks: nat, h0: u64, h1: u64, h2: u64, h3: u64): (r: seq<u32>)
    requires Shape(bits, nblocks)
    ensures Shape(r, nblocks)
  {
    var b1 := InsertOne(bits, nblocks, h0);
    var b2 := InsertOne(b1, nblocks, h1);
    var b3 := InsertOne(b2, nblocks, h2);
    InsertOne(b3, nblocks, h3)
  }

  lemma FourInserts(bits: seq<u32>, nblocks: nat, hs: seq<u64>, i: nat)
    requires Shape(bits, nblocks) && i + 4 <= |hs|
    ensures InsertedFour(InsertAll(bits, nblocks, hs[..i]), nblocks, hs[i], hs[i + 1], hs[i + 2], hs[i + 3]) ==
            InsertAll(bits, nblocks, hs[..i + 4])
  {
    hide InsertOne, InsertAll;
    InsertAllNext(bits, nblocks, hs, i);
    InsertAllNext(bits, nblocks, hs, i + 1);
    InsertAllNext(bits, nblocks, hs, i + 2);
    InsertAllNext(bits, nblocks, hs, i + 3);
  }

  lemma NoInserts(bits: seq<u32>, nblocks: nat, hs: seq<u64>)
    requires Shape(bits, nblocks)
    ensures InsertAll(bits, nblocks, hs[..0]) == bits
  {}

  function HitsOfFour(bits: seq<u32>, nblocks: nat, h0: u64, h1: u64, h2: u64, h3: u64): nat
    requires Shape(bits, nblocks)
  {
    (if Probe(bits, nblocks, h0) then 1 else 0) + (if Probe(bits, nblocks, h1) then 1 else 0)
    + (if Probe(bits, nblocks, h2) then 1 else 0) + if Probe(bits, nblocks, h3) then 1 else 0
  }

  lemma FourHits(bits: seq<u32>, nblocks: nat, hs: seq<u64>, i: nat)
    requires Shape(bits, nblocks) && i + 4 <= |hs|
    ensures Hits(bits, nblocks, hs[..i]) + HitsOfFour(bits, nblocks, hs[i], hs[i + 1], hs[i + 2], hs[i + 3]) ==
            Hits(bits, nblocks, hs[..i + 4])
  {
    hide Probe, Hits;
    HitsNext(bits, nblocks, hs, i);
    HitsNext(bits, nblocks, hs, i + 1);
    HitsNext(bits, nblocks, hs, i + 2);
    HitsNext(bits, nblocks, hs, i + 3);
  }

  lemma NoHits(bits: seq<u32>, nblocks: nat, hs: seq<u64>)
    requires Shape(bits, nblocks)
    ensures Hits(bits, nblocks, hs[..0]) == 0
  {}

  // ---- Construction -----------------------------------------------------------------------------

  // The block count of `qb_new` before rounding; the addition wraps at 64 bits.
  function WantedBlocks(nbits: u64): nat {
    var nblocks := (nbits + 255) % TWO64 / 256;
    if nblocks == 0 then 1 else nblocks
  }

  // `qb_new`, which returns no filter when more than MAX_NBLOCKS blocks would be needed.
  method New(nbits: u64) returns (b: QuickBloom?)
    ensures b == null <==> 0x80_0000_0000 < nbits <= TWO64 - 256
    ensures b != null ==> fresh(b) && fresh(b.bits) && b.Valid()
    ensures b != null ==> forall j :: 0 <= j < b.bits.Length ==> b.bits[j] == 0
    ensures b != null ==> exists k: nat :: b.Blocks() == Pow2(k) && b.bits.Length == 8 * b.Blocks()
    ensures b != null ==> if nbits > TWO64 - 256 then b.Blocks() == 1
                          else nbits <= 256 * b.Blocks() && (b.Blocks() > 1 ==> 128 * b.Blocks() < nbits)
  {
    OversizeRejected(nbits);
    WantedBlocksAre(nbits);
    var nblocks := (nbits + 255) % TWO64 / 256;
    if nblocks == 0 {
      nblocks := 1;
    }
    if nblocks > MAX_NBLOCKS {
      return null;
    }
    ghost var k := 0;
    var pow2 := 1;
    Pow31();
    while pow2 < nblocks
      invariant pow2 == Pow2(k) && k <= 31
      invariant pow2 < 2 * nblocks
      decreases 31 - k
    {
      pow2 := pow2 * 2;
      k := k + 1;
    }
    b := new QuickBloom(pow2, k);
  }

  // Rounded up to whole blocks, at least one.
  lemma WantedBlocksAre(nbits: u64)
    ensures nbits <= TWO64 - 256 ==>
              var n := WantedBlocks(nbits); nbits <= 256 * n && (n > 1 ==> 256 * (n - 1) < nbits)
  {}

  // The documented rejection of oversized requests holds exactly below the point where the
  // rounding addition wraps; the last 255 sizes get a filter of one block instead.
  lemma OversizeRejected(nbits: u64)
    ensures WantedBlocks(nbits) > MAX_NBLOCKS <==> 0x80_0000_0000 < nbits <= TWO64 - 256
    ensures nbits > TWO64 - 256 ==> WantedBlocks(nbits) == 1
  {
    var n: nat := nbits;
    if n <= 0x1_0000_0000_0000_0000 - 256 {
      assert (n + 255) % 0x1_0000_0000_0000_0000 == n + 255;
    } else {
      assert (n + 255) % 0x1_0000_0000_0000_0000 == n + 255 - 0x1_0000_0000_0000_0000;
    }
  }

  lemma SameLog(log: nat, k: nat)
    requires Pow2(k) <= Pow2(log) && (log > 0 ==> Pow2(log - 1) < Pow2(k))
    ensures log == k
  {
    if log < k {
      Pow2Strict(log, k);
    } else if k < log - 1 {
      Pow2Strict(k, log - 1);
    }
  }
}
