/** The binary fuse filter as an object: sizing, construction and lookup. */
module BinaryFuse {
  import opened Words
  import opened FuseHash
  import opened FuseGeometry
  import opened FuseTable
  import opened FusePlacement
  import opened FusePeeling
  import opened FuseRounds
  import opened FuseSeeds
  import opened FuseSolving

  function SlotsOf(L: Layout): SlotFn {
    (hash: u64) => Positions(hash, L)
  }

  lemma SlotsGood(L: Layout, e: nat)
    requires Fits(L, e)
    ensures Good(SlotsOf(L), L.arrayLength)
  {
    forall h: u64
      ensures SlotsOf(L)(h).In(L.arrayLength)
    {
      PositionsGood(h, L, e);
    }
  }

  // The lookup of `binary_fuse8_contain` in the fingerprint array `F`.
  function Lookup(F: seq<Byte>, L: Layout, seed: u64, key: u64): bool
    requires HashBatch(MixSplit(key, seed), L).In(|F|)
  {
    var hash := MixSplit(key, seed);
    var p := HashBatch(hash, L);
    Xor(Fingerprint(hash), Xor(Xor(F[p.p0], F[p.p1]), F[p.p2])) == 0
  }

  lemma LookupIsEquation(F: seq<Byte>, L: Layout, e: nat, seed: u64, key: u64)
    requires Fits(L, e) && |F| == L.arrayLength
    ensures HashBatch(MixSplit(key, seed), L).In(|F|) && Positions(MixSplit(key, seed), L).In(|F|)
    ensures Lookup(F, L, seed, key) <==>
            Equation(F, Positions(MixSplit(key, seed), L), Fingerprint(MixSplit(key, seed)))
  {
    hide MixSplit, Fingerprint, HashBatch, Positions, Xor;
    var hash := MixSplit(key, seed);
    BatchAgrees(hash, L, e);
    PositionsGood(hash, L, e);
    var p := Positions(hash, L);
    var x := Xor(Xor(F[p.p0], F[p.p1]), F[p.p2]);
    if Xor(Fingerprint(hash), x) == 0 {
      XorEqual(Fingerprint(hash), x);
    }
    XorSelf(x);
  }

  // In bit s the three slots together have the parity in which the bits s and s + 32 of the hash
  // differ.
  predicate ParityAt(F: seq<Byte>, p: Slots, hash: u64, s: nat)
    requires p.In(|F|)
  {
    (Bit(hash, s) != Bit(hash, s + 32)) == ((Bit(F[p.p0], s) != Bit(F[p.p1], s)) != Bit(F[p.p2], s))
  }

  predicate SameAt(a: nat, b: nat, s: nat) {
    Bit(a, s) == Bit(b, s)
  }

  lemma SameBytes(a: Byte, b: Byte)
    requires forall s: nat :: s < 8 ==> SameAt(a, b, s)
    ensures a == b
  {
    Pow2Values();
    forall s: nat
      ensures Bit(a, s) == Bit(b, s)
    {
      if s < 8 {
        assert SameAt(a, b, s);
      } else {
        NoHighBit(a, 8, s);
        NoHighBit(b, 8, s);
      }
    }
    SameBits(a, b);
  }

  lemma ParityIs(F: seq<Byte>, p: Slots, hash: u64, s: nat)
    requires p.In(|F|) && s < 8
    ensures ParityAt(F, p, hash, s) <==> SameAt(Xor(Xor(F[p.p0], F[p.p1]), F[p.p2]), Fingerprint(hash), s)
  {
    hide Xor, Fingerprint;
    FingerprintBits(hash, s);
    XorBits(F[p.p0], F[p.p1], s);
    XorBits(Xor(F[p.p0], F[p.p1]), F[p.p2], s);
  }

  // The lookup bit by bit.
  lemma LookupBits(F: seq<Byte>, L: Layout, e: nat, seed: u64, key: u64)
    requires Fits(L, e) && |F| == L.arrayLength
    ensures HashBatch(MixSplit(key, seed), L).In(|F|) && Positions(MixSplit(key, seed), L).In(|F|)
    ensures Lookup(F, L, seed, key) <==>
            forall s: nat :: s < 8 ==> ParityAt(F, Positions(MixSplit(key, seed), L), MixSplit(key, seed), s)
  {
    hide MixSplit, Fingerprint, HashBatch, Positions, Xor, Lookup, ParityAt, SameAt;
    LookupIsEquation(F, L, e, seed, key);
    var hash, p := MixSplit(key, seed), Positions(MixSplit(key, seed), L);
    var x := Xor(Xor(F[p.p0], F[p.p1]), F[p.p2]);
    forall s: nat | s < 8
      ensures ParityAt(F, p, hash, s) <==> SameAt(x, Fingerprint(hash), s)
      ensures x == Fingerprint(hash) ==> SameAt(x, Fingerprint(hash), s)
    {
      ParityIs(F, p, hash, s);
      SameWord(x, s);
    }
    if forall s: nat :: s < 8 ==> ParityAt(F, p, hash, s) {
      SameBytes(x, Fingerprint(hash));
    }
  }

  lemma SameWord(a: nat, s: nat)
    ensures SameAt(a, a, s)
  {}

  // Keys whose hashes all satisfy the fingerprint equation are found.
  lemma CoveredKeysFound(F: seq<Byte>, L: Layout, e: nat, r: Round, orig: seq<u64>, seed: u64)
    requires Fits(L, e) && |F| == L.arrayLength && Good(SlotsOf(L), |F|)
    requires Covers(r, orig, seed)
    requires AllHold(SlotsOf(L), Fingerprint, F, r.after[..r.outcome.stacksize], 0)
    ensures forall x :: x in orig ==>
              HashBatch(MixSplit(x, seed), L).In(|F|) && Lookup(F, L, seed, x)
  {
    hide MixSplit, Fingerprint, Lookup, Equation, HashBatch, Positions;
    var stack := r.after[..r.outcome.stacksize];
    forall x | x in orig
      ensures HashBatch(MixSplit(x, seed), L).In(|F|) && Lookup(F, L, seed, x)
    {
      var j :| 0 <= j < |stack| && stack[j] == MixSplit(x, seed);
      LookupIsEquation(F, L, e, seed, x);
      assert Equation(F, SlotsOf(L)(stack[j]), Fingerprint(stack[j]));
    }
  }

  // The least number of bits, from 1 on, that counts the segments.
  predicate LeastBits(segmentCount: nat, blockBits: nat) {
    && 1 <= blockBits && segmentCount <= Pow2(blockBits)
    && (blockBits > 1 ==> Pow2(blockBits - 1) < segmentCount)
  }

  // What back-substitution leaves, for given pivots of the stacked hashes.
  ghost predicate Substituted(hf: SlotFn, stack: seq<u64>, found: seq<nat>, before: seq<Byte>, F: seq<Byte>)
    requires forall j :: 0 <= j < |stack| ==> hf(stack[j]).In(|F|)
  {
    PeelOrder(hf, stack, found) && OffPivots(hf, stack, found, before, F) && AllHold(hf, Fingerprint, F, stack, 0)
  }

  // What a solved attempt makes of the fingerprints `before`.
  ghost predicate Leaves(hf: SlotFn, n: nat, blockBits: nat, r: Round, seed: u64, before: seq<Byte>, F: seq<Byte>) {
    && r.outcome.Solved? && r.outcome.stacksize <= |r.after|
    && var stack := r.after[..r.outcome.stacksize];
    && (forall j :: 0 <= j < |stack| ==> hf(stack[j]).In(|F|))
    && exists found :: RoundStack(hf, n, blockBits, r, seed, stack, found) && Substituted(hf, stack, found, before, F)
  }

  // It leaves no choice.
  lemma FilledOnce(hf: SlotFn, n: nat, blockBits: nat, r: Round, seed: u64, before: seq<Byte>,
                   F: seq<Byte>, G: seq<Byte>)
    requires Leaves(hf, n, blockBits, r, seed, before, F) && Leaves(hf, n, blockBits, r, seed, before, G)
    ensures F == G
  {
    hide Stacked, PeelOrder, OffPivots, AllHold, Hashes, MixWith;
    var stack := r.after[..r.outcome.stacksize];
    var found1 :| RoundStack(hf, n, blockBits, r, seed, stack, found1) && Substituted(hf, stack, found1, before, F);
    var found2 :| RoundStack(hf, n, blockBits, r, seed, stack, found2) && Substituted(hf, stack, found2, before, G);
    StackedOnce(hf, n, blockBits, Hashes(r.keys, MixWith(seed)), r.before, stack, found1, stack, found2);
    assert |F| == |before| by { SameLength(hf, stack, found1, before, F); }
    FingerprintsDetermined(hf, Fingerprint, stack, found1, before, F, G);
  }

  lemma SameLength(hf: SlotFn, stack: seq<u64>, found: seq<nat>, before: seq<Byte>, F: seq<Byte>)
    requires PeelOrder(hf, stack, found) && OffPivots(hf, stack, found, before, F)
    ensures |F| == |before|
  {}

  class BinaryFuse8 {
    var Seed: u64
    var Size: u32
    var SegmentLength: u32
    var SegmentLengthMask: u32
    var SegmentCount: u32
    var SegmentCountLength: u32
    var ArrayLength: u32
    var Fingerprints: array?<Byte>

    function Geometry(): Layout
      reads this
    {
      Layout(SegmentLength, SegmentLengthMask, SegmentCount, SegmentCountLength, ArrayLength)
    }

    // `binary_fuse8_allocate` has run and `binary_fuse8_free` has not.
    ghost predicate Allocated()
      reads this
    {
      && (exists e :: Fits(Geometry(), e))
      && Fingerprints != null && Fingerprints.Length == ArrayLength
    }

    // Whether `Contain` answers true for a key.
    ghost predicate Contains(key: u64)
      reads this, Fingerprints
    {
      && Fingerprints != null
      && HashBatch(MixSplit(key, Seed), Geometry()).In(Fingerprints.Length)
      && Lookup(Fingerprints[..], Geometry(), Seed, key)
    }

    constructor ()
      ensures Fingerprints == null
    {
      Seed, Size, SegmentLength, SegmentLengthMask := 0, 0, 0, 0;
      SegmentCount, SegmentCountLength, ArrayLength := 0, 0, 0;
      Fingerprints := null;
    }

    method Allocate(size: u32, exponent: nat, capacity: u32)
      requires 2 <= exponent <= 31
      modifies this
      ensures Size == size && Geometry() == Sizing(size, exponent, capacity)
      ensures SegmentLength == if size == 0 then 4 else if Pow2(exponent) < 262144 then Pow2(exponent) else 262144
      ensures SegmentLengthMask == SegmentLength - 1
      ensures SegmentCountLength == SegmentCount * SegmentLength
      ensures ArrayLength == (SegmentCount + 2) * SegmentLength
      ensures var wanted: nat := if size <= 1 then 0 else capacity;
              if wanted + SegmentLength <= TWO32
              then wanted <= ArrayLength && (SegmentCount > 1 ==> ArrayLength < wanted + SegmentLength)
              else SegmentCount == 1
      ensures Allocated() && fresh(Fingerprints)
      ensures forall s :: 0 <= s < Fingerprints.Length ==> Fingerprints[s] == 0
    {
      hide Sizing, FuseGeometry.SegmentLength, SegmentExponent, Pow2;
      var L := Sizing(size, exponent, capacity);
      SizingFits(size, exponent, capacity);
      SegmentLengthIs(size, exponent);
      LengthOf(size, exponent, capacity);
      Size := size;
      SegmentLength, SegmentLengthMask := L.segmentLength, L.segmentLengthMask;
      SegmentCount, SegmentCountLength := L.segmentCount, L.segmentCountLength;
      ArrayLength := L.arrayLength;
      Fingerprints := new Byte[ArrayLength](_ => 0);
      assert Geometry() == L;
    }

    static lemma LengthOf(size: u32, exponent: nat, capacity: u32)
      requires exponent <= 31
      ensures Sizing(size, exponent, capacity).segmentLength == FuseGeometry.SegmentLength(size, exponent)
    {
      hide Pow2, RoundedCount;
    }

    method Free()
      modifies this
      ensures Fingerprints == null && !Allocated()
      ensures Seed == 0 && Size == 0 && Geometry() == Layout(0, 0, 0, 0, 0)
    {
      Seed, Size, SegmentLength, SegmentLengthMask := 0, 0, 0, 0;
      SegmentCount, SegmentCountLength, ArrayLength := 0, 0, 0;
      Fingerprints := null;
    }

    method Contain(key: u64) returns (found: bool)
      requires Allocated()
      ensures found == Contains(key)
    {
      hide MixSplit, HashBatch, Positions, Fingerprint;
      ghost var e :| Fits(Geometry(), e);
      LookupIsEquation(Fingerprints[..], Geometry(), e, Seed, key);
      var hash := MixSplit(key, Seed);
      var f := Fingerprint(hash);
      var p := HashBatch(hash, Geometry());
      f := Xor(f, Xor(Xor(Fingerprints[p.p0], Fingerprints[p.p1]), Fingerprints[p.p2]));
      found := f == 0;
    }

    // The number of bits that index the placement blocks.
    method BlockBits() returns (blockBits: nat)
      requires Allocated()
      ensures LeastBits(SegmentCount, blockBits) && blockBits <= 31
    {
      SegmentCountBound();
      blockBits := 1;
      while Pow2(blockBits) < SegmentCount
        invariant 1 <= blockBits <= 31
        invariant blockBits > 1 ==> Pow2(blockBits - 1) < SegmentCount
        decreases 31 - blockBits
      {
        if blockBits >= 30 {
          Pow2Mono(30, blockBits);
        }
        blockBits := blockBits + 1;
      }
    }

    lemma SegmentCountBound()
      requires Allocated()
      ensures SegmentCount <= Pow2(30)
    {
      var e :| Fits(Geometry(), e);
      hide Pow2;
      Pow2Mono(2, e);
      Pow2Values();
      Pow2Add(2, 30);
      QuarterBound(SegmentCount + 2, Pow2(e), ArrayLength);
    }

    static lemma QuarterBound(count: nat, p: nat, total: u32)
      requires p >= 4 && total == count * p
      ensures 4 * count <= total
    {
      MulMono(4, p, count);
    }

    // The fingerprints solve the equations of the hashes stacked by the last attempt, and only the
    // pivots differ from what was there before.
    ghost predicate Filled(blockBits: nat, r: Round, before: seq<Byte>)
      reads this, Fingerprints
    {
      Fingerprints != null && Leaves(SlotsOf(Geometry()), ArrayLength, blockBits, r, Seed, before, Fingerprints[..])
    }

    // A guard that `populate` could test: the cell behind the keys is not zero when the last
    // attempt starts.
    static ghost predicate Guarded(r: Round) {
      |r.keys| < |r.before| && r.before[|r.keys|] != 0
    }

    method Populate(keys: array<u64>, size: u32)
      returns (ok: bool, ghost blockBits: nat, ghost trace: seq<Round>)
      requires Allocated() && size <= keys.Length
      modifies this`Seed, Fingerprints, keys
      ensures Allocated()
      ensures keys[size..] == old(keys[size..]) && SameKeys(keys[..size], old(keys[..size]))
      ensures size != Size ==> !ok && keys[..] == old(keys[..]) && Seed == old(Seed)
      ensures size == Size ==> 1 <= |trace| <= 100 && Seed == SeedAt(if ok then |trace| - 1 else 100)
      ensures !ok ==> Fingerprints[..] == old(Fingerprints[..])
      ensures Distinct(old(keys[..size])) ==> keys[..] == old(keys[..])
      ensures size == Size ==>
                && LeastBits(SegmentCount, blockBits)
                && Traced(SlotsOf(Geometry()), ArrayLength, blockBits, old(keys[..size]), trace, ok, Seed)
                && (ok <==> exists i: nat ::
                              i < |trace| && RoundSuits(SlotsOf(Geometry()), ArrayLength, blockBits, trace[i], i))
      ensures ok ==> trace != [] && Filled(blockBits, trace[|trace| - 1], old(Fingerprints[..]))
      ensures ok && Trusted(old(keys[..size])) ==> Guarded(trace[|trace| - 1])
      ensures ok && Guarded(trace[|trace| - 1]) ==> forall x :: x in old(keys[..size]) ==> Contains(x)
      ensures ok && Distinct(old(keys[..size])) ==>
                exists r: nat :: FirstGood(SlotsOf(Geometry()), ArrayLength, old(keys[..size]), r) && Seed == SeedAt(r)
      ensures size == Size && Distinct(old(keys[..size])) ==>
                (ok <==> exists r: nat ::
                           r < MAX_ITERATIONS && !BadSeed(SlotsOf(Geometry()), ArrayLength, old(keys[..size]), r))
      ensures !ok && size == Size && Trusted(old(keys[..size])) ==>
                forall r :: 0 <= r < MAX_ITERATIONS ==>
                  BadSeed(SlotsOf(Geometry()), ArrayLength, old(keys[..size]), r)
    {
      hide Ready, Trusted, BadSeed, Good, AllHold, Fits, MixSplit, Distinct, FirstGood, SeedAt, PeelOrder;
      hide Traced, OffPivots, LeastBits, RoundSuits, Guarded, RoundStack;
      if size != Size {
        return false, 0, [];
      }
      ghost var orig := keys[..size];
      var L := Geometry();
      ghost var e :| Fits(L, e);
      SlotsGood(L, e);
      var bits := BlockBits();
      blockBits := bits;
      var w := new Workspace(size, ArrayLength, bits);
      ReadyStart(w, bits, keys, size);
      var seed, stacksize;
      ok, seed, stacksize, trace := FindSeed(keys, size, SlotsOf(L), w, bits);
      Seed := seed;
      RunMeaning(SlotsOf(L), ArrayLength, bits, orig, trace, ok, seed);
      assert Geometry() == L && Fits(Geometry(), e);
      if ok {
        BackSubstitute(SlotsOf(L), Fingerprint, w.reverseOrder, w.reverseH, stacksize, Fingerprints);
        ghost var r := trace[|trace| - 1];
        assert r.after[..stacksize] == w.reverseOrder[..stacksize];
        assert Substituted(SlotsOf(L), r.after[..stacksize], w.reverseH[..stacksize],
                           old(Fingerprints[..]), Fingerprints[..]);
        if Covers(r, orig, seed) {
          CoveredKeysFound(Fingerprints[..], L, e, r, orig, seed);
        }
      }
    }

    // What the record of a run says about its result.
    static lemma RunMeaning(hf: SlotFn, n: nat, bits: nat, orig: seq<u64>, trace: seq<Round>, ok: bool, seed: u64)
      requires Traced(hf, n, bits, orig, trace, ok, seed)
      ensures ok ==> trace != []
      ensures ok <==> exists i: nat :: i < |trace| && RoundSuits(hf, n, bits, trace[i], i)
      ensures ok && Trusted(orig) ==> Guarded(trace[|trace| - 1])
      ensures ok && Guarded(trace[|trace| - 1]) ==> Covers(trace[|trace| - 1], orig, seed)
      ensures ok && Distinct(orig) ==> exists r: nat :: FirstGood(hf, n, orig, r) && seed == SeedAt(r)
      ensures Distinct(orig) ==> (ok <==> exists r: nat :: r < MAX_ITERATIONS && !BadSeed(hf, n, orig, r))
      ensures !ok && Trusted(orig) ==> forall r :: 0 <= r < MAX_ITERATIONS ==> BadSeed(hf, n, orig, r)
    {
      TracedNonEmpty(hf, n, bits, orig, trace, seed, ok);
      hide *;
      TracedOutcome(hf, n, bits, orig, trace, ok, seed);
      if Trusted(orig) {
        TracedTrusted(hf, n, bits, orig, trace, ok, seed);
      }
      if Distinct(orig) {
        TracedDistinct(hf, n, bits, orig, trace, ok, seed);
      }
      if ok {
        RunCovers(hf, n, bits, orig, trace, seed);
        GuardedIs(trace[|trace| - 1]);
      }
    }

    static lemma GuardedIs(r: Round)
      ensures Guarded(r) <==> |r.keys| < |r.before| && r.before[|r.keys|] != 0
    {}

    static lemma TracedNonEmpty(hf: SlotFn, n: nat, bits: nat, orig: seq<u64>, trace: seq<Round>, seed: u64, ok: bool)
      requires Traced(hf, n, bits, orig, trace, ok, seed)
      ensures ok ==> trace != []
    {}
  }
}
