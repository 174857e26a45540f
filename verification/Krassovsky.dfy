/** The patterned filter on 64-bit blocks: scalar operations, batches of eight lanes, and the
    batch loops built from them. */
module Krassovsky {
  import opened Words
  import opened MaskTable

  function BlockOf(h: u64, numBlocksMask: nat): nat {
    And(Shr(h, 16), numBlocksMask)
  }

  lemma BlockInRange(h: u64, k: nat)
    ensures BlockOf(h, Pow2(k) - 1) < Pow2(k)
  {
    AndMask(Shr(h, 16), k);
    ShrLow(Shr(h, 16), k);
  }

  ghost predicate Shape(bv: seq<u64>, k: nat) {
    |bv| == Pow2(k)
  }

  // ---- Sequential meaning ------------------------------------------------------------------------

  ghost function InsertOne(T: seq<Byte>, k: nat, bv: seq<u64>, h: u64): (r: seq<u64>)
    requires |T| == MASK_BYTES && Shape(bv, k)
    ensures Shape(r, k)
  {
    BlockInRange(h, k);
    var i := BlockOf(h, Pow2(k) - 1);
    bv[i := Or(bv[i], MaskOf(T, h))]
  }

  ghost function InsertAll(T: seq<Byte>, k: nat, bv: seq<u64>, hs: seq<u64>): (r: seq<u64>)
    requires |T| == MASK_BYTES && Shape(bv, k)
    ensures Shape(r, k)
  {
    if hs == [] then bv else InsertOne(T, k, InsertAll(T, k, bv, hs[..|hs| - 1]), hs[|hs| - 1])
  }

  ghost predicate Probe(T: seq<Byte>, k: nat, bv: seq<u64>, h: u64)
    requires |T| == MASK_BYTES && Shape(bv, k)
  {
    BlockInRange(h, k);
    And(bv[BlockOf(h, Pow2(k) - 1)], MaskOf(T, h)) == MaskOf(T, h)
  }

  ghost function Hits(T: seq<Byte>, k: nat, bv: seq<u64>, hs: seq<u64>): nat
    requires |T| == MASK_BYTES && Shape(bv, k)
  {
    if hs == [] then 0
    else Hits(T, k, bv, hs[..|hs| - 1]) + if Probe(T, k, bv, hs[|hs| - 1]) then 1 else 0
  }

  // ---- No false negatives ---------------------------------------------------------------------------

  ghost predicate Covers(a: nat, m: nat) {
    forall s: nat :: Bit(m, s) ==> Bit(a, s)
  }

  lemma CoversIsAnd(a: nat, m: nat)
    ensures And(a, m) == m <==> Covers(a, m)
  {
    hide And, Bit;
    if And(a, m) == m {
      forall s: nat | Bit(m, s)
        ensures Bit(a, s)
      {
        AndBit(a, m, s);
      }
    }
    if Covers(a, m) {
      forall s: nat
        ensures Bit(And(a, m), s) == Bit(m, s)
      {
        AndBit(a, m, s);
      }
      SameBits(And(a, m), m);
    }
  }

  lemma OrCovers(a: nat, b: nat, m: nat)
    ensures Covers(a, m) ==> Covers(Or(a, b), m)
    ensures Covers(Or(a, m), m)
  {
    hide Or, Bit;
    forall s: nat
      ensures Bit(a, s) ==> Bit(Or(a, b), s)
      ensures Bit(m, s) ==> Bit(Or(a, m), s)
    {
      OrBit(a, b, s);
      OrBit(a, m, s);
    }
  }

  lemma InsertedFound(T: seq<Byte>, k: nat, bv: seq<u64>, x: u64, h: u64)
    requires |T| == MASK_BYTES && Shape(bv, k)
    ensures Probe(T, k, InsertOne(T, k, bv, h), h)
    ensures Probe(T, k, bv, h) ==> Probe(T, k, InsertOne(T, k, bv, x), h)
  {
    hide Or, And, MaskOf, BlockOf, Covers, Pow2;
    BlockInRange(h, k);
    BlockInRange(x, k);
    var m, block := MaskOf(T, h), bv[BlockOf(h, Pow2(k) - 1)];
    CoversIsAnd(block, m);
    CoversIsAnd(Or(block, m), m);
    CoversIsAnd(Or(block, MaskOf(T, x)), m);
    OrCovers(block, MaskOf(T, x), m);
  }

  lemma {:induction false} NoFalseNegatives(T: seq<Byte>, k: nat, bv: seq<u64>, hs: seq<u64>, h: u64)
    requires |T| == MASK_BYTES && Shape(bv, k) && h in hs
    ensures Probe(T, k, InsertAll(T, k, bv, hs), h)
  {
    hide InsertOne, Probe;
    var n := |hs| - 1;
    var before := InsertAll(T, k, bv, hs[..n]);
    InsertedFound(T, k, before, hs[n], h);
    if hs[n] != h {
      NoFalseNegatives(T, k, bv, hs[..n], h);
    }
  }

  // ---- What the bits mean, in numbers ------------------------------------------------------------------

  // The block are the bits from the seventeenth on.
  lemma BlockIs(h: u64, k: nat)
    ensures BlockOf(h, Pow2(k) - 1) == h / 65536 % Pow2(k) < Pow2(k)
  {
    hide Shr, And, Pow2;
    BlockInRange(h, k);
    ShrIsQuotient(h, 16);
    AndIsRemainder(Shr(h, 16), k);
    assert Pow2(16) == 65536 by { Pow16(); }
  }

  lemma Pow16()
    ensures Pow2(16) == 65536
  {
    Pow2Values();
    Pow2Add(8, 8);
  }

  // In an array of 2^k blocks the hash sets bit `s` of block `j`.
  predicate SetsBit(T: seq<Byte>, k: nat, h: u64, j: nat, s: nat)
    requires |T| == MASK_BYTES
  {
    h / 65536 % Pow2(k) == j && MaskHas(T, h, s)
  }

  // An insertion adds exactly the bits of its mask to its block.
  lemma InsertedBit(T: seq<Byte>, k: nat, bv: seq<u64>, h: u64, j: nat, s: nat)
    requires |T| == MASK_BYTES && Shape(bv, k) && j < |bv|
    ensures Bit(InsertOne(T, k, bv, h)[j], s) <==> Bit(bv[j], s) || SetsBit(T, k, h, j, s)
  {
    hide Bit, Or, MaskOf, MaskHas, BlockOf, Pow2;
    BlockInRange(h, k);
    BlockIs(h, k);
    OrBit(bv[j], MaskOf(T, h), s);
    MaskMeaning(T, h, s);
  }

  lemma BitsInserted(T: seq<Byte>, k: nat, bv: seq<u64>, h: u64)
    requires |T| == MASK_BYTES && Shape(bv, k)
    ensures var r := InsertOne(T, k, bv, h);
            forall j: nat, s: nat :: j < |bv| ==>
              (Bit(r[j], s) <==> Bit(bv[j], s) || SetsBit(T, k, h, j, s))
  {
    hide Bit, InsertOne, SetsBit, Pow2;
    forall j: nat, s: nat | j < |bv|
      ensures Bit(InsertOne(T, k, bv, h)[j], s) <==> Bit(bv[j], s) || SetsBit(T, k, h, j, s)
    {
      InsertedBit(T, k, bv, h, j, s);
    }
  }

  // A probe succeeds exactly when the block has every bit of the mask.
  lemma ProbeBits(T: seq<Byte>, k: nat, bv: seq<u64>, h: u64)
    requires |T| == MASK_BYTES && Shape(bv, k)
    ensures h / 65536 % Pow2(k) < |bv|
    ensures Probe(T, k, bv, h) <==> forall s: nat :: MaskHas(T, h, s) ==> Bit(bv[h / 65536 % Pow2(k)], s)
  {
    hide Bit, And, MaskOf, MaskHas, BlockOf, Pow2;
    BlockInRange(h, k);
    BlockIs(h, k);
    CoversIsAnd(bv[BlockOf(h, Pow2(k) - 1)], MaskOf(T, h));
    forall s: nat
      ensures Bit(MaskOf(T, h), s) <==> MaskHas(T, h, s)
    {
      MaskMeaning(T, h, s);
    }
  }

  function Zeros(k: nat): (bv: seq<u64>)
    ensures |bv| == Pow2(k) && forall j :: 0 <= j < |bv| ==> bv[j] == 0
  {
    seq(Pow2(k), _ => 0)
  }

  // Some inserted hash of block j has bit s in its mask.
  ghost predicate Covered(T: seq<Byte>, k: nat, hs: seq<u64>, j: nat, s: nat)
    requires |T| == MASK_BYTES
  {
    exists i :: 0 <= i < |hs| && SetsBit(T, k, hs[i], j, s)
  }

  // After any run a bit is set exactly when some inserted hash of its block has it in its mask.
  lemma {:induction false} ArrayMeaning(T: seq<Byte>, k: nat, hs: seq<u64>, j: nat, s: nat)
    requires |T| == MASK_BYTES && j < Pow2(k)
    ensures Bit(InsertAll(T, k, Zeros(k), hs)[j], s) <==> Covered(T, k, hs, j, s)
  {
    hide Bit, InsertOne, SetsBit, Covered, Pow2;
    if hs == [] {
      ZeroBit(s);
      NothingCovered(T, k, j, s);
    } else {
      var n := |hs| - 1;
      ArrayMeaning(T, k, hs[..n], j, s);
      InsertedBit(T, k, InsertAll(T, k, Zeros(k), hs[..n]), hs[n], j, s);
      CoveredSnoc(T, k, hs, j, s);
    }
  }

  lemma NothingCovered(T: seq<Byte>, k: nat, j: nat, s: nat)
    requires |T| == MASK_BYTES
    ensures !Covered(T, k, [], j, s)
  {}

  lemma CoveredSnoc(T: seq<Byte>, k: nat, hs: seq<u64>, j: nat, s: nat)
    requires |T| == MASK_BYTES && hs != []
    ensures Covered(T, k, hs, j, s) <==>
            Covered(T, k, hs[..|hs| - 1], j, s) ||
            SetsBit(T, k, hs[|hs| - 1], j, s)
  {
    hide SetsBit;
    var init := hs[..|hs| - 1];
    if Covered(T, k, init, j, s) {
      var i :| 0 <= i < |init| && SetsBit(T, k, init[i], j, s);
      assert hs[i] == init[i];
    }
    if Covered(T, k, hs, j, s) {
      var i :| 0 <= i < |hs| && SetsBit(T, k, hs[i], j, s);
      assert i < |init| ==> init[i] == hs[i];
    }
  }

  // So a probe answers true exactly when each bit of its mask is in the mask of some inserted hash
  // of the same block.
  lemma ProbeMeaning(T: seq<Byte>, k: nat, hs: seq<u64>, h: u64)
    requires |T| == MASK_BYTES
    ensures Probe(T, k, InsertAll(T, k, Zeros(k), hs), h) <==>
            forall s: nat :: MaskHas(T, h, s) ==> Covered(T, k, hs, h / 65536 % Pow2(k), s)
  {
    hide Bit, InsertAll, Probe, MaskHas, Covered, Pow2;
    ProbeBits(T, k, InsertAll(T, k, Zeros(k), hs), h);
    forall s: nat
      ensures Bit(InsertAll(T, k, Zeros(k), hs)[h / 65536 % Pow2(k)], s) <==>
              Covered(T, k, hs, h / 65536 % Pow2(k), s)
    {
      ArrayMeaning(T, k, hs, h / 65536 % Pow2(k), s);
    }
  }

  // With a completed table an empty filter contains nothing.
  lemma EmptyDenies(T: seq<Byte>, k: nat, h: u64)
    requires |T| == MASK_BYTES && Complete(T)
    ensures !Probe(T, k, Zeros(k), h)
  {
    hide MaskOf, BlockOf, Pow2, Complete;
    MaskBits(T, h);
    AndZero(MaskOf(T, h));
    assert Pop(0) == 0;
    BlockInRange(h, k);
  }

  lemma AllNext(T: seq<Byte>, k: nat, bv: seq<u64>, hs: seq<u64>, i: nat)
    requires |T| == MASK_BYTES && Shape(bv, k) && i < |hs|
    ensures InsertAll(T, k, bv, hs[..i + 1]) == InsertOne(T, k, InsertAll(T, k, bv, hs[..i]), hs[i])
    ensures Hits(T, k, bv, hs[..i + 1]) == Hits(T, k, bv, hs[..i]) + if Probe(T, k, bv, hs[i]) then 1 else 0
  {
    assert hs[..i + 1][..i] == hs[..i];
  }

  // The number of hits is the number of entries whose probe succeeds.
  lemma {:induction false} HitsIsCount(T: seq<Byte>, k: nat, bv: seq<u64>, hs: seq<u64>)
    requires |T| == MASK_BYTES && Shape(bv, k)
    ensures Hits(T, k, bv, hs) == |set i | 0 <= i < |hs| && Probe(T, k, bv, hs[i])|
  {
    hide Probe;
    var found := set i | 0 <= i < |hs| && Probe(T, k, bv, hs[i]);
    if hs == [] {
      assert found == {};
    } else {
      var n := |hs| - 1;
      var before := set i | 0 <= i < n && Probe(T, k, bv, hs[..n][i]);
      HitsIsCount(T, k, bv, hs[..n]);
      CountOneMore(before, found, n, Probe(T, k, bv, hs[n]));
    }
  }

  lemma NoneYet(T: seq<Byte>, k: nat, bv: seq<u64>, hs: seq<u64>)
    requires |T| == MASK_BYTES && Shape(bv, k)
    ensures InsertAll(T, k, bv, hs[..0]) == bv && Hits(T, k, bv, hs[..0]) == 0
  {}

  // ---- The result byte of a batch probe ---------------------------------------------------------------

  function Flag(hit: bool, j: nat): nat {
    if hit then Pow2(j) else 0
  }

  // The result byte after the first `n` of the OR statements.
  function Packed(flags: seq<bool>, n: nat): nat
    requires n <= |flags|
  {
    if n == 0 then 0 else Or(Packed(flags, n - 1), Flag(flags[n - 1], n - 1))
  }

  function Count(flags: seq<bool>, n: nat): nat
    requires n <= |flags|
  {
    if n == 0 then 0 else Count(flags, n - 1) + if flags[n - 1] then 1 else 0
  }

  lemma FlagAdds(r: nat, hit: bool, j: nat)
    requires r < Pow2(j)
    ensures Or(r, Flag(hit, j)) < Pow2(j + 1)
    ensures Pop(Or(r, Flag(hit, j))) == Pop(r) + if hit then 1 else 0
  {
    hide Or, Pow2;
    OrZero(r);
    if hit {
      JoinOr(r, 1, j);
      JoinPop(r, 1, j);
      OrLaws(r, Pow2(j), 0);
      assert Pop(1) == 1;
    }
    assert Pow2(j + 1) == 2 * Pow2(j) by { NextPow2(j); }
  }

  lemma NextPow2(j: nat)
    ensures Pow2(j + 1) == 2 * Pow2(j)
  {}

  // The population count of the result byte is the number of hits.
  lemma {:induction false} PackedPop(flags: seq<bool>, n: nat)
    requires n <= |flags|
    ensures Packed(flags, n) < Pow2(n)
    ensures Pop(Packed(flags, n)) == Count(flags, n)
  {
    if n > 0 {
      PackedPop(flags, n - 1);
      FlagAdds(Packed(flags, n - 1), flags[n - 1], n - 1);
    }
  }

  // Its bit t is the outcome of lane t.
  lemma {:induction false} PackedBit(flags: seq<bool>, n: nat, t: nat)
    requires n <= |flags|
    ensures Bit(Packed(flags, n), t) <==> t < n && flags[t]
  {
    hide Bit, Or;
    if n == 0 {
      ZeroBit(t);
    } else {
      PackedBit(flags, n - 1, t);
      OrBit(Packed(flags, n - 1), Flag(flags[n - 1], n - 1), t);
      Pow2Bit(n - 1, t);
      ZeroBit(t);
    }
  }

  lemma {:induction false} HitsOfFlags(T: seq<Byte>, k: nat, bv: seq<u64>, hs: seq<u64>, from: nat,
                                       flags: seq<bool>, n: nat)
    requires |T| == MASK_BYTES && Shape(bv, k) && n <= |flags| && from + n <= |hs|
    requires forall j :: 0 <= j < n ==> flags[j] == Probe(T, k, bv, hs[from + j])
    ensures Hits(T, k, bv, hs[..from + n]) == Hits(T, k, bv, hs[..from]) + Count(flags, n)
  {
    hide Probe, Hits, Shape, InsertAll, InsertOne;
    if n > 0 {
      HitsOfFlags(T, k, bv, hs, from, flags, n - 1);
      var i := from + (n - 1);
      AllNext(T, k, bv, hs, i);
      assert flags[n - 1] == Probe(T, k, bv, hs[i]);
      assert i + 1 == from + n;
    }
  }

  class Krassovsky {
    const table: seq<Byte>  // the global table, fixed once initialised
    const bv: array<u64>
    const numBlocks: nat
    const numBlocksMask: nat
    ghost const k: nat

    ghost predicate Valid() {
      && |table| == MASK_BYTES && Complete(table)
      && numBlocks == Pow2(k) == bv.Length
      && numBlocksMask == numBlocks - 1
    }

    // `pow2_bits` doubles from 64 until it reaches the requested size.
    // Beyond 2^63 bits the doubling would wrap to zero and never end.
    constructor (nbits: u64, table: seq<Byte>)
      requires Complete(table) && nbits <= 0x8000_0000_0000_0000
      ensures Valid() && this.table == table && fresh(bv)
      ensures forall i :: 0 <= i < numBlocks ==> bv[i] == 0
      ensures nbits <= 64 * numBlocks && (numBlocks > 1 ==> 32 * numBlocks < nbits)
    {
      var pow2Bits: nat := 64;
      ghost var e := 0;
      while pow2Bits < nbits
        invariant pow2Bits == 64 * Pow2(e)
        invariant e > 0 ==> 32 * Pow2(e) < nbits
        decreases nbits - pow2Bits
      {
        pow2Bits := pow2Bits * 2 % TWO64;
        e := e + 1;
      }
      this.table := table;
      numBlocks := pow2Bits / 64;
      numBlocksMask := pow2Bits / 64 - 1;
      bv := new u64[pow2Bits / 64](_ => 0);
      k := e;
    }

    ghost function State(): seq<u64>
      reads bv
    {
      bv[..]
    }

    lemma StateShape()
      requires Valid()
      ensures |table| == MASK_BYTES && Shape(State(), k)
    {}

    method InsertPrehash(h: u64)
      requires Valid()
      modifies bv
      ensures Valid() && State() == InsertOne(table, k, old(State()), h)
      ensures forall j: nat, s: nat :: j < numBlocks ==>
                (Bit(bv[j], s) <==> Bit(old(bv[j]), s) || SetsBit(table, k, h, j, s))
    {
      hide Complete, MaskOf, SetsBit, BlockOf, Or, Bit, Pow2;
      BitsInserted(table, k, State(), h);
      BlockInRange(h, k);
      var i := BlockOf(h, numBlocksMask);
      bv[i] := Or(bv[i], MaskOf(table, h));
    }

    method ContainsPrehash(h: u64) returns (found: bool)
      requires Valid()
      ensures found == Probe(table, k, State(), h)
      ensures found <==> forall s: nat :: MaskHas(table, h, s) ==> Bit(bv[h / 65536 % numBlocks], s)
    {
      hide Complete, MaskOf, MaskHas, BlockOf, And, Bit, Pow2;
      ProbeBits(table, k, State(), h);
      BlockInRange(h, k);
      var mask := MaskOf(table, h);
      found := And(bv[BlockOf(h, numBlocksMask)], mask) == mask;
    }

    // One lane of the vector path: its mask is built by the vector formula.
    method InsertLane(h: u64, m: u64)
      requires Valid() && m == MaskOfLane(table, h)
      modifies bv
      ensures Valid() && State() == InsertOne(table, k, old(State()), h)
    {
      hide Complete, MaskOf, MaskOfLane, BlockOf, Or, Pow2;
      BlockInRange(h, k);
      VectorMaskAgrees(table, h);
      var i := BlockOf(h, numBlocksMask);
      bv[i] := Or(bv[i], m);
    }

    method TestLane(h: u64, m: u64) returns (found: bool)
      requires Valid() && m == MaskOfLane(table, h)
      ensures found == Probe(table, k, State(), h)
    {
      hide Complete, MaskOf, MaskOfLane, BlockOf, And, Pow2;
      BlockInRange(h, k);
      VectorMaskAgrees(table, h);
      found := And(m, bv[BlockOf(h, numBlocksMask)]) == m;
      AndCommutes(m, bv[BlockOf(h, numBlocksMask)]);
    }

    // `construct_mask_avx2` on two registers of four lanes.
    method Masks(h: seq<u64>, from: nat) returns (m: seq<u64>)
      requires Valid() && from + 8 <= |h|
      ensures |m| == 8 && forall j :: 0 <= j < 8 ==> m[j] == MaskOfLane(table, h[from + j])
    {
      hide Complete, MaskOfLane, Pow2;
      var T := table;
      m := [MaskOfLane(T, h[from]), MaskOfLane(T, h[from + 1]), MaskOfLane(T, h[from + 2]),
            MaskOfLane(T, h[from + 3]), MaskOfLane(T, h[from + 4]), MaskOfLane(T, h[from + 5]),
            MaskOfLane(T, h[from + 6]), MaskOfLane(T, h[from + 7])];
    }

    // One of the eight OR statements of a batch.
    method InsertLaneAt(hs: seq<u64>, i: nat, m: u64, ghost before: seq<u64>)
      requires Valid() && i < |hs| && m == MaskOfLane(table, hs[i]) && Shape(before, k)
      requires State() == InsertAll(table, k, before, hs[..i])
      modifies bv
      ensures Valid() && State() == InsertAll(table, k, before, hs[..i + 1])
    {
      hide *;
      StateShape();
      InsertLane(hs[i], m);
      AllNext(table, k, before, hs, i);
    }

    // `bloom_insert_batch8` on the eight hashes from index `i` on.
    method InsertBatch8(hs: seq<u64>, i: nat, ghost before: seq<u64>)
      requires Valid() && i + 8 <= |hs| && Shape(before, k)
      requires State() == InsertAll(table, k, before, hs[..i])
      modifies bv
      ensures Valid() && State() == InsertAll(table, k, before, hs[..i + 8])
    {
      hide *;
      StateShape();
      var m := Masks(hs, i);
      ghost var T := table;
      InsertLaneAt(hs, i, m[0], before);
      InsertLaneAt(hs, i + 1, m[1], before);
      InsertLaneAt(hs, i + 2, m[2], before);
      InsertLaneAt(hs, i + 3, m[3], before);
      InsertLaneAt(hs, i + 4, m[4], before);
      InsertLaneAt(hs, i + 5, m[5], before);
      InsertLaneAt(hs, i + 6, m[6], before);
      InsertLaneAt(hs, i + 7, m[7], before);
    }

    // `bloom_contains_batch8`: bit j of the result is the outcome for the j-th hash.
    method ContainsBatch8(hs: seq<u64>, i: nat) returns (r: nat)
      requires Valid() && i + 8 <= |hs|
      ensures r < 256 && forall j :: 0 <= j < 8 ==> Bit(r, j) == Probe(table, k, State(), hs[i + j])
      ensures Hits(table, k, State(), hs[..i + 8]) == Hits(table, k, State(), hs[..i]) + Pop(r)
    {
      hide *;
      StateShape();
      var flags := TestEight(hs, i);
      r := 0;
      r := Or(r, Flag(flags[0], 0));
      r := Or(r, Flag(flags[1], 1));
      r := Or(r, Flag(flags[2], 2));
      r := Or(r, Flag(flags[3], 3));
      r := Or(r, Flag(flags[4], 4));
      r := Or(r, Flag(flags[5], 5));
      r := Or(r, Flag(flags[6], 6));
      r := Or(r, Flag(flags[7], 7));
      EightFlags(flags, r);
      HitsOfFlags(table, k, State(), hs, i, flags, 8);
    }

    method TestFour(hs: seq<u64>, i: nat, m: seq<u64>) returns (flags: seq<bool>)
      requires Valid() && i + 4 <= |hs| && |m| == 4
      requires forall j :: 0 <= j < 4 ==> m[j] == MaskOfLane(table, hs[i + j])
      ensures |flags| == 4 && forall j :: 0 <= j < 4 ==> flags[j] == Probe(table, k, State(), hs[i + j])
    {
      hide *;
      StateShape();
      var c0 := TestLane(hs[i], m[0]);
      var c1 := TestLane(hs[i + 1], m[1]);
      var c2 := TestLane(hs[i + 2], m[2]);
      var c3 := TestLane(hs[i + 3], m[3]);
      flags := [c0, c1, c2, c3];
    }

    method TestEight(hs: seq<u64>, i: nat) returns (flags: seq<bool>)
      requires Valid() && i + 8 <= |hs|
      ensures |flags| == 8 && forall j :: 0 <= j < 8 ==> flags[j] == Probe(table, k, State(), hs[i + j])
    {
      hide *;
      StateShape();
      var m := Masks(hs, i);
      var low := TestFour(hs, i, m[..4]);
      var high := TestFour(hs, i + 4, m[4..]);
      flags := low + high;
      assert forall j :: 4 <= j < 8 ==> flags[j] == high[j - 4];
    }

    method InsertBatch8Bulk(hashes: seq<u64>)
      requires Valid()
      modifies bv
      ensures Valid() && State() == InsertAll(table, k, old(State()), hashes)
    {
      hide *;
      StateShape();
      ghost var before, T := State(), table;
      var i, n := 0, |hashes|;
      NoneYet(T, k, before, hashes);
      while i + 8 <= n
        invariant i <= n && Valid() && State() == InsertAll(table, k, before, hashes[..i])
      {
        InsertBatch8(hashes, i, before);
        i := i + 8;
      }
      while i < n
        invariant i <= n && Valid() && State() == InsertAll(table, k, before, hashes[..i])
      {
        InsertPrehash(hashes[i]);
        AllNext(table, k, before, hashes, i);
        i := i + 1;
      }
      assert hashes[..n] == hashes;
    }

    // The batches of eight, and then the remaining hashes one by one.
    method CountEights(hashes: seq<u64>) returns (i: nat, hits: nat)
      requires Valid()
      ensures i <= |hashes| < i + 8 && hits == Hits(table, k, State(), hashes[..i])
    {
      hide *;
      StateShape();
      NoneYet(table, k, State(), hashes);
      i, hits := 0, 0;
      while i + 8 <= |hashes|
        invariant i <= |hashes| && hits == Hits(table, k, State(), hashes[..i])
      {
        var r := ContainsBatch8(hashes, i);
        hits := hits + Pop(r);
        i := i + 8;
      }
    }

    method ContainsBatch8Bulk(hashes: seq<u64>) returns (hits: nat)
      requires Valid()
      ensures hits == Hits(table, k, State(), hashes)
      ensures hits == |set i | 0 <= i < |hashes| && Probe(table, k, State(), hashes[i])|
    {
      hide *;
      StateShape();
      HitsIsCount(table, k, State(), hashes);
      var i, n := 0, |hashes|;
      i, hits := CountEights(hashes);
      while i < n
        invariant i <= n && hits == Hits(table, k, State(), hashes[..i])
      {
        var found := ContainsPrehash(hashes[i]);
        AllNext(table, k, State(), hashes, i);
        hits := hits + if found then 1 else 0;
        i := i + 1;
      }
      assert hashes[..n] == hashes;
    }
  }

  lemma PackedStep(flags: seq<bool>, n: nat)
    requires 0 < n <= |flags|
    ensures Packed(flags, n) == Or(Packed(flags, n - 1), Flag(flags[n - 1], n - 1))
    ensures Packed(flags, 0) == 0
  {}

  lemma EightFlags(flags: seq<bool>, r: nat)
    requires |flags| == 8
    requires r == Or(Or(Or(Or(Or(Or(Or(Or(0, Flag(flags[0], 0)), Flag(flags[1], 1)), Flag(flags[2], 2)),
                  Flag(flags[3], 3)), Flag(flags[4], 4)), Flag(flags[5], 5)), Flag(flags[6], 6)), Flag(flags[7], 7))
    ensures r < 256 && Pop(r) == Count(flags, 8)
    ensures forall j :: 0 <= j < 8 ==> Bit(r, j) == flags[j]
  {
    hide Or, Flag, Bit, Pop, Packed;
    PackedStep(flags, 1);
    PackedStep(flags, 2);
    PackedStep(flags, 3);
    PackedStep(flags, 4);
    PackedStep(flags, 5);
    PackedStep(flags, 6);
    PackedStep(flags, 7);
    PackedStep(flags, 8);
    PackedPop(flags, 8);
    Pow2Values();
    forall j | 0 <= j < 8
      ensures Bit(r, j) == flags[j]
    {
      PackedBit(flags, 8, j);
    }
  }

  lemma {:induction false} AndCommutes(a: nat, b: nat)
    ensures And(a, b) == And(b, a)
  {
    if a != 0 && b != 0 {
      AndCommutes(a / 2, b / 2);
    }
  }
}
