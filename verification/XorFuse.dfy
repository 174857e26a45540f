/** The shim that gives the static filter an incremental interface: keys are buffered, and the
    filter is built on demand and thrown away by the next insertion. */
module XorFuse {
  import opened Words
  import opened FuseHash
  import opened FuseValues
  import opened FuseGeometry
  import opened FuseSeeds
  import opened BinaryFuse

  const FIRST_CAPACITY: nat := 1024

  // A run of `populate` on this list, in a filter of its size, that uses up all seeds: in each
  // attempt the represented hashes crowd a slot or contain a core (`TracedOutcome`).
  ghost predicate Defeated(keys: seq<u64>, exponentFor: u32 -> nat, capacityFor: u32 -> u32) {
    && |keys| < TWO32 && exponentFor(|keys|) <= 31
    && var L := Sizing(|keys|, exponentFor(|keys|), capacityFor(|keys|));
       exists bits: nat, trace, seed ::
         LeastBits(L.segmentCount, bits) && Traced(SlotsOf(L), L.arrayLength, bits, keys, trace, false, seed)
  }

  // Every seed that `populate` tries is bad for these keys.
  ghost predicate Hopeless(keys: seq<u64>, exponentFor: u32 -> nat, capacityFor: u32 -> u32) {
    && |keys| < TWO32 && exponentFor(|keys|) <= 31
    && var L := Sizing(|keys|, exponentFor(|keys|), capacityFor(|keys|));
       forall r :: 0 <= r < MAX_ITERATIONS ==> BadSeed(SlotsOf(L), L.arrayLength, keys, r)
  }

  // Without repeated keys, all runs have the same result.
  lemma DefeatedIsHopeless(keys: seq<u64>, exponentFor: u32 -> nat, capacityFor: u32 -> u32)
    requires Distinct(keys) && Defeated(keys, exponentFor, capacityFor)
    ensures Hopeless(keys, exponentFor, capacityFor)
  {
    hide Sizing, Distinct, Traced, BadSeed, LeastBits;
    var L := Sizing(|keys|, exponentFor(|keys|), capacityFor(|keys|));
    var bits: nat, trace, seed :|
      LeastBits(L.segmentCount, bits) && Traced(SlotsOf(L), L.arrayLength, bits, keys, trace, false, seed);
    TracedDistinct(SlotsOf(L), L.arrayLength, bits, keys, trace, false, seed);
  }

  // The list that in-place removals of duplicates leave for the pushed hashes: as long, with the
  // same hashes, and untouched if no hash was pushed twice.
  ghost predicate Reordered(keys: seq<u64>, pushed: seq<u64>) {
    |keys| == |pushed| && SameKeys(keys, pushed) && (Distinct(pushed) ==> keys == pushed)
  }

  lemma TrustedReordered(keys: seq<u64>, pushed: seq<u64>)
    requires Reordered(keys, pushed) && Trusted(pushed)
    ensures Trusted(keys)
  {
    hide MixSplit, SeedAt, Distinct;
    if !Distinct(pushed) {
      forall r, i | 0 <= r < MAX_ITERATIONS && 0 <= i < |keys|
        ensures MixSplit(keys[i], SeedAt(r)) != 0
      {
        assert keys[i] in keys;
        var j :| 0 <= j < |pushed| && pushed[j] == keys[i];
      }
    }
  }

  lemma ReorderedAgain(keys: seq<u64>, keys': seq<u64>, pushed: seq<u64>)
    requires Reordered(keys, pushed) && |keys'| == |keys|
    requires SameKeys(keys', keys) && (Distinct(keys) ==> keys' == keys)
    ensures Reordered(keys', pushed)
  {}

  lemma ReorderedMore(keys: seq<u64>, pushed: seq<u64>, more: seq<u64>)
    requires Reordered(keys, pushed)
    ensures Reordered(keys + more, pushed + more)
  {
    if Distinct(pushed + more) {
      DistinctPrefix(pushed, pushed + more);
    }
  }

  lemma DistinctPrefix(a: seq<u64>, b: seq<u64>)
    requires a <= b && Distinct(b)
    ensures Distinct(a)
  {
    forall i, j | 0 <= i < j < |a|
      ensures a[i] != a[j]
    {
      assert a[i] == b[i] && a[j] == b[j];
    }
  }

  // The two keys pushed by a build that finds the buffer empty.
  const FILLERS: seq<u64> := [0, 1]

  function WithFillers(pushed: seq<u64>): seq<u64> {
    if pushed == [] then FILLERS else pushed
  }

  class XorFuse {
    const filter: BinaryFuse8
    var buf: array<u64>
    var bufLen: nat
    var bufCap: nat
    var built: bool

    // The rounded results of the floating-point sizing formulas, per number of keys.
    const exponentFor: u32 -> nat
    const capacityFor: u32 -> u32

    ghost var pushed: seq<u64>  // every hash pushed so far, in order
    ghost var populated: bool   // the result, ignored by the code, of the last populate
    ghost var handed: seq<u64>  // the list handed to the last populate
    ghost var guarded: bool     // whether its last attempt started with a non-zero cell behind the keys

    ghost predicate Sized() {
      forall s :: 2 <= exponentFor(s) <= 31
    }

    ghost predicate Buffered()
      reads this, buf
    {
      bufLen <= bufCap == buf.Length && Reordered(buf[..bufLen], pushed)
    }

    // What a failed populate leaves: no fingerprints, and the seed after the last attempt.
    ghost predicate Blank()
      reads filter, filter.Fingerprints
    {
      && filter.Fingerprints != null && filter.Seed == SeedAt(100)
      && forall s :: 0 <= s < filter.Fingerprints.Length ==> filter.Fingerprints[s] == 0
    }

    // Why the last populate had its result.  Without repeated hashes the cause is exact.
    ghost predicate Explained()
      reads this, filter, filter.Fingerprints
    {
      && Reordered(handed, pushed)
      && (populated && guarded ==> forall h :: h in pushed ==> filter.Contains(h))
      && (populated && Trusted(pushed) ==> guarded)
      && (!populated ==> Defeated(handed, exponentFor, capacityFor) && Blank())
      && (Distinct(pushed) ==> (populated <==> !Hopeless(pushed, exponentFor, capacityFor)))
    }

    ghost predicate Valid()
      reads this, buf, filter, filter.Fingerprints
    {
      Sized() && Buffered() && (built ==> pushed != [] && filter.Allocated() && Explained())
    }

    constructor (nbits: nat, exponentFor: u32 -> nat, capacityFor: u32 -> u32)
      requires forall s :: 2 <= exponentFor(s) <= 31
      ensures Valid() && pushed == [] && bufLen == 0 && !built
      ensures this.exponentFor == exponentFor && this.capacityFor == capacityFor
      ensures fresh(buf) && fresh(filter)
    {
      var reserve := nbits / 21;
      if reserve < FIRST_CAPACITY {
        reserve := FIRST_CAPACITY;
      }
      buf, bufCap, bufLen, built := new u64[reserve], reserve, 0, false;
      filter := new BinaryFuse8();
      this.exponentFor, this.capacityFor := exponentFor, capacityFor;
      pushed, populated, handed, guarded := [], false, [], false;
      new;
      assert buf[..bufLen] == [];
    }

    // `realloc` to a capacity that holds the buffered hashes.
    method Reallocate(newCap: nat)
      requires Buffered() && bufLen <= newCap
      modifies this`buf, this`bufCap
      ensures Buffered() && bufCap == newCap && fresh(buf)
      ensures buf[..bufLen] == old(buf[..bufLen])
    {
      hide Reordered;
      ghost var before := buf[..bufLen];
      var grown := new u64[newCap];
      forall i | 0 <= i < bufLen {
        grown[i] := buf[i];
      }
      assert grown[..bufLen] == before;
      buf, bufCap := grown, newCap;
      assert buf[..bufLen] == before;
    }

    method Push(h: u64)
      requires Buffered()
      modifies this`buf, this`bufCap, this`bufLen, this`pushed, buf
      ensures Buffered() && pushed == old(pushed) + [h]
      ensures buf[..bufLen] == old(buf[..bufLen]) + [h]
      ensures buf == old(buf) || fresh(buf)
    {
      hide Reordered;
      if bufLen == bufCap {
        Reallocate(if bufCap != 0 then bufCap * 2 else FIRST_CAPACITY);
      }
      ghost var before := buf[..bufLen];
      buf[bufLen] := h;
      bufLen := bufLen + 1;
      assert buf[..bufLen] == before + [h];
      ReorderedMore(before, pushed, [h]);
      pushed := pushed + [h];
    }

    // Allocates and populates the filter from the buffered hashes.
    method Construct()
      requires Sized() && Buffered() && pushed != [] && bufLen < TWO32
      modifies this`built, this`populated, this`handed, this`guarded, buf, filter
      ensures Valid() && built && handed == old(buf[..bufLen])
    {
      hide Trusted, BadSeed, Distinct, Reordered, SameKeys, Sizing, Explained;
      hide Traced, LeastBits, FirstGood, RoundSuits, Hopeless, Defeated, SeedAt;
      hide BinaryFuse8.Filled, BinaryFuse8.Contains, BinaryFuse8.Allocated, BinaryFuse8.Guarded;
      filter.Allocate(bufLen, exponentFor(bufLen), capacityFor(bufLen));
      ghost var empty := filter.Fingerprints[..];
      ghost var keys := buf[..bufLen];
      ghost var bits, trace;
      var ok;
      ok, bits, trace := filter.Populate(buf, bufLen);
      populated, handed, built := ok, keys, true;
      guarded := trace != [] && BinaryFuse8.Guarded(trace[|trace| - 1]);
      assert Distinct(keys) ==> buf[..bufLen] == keys;
      ReorderedAgain(keys, buf[..bufLen], pushed);
      assert !ok ==> filter.Fingerprints[..] == empty;
      Explain(keys, ok, bits, trace);
    }

    // What the result of populate on the list `keys` means for the pushed hashes.
    lemma Explain(keys: seq<u64>, ok: bool, bits: nat, trace: seq<Round>)
      requires Reordered(keys, pushed) && |keys| < TWO32 && exponentFor(|keys|) <= 31
      requires filter.Geometry() == Sizing(|keys|, exponentFor(|keys|), capacityFor(|keys|))
      requires populated == ok && handed == keys
      requires LeastBits(filter.SegmentCount, bits)
      requires Traced(SlotsOf(filter.Geometry()), filter.ArrayLength, bits, keys, trace, ok, filter.Seed)
      requires ok && guarded ==> forall h :: h in keys ==> filter.Contains(h)
      requires ok && Trusted(keys) ==> guarded
      requires !ok ==> Blank()
      requires Distinct(keys) ==>
                 (ok <==> exists r: nat ::
                            r < MAX_ITERATIONS && !BadSeed(SlotsOf(filter.Geometry()), filter.ArrayLength, keys, r))
      ensures Explained()
    {
      hide BadSeed, Sizing, Distinct, BinaryFuse8.Contains, Trusted, Traced, LeastBits, Blank;
      if Trusted(pushed) {
        TrustedReordered(keys, pushed);
      }
      assert forall h :: h in pushed ==> h in keys;
    }

    lemma PushedLength()
      requires Buffered()
      ensures |pushed| == bufLen
    {}

    // The fillers of an empty build.
    method Fill()
      requires Buffered()
      modifies this`buf, this`bufCap, this`bufLen, this`pushed, buf
      ensures Buffered() && pushed == WithFillers(old(pushed)) && bufLen == |pushed|
      ensures buf == old(buf) || fresh(buf)
    {
      hide Reordered;
      PushedLength();
      if bufLen == 0 {
        Push(0);
        Push(1);
      }
      PushedLength();
    }

    method Build()
      requires Valid() && |WithFillers(pushed)| < TWO32
      modifies this`buf, this`bufCap, this`bufLen, this`built, this`pushed
      modifies this`populated, this`handed, this`guarded, buf, filter
      ensures Valid() && built && pushed == WithFillers(old(pushed))
      ensures old(built) ==> unchanged(this) && unchanged(filter) && unchanged(old(buf))
      ensures buf == old(buf) || fresh(buf)
    {
      if built {
        return;
      }
      hide Buffered, Explained, BinaryFuse8.Allocated;
      Fill();
      Construct();
    }

    // After a failed populate a hash is reported exactly when its fingerprint is zero, pushed or not.
    lemma BlankAnswers(h: u64)
      requires filter.Allocated() && Blank()
      ensures filter.Contains(h) <==> Fingerprint(MixSplit(h, SeedAt(100))) == 0
    {
      hide MixSplit, SeedAt, Fingerprint, Positions, HashBatch, Xor;
      var e :| Fits(filter.Geometry(), e);
      LookupIsEquation(filter.Fingerprints[..], filter.Geometry(), e, filter.Seed, h);
      XorZero(0);
    }

    // `if (x->built) { binary_fuse8_free(&x->filter); x->built = 0; }`
    method Discard()
      requires Valid()
      modifies this`built, filter
      ensures Valid() && !built && (old(built) ==> filter.Fingerprints == null)
    {
      if built {
        filter.Free();
        built := false;
      }
    }

    method InsertPrehash(h: u64)
      requires Valid()
      modifies this, buf, filter
      ensures Valid() && !built && pushed == old(pushed) + [h]
      ensures buf == old(buf) || fresh(buf)
    {
      hide Reordered, Explained;
      Discard();
      Push(h);
    }

    method ContainsPrehash(h: u64) returns (found: bool)
      requires Valid() && |WithFillers(pushed)| < TWO32
      modifies this`buf, this`bufCap, this`bufLen, this`built, this`pushed
      modifies this`populated, this`handed, this`guarded, buf, filter
      ensures Valid() && built && pushed == WithFillers(old(pushed))
      ensures old(built) ==> unchanged(this) && unchanged(filter) && unchanged(old(buf))
      ensures buf == old(buf) || fresh(buf)
      ensures found == filter.Contains(h)
      ensures populated && guarded && h in pushed ==> found
      ensures populated && Trusted(pushed) ==> guarded
    {
      hide Trusted, Reordered, Hopeless, Defeated;
      Build();
      found := filter.Contain(h);
    }

    // Appends a batch, after doubling the capacity until it fits, and builds at once.
    method InsertPrehashBulk(hashes: seq<u64>)
      requires Valid() && |WithFillers(pushed + hashes)| < TWO32
      modifies this, buf, filter
      ensures Valid() && built && pushed == WithFillers(old(pushed) + hashes)
      ensures buf == old(buf) || fresh(buf)
    {
      hide Reordered, Explained;
      Discard();
      if bufCap < bufLen + |hashes| {
        var newCap := bufCap;
        while newCap < bufLen + |hashes|
          invariant newCap >= bufCap
          decreases bufLen + |hashes| - newCap
        {
          newCap := if newCap != 0 then newCap * 2 else FIRST_CAPACITY;
        }
        Reallocate(newCap);
      }
      Append(hashes);
      Build();
    }

    method Append(hashes: seq<u64>)
      requires Sized() && Buffered() && !built && bufLen + |hashes| <= bufCap
      modifies this`bufLen, this`pushed, buf
      ensures Valid() && pushed == old(pushed) + hashes
    {
      hide Reordered, Explained;
      ghost var before := buf[..bufLen];
      forall i | 0 <= i < |hashes| {
        buf[bufLen + i] := hashes[i];
      }
      bufLen := bufLen + |hashes|;
      assert buf[..bufLen] == before + hashes;
      ReorderedMore(before, pushed, hashes);
      pushed := pushed + hashes;
    }

    method CountHits(hashes: seq<u64>) returns (hits: nat)
      requires filter.Allocated()
      ensures hits == |set i | 0 <= i < |hashes| && filter.Contains(hashes[i])|
    {
      hide BinaryFuse8.Contains, BinaryFuse8.Allocated;
      hits := 0;
      ghost var found: set<int> := {};
      for i := 0 to |hashes|
        invariant found == set k | 0 <= k < i && filter.Contains(hashes[k])
        invariant hits == |found|
      {
        var hit := filter.Contain(hashes[i]);
        hits := hits + if hit then 1 else 0;
        found := found + if hit then {i} else {};
      }
    }

    // The number of hits among a batch of probes.
    method ContainsPrehashBulk(hashes: seq<u64>) returns (hits: nat)
      requires Valid() && |WithFillers(pushed)| < TWO32
      modifies this`buf, this`bufCap, this`bufLen, this`built, this`pushed
      modifies this`populated, this`handed, this`guarded, buf, filter
      ensures Valid() && built && pushed == WithFillers(old(pushed))
      ensures old(built) ==> unchanged(this) && unchanged(filter) && unchanged(old(buf))
      ensures buf == old(buf) || fresh(buf)
      ensures hits == |set i | 0 <= i < |hashes| && filter.Contains(hashes[i])| <= |hashes|
      ensures populated && guarded ==> hits >= |set i | 0 <= i < |hashes| && hashes[i] in pushed|
    {
      hide Trusted, Reordered, Hopeless, Defeated, BinaryFuse8.Contains;
      Build();
      hits := CountHits(hashes);
      ghost var found := set i | 0 <= i < |hashes| && filter.Contains(hashes[i]);
      SubsetSize(found, Below(|hashes|));
      if populated && guarded {
        SubsetSize((set i | 0 <= i < |hashes| && hashes[i] in pushed), found);
      }
    }
  }

  // ---- Whole runs ---------------------------------------------------------------------------

  datatype Op =
    | Insert(h: u64)
    | InsertBulk(hs: seq<u64>)
    | Probe(h: u64)
    | ProbeBulk(hs: seq<u64>)
  {
    function Inserts(): seq<u64> {
      match this
      case Insert(h) => [h]
      case InsertBulk(hs) => hs
      case _ => []
    }

    // What is pushed after this operation; all but a single insertion build.
    function After(pushed: seq<u64>): seq<u64> {
      if Insert? then pushed + Inserts() else WithFillers(pushed + Inserts())
    }
  }

  // All hashes pushed by a run on a fresh filter, in order.
  function Pushed(ops: seq<Op>): seq<u64> {
    if ops == [] then [] else ops[|ops| - 1].After(Pushed(ops[..|ops| - 1]))
  }

  function Inserted(ops: seq<Op>): seq<u64> {
    if ops == [] then [] else Inserted(ops[..|ops| - 1]) + ops[|ops| - 1].Inserts()
  }

  lemma {:induction false} PushedGrows(ops: seq<Op>, i: nat)
    requires i <= |ops|
    ensures Pushed(ops[..i]) <= Pushed(ops)
  {
    if i < |ops| {
      PushedGrows(ops[..|ops| - 1], i);
      assert ops[..|ops| - 1][..i] == ops[..i];
    } else {
      assert ops[..i] == ops;
    }
  }

  // Some operation builds before anything is inserted.
  predicate EmptyBuild(ops: seq<Op>) {
    exists i :: 0 <= i < |ops| && !ops[i].Insert? && Inserted(ops[..i + 1]) == []
  }

  // What is pushed are the inserted hashes, after the fillers 0 and 1 if a build came first.
  lemma {:induction false} PushedIsInserted(ops: seq<Op>)
    ensures Pushed(ops) == (if EmptyBuild(ops) then [0, 1] else []) + Inserted(ops)
  {
    if ops != [] {
      var n := |ops| - 1;
      PushedIsInserted(ops[..n]);
      EmptyBuildNext(ops);
    }
  }

  lemma EmptyBuildNext(ops: seq<Op>)
    requires ops != []
    ensures EmptyBuild(ops) <==> EmptyBuild(ops[..|ops| - 1]) || (!ops[|ops| - 1].Insert? && Inserted(ops) == [])
  {
    hide Inserted;
    var n := |ops| - 1;
    assert ops[..n + 1] == ops;
    forall i | 0 <= i < n
      ensures ops[..n][i] == ops[i] && ops[..n][..i + 1] == ops[..i + 1]
    {}
  }

  // The inserted hashes of a run, in the order of the operations.
  lemma {:induction false} InsertedConcat(a: seq<Op>, b: seq<Op>)
    ensures Inserted(a + b) == Inserted(a) + Inserted(b)
  {
    hide Inserted;
    if b == [] {
      assert a + b == a;
      NothingInserted();
    } else {
      var n := |b| - 1;
      InsertedConcat(a, b[..n]);
      InsertedSnoc(a + b[..n], b[n]);
      InsertedSnoc(b[..n], b[n]);
      assert a + b == a + b[..n] + [b[n]] && b == b[..n] + [b[n]];
    }
  }

  lemma NothingInserted()
    ensures Inserted([]) == []
  {}

  lemma InsertedSnoc(ops: seq<Op>, op: Op)
    ensures Inserted(ops + [op]) == Inserted(ops) + op.Inserts()
  {
    assert (ops + [op])[..|ops + [op]| - 1] == ops;
  }

  lemma InsertedByOne(op: Op)
    ensures Inserted([op]) == match op
                              case Insert(h) => [h]
                              case InsertBulk(hs) => hs
                              case Probe(_) => []
                              case ProbeBulk(_) => []
  {
    assert [op][..0] == [];
  }

  // ---- Which runs can be trusted ------------------------------------------------------------

  // A hash that no seed of `populate` sends to zero.
  ghost predicate Safe(h: u64) {
    forall r :: 0 <= r < MAX_ITERATIONS ==> MixSplit(h, SeedAt(r)) != 0
  }

  // No hash is pushed twice, or no inserted hash cancels a seed.
  ghost predicate TrustedRun(ops: seq<Op>) {
    Distinct(Pushed(ops)) || forall h :: h in Inserted(ops) ==> Safe(h)
  }

  lemma PushedSafe(ops: seq<Op>, h: u64)
    requires h in Pushed(ops) && forall x :: x in Inserted(ops) ==> Safe(x)
    ensures Safe(h)
  {
    hide Safe, Inserted, Pushed, EmptyBuild;
    FillersSafe();
    PushedIsInserted(ops);
  }

  lemma TrustedPushed(ops: seq<Op>, i: nat)
    requires TrustedRun(ops) && i <= |ops|
    ensures Trusted(Pushed(ops[..i]))
  {
    var part := Pushed(ops[..i]);
    PushedGrows(ops, i);
    if Distinct(Pushed(ops)) {
      DistinctPrefix(part, Pushed(ops));
    } else {
      hide MixSplit, SeedAt, Distinct, Pushed, Inserted;
      forall r, k | 0 <= r < MAX_ITERATIONS && 0 <= k < |part|
        ensures MixSplit(part[k], SeedAt(r)) != 0
      {
        assert part[k] == Pushed(ops)[k];
        PushedSafe(ops, part[k]);
      }
    }
  }

  // Neither filler cancels any of the seeds.
  lemma FillersSafe()
    ensures Safe(0) && Safe(1)
  {
    hide SeedAt, MixSplit;
    forall r | 0 <= r < MAX_ITERATIONS
      ensures MixSplit(0, SeedAt(r)) != 0 && MixSplit(1, SeedAt(r)) != 0
    {
      SeedNotTrivial(r);
      MixZero(0, SeedAt(r));
      MixZero(1, SeedAt(r));
    }
  }

  // A probe reports every hash that is known, and a batch counts each of its entries at most once.
  ghost predicate NoMiss(op: Op, n: nat, known: seq<u64>) {
    match op
    case Probe(h) => n <= 1 && (h in known ==> n == 1)
    case ProbeBulk(hs) => |set k | 0 <= k < |hs| && hs[k] in known| <= n <= |hs|
    case _ => true
  }

  // No executed probe misses a hash inserted before it.
  ghost predicate NoMisses(ops: seq<Op>, hits: seq<nat>) {
    |hits| <= |ops| && forall i :: 0 <= i < |hits| ==> NoMiss(ops[i], hits[i], Inserted(ops[..i]))
  }

  lemma NoMissesStart(ops: seq<Op>)
    ensures NoMisses(ops, [])
  {}

  lemma NoMissesStep(ops: seq<Op>, hits: seq<nat>, n: nat)
    requires |hits| < |ops|
    ensures NoMisses(ops, hits) && NoMiss(ops[|hits|], n, Inserted(ops[..|hits|])) ==>
              NoMisses(ops, hits + [n])
  {
    hide NoMiss;
  }

  // The populate of operation `i` uses up its seeds on a list that in-place removals of duplicates
  // can make of the hashes pushed so far.
  ghost predicate FailsAt(ops: seq<Op>, i: nat, exponentFor: u32 -> nat, capacityFor: u32 -> u32) {
    && i < |ops| && !ops[i].Insert?
    && exists keys :: Reordered(keys, Pushed(ops[..i + 1])) && Defeated(keys, exponentFor, capacityFor)
  }

  lemma NoMissFewer(op: Op, n: nat, known: seq<u64>, more: seq<u64>)
    requires NoMiss(op, n, more) && forall h :: h in known ==> h in more
    ensures NoMiss(op, n, known)
  {
    if op.ProbeBulk? {
      SubsetSize((set k | 0 <= k < |op.hs| && op.hs[k] in known), (set k | 0 <= k < |op.hs| && op.hs[k] in more));
    }
  }

  lemma InsertedBefore(ops: seq<Op>, i: nat)
    requires i < |ops|
    ensures forall h :: h in Inserted(ops[..i]) ==> h in Pushed(ops[..i + 1])
  {
    PushedIsInserted(ops[..i]);
    PushedGrows(ops[..i + 1], i);
    assert ops[..i + 1][..i] == ops[..i];
    forall h | h in Inserted(ops[..i])
      ensures h in Pushed(ops[..i + 1])
    {
      assert h in Pushed(ops[..i]);
    }
  }

  method Apply(x: XorFuse, op: Op) returns (hits: nat)
    requires x.Valid() && |op.After(x.pushed)| < TWO32
    modifies x, x.buf, x.filter
    ensures x.Valid() && x.pushed == op.After(old(x.pushed))
    ensures x.buf == old(x.buf) || fresh(x.buf)
    ensures op.Insert? || x.built
    ensures match op
            case Probe(h) => hits == if x.filter.Contains(h) then 1 else 0
            case ProbeBulk(hs) => hits == |set i | 0 <= i < |hs| && x.filter.Contains(hs[i])|
            case _ => hits == 0
    ensures op.Insert? || (x.populated && x.guarded) ==> NoMiss(op, hits, x.pushed)
  {
    hide Trusted, XorFuse.Valid, BinaryFuse8.Contains;
    hits := 0;
    match op
    case Insert(h) =>
      x.InsertPrehash(h);
    case InsertBulk(hs) =>
      x.InsertPrehashBulk(hs);
    case Probe(h) =>
      assert x.pushed + [] == x.pushed;
      var found := x.ContainsPrehash(h);
      hits := if found then 1 else 0;
    case ProbeBulk(hs) =>
      assert x.pushed + [] == x.pushed;
      hits := x.ContainsPrehashBulk(hs);
  }

  // What a valid filter says about the populate of the operation just executed.
  lemma PopulateExplained(x: XorFuse, ops: seq<Op>, i: nat)
    requires x.Valid() && x.built && i < |ops| && !ops[i].Insert?
    requires x.pushed == Pushed(ops[..i + 1])
    ensures !x.populated ==> FailsAt(ops, i, x.exponentFor, x.capacityFor)
    ensures x.populated && Trusted(x.pushed) ==> x.guarded
    ensures Distinct(x.pushed) ==> (x.populated <==> !FailsAt(ops, i, x.exponentFor, x.capacityFor))
  {
    hide Hopeless, Defeated, Trusted, Distinct, SameKeys, Pushed;
    assert Reordered(x.handed, x.pushed);
    if Distinct(x.pushed) && Defeated(x.pushed, x.exponentFor, x.capacityFor) {
      DefeatedIsHopeless(x.pushed, x.exponentFor, x.capacityFor);
    }
  }

  // The failures among the first `i` operations.
  ghost predicate Account(ops: seq<Op>, i: nat, allPopulated: bool,
                          exponentFor: u32 -> nat, capacityFor: u32 -> u32)
  {
    && (!allPopulated ==> exists j: nat :: j < i && FailsAt(ops, j, exponentFor, capacityFor))
    && (Distinct(Pushed(ops)) ==>
          (allPopulated <==> forall j: nat :: j < i ==> !FailsAt(ops, j, exponentFor, capacityFor)))
  }

  lemma AccountStart(ops: seq<Op>, exponentFor: u32 -> nat, capacityFor: u32 -> u32)
    ensures Account(ops, 0, true, exponentFor, capacityFor)
  {}

  lemma AccountStep(x: XorFuse, ops: seq<Op>, i: nat, allPopulated: bool)
    requires Account(ops, i, allPopulated, x.exponentFor, x.capacityFor)
    requires x.Valid() && i < |ops| && x.pushed == Pushed(ops[..i + 1]) && (ops[i].Insert? || x.built)
    ensures Account(ops, i + 1, allPopulated && (ops[i].Insert? || x.populated), x.exponentFor, x.capacityFor)
  {
    hide Distinct, XorFuse.Valid, Pushed, Trusted, FailsAt;
    PushedGrows(ops, i + 1);
    if Distinct(Pushed(ops)) {
      DistinctPrefix(x.pushed, Pushed(ops));
    }
    if ops[i].Insert? {
      InsertNeverFails(ops, i, x.exponentFor, x.capacityFor);
    } else {
      PopulateExplained(x, ops, i);
    }
  }

  lemma InsertNeverFails(ops: seq<Op>, i: nat, exponentFor: u32 -> nat, capacityFor: u32 -> u32)
    requires i < |ops| && ops[i].Insert?
    ensures !FailsAt(ops, i, exponentFor, capacityFor)
  {}

  lemma AccountEnd(ops: seq<Op>, allPopulated: bool, exponentFor: u32 -> nat, capacityFor: u32 -> u32)
    requires Account(ops, |ops|, allPopulated, exponentFor, capacityFor)
    ensures !allPopulated ==> exists i: nat :: FailsAt(ops, i, exponentFor, capacityFor)
    ensures Distinct(Pushed(ops)) ==>
              (allPopulated <==> forall i: nat :: !FailsAt(ops, i, exponentFor, capacityFor))
  {
    hide Distinct;
  }

  // Any interleaving of the operations on a fresh filter.  If every populate on the way succeeded
  // with its guard, as it always is in a trusted run, no probe misses a hash inserted before it.
  // A populate fails only on a list that uses up all seeds, and without repeated hashes exactly on
  // those.
  method Run(x: XorFuse, ops: seq<Op>) returns (hits: seq<nat>, ghost allPopulated: bool, ghost allGuarded: bool)
    requires x.Valid() && x.pushed == []
    requires |Pushed(ops)| < TWO32
    modifies x, x.buf, x.filter
    ensures x.Valid() && x.pushed == Pushed(ops)
    ensures |hits| == |ops|
    ensures allPopulated && allGuarded ==> NoMisses(ops, hits)
    ensures TrustedRun(ops) && allPopulated ==> allGuarded
    ensures !allPopulated ==> exists i: nat :: FailsAt(ops, i, x.exponentFor, x.capacityFor)
    ensures Distinct(Pushed(ops)) ==>
              (allPopulated <==> forall i: nat :: !FailsAt(ops, i, x.exponentFor, x.capacityFor))
  {
    hide NoMiss, Trusted, TrustedRun, XorFuse.Valid, NoMisses, FailsAt, Distinct, Account;
    assert NoMisses(ops, []) by { NoMissesStart(ops); }
    AccountStart(ops, x.exponentFor, x.capacityFor);
    hits, allPopulated, allGuarded := [], true, true;
    for i := 0 to |ops|
      invariant x.Valid() && x.pushed == Pushed(ops[..i])
      invariant x.buf == old(x.buf) || fresh(x.buf)
      invariant |hits| == i
      invariant allPopulated && allGuarded ==> NoMisses(ops, hits)
      invariant TrustedRun(ops) && allPopulated ==> allGuarded
      invariant Account(ops, i, allPopulated, x.exponentFor, x.capacityFor)
    {
      assert ops[..i + 1][..i] == ops[..i];
      PushedGrows(ops, i + 1);
      var n := Apply(x, ops[i]);
      InsertedBefore(ops, i);
      if ops[i].Insert? || (x.populated && x.guarded) {
        NoMissFewer(ops[i], n, Inserted(ops[..i]), x.pushed);
      }
      NoMissesStep(ops, hits, n);
      AccountStep(x, ops, i, allPopulated);
      if TrustedRun(ops) && !ops[i].Insert? {
        TrustedPushed(ops, i + 1);
        PopulateExplained(x, ops, i);
      }
      hits := hits + [n];
      allPopulated := allPopulated && (ops[i].Insert? || x.populated);
      allGuarded := allGuarded && (ops[i].Insert? || x.guarded);
    }
    assert ops[..|ops|] == ops;
    AccountEnd(ops, allPopulated, x.exponentFor, x.capacityFor);
  }
}
