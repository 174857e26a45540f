/** The retry loop of `binary_fuse8_populate`: a new seed after every failed attempt, and an
    in-place removal of duplicate keys when the attempt met duplicates. */
module FuseSeeds {
  import opened Words
  import opened FuseHash
  import opened FuseTable
  import opened FusePlacement
  import opened FuseCounting
  import opened FusePeeling
  import opened FuseRounds
  import Dedup = FuseDedup

  function MixWith(seed: u64): u64 -> u64 {
    (key: u64) => MixSplit(key, seed)
  }

  ghost predicate NoZeroHash(keys: seq<u64>) {
    forall r, i :: 0 <= r < MAX_ITERATIONS && 0 <= i < |keys| ==> MixSplit(keys[i], SeedAt(r)) != 0
  }

  // Keys for which the sentinel behind the placed hashes is never lost: it moves only when
  // duplicates are removed, and is then a left-over hash.
  ghost predicate Trusted(keys: seq<u64>) {
    Distinct(keys) || NoZeroHash(keys)
  }

  // What a failed seed implies for the keys; for distinct keys it is also sufficient.
  ghost predicate BadSeed(hf: SlotFn, n: nat, keys: seq<u64>, round: nat) {
    Hard(hf, n, Hashes(keys, MixWith(SeedAt(round))))
  }

  // The state between attempts: `cur` are the keys still used out of `orig`.
  ghost predicate Between(hf: SlotFn, n: nat, orig: seq<u64>, cur: seq<u64>, sentinel: u64, round: nat) {
    && (forall x :: x in cur <==> x in orig)
    && multiset(cur) <= multiset(orig)
    && (Distinct(orig) ==> cur == orig)
    && (Trusted(orig) ==> sentinel != 0)
    && (Trusted(orig) ==> forall r :: 0 <= r < round ==> BadSeed(hf, n, orig, r))
  }

  // ---- Fewer keys, fewer hashes --------------------------------------------------------------

  lemma HashesConcat(a: seq<u64>, b: seq<u64>, mix: u64 -> u64)
    ensures Hashes(a + b, mix) == Hashes(a, mix) + Hashes(b, mix)
  {}

  lemma {:induction false} SubHashes(a: seq<u64>, b: seq<u64>, mix: u64 -> u64)
    requires multiset(a) <= multiset(b)
    ensures multiset(Hashes(a, mix)) <= multiset(Hashes(b, mix))
  {
    hide Hashes;
    if a == [] {
      assert Hashes(a, mix) == [];
    } else {
      var a', x := a[..|a| - 1], a[|a| - 1];
      assert a == a' + [x];
      assert x in multiset(a);
      var k := FindFirst(b, x);
      var b1, b2 := b[..k], b[k + 1..];
      assert b == b1 + [x] + b2;
      DropCommon(a', b, b1, b2, x);
      SubHashes(a', b1 + b2, mix);
      HashesConcat(a', [x], mix);
      HashesConcat(b1, b2, mix);
      HashesConcat(b1, [x], mix);
      HashesConcat(b1 + [x], b2, mix);
    }
  }

  lemma HardGrows(hf: SlotFn, n: nat, H: seq<u64>, H': seq<u64>)
    requires Hard(hf, n, H) && multiset(H) <= multiset(H')
    ensures Hard(hf, n, H')
  {
    hide Jammed, Shared;
    var S :| multiset(S) <= multiset(H) && Shared(hf, S) && Jammed(hf, n, S);
    assert multiset(S) <= multiset(H');
  }

  lemma {:induction false} CompactShrinks(s: seq<u64>)
    ensures multiset(Dedup.Compact(s)) <= multiset(s)
  {
    if |s| > 1 {
      var n := |s| - 1;
      CompactShrinks(s[..n]);
      assert s == s[..n] + [s[n]];
    }
  }

  // ---- One failed attempt --------------------------------------------------------------------

  lemma FailedRound(hf: SlotFn, n: nat, orig: seq<u64>, cur: seq<u64>, sentinel: u64, round: nat,
                    outcome: Outcome, cells: seq<u64>)
    requires Between(hf, n, orig, cur, sentinel, round) && !outcome.Solved?
    requires sentinel != 0 ==> RoundFacts(hf, n, Hashes(cur, MixWith(SeedAt(round))), outcome, cells)
    ensures Between(hf, n, orig, cur, sentinel, round + 1)
  {
    hide Hard, Trusted;
    if Trusted(orig) {
      var mix := MixWith(SeedAt(round));
      SubHashes(cur, orig, mix);
      HardGrows(hf, n, Hashes(cur, mix), Hashes(orig, mix));
      assert BadSeed(hf, n, orig, round);
    }
  }

  lemma SubOfDistinct(orig: seq<u64>, cur: seq<u64>)
    requires multiset(cur) <= multiset(orig) && |cur| == |orig|
    ensures multiset(cur) == multiset(orig)
  {
    var rest := multiset(orig) - multiset(cur);
    assert multiset(orig) == multiset(cur) + rest;
    assert |rest| == 0;
  }

  // Distinct keys never look duplicated.
  lemma DistinctKeysHashApart(orig: seq<u64>, cur: seq<u64>, seed: u64)
    requires Distinct(orig) && multiset(cur) <= multiset(orig) && |cur| == |orig|
    ensures Distinct(Hashes(cur, MixWith(seed)))
  {
    var H := Hashes(cur, MixWith(seed));
    forall a, b | 0 <= a < b < |cur|
      ensures H[a] != H[b]
    {
      if H[a] == H[b] {
        MixInjective(cur[a], cur[b], seed);
        SubOfDistinct(orig, cur);
        RepeatSurvives(cur, orig);
      }
    }
  }

  lemma AfterDedup(hf: SlotFn, n: nat, orig: seq<u64>, cur: seq<u64>, sentinel: u64, round: nat,
                   outcome: Outcome, cells: seq<u64>, sorted: seq<u64>, cur': seq<u64>)
    requires Between(hf, n, orig, cur, sentinel, round) && round < MAX_ITERATIONS
    requires outcome.Stuck? && outcome.duplicates > 0 && |cur| < |cells|
    requires sentinel != 0 ==> cells[|cur|] != 0
    requires sentinel != 0 ==> RoundFacts(hf, n, Hashes(cur, MixWith(SeedAt(round))), outcome, cells)
    requires multiset(sorted) == multiset(cur)
    requires cur' == Dedup.Compact(sorted) && |cur'| <= |cur|
    ensures Between(hf, n, orig, cur', cells[|cur'|], round + 1)
  {
    FailedRound(hf, n, orig, cur, sentinel, round, outcome, cells);
    hide Hard, Hashes, BadSeed, Trusted, Dedup.Compact, Distinct;
    CompactedKeys(orig, cur, sorted);
    if Trusted(orig) {
      SentinelKept(hf, n, orig, cur, round, outcome, cells, |cur'|);
    }
  }

  lemma CompactedKeys(orig: seq<u64>, cur: seq<u64>, sorted: seq<u64>)
    requires forall x :: x in cur <==> x in orig
    requires multiset(cur) <= multiset(orig) && multiset(sorted) == multiset(cur)
    ensures forall x :: x in Dedup.Compact(sorted) <==> x in orig
    ensures multiset(Dedup.Compact(sorted)) <= multiset(orig)
  {
    hide Dedup.Compact;
    SameElements(sorted, cur);
    forall x
      ensures x in Dedup.Compact(sorted) <==> x in orig
    {
      Dedup.CompactElements(sorted, x);
    }
    CompactShrinks(sorted);
  }

  // Removing duplicates leaves a non-zero hash, or the old sentinel, behind the kept cells;
  // and distinct keys never get here.
  lemma SentinelKept(hf: SlotFn, n: nat, orig: seq<u64>, cur: seq<u64>, round: nat,
                     outcome: Outcome, cells: seq<u64>, size': nat)
    requires Trusted(orig) && round < MAX_ITERATIONS
    requires forall x :: x in cur ==> x in orig
    requires multiset(cur) <= multiset(orig) && (Distinct(orig) ==> cur == orig)
    requires outcome.Stuck? && outcome.duplicates > 0
    requires size' <= |cur| < |cells| && cells[|cur|] != 0
    requires RoundFacts(hf, n, Hashes(cur, MixWith(SeedAt(round))), outcome, cells)
    ensures cells[size'] != 0 && !Distinct(orig)
  {
    hide Hard, Hashes, NoZeroHash;
    if Distinct(orig) {
      DistinctKeysHashApart(orig, cur, SeedAt(round));
      assert false;
    }
    if size' < |cur| {
      NoZeroAmong(orig, cur, round);
      assert cells[..|cur|][size'] == cells[size'];
    }
  }

  lemma NoZeroAmong(orig: seq<u64>, cur: seq<u64>, round: nat)
    requires NoZeroHash(orig) && round < MAX_ITERATIONS
    requires forall x :: x in cur ==> x in orig
    ensures 0 !in Hashes(cur, MixWith(SeedAt(round)))
  {
    forall i | 0 <= i < |cur|
      ensures MixSplit(cur[i], SeedAt(round)) != 0
    {
      assert cur[i] in orig;
    }
  }

  // ---- The loop ------------------------------------------------------------------------------

  // `memset` of the first cells.
  ghost predicate Erased(size: nat, cells: seq<u64>, cells': seq<u64>) {
    && size <= |cells| == |cells'|
    && (forall p :: 0 <= p < size ==> cells'[p] == 0)
    && cells'[size..] == cells[size..]
  }

  method Clear(size: nat, reverseOrder: array<u64>, t2count: array<Byte>, t2hash: array<u64>)
    requires size <= reverseOrder.Length && t2count.Length == t2hash.Length
    requires reverseOrder != t2hash
    modifies reverseOrder, t2count, t2hash
    ensures Erased(size, old(reverseOrder[..]), reverseOrder[..])
    ensures forall s :: 0 <= s < t2count.Length ==> t2count[s] == 0 && t2hash[s] == 0
  {
    forall p | 0 <= p < size {
      reverseOrder[p] := 0;
    }
    forall s | 0 <= s < t2count.Length {
      t2count[s] := 0;
    }
    forall s | 0 <= s < t2hash.Length {
      t2hash[s] := 0;
    }
  }

  lemma BetweenStart(hf: SlotFn, n: nat, orig: seq<u64>, sentinel: u64)
    requires sentinel != 0
    ensures Between(hf, n, orig, orig, sentinel, 0)
  {}

  // The keys left by a failed attempt: the same, or what remains of a rearrangement when repeated
  // neighbours are dropped.
  ghost predicate Remaining(keys: seq<u64>, outcome: Outcome, sorted: seq<u64>, keys': seq<u64>) {
    if outcome.Stuck? && outcome.duplicates > 0
    then multiset(sorted) == multiset(keys) && keys' == Dedup.Compact(sorted)
    else keys' == keys
  }

  // The keys after a failed attempt: unchanged, or with duplicates removed.
  method NextKeys(keys: array<u64>, size: u32, outcome: Outcome) returns (size': u32, ghost sorted: seq<u64>)
    requires size <= keys.Length && (outcome.Stuck? ==> outcome.duplicates <= size)
    modifies keys
    ensures size' <= size && keys[size..] == old(keys[size..])
    ensures forall k :: 0 <= k < size ==> keys[k] in old(keys[..size])
    ensures Remaining(old(keys[..size]), outcome, sorted, keys[..size'])
  {
    ghost var cur := keys[..size];
    sorted := cur;
    if outcome.Stuck? && outcome.duplicates > 0 {
      var j;
      j, sorted := Dedup.SortAndRemoveDup(keys, size);
      size' := j;
      SameElements(sorted, cur);
    } else {
      size' := size;
    }
  }

  lemma SentinelSame(hf: SlotFn, n: nat, orig: seq<u64>, cur: seq<u64>, sentinel: u64, round: nat, sentinel': u64)
    requires Between(hf, n, orig, cur, sentinel, round)
    requires sentinel != 0 ==> sentinel' == sentinel
    ensures Between(hf, n, orig, cur, sentinel', round)
  {}

  // `binary_fuse_rng_splitmix64`: advances the counter and returns the next seed.
  method NextSeed(counter: u64, ghost round: int) returns (counter': u64, seed: u64)
    requires round >= -1
    requires counter == if round == -1 then RNG_START else CounterAt(round)
    ensures counter' == CounterAt(round + 1) && seed == SeedAt(round + 1)
  {
    var c: nat := counter;
    counter' := (c + GOLDEN) % TWO64;
    seed := SplitMix(counter');
    if round >= 0 {
      CounterStep(round);
    }
  }

  // Distinct keys are never reduced, so a solved attempt shows that its seed suits all of them.
  lemma DistinctSolved(hf: SlotFn, n: nat, orig: seq<u64>, cur: seq<u64>, sentinel: u64, round: nat,
                       outcome: Outcome, cells: seq<u64>)
    requires Between(hf, n, orig, cur, sentinel, round) && outcome.Solved? && Distinct(orig)
    requires sentinel != 0 ==> RoundFacts(hf, n, Hashes(cur, MixWith(SeedAt(round))), outcome, cells)
    ensures !BadSeed(hf, n, orig, round)
  {
    hide Hard, NoZeroHash;
    var mix := MixWith(SeedAt(round));
    DistinctKeysHashApart(orig, cur, SeedAt(round));
    SubOfDistinct(orig, cur);
    SubHashes(orig, cur, mix);
    if Hard(hf, n, Hashes(orig, mix)) {
      HardGrows(hf, n, Hashes(orig, mix), Hashes(cur, mix));
    }
  }

  lemma DistinctStay(hf: SlotFn, n: nat, orig: seq<u64>, cur: seq<u64>, sentinel: u64, round: nat)
    requires Between(hf, n, orig, cur, sentinel, round)
    ensures Distinct(orig) ==> cur == orig
  {}

  // The working buffers that `populate` allocates.
  class Workspace {
    const startPos: array<nat>
    const reverseOrder: array<u64>
    const t2count: array<Byte>
    const t2hash: array<u64>
    const alone: array<nat>
    const reverseH: array<nat>

    constructor (size: u32, capacity: u32, blockBits: nat)
      requires 1 <= blockBits <= 32
      ensures Buffers(size, capacity, blockBits)
      ensures Zeroed(size) && reverseOrder[size] == 1
      ensures reverseOrder[..] == seq(size, _ => 0) + [1]
      ensures fresh(startPos) && fresh(reverseOrder) && fresh(t2count)
      ensures fresh(t2hash) && fresh(alone) && fresh(reverseH)
    {
      startPos := new nat[Pow2(blockBits)];
      reverseOrder := new u64[size + 1](i => if i == size then 1 else 0);
      t2count := new Byte[capacity](_ => 0);
      t2hash := new u64[capacity](_ => 0);
      alone := new nat[capacity];
      reverseH := new nat[size];
    }

    ghost predicate Buffers(size: nat, capacity: nat, blockBits: nat) {
      && 1 <= blockBits <= 32
      && startPos.Length == Pow2(blockBits)
      && reverseOrder.Length == size + 1
      && t2count.Length == t2hash.Length == alone.Length == capacity
      && reverseH.Length == size
      && reverseOrder != t2hash
      && startPos != alone && startPos != reverseH && alone != reverseH
    }

    ghost predicate Zeroed(size: nat)
      reads reverseOrder, t2count, t2hash
    {
      && size < reverseOrder.Length
      && (forall p :: 0 <= p < size ==> reverseOrder[p] == 0)
      && (forall s :: 0 <= s < t2count.Length ==> t2count[s] == 0)
      && (forall s :: 0 <= s < t2hash.Length ==> t2hash[s] == 0)
    }
  }

  // The state before an attempt: cleared buffers behind their sentinel.
  ghost predicate Ready(w: Workspace, blockBits: nat, keys: array<u64>, size: nat, size0: nat)
    reads w.reverseOrder, w.t2count, w.t2hash
  {
    && w.Buffers(size0, w.t2count.Length, blockBits)
    && keys != w.reverseOrder && keys != w.t2hash
    && size <= size0 <= keys.Length && size0 < TWO32
    && w.Zeroed(size) && w.reverseOrder[size0] != 0
  }

  // Attempt `r` is the first one whose seed suits the keys.
  ghost predicate FirstGood(hf: SlotFn, n: nat, keys: seq<u64>, r: nat) {
    && r < MAX_ITERATIONS
    && !BadSeed(hf, n, keys, r)
    && forall q :: 0 <= q < r ==> BadSeed(hf, n, keys, q)
  }

  ghost predicate SameKeys(now: seq<u64>, orig: seq<u64>) {
    forall x :: x in now <==> x in orig
  }

  lemma PrefixElements(part: seq<u64>, whole: seq<u64>, orig: seq<u64>)
    requires |part| <= |whole| && part == whole[..|part|]
    requires forall x :: x in part <==> x in orig
    ensures forall x :: x in orig ==> x in whole
  {
    forall x | x in orig
      ensures x in whole
    {
      assert x in part;
    }
  }

  // ---- The record of a run ---------------------------------------------------------------------

  // One pass of the loop: the keys, the cells of `reverseOrder` before and after, and the
  // rearrangement of the keys by a removal of duplicates that followed.
  datatype Round = Round(keys: seq<u64>, before: seq<u64>, outcome: Outcome, after: seq<u64>,
                         sorted: seq<u64>)

  ghost predicate RoundOk(hf: SlotFn, n: nat, blockBits: nat, r: Round, round: nat) {
    Attempted(hf, n, blockBits, Hashes(r.keys, MixWith(SeedAt(round))), r.before, r.outcome, r.after)
  }

  // The stack of a pass, with the positions of its pivots.
  ghost predicate RoundStack(hf: SlotFn, n: nat, blockBits: nat, r: Round, seed: u64,
                             stack: seq<u64>, found: seq<nat>)
  {
    Stacked(hf, n, blockBits, Hashes(r.keys, MixWith(seed)), r.before, stack, found)
  }

  // A failed pass, and the keys and cells it leaves to the next one.
  ghost predicate Follows(r: Round, keys: seq<u64>, cells: seq<u64>) {
    !r.outcome.Solved? && Remaining(r.keys, r.outcome, r.sorted, keys) && Erased(|keys|, r.after, cells)
  }

  // A run of failed passes from the original keys, ending with the given keys and cells.
  ghost predicate History(hf: SlotFn, n: nat, blockBits: nat, orig: seq<u64>, trace: seq<Round>,
                          keys: seq<u64>, cells: seq<u64>)
  {
    if trace == [] then keys == orig && cells == seq(|orig|, _ => 0) + [1]
    else
      var r := trace[|trace| - 1];
      && History(hf, n, blockBits, orig, trace[..|trace| - 1], r.keys, r.before)
      && RoundOk(hf, n, blockBits, r, |trace| - 1)
      && Follows(r, keys, cells)
  }

  // A whole run: failed passes, and a solved one at the end unless all seeds were used up.
  ghost predicate Traced(hf: SlotFn, n: nat, blockBits: nat, orig: seq<u64>, trace: seq<Round>,
                         ok: bool, seed: u64)
  {
    if ok then
      && 0 < |trace| <= MAX_ITERATIONS
      && var r := trace[|trace| - 1];
      && History(hf, n, blockBits, orig, trace[..|trace| - 1], r.keys, r.before)
      && RoundOk(hf, n, blockBits, r, |trace| - 1)
      && r.outcome.Solved? && seed == SeedAt(|trace| - 1)
    else
      |trace| == MAX_ITERATIONS && exists keys, cells :: History(hf, n, blockBits, orig, trace, keys, cells)
  }

  lemma HistoryNext(hf: SlotFn, n: nat, blockBits: nat, orig: seq<u64>, trace: seq<Round>, r: Round,
                    keys: seq<u64>, cells: seq<u64>)
    requires History(hf, n, blockBits, orig, trace, r.keys, r.before)
    requires RoundOk(hf, n, blockBits, r, |trace|) && Follows(r, keys, cells)
    ensures History(hf, n, blockBits, orig, trace + [r], keys, cells)
  {
    hide RoundOk, Follows;
    assert (trace + [r])[..|trace + [r]| - 1] == trace;
  }

  lemma TracedSolved(hf: SlotFn, n: nat, blockBits: nat, orig: seq<u64>, trace: seq<Round>, r: Round)
    requires History(hf, n, blockBits, orig, trace, r.keys, r.before)
    requires RoundOk(hf, n, blockBits, r, |trace|) && r.outcome.Solved? && |trace| < MAX_ITERATIONS
    ensures Traced(hf, n, blockBits, orig, trace + [r], true, SeedAt(|trace|))
  {
    hide RoundOk, History;
    assert (trace + [r])[..|trace + [r]| - 1] == trace;
  }

  lemma TracedFailed(hf: SlotFn, n: nat, blockBits: nat, orig: seq<u64>, trace: seq<Round>,
                     keys: seq<u64>, cells: seq<u64>, seed: u64)
    requires History(hf, n, blockBits, orig, trace, keys, cells) && |trace| == MAX_ITERATIONS
    ensures Traced(hf, n, blockBits, orig, trace, false, seed)
  {
    hide History;
  }

  lemma HistoryStart(hf: SlotFn, n: nat, blockBits: nat, orig: seq<u64>)
    ensures History(hf, n, blockBits, orig, [], orig, seq(|orig|, _ => 0) + [1])
  {}

  lemma RejoinKeys(now: seq<u64>, before: seq<u64>, size: nat)
    requires size <= |now| == |before| && now[size..] == before[size..]
    ensures now[..size] == before[..size] ==> now == before
  {
    assert now == now[..size] + now[size..];
    assert before == before[..size] + before[size..];
  }

  // Each pass of a run starts where the one before it ended.
  lemma {:induction false} HistoryAt(hf: SlotFn, n: nat, blockBits: nat, orig: seq<u64>, trace: seq<Round>,
                                     keys: seq<u64>, cells: seq<u64>, i: nat)
    requires History(hf, n, blockBits, orig, trace, keys, cells) && i < |trace|
    ensures History(hf, n, blockBits, orig, trace[..i], trace[i].keys, trace[i].before)
    ensures RoundOk(hf, n, blockBits, trace[i], i)
    ensures if i + 1 < |trace| then Follows(trace[i], trace[i + 1].keys, trace[i + 1].before)
            else Follows(trace[i], keys, cells)
  {
    hide RoundOk, Follows;
    var m := |trace| - 1;
    var r := trace[m];
    if i < m {
      HistoryAt(hf, n, blockBits, orig, trace[..m], r.keys, r.before, i);
      assert trace[..m][..i] == trace[..i];
    }
  }

  // Any pass of a whole run.
  lemma TracedAt(hf: SlotFn, n: nat, blockBits: nat, orig: seq<u64>, trace: seq<Round>, ok: bool,
                 seed: u64, i: nat)
    requires Traced(hf, n, blockBits, orig, trace, ok, seed) && i < |trace|
    ensures History(hf, n, blockBits, orig, trace[..i], trace[i].keys, trace[i].before)
    ensures RoundOk(hf, n, blockBits, trace[i], i)
    ensures if i + 1 < |trace| then Follows(trace[i], trace[i + 1].keys, trace[i + 1].before)
            else trace[i].outcome.Solved? == ok
  {
    hide RoundOk, History;
    if ok {
      var m := |trace| - 1;
      if i < m {
        HistoryAt(hf, n, blockBits, orig, trace[..m], trace[m].keys, trace[m].before, i);
        assert trace[..m][..i] == trace[..i];
      }
    } else {
      var keys, cells :| History(hf, n, blockBits, orig, trace, keys, cells);
      HistoryAt(hf, n, blockBits, orig, trace, keys, cells, i);
    }
  }

  // Step by step: the run starts with the given keys and cleared cells behind the sentinel 1.  An
  // overflow, or a core without detected duplicates, leaves the keys as they are; detected duplicates
  // have them rearranged and compacted.  As many cells as keys remain are cleared, and no others.
  lemma TracedSteps(hf: SlotFn, n: nat, blockBits: nat, orig: seq<u64>, trace: seq<Round>, ok: bool,
                    seed: u64, i: nat)
    requires Traced(hf, n, blockBits, orig, trace, ok, seed) && i < |trace|
    ensures i == 0 ==> trace[0].keys == orig && trace[0].before == seq(|orig|, _ => 0) + [1]
    ensures i + 1 < |trace| ==>
              var r, keys, cells := trace[i], trace[i + 1].keys, trace[i + 1].before;
              && !r.outcome.Solved?
              && (r.outcome == Overflow || r.outcome == Stuck(0) ==> keys == r.keys)
              && (r.outcome.Stuck? && r.outcome.duplicates > 0 ==>
                    multiset(r.sorted) == multiset(r.keys) && keys == Dedup.Compact(r.sorted))
              && |keys| <= |r.after| == |cells|
              && forall p :: 0 <= p < |cells| ==> cells[p] == if p < |keys| then 0 else r.after[p]
  {
    hide RoundOk, Dedup.Compact;
    TracedAt(hf, n, blockBits, orig, trace, ok, seed, i);
    if i + 1 < |trace| {
      var r, keys, cells := trace[i], trace[i + 1].keys, trace[i + 1].before;
      forall p | |keys| <= p < |cells|
        ensures cells[p] == r.after[p]
      {
        assert cells[|keys|..][p - |keys|] == r.after[|keys|..][p - |keys|];
      }
    }
  }

  lemma SameRound(hf: SlotFn, n: nat, blockBits: nat, r1: Round, r2: Round, round: nat)
    requires RoundOk(hf, n, blockBits, r1, round) && RoundOk(hf, n, blockBits, r2, round)
    requires r1.keys == r2.keys && r1.before == r2.before && r1.sorted == r2.sorted
    ensures r1 == r2
  {
    hide Attempted, SeedAt, MixWith, Hashes;
    AttemptsAgree(hf, n, blockBits, Hashes(r1.keys, MixWith(SeedAt(round))), r1.before,
                  r1.outcome, r1.after, r2.outcome, r2.after);
  }

  lemma {:induction false} SameRounds(hf: SlotFn, n: nat, blockBits: nat, orig: seq<u64>,
                                      trace1: seq<Round>, ok1: bool, seed1: u64,
                                      trace2: seq<Round>, ok2: bool, seed2: u64, i: nat)
    requires Traced(hf, n, blockBits, orig, trace1, ok1, seed1) && Traced(hf, n, blockBits, orig, trace2, ok2, seed2)
    requires i < |trace1| && i < |trace2|
    requires forall j :: 0 <= j <= i ==> trace1[j].sorted == trace2[j].sorted
    ensures trace1[i] == trace2[i]
  {
    hide Traced, RoundOk, Dedup.Compact;
    TracedSteps(hf, n, blockBits, orig, trace1, ok1, seed1, i);
    TracedSteps(hf, n, blockBits, orig, trace2, ok2, seed2, i);
    if i > 0 {
      SameRounds(hf, n, blockBits, orig, trace1, ok1, seed1, trace2, ok2, seed2, i - 1);
      TracedSteps(hf, n, blockBits, orig, trace1, ok1, seed1, i - 1);
      TracedSteps(hf, n, blockBits, orig, trace2, ok2, seed2, i - 1);
      assert trace1[i].keys == trace2[i].keys;
      assert trace1[i].before == trace2[i].before;
    }
    TracedAt(hf, n, blockBits, orig, trace1, ok1, seed1, i);
    TracedAt(hf, n, blockBits, orig, trace2, ok2, seed2, i);
    SameRound(hf, n, blockBits, trace1[i], trace2[i], i);
  }

  // The sort is the only freedom of a run: if it leaves the same arrangements, the whole run is the
  // same, with its result and its seed.
  lemma RunsAgree(hf: SlotFn, n: nat, blockBits: nat, orig: seq<u64>, trace1: seq<Round>, ok1: bool, seed1: u64,
                  trace2: seq<Round>, ok2: bool, seed2: u64)
    requires Traced(hf, n, blockBits, orig, trace1, ok1, seed1) && Traced(hf, n, blockBits, orig, trace2, ok2, seed2)
    requires forall i :: 0 <= i < |trace1| && i < |trace2| ==> trace1[i].sorted == trace2[i].sorted
    ensures trace1 == trace2 && ok1 == ok2 && (ok1 ==> seed1 == seed2)
  {
    hide *;
    TracedEnds(hf, n, blockBits, orig, trace1, ok1, seed1);
    TracedEnds(hf, n, blockBits, orig, trace2, ok2, seed2);
    var last := (if |trace1| < |trace2| then |trace1| else |trace2|) - 1;
    SameRounds(hf, n, blockBits, orig, trace1, ok1, seed1, trace2, ok2, seed2, last);
    SolvedIsLast(hf, n, blockBits, orig, trace1, ok1, seed1, last);
    SolvedIsLast(hf, n, blockBits, orig, trace2, ok2, seed2, last);
    forall i: nat | i <= last
      ensures trace1[i] == trace2[i]
    {
      SameRounds(hf, n, blockBits, orig, trace1, ok1, seed1, trace2, ok2, seed2, i);
    }
  }

  lemma SolvedIsLast(hf: SlotFn, n: nat, blockBits: nat, orig: seq<u64>, trace: seq<Round>, ok: bool, seed: u64,
                     i: nat)
    requires Traced(hf, n, blockBits, orig, trace, ok, seed) && i < |trace|
    ensures trace[i].outcome.Solved? <==> ok && i + 1 == |trace|
  {
    hide Traced, RoundOk, Remaining, Erased, History;
    TracedAt(hf, n, blockBits, orig, trace, ok, seed, i);
  }

  lemma TracedEnds(hf: SlotFn, n: nat, blockBits: nat, orig: seq<u64>, trace: seq<Round>, ok: bool, seed: u64)
    requires Traced(hf, n, blockBits, orig, trace, ok, seed)
    ensures 1 <= |trace| <= 100 && (!ok ==> |trace| == 100) && (ok ==> seed == SeedAt(|trace| - 1))
  {}

  lemma RoundSize(hf: SlotFn, n: nat, blockBits: nat, r: Round, round: nat)
    requires RoundOk(hf, n, blockBits, r, round)
    ensures |r.after| == |r.before|
  {
    hide Placed, CountedAfter, PeeledAfter, Hashes;
  }

  // What the earlier passes leave: the same keys, and erased cells.
  lemma {:induction false} HistoryKeys(hf: SlotFn, n: nat, blockBits: nat, orig: seq<u64>, trace: seq<Round>,
                                       keys: seq<u64>, cells: seq<u64>)
    requires History(hf, n, blockBits, orig, trace, keys, cells)
    ensures SameKeys(keys, orig) && |keys| < |cells|
    ensures forall p :: 0 <= p < |keys| ==> cells[p] == 0
  {
    hide RoundOk, Dedup.Compact;
    if trace != [] {
      var r := trace[|trace| - 1];
      HistoryKeys(hf, n, blockBits, orig, trace[..|trace| - 1], r.keys, r.before);
      RoundSize(hf, n, blockBits, r, |trace| - 1);
      if r.outcome.Stuck? && r.outcome.duplicates > 0 {
        SameElements(r.sorted, r.keys);
        forall x
          ensures x in keys <==> x in orig
        {
          Dedup.CompactElements(r.sorted, x);
        }
      }
    }
  }

  // The stack of a solved pass holds the hashes of all the given keys.
  ghost predicate Covers(r: Round, keys: seq<u64>, seed: u64) {
    && r.outcome.Solved? && r.outcome.stacksize <= |r.after|
    && forall x :: x in keys ==> MixSplit(x, seed) in r.after[..r.outcome.stacksize]
  }

  // A successful run has stacked the hash of every original key if the placement of its last attempt
  // wrote nothing behind the keys, as it does when the cell behind them is not zero.  When that
  // attempt had no repeated keys this is also necessary.
  lemma RunCovers(hf: SlotFn, n: nat, blockBits: nat, orig: seq<u64>, trace: seq<Round>, seed: u64)
    requires Traced(hf, n, blockBits, orig, trace, true, seed)
    ensures var r := trace[|trace| - 1];
            && |r.keys| < |r.before|
            && (NoSpill(r.before, Hashes(r.keys, MixWith(seed)), blockBits) ==> Covers(r, orig, seed))
            && (Distinct(r.keys) && Covers(r, orig, seed) ==>
                  NoSpill(r.before, Hashes(r.keys, MixWith(seed)), blockBits))
            && (r.before[|r.keys|] != 0 ==> NoSpill(r.before, Hashes(r.keys, MixWith(seed)), blockBits))
  {
    hide History, NoSpill, MixSplit, Attempted, Hashes, SameKeys;
    var r := trace[|trace| - 1];
    HistoryKeys(hf, n, blockBits, orig, trace[..|trace| - 1], r.keys, r.before);
    LastRound(hf, n, blockBits, orig, r, |trace| - 1);
  }

  lemma LastRound(hf: SlotFn, n: nat, blockBits: nat, orig: seq<u64>, r: Round, round: nat)
    requires RoundOk(hf, n, blockBits, r, round) && r.outcome.Solved?
    requires SameKeys(r.keys, orig) && |r.keys| < |r.before|
    requires forall p :: 0 <= p < |r.keys| ==> r.before[p] == 0
    ensures var H := Hashes(r.keys, MixWith(SeedAt(round)));
            && (NoSpill(r.before, H, blockBits) ==> Covers(r, orig, SeedAt(round)))
            && (Distinct(r.keys) && Covers(r, orig, SeedAt(round)) ==> NoSpill(r.before, H, blockBits))
            && (r.before[|r.keys|] != 0 ==> NoSpill(r.before, H, blockBits))
  {
    hide Attempted, MixSplit, NoSpill, SameKeys, SeedAt, Distinct;
    var H := Hashes(r.keys, MixWith(SeedAt(round)));
    if Distinct(r.keys) {
      ApartUnder(r.keys, SeedAt(round));
    }
    SolvedCovers(hf, n, blockBits, H, r.before, r.outcome.stacksize, r.after);
    StackedHashes(r.keys, orig, SeedAt(round), r.after[..r.outcome.stacksize]);
  }

  lemma ApartUnder(keys: seq<u64>, seed: u64)
    requires Distinct(keys)
    ensures Distinct(Hashes(keys, MixWith(seed)))
  {
    hide Hashes, Distinct;
    DistinctKeysHashApart(keys, keys, seed);
  }

  lemma StackedHashes(keys: seq<u64>, orig: seq<u64>, seed: u64, stack: seq<u64>)
    requires SameKeys(keys, orig)
    ensures (forall x :: x in orig ==> MixSplit(x, seed) in stack) <==>
            forall h :: h in Hashes(keys, MixWith(seed)) ==> h in stack
  {
    hide MixSplit;
    var H := Hashes(keys, MixWith(seed));
    if forall h :: h in H ==> h in stack {
      forall x | x in orig
        ensures MixSplit(x, seed) in stack
      {
        var i :| 0 <= i < |keys| && keys[i] == x;
        assert H[i] in H;
      }
    }
    if forall x :: x in orig ==> MixSplit(x, seed) in stack {
      forall i | 0 <= i < |H|
        ensures H[i] in stack
      {
        assert keys[i] in keys;
      }
    }
  }

  // ---- What a run means -------------------------------------------------------------------------

  // Between any two passes.
  lemma {:induction false} HistoryBetween(hf: SlotFn, n: nat, blockBits: nat, orig: seq<u64>, trace: seq<Round>,
                                          keys: seq<u64>, cells: seq<u64>)
    requires History(hf, n, blockBits, orig, trace, keys, cells) && |trace| <= MAX_ITERATIONS
    ensures |keys| < |cells| && Between(hf, n, orig, keys, cells[|keys|], |trace|)
  {
    hide Between, RoundOk, Follows;
    HistoryKeys(hf, n, blockBits, orig, trace, keys, cells);
    if trace == [] {
      BetweenStart(hf, n, orig, 1);
    } else {
      var m := |trace| - 1;
      var r := trace[m];
      HistoryBetween(hf, n, blockBits, orig, trace[..m], r.keys, r.before);
      HistoryKeys(hf, n, blockBits, orig, trace[..m], r.keys, r.before);
      BetweenStep(hf, n, blockBits, orig, r, m, keys, cells);
    }
  }

  lemma BetweenStep(hf: SlotFn, n: nat, blockBits: nat, orig: seq<u64>, r: Round, round: nat,
                    keys: seq<u64>, cells: seq<u64>)
    requires round < MAX_ITERATIONS && |r.keys| < |r.before| && |keys| < |cells|
    requires forall p :: 0 <= p < |r.keys| ==> r.before[p] == 0
    requires Between(hf, n, orig, r.keys, r.before[|r.keys|], round)
    requires RoundOk(hf, n, blockBits, r, round) && Follows(r, keys, cells)
    ensures Between(hf, n, orig, keys, cells[|keys|], round + 1)
  {
    hide Between, Attempted, RoundFacts, MixWith, SeedAt, Dedup.Compact;
    var sentinel, H := r.before[|r.keys|], Hashes(r.keys, MixWith(SeedAt(round)));
    AttemptedSize(hf, n, blockBits, H, r.before, r.outcome, r.after);
    if sentinel != 0 {
      AttemptedFacts(hf, n, blockBits, H, r.before, r.outcome, r.after);
    }
    assert cells[|keys|] == cells[|keys|..][0] == r.after[|keys|..][0] == r.after[|keys|];
    if r.outcome.Stuck? && r.outcome.duplicates > 0 {
      SameElements(r.sorted, r.keys);
      AfterDedup(hf, n, orig, r.keys, sentinel, round, r.outcome, r.after, r.sorted, keys);
    } else {
      FailedRound(hf, n, orig, r.keys, sentinel, round, r.outcome, r.after);
      SentinelSame(hf, n, orig, r.keys, sentinel, round + 1, r.after[|r.keys|]);
    }
  }

  lemma AttemptedSize(hf: SlotFn, n: nat, blockBits: nat, H: seq<u64>, before: seq<u64>, outcome: Outcome,
                      after: seq<u64>)
    requires Attempted(hf, n, blockBits, H, before, outcome, after)
    ensures |after| == |before| > |H|
  {}

  // For trusted keys the cell behind the keys is never zero, and every seed that was given up is
  // bad; distinct keys stop at the first good seed.
  lemma TracedTrusted(hf: SlotFn, n: nat, blockBits: nat, orig: seq<u64>, trace: seq<Round>, ok: bool, seed: u64)
    requires Traced(hf, n, blockBits, orig, trace, ok, seed) && Trusted(orig)
    ensures ok ==> var r := trace[|trace| - 1]; |r.keys| < |r.before| && r.before[|r.keys|] != 0
    ensures !ok ==> forall r :: 0 <= r < MAX_ITERATIONS ==> BadSeed(hf, n, orig, r)
    ensures ok && Distinct(orig) ==> FirstGood(hf, n, orig, |trace| - 1)
  {
    hide History, Trusted, BadSeed, RoundOk, Distinct;
    if ok {
      var m := |trace| - 1;
      var r := trace[m];
      HistoryBetween(hf, n, blockBits, orig, trace[..m], r.keys, r.before);
      HistoryKeys(hf, n, blockBits, orig, trace[..m], r.keys, r.before);
      GoodRound(hf, n, blockBits, orig, r, m);
    } else {
      var keys, cells :| History(hf, n, blockBits, orig, trace, keys, cells);
      HistoryBetween(hf, n, blockBits, orig, trace, keys, cells);
    }
  }

  lemma GoodRound(hf: SlotFn, n: nat, blockBits: nat, orig: seq<u64>, r: Round, round: nat)
    requires |r.keys| < |r.before| && forall p :: 0 <= p < |r.keys| ==> r.before[p] == 0
    requires Between(hf, n, orig, r.keys, r.before[|r.keys|], round) && Trusted(orig)
    requires RoundOk(hf, n, blockBits, r, round) && r.outcome.Solved?
    ensures r.before[|r.keys|] != 0
    ensures Distinct(orig) ==> !BadSeed(hf, n, orig, round)
    ensures forall q :: 0 <= q < round ==> BadSeed(hf, n, orig, q)
  {
    hide Attempted, RoundFacts, Hashes, Trusted, Distinct, BadSeed;
    var sentinel, H := r.before[|r.keys|], Hashes(r.keys, MixWith(SeedAt(round)));
    AttemptedFacts(hf, n, blockBits, H, r.before, r.outcome, r.after);
    if Distinct(orig) {
      DistinctSolved(hf, n, orig, r.keys, sentinel, round, r.outcome, r.after);
    }
  }

  // For distinct keys the result of a run does not depend on how it goes.
  lemma TracedDistinct(hf: SlotFn, n: nat, blockBits: nat, orig: seq<u64>, trace: seq<Round>, ok: bool, seed: u64)
    requires Traced(hf, n, blockBits, orig, trace, ok, seed) && Distinct(orig)
    ensures ok <==> exists r: nat :: r < MAX_ITERATIONS && !BadSeed(hf, n, orig, r)
    ensures ok ==> exists r: nat :: FirstGood(hf, n, orig, r) && seed == SeedAt(r)
  {
    hide BadSeed, Distinct, History, RoundOk, SeedAt;
    DistinctIsTrusted(orig);
    TracedTrusted(hf, n, blockBits, orig, trace, ok, seed);
  }

  lemma DistinctIsTrusted(keys: seq<u64>)
    requires Distinct(keys)
    ensures Trusted(keys)
  {}

  // The attempt is solved: the hashes that the counting pass represents neither crowd a slot nor
  // contain a core.
  ghost predicate RoundSuits(hf: SlotFn, n: nat, blockBits: nat, r: Round, round: nat) {
    var H := Hashes(r.keys, MixWith(SeedAt(round)));
    && Good(hf, n)
    && |H| < TWO32 && |H| < |r.before| && r.before[|r.before| - 1] != 0 && blockBits <= 64
    && Suits(hf, n, blockBits, H, r.before)
  }

  // Whatever the keys: a run succeeds exactly when one of its attempts suits, and that is its last.
  lemma TracedOutcome(hf: SlotFn, n: nat, blockBits: nat, orig: seq<u64>, trace: seq<Round>, ok: bool, seed: u64)
    requires Traced(hf, n, blockBits, orig, trace, ok, seed)
    ensures ok <==> exists i: nat :: i < |trace| && RoundSuits(hf, n, blockBits, trace[i], i)
    ensures forall i: nat :: i + 1 < |trace| ==> !RoundSuits(hf, n, blockBits, trace[i], i)
    ensures |trace| <= 100 && (!ok ==> |trace| == 100)
  {
    hide RoundSuits, History, RoundOk;
    forall i: nat | i < |trace|
      ensures RoundSuits(hf, n, blockBits, trace[i], i) <==> ok && i + 1 == |trace|
    {
      TracedAt(hf, n, blockBits, orig, trace, ok, seed, i);
      RoundOutcome(hf, n, blockBits, trace[i], i);
    }
  }

  lemma RoundOutcome(hf: SlotFn, n: nat, blockBits: nat, r: Round, round: nat)
    requires RoundOk(hf, n, blockBits, r, round)
    ensures RoundSuits(hf, n, blockBits, r, round) <==> r.outcome.Solved?
  {
    hide *;
    var H := Hashes(r.keys, MixWith(SeedAt(round)));
    RoundAttempted(hf, n, blockBits, r, round, H);
    OutcomeExact(hf, n, blockBits, H, r.before, r.outcome, r.after);
    SuitsIs(hf, n, blockBits, r, round, H);
  }

  lemma RoundAttempted(hf: SlotFn, n: nat, blockBits: nat, r: Round, round: nat, H: seq<u64>)
    requires RoundOk(hf, n, blockBits, r, round) && H == Hashes(r.keys, MixWith(SeedAt(round)))
    ensures Attempted(hf, n, blockBits, H, r.before, r.outcome, r.after)
    ensures Good(hf, n)
    ensures |H| < TWO32 && |H| < |r.before| && r.before[|r.before| - 1] != 0 && blockBits <= 64
  {
    hide Placed, CountedAfter, PeeledAfter, Good, SeedAt, MixWith;
  }

  lemma SuitsIs(hf: SlotFn, n: nat, blockBits: nat, r: Round, round: nat, H: seq<u64>)
    requires H == Hashes(r.keys, MixWith(SeedAt(round))) && Good(hf, n)
    requires |H| < TWO32 && |H| < |r.before| && r.before[|r.before| - 1] != 0 && blockBits <= 64
    ensures RoundSuits(hf, n, blockBits, r, round) <==> Suits(hf, n, blockBits, H, r.before)
  {
    hide Suits, Good, SeedAt, MixWith;
  }

  // ---- The loop ---------------------------------------------------------------------------------

  // One pass of the retry loop.
  method Attempt(keys: array<u64>, size: u32, seed: u64, hf: SlotFn, w: Workspace, blockBits: nat, ghost size0: nat)
    returns (outcome: Outcome)
    requires Ready(w, blockBits, keys, size, size0) && Good(hf, w.t2count.Length)
    modifies w.startPos, w.reverseOrder, w.t2count, w.t2hash, w.alone, w.reverseH
    ensures w.reverseOrder[size0] != 0
    ensures outcome.Stuck? ==> outcome.duplicates <= size
    ensures outcome.Solved? ==>
              && outcome.stacksize <= size <= w.reverseOrder.Length && outcome.stacksize <= w.reverseH.Length
              && PeelOrder(hf, w.reverseOrder[..outcome.stacksize], w.reverseH[..outcome.stacksize])
              && Stacked(hf, w.t2count.Length, blockBits, Hashes(keys[..size], MixWith(seed)),
                         old(w.reverseOrder[..]), w.reverseOrder[..outcome.stacksize],
                         w.reverseH[..outcome.stacksize])
    ensures Attempted(hf, w.t2count.Length, blockBits, Hashes(keys[..size], MixWith(seed)),
                      old(w.reverseOrder[..]), outcome, w.reverseOrder[..])
  {
    hide Hashes, PeelOrder, MixSplit, Good, Pow2, Attempted, Stacked;
    outcome := TryRound(keys, size, MixWith(seed), hf, blockBits, w.startPos, w.reverseOrder,
                        w.t2count, w.t2hash, w.alone, w.reverseH);
  }

  // What follows a failed attempt: the remaining keys, and cleared buffers.
  method Retry(keys: array<u64>, size: u32, outcome: Outcome, w: Workspace, blockBits: nat, ghost size0: nat)
    returns (size': u32, ghost sorted: seq<u64>)
    requires w.Buffers(size0, w.t2count.Length, blockBits) && w.reverseOrder[size0] != 0
    requires keys != w.reverseOrder && keys != w.t2hash && size <= size0 <= keys.Length && size0 < TWO32
    requires outcome.Stuck? ==> outcome.duplicates <= size
    modifies keys, w.reverseOrder, w.t2count, w.t2hash
    ensures keys[size0..] == old(keys[size0..])
    ensures forall k :: 0 <= k < size0 ==> keys[k] in old(keys[..size0])
    ensures Ready(w, blockBits, keys, size', size0) && size' <= size
    ensures Remaining(old(keys[..size]), outcome, sorted, keys[..size'])
    ensures Erased(size', old(w.reverseOrder[..]), w.reverseOrder[..])
  {
    ghost var cells, whole := w.reverseOrder[..], keys[..];
    assert cells[size0] != 0 && |cells| == size0 + 1;
    hide *;
    size', sorted := NextKeys(keys, size, outcome);
    KeptTail(whole, keys[..], size, size0);
    Clear(size', w.reverseOrder, w.t2count, w.t2hash);
    ReadyAgain(w, blockBits, keys, size', size0, cells);
  }

  lemma KeptTail(before: seq<u64>, now: seq<u64>, size: nat, size0: nat)
    requires size <= size0 <= |before| == |now| && now[size..] == before[size..]
    requires forall k :: 0 <= k < size ==> now[k] in before[..size]
    ensures now[size0..] == before[size0..]
    ensures forall k :: 0 <= k < size0 ==> now[k] in before[..size0]
  {
    assert now[size0..] == now[size..][size0 - size..];
    assert before[size0..] == before[size..][size0 - size..];
    forall k | 0 <= k < size0
      ensures now[k] in before[..size0]
    {
      if k < size {
        var j :| 0 <= j < size && before[..size][j] == now[k];
        assert before[..size0][j] == now[k];
      } else {
        assert now[k] == now[size..][k - size] == before[..size0][k];
      }
    }
  }

  lemma ReadyAgain(w: Workspace, blockBits: nat, keys: array<u64>, size: nat, size0: nat, cells: seq<u64>)
    requires w.Buffers(size0, w.t2count.Length, blockBits) && keys != w.reverseOrder && keys != w.t2hash
    requires size <= size0 <= keys.Length && size0 < TWO32
    requires |cells| == size0 + 1 && cells[size0] != 0 && Erased(size, cells, w.reverseOrder[..])
    requires forall s :: 0 <= s < w.t2count.Length ==> w.t2count[s] == 0 && w.t2hash[s] == 0
    ensures Ready(w, blockBits, keys, size, size0)
  {
    assert w.reverseOrder[size0] == w.reverseOrder[..][size..][size0 - size] == cells[size..][size0 - size];
  }

  lemma ReadyStart(w: Workspace, blockBits: nat, keys: array<u64>, size: u32)
    requires w.Buffers(size, w.t2count.Length, blockBits)
    requires keys != w.reverseOrder && keys != w.t2hash
    requires size <= keys.Length && w.Zeroed(size) && w.reverseOrder[size] == 1
    ensures Ready(w, blockBits, keys, size, size)
  {}

  lemma ReadyFacts(w: Workspace, blockBits: nat, keys: array<u64>, size: nat, size0: nat)
    requires Ready(w, blockBits, keys, size, size0)
    ensures w.Buffers(size0, w.t2count.Length, blockBits)
    ensures keys != w.reverseOrder && keys != w.t2hash && size <= size0 <= keys.Length && size0 < TWO32
  {}

  // What an ended run says about the keys left in the array.
  lemma KeysAfterRun(hf: SlotFn, n: nat, blockBits: nat, orig: seq<u64>, trace: seq<Round>, keys: seq<u64>,
                     cells: seq<u64>, whole: seq<u64>)
    requires History(hf, n, blockBits, orig, trace, keys, cells) && |trace| <= MAX_ITERATIONS
    requires |keys| <= |whole| == |orig| && keys == whole[..|keys|]
    requires forall k :: 0 <= k < |whole| ==> whole[k] in orig
    ensures SameKeys(whole, orig) && (Distinct(orig) ==> whole == orig)
  {
    hide History;
    HistoryBetween(hf, n, blockBits, orig, trace, keys, cells);
    HistoryKeys(hf, n, blockBits, orig, trace, keys, cells);
    PrefixElements(keys, whole, orig);
    DistinctStay(hf, n, orig, keys, cells[|keys|], |trace|);
  }

  // One iteration: an attempt and, unless it is solved, what prepares the next one.
  method OnePass(keys: array<u64>, size: u32, seed: u64, hf: SlotFn, w: Workspace, blockBits: nat,
                 ghost size0: nat, ghost round: nat)
    returns (outcome: Outcome, size': u32, ghost r: Round)
    requires Ready(w, blockBits, keys, size, size0) && Good(hf, w.t2count.Length) && seed == SeedAt(round)
    modifies keys, w.startPos, w.reverseOrder, w.t2count, w.t2hash, w.alone, w.reverseH
    ensures size0 <= keys.Length && size' <= size && keys[size0..] == old(keys[size0..])
    ensures forall k :: 0 <= k < size0 ==> keys[k] in old(keys[..size0])
    ensures size <= keys.Length && r.keys == old(keys[..size])
    ensures r.before == old(w.reverseOrder[..]) && r.outcome == outcome
    ensures RoundOk(hf, w.t2count.Length, blockBits, r, round)
    ensures outcome.Solved? ==>
              && keys[..] == old(keys[..]) && r.after == w.reverseOrder[..]
              && outcome.stacksize <= size <= w.reverseOrder.Length && outcome.stacksize <= w.reverseH.Length
              && PeelOrder(hf, w.reverseOrder[..outcome.stacksize], w.reverseH[..outcome.stacksize])
              && RoundStack(hf, w.t2count.Length, blockBits, r, seed,
                            w.reverseOrder[..outcome.stacksize], w.reverseH[..outcome.stacksize])
    ensures !outcome.Solved? ==>
              Ready(w, blockBits, keys, size', size0) && Follows(r, keys[..size'], w.reverseOrder[..])
  {
    hide *;
    ReadyFacts(w, blockBits, keys, size, size0);
    r := Round(keys[..size], w.reverseOrder[..], Overflow, [], []);
    outcome := Attempt(keys, size, seed, hf, w, blockBits, size0);
    r := r.(outcome := outcome, after := w.reverseOrder[..]);
    AttemptRecorded(hf, w.t2count.Length, blockBits, r, round, seed);
    size' := size;
    if outcome.Solved? {
      StackRecorded(hf, w.t2count.Length, blockBits, r, seed, w.reverseOrder[..outcome.stacksize],
                    w.reverseH[..outcome.stacksize]);
    } else {
      ghost var sorted;
      size', sorted := Retry(keys, size, outcome, w, blockBits, size0);
      r := r.(sorted := sorted);
      RoundRecorded(hf, w.t2count.Length, blockBits, r, round, seed, keys[..size'], w.reverseOrder[..]);
    }
  }

  method FindSeed(keys: array<u64>, size0: u32, hf: SlotFn, w: Workspace, blockBits: nat)
    returns (ok: bool, seed: u64, stacksize: u32, ghost trace: seq<Round>)
    requires size0 <= keys.Length && Ready(w, blockBits, keys, size0, size0)
    requires w.reverseOrder[..] == seq(size0, _ => 0) + [1]
    requires Good(hf, w.t2count.Length)
    modifies keys, w.startPos, w.reverseOrder, w.t2count, w.t2hash, w.alone, w.reverseH
    ensures keys[size0..] == old(keys[size0..]) && SameKeys(keys[..size0], old(keys[..size0]))
    ensures Distinct(old(keys[..size0])) ==> keys[..] == old(keys[..])
    ensures Traced(hf, w.t2count.Length, blockBits, old(keys[..size0]), trace, ok, seed)
    ensures seed == SeedAt(if ok then |trace| - 1 else 100) && 0 <= |trace| - 1 < 100
    ensures ok ==>
              && stacksize <= w.reverseOrder.Length && stacksize <= w.reverseH.Length
              && trace[|trace| - 1].outcome == Solved(stacksize)
              && trace[|trace| - 1].after == w.reverseOrder[..]
              && PeelOrder(hf, w.reverseOrder[..stacksize], w.reverseH[..stacksize])
              && RoundStack(hf, w.t2count.Length, blockBits, trace[|trace| - 1], seed,
                            w.reverseOrder[..stacksize], w.reverseH[..stacksize])
  {
    hide *;
    HundredRounds();
    ghost var orig, all := keys[..size0], keys[..];
    ghost var n := w.t2count.Length;
    trace := [];
    HistoryStart(hf, n, blockBits, orig);
    var size, loop := size0, 0;
    var counter: u64;
    counter, seed := NextSeed(RNG_START, -1);
    ok, stacksize := false, 0;
    while true
      invariant 0 <= loop <= MAX_ITERATIONS
      invariant counter == CounterAt(loop) && seed == SeedAt(loop)
      invariant Ready(w, blockBits, keys, size, size0) && size <= size0
      invariant keys[size0..] == all[size0..] && forall k :: 0 <= k < size0 ==> keys[k] in orig
      invariant |trace| == loop && History(hf, n, blockBits, orig, trace, keys[..size], w.reverseOrder[..])
      decreases MAX_ITERATIONS - loop
    {
      ReadyFacts(w, blockBits, keys, size, size0);
      KeysAfterRun(hf, n, blockBits, orig, trace, keys[..size], w.reverseOrder[..], keys[..size0]);
      RejoinKeys(keys[..], all, size0);
      if loop + 1 > MAX_ITERATIONS {
        TracedFailed(hf, n, blockBits, orig, trace, keys[..size], w.reverseOrder[..], seed);
        return;
      }
      ghost var r;
      ghost var now := keys[..size0];
      var outcome;
      outcome, size, r := OnePass(keys, size, seed, hf, w, blockBits, size0, loop);
      if outcome.Solved? {
        ok, stacksize := true, outcome.stacksize;
        TracedSolved(hf, n, blockBits, orig, trace, r);
        trace := trace + [r];
        return;
      }
      KeysStay(orig, now, keys[..size0]);
      HistoryNext(hf, n, blockBits, orig, trace, r, keys[..size], w.reverseOrder[..]);
      trace := trace + [r];
      counter, seed := NextSeed(counter, loop);
      loop := loop + 1;
    }
  }

  lemma StackRecorded(hf: SlotFn, n: nat, blockBits: nat, r: Round, seed: u64, stack: seq<u64>, found: seq<nat>)
    requires Stacked(hf, n, blockBits, Hashes(r.keys, MixWith(seed)), r.before, stack, found)
    ensures RoundStack(hf, n, blockBits, r, seed, stack, found)
  {
    hide Stacked;
  }

  lemma HundredRounds()
    ensures MAX_ITERATIONS == 100
  {}

  lemma AttemptRecorded(hf: SlotFn, n: nat, blockBits: nat, r: Round, round: nat, seed: u64)
    requires seed == SeedAt(round)
    requires Attempted(hf, n, blockBits, Hashes(r.keys, MixWith(seed)), r.before, r.outcome, r.after)
    ensures RoundOk(hf, n, blockBits, r, round)
  {
    hide Attempted, SeedAt, MixWith;
  }

  lemma RoundRecorded(hf: SlotFn, n: nat, blockBits: nat, r: Round, round: nat, seed: u64,
                      keys: seq<u64>, cells: seq<u64>)
    requires seed == SeedAt(round) && !r.outcome.Solved?
    requires Attempted(hf, n, blockBits, Hashes(r.keys, MixWith(seed)), r.before, r.outcome, r.after)
    requires Remaining(r.keys, r.outcome, r.sorted, keys) && Erased(|keys|, r.after, cells)
    ensures RoundOk(hf, n, blockBits, r, round) && Follows(r, keys, cells)
  {
    hide Attempted, SeedAt, MixWith, Remaining, Erased;
  }

  lemma KeysStay(orig: seq<u64>, before: seq<u64>, now: seq<u64>)
    requires forall k :: 0 <= k < |before| ==> before[k] in orig
    requires forall k :: 0 <= k < |now| ==> now[k] in before
    ensures forall k :: 0 <= k < |now| ==> now[k] in orig
  {
    forall k | 0 <= k < |now|
      ensures now[k] in orig
    {
      var j :| 0 <= j < |before| && before[j] == now[k];
    }
  }
}
