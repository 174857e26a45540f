# Verified models of quickbloom and the filters it is compared with

This project models, in Dafny, the data structures of the quickbloom repository and proves what
they promise:

- the binary fuse filter (`comparisons/binaryfusefilter.h`): construction by bucket placement,
  packed counting, hypergraph peeling, seed retries, in-place duplicate removal and
  back-substitution, and the three-slot lookup;
- the lazy-build shim around it (`comparisons/bloom_xorfuse.c`), over whole runs;
- the split block Bloom filter (`quickbloom.c`), with its shift-based block index, unrolled bulk
  paths, sizing and serialization, against the scalar filter of `comparisons/bloom_impala.c`, and
  with concurrent readers;
- the mask table and the eight-lane batches of `comparisons/bloom_krassovsky.c`;
- classic double hashing (`comparisons/bloom_classic.c`).

## How it is organised

| file | contents |
|---|---|
| `Words.dfy` | machine words as naturals: `Shr`, `Low`, `Xor`, `And`, `Or`, `Bit`, `Pop` and their laws |
| `FuseTable.dfy` | the per-slot tallies (count, xor of positions, xor of hashes) and their packed cells |
| `FusePlacement.dfy` ... `FuseSolving.dfy` | one file for each stage of `binary_fuse8_populate` |
| `FuseHash.dfy`, `FuseGeometry.dfy`, `FuseDedup.dfy` | hashing and seeds, slot positions and sizing, duplicate removal |
| `FuseRounds.dfy`, `FuseSeeds.dfy`, `BinaryFuse.dfy` | one attempt, the retry loop and its record, the filter object |
| `HexWords.dfy`, `FuseValues.dfy` | exclusive or of given words digit by digit, and hash values computed with it |
| `LostKeyHashes.dfy`, `LostKey.dfy` | five keys on which a successful populate loses one |
| `XorFuse.dfy` | the shim and its runs |
| `Sbbf.dfy` | the split block Bloom filter as functions on lists of lanes: what `QuickBloom.dfy`, `Impala.dfy`, `Serialization.dfy` and `Readers.dfy` refine |
| `MaskTable.dfy`, `Krassovsky.dfy` | mask table, mask construction, batches |
| `Classic.dfy` | double hashing |

Words are naturals below a power of two. Every wrap-around, truncation and shift of the C code is
written out (`% TWO64`, `% TWO32`, `Shr`, `Low`). A 256-bit vector is a list of eight lanes and
each intrinsic acts lane by lane. Arrays and fields that the C code changes in place are arrays
and fields here.

The construction stages are written for an arbitrary three-slot function `hf` whose slots are in
range and distinct (`Good`). `FuseGeometry` shows that the filter's own positions satisfy this, and
`BinaryFuse` puts the two together.

## What the results say, and under which conditions

**Construction.** `Populate` returns a ghost record of its run (`Traced`): the keys, the cells
before and after, and the outcome of every attempt. Each attempt is determined by its keys and
cells (`AttemptsAgree`), and the whole run by the keys and the arrangements that the sort leaves
(`RunsAgree`).

- *Result.* For every list of keys, populate returns `true` if and only if one of its attempts
  suits, and that is the last one (`TracedOutcome`). An attempt suits if the hashes that the
  counting pass represents (`CountAll`, the pass as a function) neither crowd a slot 64 deep nor
  contain a core, a group that touches no slot exactly once (`OutcomeExact`). This does not depend
  on the order of peeling: what peeling leaves over is the greatest core (`RestHoldsCores`).
- *Result in terms of the keys.* For distinct keys populate returns `true` if and only if one of
  the 100 seeds is not bad (`BadSeed`); the seed kept is the first such, and the keys are left as
  they were. For repeated keys a bad seed is only a necessary condition of failure: the seed is bad
  if some list of the hashes, in which a hash is repeated only if each of its slots is shared with a
  different one (`Shared`), is crowded or has a core. Copies of a single hash are harmless
  (`CopiesNotHard`), but a seed that is bad in this sense may still succeed, because the code
  removes copies as it goes.
- *Keys found.* After `true` every original key is found, duplicates included, if the cell behind
  the keys was not zero when the last attempt started (`Guarded`). More precisely, the run has
  stacked every key if the placement of its last attempt wrote nothing behind the keys, and, when
  that attempt had no repeated keys, only then (`RunCovers`). The guard always holds for `Trusted`
  keys: distinct ones, or such that no key hashes to zero under any of the 100 seeds (by `MixZero`:
  no key is the negation of a seed modulo 2^64). Both are checkable before the call.
- *The promise is false without that.* `LostKey.PopulateLosesKey` proves it for five keys: populate
  reports success, and one of them is not found. The reason is the sentinel:
  `reverseOrder[size] = 1` is written once, before the retry loop. After duplicates are removed
  `size` is smaller, and the cell behind the placed hashes holds a hash left over from the failed
  attempt. If that hash is zero, a segment pointer can run past the end. The example assumes nothing
  about the sort but that it brings the two equal keys together, which any sort by the comparator
  does on these keys (`SortedGroups`).

The fingerprints after a success are determined as well (`Filled`, `FilledOnce`): the table after
counting fixes the stack and the pivots, the equations of all stacked hashes hold, and no slot but
the pivots has changed, which leaves one array only (`FingerprintsDetermined`). After a failure they
are unchanged.

**The shim.** `build` ignores the result of `binary_fuse8_populate` and sets `built` in any case;
the comment at `comparisons/bloom_xorfuse.c:84` says otherwise, and the model follows the code. The
ghost fields record the ignored result, the list handed to populate and the guard of its last
attempt. `Pushed` is the exact sequence of hashes that a run pushes, the two fillers of an empty
build included. The list handed over has the same length and the same hashes, and is that very
sequence when no hash was pushed twice. A failed populate means that a run of populate on the list
handed over uses up all seeds (`Defeated`), each attempt with a crowd or a core among the hashes it
represents; without repetition a populate fails exactly then. In a trusted run (no hash pushed
twice, or no inserted hash cancels a seed) every successful populate has its guard; that the fillers
cancel no seed is proved.

**Duplicate removal.** The comparator truncates a 64-bit difference to `int`, so it is no ordering
(`CompareInconsistent`). `qsort` is therefore an arbitrary rearrangement; removal keeps the set of
keys in any case, and removes all duplicates exactly when equal keys became adjacent.

**Formulas in numbers.** Beside the functions that the methods are proved against, each filter has
a statement of its bits in numbers: `Sbbf.SetsBit` (block and bits from the two halves of the hash,
with the salts), `MaskTable.MaskHas` and `Krassovsky.SetsBit`, `Classic.PlaceIs`,
`FuseGeometry.PositionIs`, `FuseHash.FingerprintBits`, `MaskTable.TableMeaning`. `Words.BitIsDigit`
says what a bit is, `x / 2^s` modulo 2, and `Words.PopIsCount` that a population count is the number
of set bits. Counts of hits are cardinalities of sets of positions.

**Sizing of quickbloom.** The comment above `qb_new` promises NULL when `nbits` is too large. For
`nbits > 2^64 - 256` the addition wraps and the code returns a filter of one block;
`OversizeRejected` states exactly which sizes are refused.

**Inputs that replace code outside the model.** Floating-point sizing becomes the segment-length
exponent (at least 2) and the capacity. The random source of the mask table is a list of draws.
Byte hashes are arbitrary functions of the key.

## Model

| member | source | states |
|---|---|---|
| FusePlacement.SomeSegmentIsFree | comparisons/binaryfusefilter.h:254-262 | Before the last hash is placed, some segment points at a free cell below `size`: the least cell no pointer has passed is always a current pointer. So probing ends |
| FusePlacement.FindSegment | comparisons/binaryfusefilter.h:255-259 | The probing loop terminates and stops k segments after the hash's own, counted modulo the number of segments, where k is the least number with a free cell there |
| FusePlacement.StartInRange | comparisons/binaryfusefilter.h:248-250 | Every start position is at most `size`, despite the truncation to 32 bits before the shift |
| FusePlacement.StartIs | comparisons/binaryfusefilter.h:248-250 | The start of block i is i * size modulo 2^32, divided by the number of blocks |
| FusePlacement.PlaceStepIs | comparisons/binaryfusefilter.h:252-262 | One hash goes to the cell of the first segment, cyclically from hash / 2^(64 - blockBits) on, whose pointer is at a free cell, and that pointer moves on by one; nothing else changes |
| FusePlacement.PermutationIffNoSpill | comparisons/binaryfusefilter.h:240-262 | The first `size` cells are a permutation of the placed hashes if and only if no cell from `size` on was written |
| FusePlacement.PlaceHashes | comparisons/binaryfusefilter.h:240-262 | The whole pass terminates within bounds and leaves the cells that the function of one hash after the other gives; with a non-zero sentinel no cell from `size` on is written, and an unwritten tail is equivalent to a permutation of the hashes |
| FusePlacement.PlacedExact | comparisons/binaryfusefilter.h:240-262 | For all hashes and cells: the pass keeps the multiset of hashes if and only if it writes nothing from index `size` on, and a non-zero sentinel there is enough |
| FusePlacement.ZeroSentinelLosesHash | comparisons/binaryfusefilter.h:240-262 | In a table with a zero sentinel, any three hashes of the upper segment run past the end and one of them is lost |
| FuseTable.AttachEncodes | comparisons/binaryfusefilter.h:267-272 | The wrapping byte update of a cell represents one more touch in count modulo 64, position xor and hash xor |
| FuseTable.DetachEncodes | comparisons/binaryfusefilter.h:278-280 | The inverse update represents one touch fewer, also across a wrap of the byte |
| FuseTable.OnlyToucher | comparisons/binaryfusefilter.h:304-311 | A tally of one is the tally of a single hash of the multiset, whose value and position it spells out |
| FuseTable.SumIsCount | comparisons/binaryfusefilter.h:265-286 | The count of a tally is the number of list entries that have the slot among their three |
| FuseCounting.DropUndoesAdd | comparisons/binaryfusefilter.h:268-280 | Removing a duplicate restores the tables exactly |
| FuseCounting.DoubledMeansPresent | comparisons/binaryfusefilter.h:273-276 | Xor zero with count exactly two in a slot can only come from a hash that is already represented |
| FuseCounting.UndetectedShares | comparisons/binaryfusefilter.h:273-282 | A hash that is not detected as a duplicate can be represented twice only if each of its three slots is touched by a different hash |
| FuseCounting.OverflowMeansFull | comparisons/binaryfusefilter.h:283-285 | In a touched slot the counter byte is below 4 if and only if 64 hashes share the slot |
| FuseCounting.CountStepDuplicate | comparisons/binaryfusefilter.h:265-286 | A detected duplicate leaves tables and represented multiset unchanged, raises no error, and is a real repetition |
| FuseCounting.CountStepFresh | comparisons/binaryfusefilter.h:265-286 | Any other hash is added to the represented multiset; the error is raised when a slot of that multiset became 64 deep |
| FuseCounting.CountHashes | comparisons/binaryfusefilter.h:263-286 | Tables, number of duplicates and error are those of the pass as a function on the placed hashes |
| FuseCounting.CountAllMeaning | comparisons/binaryfusefilter.h:263-286 | Without overflow the tables represent a list with the same hashes as the input, size minus duplicates long; an overflow means that the represented list, without the copies the code removed, crowds a slot |
| FuseCounting.OverflowIffCrowded | comparisons/binaryfusefilter.h:283-293 | The error is raised if and only if the represented list crowds a slot |
| FusePeeling.QueueSingles | comparisons/binaryfusefilter.h:295-299 | The queue is the list of slots with counter one, in ascending order, and the peeling invariant holds; the unconditional write stays in bounds |
| FusePeeling.SlotStepOther | comparisons/binaryfusefilter.h:315-328 | Peeling a hash keeps every other slot exact or a stale pivot, and queues it exactly when its count drops to one |
| FusePeeling.PeelStep | comparisons/binaryfusefilter.h:304-329 | Taking a hash from a slot of count one keeps the whole invariant: multiset split between stack and rest, pivots untouched by the rest, distinct queue |
| FusePeeling.RoomForSecondPush | comparisons/binaryfusefilter.h:316-325 | Distinctness of the queue leaves room for both speculative writes to `alone` |
| FusePeeling.PopOne | comparisons/binaryfusefilter.h:301-330 | One iteration is the step of the loop as a function, keeps the invariant, and decreases the remaining hashes, or keeps them and shortens the queue |
| FusePeeling.Peel | comparisons/binaryfusefilter.h:295-330 | The loop terminates with a stack in which each pivot is disjoint from all later and all remaining hashes, and a rest that touches no slot exactly once; stack and pivots are those that the table determines (`PeelsTo`) |
| FusePeeling.PeelsToOne | comparisons/binaryfusefilter.h:295-330 | The table determines the stack, its order and its pivots |
| FusePeeling.HighestFirst | comparisons/binaryfusefilter.h:295-313 | The queue is worked off from its end: the first stacked hash and pivot are those of the highest slot with counter one |
| FusePeeling.PushedInOrder | comparisons/binaryfusefilter.h:315-328 | The two other slots of a peeled hash are queued cyclically from its pivot on, each exactly when its counter is two |
| FusePeeling.OrderExcludesCore | comparisons/binaryfusefilter.h:301-330 | In a peeling order every group of its hashes touches some slot exactly once |
| FusePeeling.PeelsIffNoCore | comparisons/binaryfusefilter.h:301-331 | Peeling empties the multiset if and only if no sub-multiset is a core, whatever order the queue gave |
| FusePeeling.RestHoldsCores | comparisons/binaryfusefilter.h:301-331 | Every core of the hashes is part of what peeling leaves over |
| FusePeeling.PeelingConfluent | comparisons/binaryfusefilter.h:301-331 | Two peelings of the same hashes, in whatever order, stack the same hashes and leave the same rest |
| FuseSolving.SolvedHolds | comparisons/binaryfusefilter.h:345-355 | The written fingerprint makes the xor of the three slots equal to the fingerprint of the hash |
| FuseSolving.SolveStep | comparisons/binaryfusefilter.h:344-356 | One write establishes its equation and breaks none of the equations above it in the stack |
| FuseSolving.BackSubstitute | comparisons/binaryfusefilter.h:344-356 | After the reverse walk all equations of the stack hold at once, and every slot that is the pivot of no stacked hash has kept its value; also for an empty stack, where the index wraps |
| FuseSolving.FingerprintsDetermined | comparisons/binaryfusefilter.h:344-356 | Given the array before, the stack and its pivots, there is only one array in which all equations hold and nothing but the pivots has changed |
| FuseHash.MurmurInvertible | comparisons/binaryfusefilter.h:42-49 | The finalizer is a bijection of 64-bit words, with its inverse given |
| FuseHash.FingerprintBits | comparisons/binaryfusefilter.h:60-62 | Bit s of the fingerprint, for s below 8, is set if and only if the bits s and s + 32 of the hash differ; no other bit is |
| FuseHash.MixInjective | comparisons/binaryfusefilter.h:50-52 | Under one seed different keys have different hashes |
| FuseHash.MixZero | comparisons/binaryfusefilter.h:50-52 | A key hashes to zero if and only if it cancels the seed modulo 2^64 |
| FuseHash.SplitMixInjective | comparisons/binaryfusefilter.h:69-74 | Different states of the generator give different seeds |
| FuseHash.RoundOfState | comparisons/binaryfusefilter.h:69-74 | The state of the generator determines the round it belongs to |
| FuseValues.SeedNotTrivial | comparisons/binaryfusefilter.h:219-220 | None of the 100 seeds is 0 or 2^64 - 1, so neither filler of the shim cancels one |
| FuseGeometry.MulHiExact | comparisons/binaryfusefilter.h:92-103 | The four-product high multiplication is the exact quotient of the product by 2^64 for all operands |
| FuseGeometry.CombineExact | comparisons/binaryfusefilter.h:101-102 | The sum `middle` does not overflow and the carries add up to the exact high word |
| FuseGeometry.PositionSegment | comparisons/binaryfusefilter.h:124-131 | Position i of a hash lies in the i-th of three consecutive segments and below ArrayLength |
| FuseGeometry.PositionIs | comparisons/binaryfusefilter.h:124-131 | In numbers: hash * SegmentCountLength / 2^64 plus i segments, xor 0 for i = 0, hash / 2^18 modulo the segment length for i = 1, and hash modulo the segment length for i = 2 |
| FuseGeometry.PositionsGood | comparisons/binaryfusefilter.h:124-131 | The three positions of any hash are pairwise distinct and in range |
| FuseGeometry.BatchAgrees | comparisons/binaryfusefilter.h:112-131 | The batched computation gives the same three positions as the indexed one |
| FuseGeometry.RoundedCountExact | comparisons/binaryfusefilter.h:180-185 | The 32-bit computation that subtracts and re-adds two, wrapping for small capacities, is the exact rounding up to whole segments when rounding up stays within 32 bits, and 0 otherwise |
| FuseGeometry.SegmentLengthIs | comparisons/binaryfusefilter.h:174-175 | The segment length is 4 for size 0 and otherwise the smaller of 2^exponent and 262144 |
| FuseGeometry.SizingFits | comparisons/binaryfusefilter.h:171-193 | For every capacity the sizes are consistent: power-of-two segment of at most 2^18, at least one segment, matching lengths, no spare segment; there is room for the capacity if and only if rounding it up stays within 32 bits |
| FuseDedup.CompareInconsistent | comparisons/binaryfusefilter.h:23-25 | The truncating comparator equates different keys and is not transitive |
| FuseDedup.CompareIs | comparisons/binaryfusefilter.h:23-25 | The comparator gives the number from -2^31 to 2^31 - 1 that is congruent to a - b modulo 2^32 |
| FuseDedup.CompactElements | comparisons/binaryfusefilter.h:29-35 | Removing adjacent repetitions keeps the set of elements and the last element |
| FuseDedup.CompactIs | comparisons/binaryfusefilter.h:29-35 | What is left are exactly the elements that are first or differ from their left neighbour, in their order |
| FuseDedup.CompactDistinctIffGrouped | comparisons/binaryfusefilter.h:29-35 | The result has no duplicates if and only if equal elements were adjacent |
| FuseDedup.RemoveAdjacent | comparisons/binaryfusefilter.h:29-36 | The in-place loop leaves the compacted elements in front and the rest as it was |
| FuseDedup.SortAndRemoveDup | comparisons/binaryfusefilter.h:27-37 | For any rearrangement by qsort the returned prefix is its compaction, and every cell still holds one of the keys; on no keys it returns 1 |
| FuseRounds.CopiesNotHard | comparisons/binaryfusefilter.h:273-282 | Any number of copies of one hash gives an attempt no reason to fail |
| FuseRounds.OutcomeExact | comparisons/binaryfusefilter.h:287-334 | An attempt overflows if and only if its represented list crowds a slot, is solved if and only if that list has no core either, and is otherwise stuck with the duplicates counted |
| FuseRounds.AttemptsAgree | comparisons/binaryfusefilter.h:248-334 | An attempt is determined by its hashes and the cells it starts with: its outcome, and every cell it leaves, the order of the stack included |
| FuseRounds.AttemptedFacts | comparisons/binaryfusefilter.h:248-334 | With a non-zero cell behind the hashes, a solved attempt has stacked all of them, and a failed one had a crowd or a core among them |
| FuseRounds.SolvedIsEasy | comparisons/binaryfusefilter.h:263-334 | Distinct hashes that were counted and peeled completely contain no crowd and no core |
| FuseRounds.SolvedCovers | comparisons/binaryfusefilter.h:248-334 | A solved attempt has stacked all hashes if its placement wrote nothing behind them, for which a non-zero cell there is enough; for distinct hashes only then |
| FuseRounds.TryRound | comparisons/binaryfusefilter.h:248-334 | The attempt terminates in bounds, its effect is the determined one (placement, count and peeling of the represented list), and a solved one leaves a peeling order |
| FuseSeeds.SentinelKept | comparisons/binaryfusefilter.h:240-342 | When duplicates are removed, the cell behind the remaining keys is non-zero for trusted keys; distinct keys never get there |
| FuseSeeds.AfterDedup | comparisons/binaryfusefilter.h:335-341 | An attempt with removal keeps the set of keys and the non-zero cell behind them for trusted keys; its seed is bad for the original keys |
| FuseSeeds.NextSeed | comparisons/binaryfusefilter.h:69-74 | The n-th call of the generator, started at the fixed counter, yields the n-th seed of the closed form |
| FuseSeeds.FindSeed | comparisons/binaryfusefilter.h:240-342 | The retry loop ends with a solved attempt, its peeling order and its seed, or after 100 failed ones with the seed after the last, and leaves an exact record; distinct keys stay in place, other keys stay the same set |
| FuseSeeds.TracedAt | comparisons/binaryfusefilter.h:240-342 | Every attempt of a recorded run starts with the keys and cells its predecessor left, uses its own seed, and only the last can be solved |
| FuseSeeds.TracedSteps | comparisons/binaryfusefilter.h:240-342 | What lies between two attempts: keys unchanged after an overflow or without detected duplicates, otherwise rearranged and compacted; as many cells cleared as keys remain, all others kept |
| FuseSeeds.RunsAgree | comparisons/binaryfusefilter.h:240-342 | The sort is the only freedom of a run: with the same rearrangements, runs on the same keys are equal in every attempt, in result and in seed |
| FuseSeeds.TracedOutcome | comparisons/binaryfusefilter.h:240-342 | Whatever the keys, a run succeeds if and only if one of its attempts suits, which is then its last; otherwise it has made 100 attempts, and it never makes more |
| FuseSeeds.TracedTrusted | comparisons/binaryfusefilter.h:240-342 | For trusted keys the cell behind the keys is never zero, and 100 failed attempts mean 100 bad seeds |
| FuseSeeds.TracedDistinct | comparisons/binaryfusefilter.h:240-342 | For distinct keys the result of every run is the same: success if and only if some seed is not bad, with the first such seed |
| FuseSeeds.RunCovers | comparisons/binaryfusefilter.h:240-342 | A successful run has stacked every original key if the placement of its last attempt wrote nothing behind the keys, for which a non-zero cell there is enough; when that attempt had no repeated keys, only then |
| BinaryFuse.LookupIsEquation | comparisons/binaryfusefilter.h:133-142 | The lookup answers true if and only if the fingerprint equation of the key's hash holds |
| BinaryFuse.LookupBits | comparisons/binaryfusefilter.h:133-142 | Bit by bit: the lookup answers true if and only if, for each s below 8, the bits s of the three slots have odd parity exactly when the bits s and s + 32 of the hash differ |
| BinaryFuse.FilledOnce | comparisons/binaryfusefilter.h:344-356 | The last attempt of a run and the array before it determine the fingerprints: two arrays that back-substitution can leave are equal |
| BinaryFuse.BinaryFuse8.Allocate | comparisons/binaryfusefilter.h:171-197 | Segment length 4 for size 0, otherwise 2^exponent capped at 262144; the other sizes follow, with room for the capacity and no spare segment if rounding it up stays within 32 bits, and one start segment otherwise; a fresh zeroed array of ArrayLength |
| BinaryFuse.BinaryFuse8.BlockBits | comparisons/binaryfusefilter.h:228-230 | The least exponent, at least 1, whose power reaches SegmentCount, and at most 31 |
| BinaryFuse.BinaryFuse8.Contain | comparisons/binaryfusefilter.h:133-142 | In bounds for every key; answers whether the filter contains it |
| BinaryFuse.BinaryFuse8.Populate | comparisons/binaryfusefilter.h:215-360 | For all keys true if and only if some attempt of the recorded run suits; after true the fingerprints are those that the last attempt determines (`Filled`), after false they are unchanged and the seed is the one after 100 attempts; after true every original key is found if the cell behind the keys was not zero in the last attempt, as it is for trusted keys; for distinct keys true if and only if some seed is not bad, and they stay in place; other keys stay the same set |
| LostKey.SortedGroups | comparisons/binaryfusefilter.h:23-28 | On the five keys the comparator is consistent: any arrangement without an inversion between neighbours has the equal keys side by side |
| LostKey.FirstAttempt | comparisons/binaryfusefilter.h:248-337 | With the first seed the attempt always detects one duplicate and gets stuck, and leaves the zero hash behind the four keys that remain |
| LostKey.SecondAttempt | comparisons/binaryfusefilter.h:248-334 | With the second seed, in any order of the four keys, the attempt is solved without one of their hashes, whose slots no stacked hash touches |
| LostKey.RunLosesKey | comparisons/binaryfusefilter.h:215-342 | Every run of populate on the five keys that brings the equal ones together succeeds after two attempts without one of the keys |
| LostKey.PopulateLosesKey | comparisons/binaryfusefilter.h:133-142 | Populate on a filter sized for five keys sorts exactly these keys after its first attempt, and whenever that brings the equal ones together it reports success and the lookup of one of them answers false |
| XorFuse.XorFuse.Push | comparisons/bloom_xorfuse.c:87-94 | Appends one hash, growing the buffer without losing any |
| XorFuse.XorFuse.Construct | comparisons/bloom_xorfuse.c:102-104 | After allocate and populate the filter contains every pushed hash if populate succeeded with its guard, and a failure means that a run on the list handed over uses up all seeds and leaves all fingerprints zero; without repeated hashes success if and only if some seed is not bad; the buffer, permuted and compacted in place, keeps its length and every hash |
| XorFuse.XorFuse.BlankAnswers | comparisons/bloom_xorfuse.c:102-104 | After a failed populate, which the code ignores, a hash is reported if and only if its fingerprint under the last seed is zero |
| XorFuse.XorFuse.Build | comparisons/bloom_xorfuse.c:96-105 | Changes nothing when built; otherwise builds, from two fillers if nothing was pushed |
| XorFuse.XorFuse.InsertPrehash | comparisons/bloom_xorfuse.c:127-135 | Pushes the hash and drops a built filter |
| XorFuse.XorFuse.ContainsPrehash | comparisons/bloom_xorfuse.c:137-141 | Builds if needed, changes nothing otherwise, and answers for the filter; a pushed hash is found when populate succeeded with its guard, as it does on trusted hashes |
| XorFuse.XorFuse.InsertPrehashBulk | comparisons/bloom_xorfuse.c:180-192 | Pushes all hashes in one append after growing, and builds |
| XorFuse.XorFuse.ContainsPrehashBulk | comparisons/bloom_xorfuse.c:194-202 | The result is the number of positions of the batch whose hash the filter contains; at least the number of positions with a pushed hash when populate succeeded with its guard |
| XorFuse.PushedIsInserted | comparisons/bloom_xorfuse.c:96-101 | What a run pushes are the inserted hashes in order, after 0 and 1 if and only if some operation built before anything was inserted |
| XorFuse.InsertedConcat | comparisons/bloom_xorfuse.c:127-192 | The inserted hashes of a run are those of its parts, one after the other |
| XorFuse.InsertedByOne | comparisons/bloom_xorfuse.c:127-192 | A single insertion inserts its hash, a bulk insertion its batch, a probe nothing |
| XorFuse.FillersSafe | comparisons/bloom_xorfuse.c:98-101 | Neither filler hashes to zero under any seed |
| XorFuse.PopulateExplained | comparisons/bloom_xorfuse.c:102-104 | A failed populate was handed a list on which a run uses up all seeds; without repeated hashes populate fails exactly on such a list |
| XorFuse.Run | comparisons/bloom_xorfuse.c:87-202 | In any interleaving of single and bulk operations, no probe misses a hash inserted before it, and no batch counts an entry twice, when every populate succeeded with its guard, which a success in a trusted run always has; a populate fails only on a list, of the length and with the hashes pushed so far, on which a run uses up all seeds; without repeated hashes exactly then |
| Sbbf.LaneMeaning | comparisons/bloom_impala.c:124-135 | After any insertions a lane has the bit of a hash if and only if some inserted hash of the same block set it |
| Sbbf.InsertedBit | comparisons/bloom_impala.c:193-199 | An insertion sets exactly the bits b of lanes j with (h / 2^32) * nblocks / 2^32 = j / 8 and (h mod 2^32) * salt[j mod 8] mod 2^32 / 2^27 = b, with the eight salts written out |
| Sbbf.ArrayMeaning | comparisons/bloom_impala.c:193-199 | After any run from an empty filter a bit is set if and only if some inserted hash sets it by these formulas |
| Sbbf.BitsOfOne | comparisons/bloom_impala.c:113-129 | The hash 1 sets the bits 8, 8, 17, 20, 14, 5, 19, 11 of lanes 0 to 7 |
| Sbbf.ProbeMeaning | comparisons/bloom_impala.c:201-210 | A probe succeeds if and only if each of its eight lane bits was set by an inserted hash of the same block |
| Sbbf.ProbeBits | comparisons/bloom_impala.c:201-210 | On any bitset a probe succeeds if and only if every bit that the hash sets by these formulas is set |
| Sbbf.NoFalseNegatives | quickbloom.c:249-263 | Every inserted hash is found |
| Sbbf.StateDependsOnSet | quickbloom.c:249-263 | The bitset depends only on the set of inserted hashes, not on order or repetition, from any starting state |
| Sbbf.HitsIsCount | comparisons/bloom_impala.c:216-222 | The count of a batch is the number of positions whose probe succeeds |
| QuickBloom.MaskForLanes | quickbloom.c:95-104 | The vector mask has in lane i the bit that the Parquet salt i selects, with the salts in the order of set_epi32 |
| QuickBloom.ShiftIsFastrange | quickbloom.c:106-116 | For 2^k blocks, k from 0 to 31, the shift by 32-k equals multiply-and-shift, including the shift by 32 |
| QuickBloom.AndNotHas | quickbloom.c:257-263 | testc answers true on a lane if and only if the lane has every mask bit |
| QuickBloom.KeyHashesAre | quickbloom.c:82-85 | Key i of a batch are the bytes from i * klen to (i + 1) * klen; keys of 16 bytes go to the one byte hash, all others to the other |
| QuickBloom.Log2Pow2 | quickbloom.c:119-123 | The least exponent whose power reaches n, at most 31 |
| QuickBloom.New | quickbloom.c:136-160 | NULL exactly for 2^39 < nbits <= 2^64 - 256; otherwise all lanes zero and a power of two of blocks, the least with nbits <= 256 * blocks; one block for the last 255 sizes, where the rounding wraps |
| QuickBloom.OversizeRejected | quickbloom.c:131-139 | Exactly which sizes are refused; sizes whose rounding wraps give one block |
| QuickBloom.QuickBloom.InsertPrehash | quickbloom.c:249-255 | The new array is that of the scalar insertion: exactly the bits that the hash sets by the published formulas, from the upper half for the block and the lower half for the bits, are added |
| QuickBloom.QuickBloom.ContainsPrehash | quickbloom.c:257-263 | The answer is that of the scalar probe: true if and only if every bit that the hash sets by the published formulas is set |
| QuickBloom.QuickBloom.InsertPrehashBulk | quickbloom.c:265-280 | The unrolled loop with its remainder equals n single insertions, also when lanes alias one block |
| QuickBloom.QuickBloom.ContainsPrehashBulk | quickbloom.c:282-308 | The result is the number of positions of the batch whose single probe hits |
| QuickBloom.QuickBloom.InsertBulk | quickbloom.c:192-213 | For every key length and count the state is that of inserting the keys one by one |
| QuickBloom.QuickBloom.ContainsBulk | quickbloom.c:215-247 | For every key length and count the result is the number of keys that are found one by one |
| Serialization.LanesOfBytes | quickbloom.c:333-340 | Reading back the little-endian bytes of the lanes gives the lanes |
| Serialization.BytesOfLanes | quickbloom.c:342-363 | Writing the lanes read from bytes gives the same bytes |
| Serialization.PowerOfTwoTest | quickbloom.c:349 | n & (n-1) is zero exactly for powers of two |
| Serialization.Serialize | quickbloom.c:333-340 | Writes each lane as four bytes, lowest first (byte 0 + 256 * byte 1 + 65536 * byte 2 + 16777216 * byte 3 is the lane), in memory order, and nothing behind them |
| Serialization.Deserialize | quickbloom.c:342-363 | Succeeds exactly for 32 * 2^k bytes up to 2^30, with each lane equal to the four bytes at its place, lowest first |
| Serialization.RoundTrip | quickbloom.c:333-363 | Within the cap the copy is identical, and inserting into the copy and into the original gives the same bitset |
| Impala.Impala.BlockMask | comparisons/bloom_impala.c:124-129 | Lane i of the mask is the bit selected by the top five bits of the salted product |
| Impala.Impala.InsertPrehash | comparisons/bloom_impala.c:193-199 | Adds exactly the bits that the hash sets by the published formulas, one in each lane of the block that the upper half picks |
| Impala.Impala.ContainsPrehash | comparisons/bloom_impala.c:201-210 | True if and only if every bit that the hash sets by the published formulas is set, with the early exit |
| Impala.Agree | comparisons/bloom_impala.c:193-222 | From equal bitsets, quickbloom's unrolled bulk insertion and the scalar one of the same hashes in any order stay equal word for word and agree on every probe |
| Readers.Reachable | quickbloom.h:14-21 | Every interleaving of lane loads and stores of one writer with any readers keeps the writer and reader invariants |
| Readers.BitsOnlyGrow | quickbloom.h:14-21 | No step of any reachable state clears a bit |
| Readers.NoLateFalseNegative | quickbloom.h:20-21 | In every run, a probe started after the last store of an insertion of its hash succeeds on every lane it looks at, whatever happens before and after |
| Readers.LookTruth | quickbloom.h:20-21 | In every run the test of a lane answers whether the lane has its bit at that moment, and a bit found set is set in every later state |
| Readers.InsertionCompletes | quickbloom.c:169-176 | From every reachable state with an idle writer, going through the lanes completes an insertion, and leaves the sequential result |
| Readers.UndisturbedProbe | quickbloom.c:178-185 | A probe that looks at its eight lanes undisturbed has all of them true if and only if the sequential probe succeeds |
| Readers.QuiescentIsSequential | quickbloom.c:169-185 | Whenever the writer is idle the bitset is that of the completed insertions |
| Readers.SecondWriterLosesUpdate | quickbloom.h:17-19 | In a lane, a store computed from an earlier load wipes the bit of the other writer |
| Readers.RacingWriters | quickbloom.c:169-176 | If two insertions both load before either stores, both take effect in different blocks, and in one block the result is that of the later store alone |
| MaskTable.SlideStep | comparisons/bloom_krassovsky.c:74-88 | `cur` stays the number of set bits of the sliding window, and every finished window has four or five |
| MaskTable.TableBitIs | comparisons/bloom_krassovsky.c:65-81 | Bit i of the table is binary digit i modulo 8 of byte i / 8 |
| MaskTable.OnesIsCount | comparisons/bloom_krassovsky.c:74-88 | The count of a window is the number of its set bits |
| MaskTable.Init | comparisons/bloom_krassovsky.c:57-90 | Completes exactly when the draws suffice, with the table they determine (`TableMeaning`), and then all 1024 windows of 57 bits have four or five bits |
| MaskTable.TableMeaning | comparisons/bloom_krassovsky.c:62-88 | In the finished table the first window has 4 + draw 0 modulo 2 bits, at the positions that the following draws name modulo 57; each later bit repeats the one leaving its window when the other choice would leave three or six bits, and otherwise is set if and only if its own draw modulo 114 is below 9 |
| MaskTable.FirstWindowDone | comparisons/bloom_krassovsky.c:62-70 | The draws suffice for the first window if and only if they name enough different positions |
| MaskTable.CompletesAfterFirstWindow | comparisons/bloom_krassovsky.c:64-88 | Only the rejection loop of the first window can starve: one draw for each further bit completes the table |
| MaskTable.UnrotatedPop | comparisons/bloom_krassovsky.c:164-170 | The unaligned extraction has as many bits as the window of the table |
| MaskTable.RotatePop | comparisons/bloom_krassovsky.c:171-174 | Rotation keeps the number of bits, for every amount including zero |
| MaskTable.LaneSteps | comparisons/bloom_krassovsky.c:202-214 | The masked index, byte and bit offsets, window and rotation of a lane are those of the scalar code |
| MaskTable.MaskBits | comparisons/bloom_krassovsky.c:164-175 | Every mask has four or five bits |
| MaskTable.MaskMeaning | comparisons/bloom_krassovsky.c:164-175 | Bit s of the mask is bit (h modulo 1024) + t of the table, where t = (s - h / 1024) modulo 64, if t is below 57, and zero otherwise |
| MaskTable.VectorMaskAgrees | comparisons/bloom_krassovsky.c:201-218 | A lane of the vector form, with its masks, variable shifts and no case for rotation zero, is the scalar mask |
| Krassovsky.InsertedFound | comparisons/bloom_krassovsky.c:181-190 | An inserted hash is found at once, and later insertions keep it found |
| Krassovsky.NoFalseNegatives | comparisons/bloom_krassovsky.c:181-190 | After any insertions every inserted hash is found |
| Krassovsky.ArrayMeaning | comparisons/bloom_krassovsky.c:181-183 | After any run from an empty filter, bit s of block j is set if and only if some inserted x has x / 65536 modulo the number of blocks equal to j and bit s in its mask |
| Krassovsky.ProbeMeaning | comparisons/bloom_krassovsky.c:181-190 | A probe of h answers true if and only if each bit of its mask is in the mask of some inserted x with x / 65536 and h / 65536 equal modulo the number of blocks |
| Krassovsky.EmptyDenies | comparisons/bloom_krassovsky.c:185-190 | With a completed table an empty filter answers false for every hash |
| Krassovsky.Krassovsky.constructor | comparisons/bloom_krassovsky.c:99-114 | For up to 2^63 bits, the least power of two of 64-bit blocks that holds nbits, all zero |
| Krassovsky.Krassovsky.InsertPrehash | comparisons/bloom_krassovsky.c:181-183 | Adds exactly the bits of the mask to block h / 65536 modulo the number of blocks |
| Krassovsky.Krassovsky.ContainsPrehash | comparisons/bloom_krassovsky.c:185-190 | True if and only if block h / 65536 modulo the number of blocks has every bit of the mask |
| Krassovsky.Krassovsky.InsertBatch8 | comparisons/bloom_krassovsky.c:227-244 | Eight lanes leave the state of eight single insertions, also when they share blocks |
| Krassovsky.Krassovsky.ContainsBatch8 | comparisons/bloom_krassovsky.c:246-274 | Bit j of the result is the scalar answer for lane j (`ProbeMeaning` says which), and the popcount of the result is the number of hits |
| Krassovsky.PackedPop | comparisons/bloom_krassovsky.c:264-273 | The packed answers have as many bits as lanes that hit |
| Krassovsky.Krassovsky.InsertBatch8Bulk | comparisons/bloom_krassovsky.c:276-280 | Batches and remainder equal n single insertions |
| Krassovsky.Krassovsky.ContainsBatch8Bulk | comparisons/bloom_krassovsky.c:282-290 | The result is the number of positions of the batch whose scalar probe succeeds |
| Classic.PlacesDistinct | comparisons/bloom_classic.c:111-117 | With an odd stride and at least eight bits the eight positions differ pairwise, despite the 64-bit wrap |
| Classic.PlacesCount | comparisons/bloom_classic.c:111-117 | So the first n positions are n different bits |
| Classic.PlaceIs | comparisons/bloom_classic.c:101-117 | In an array of 2^e bits, position i is (h1 + i * h2) modulo 2^e, for e up to 64 |
| Classic.SecondHashOdd | comparisons/bloom_classic.c:156-161 | The derived second hash is odd |
| Classic.SecondHashBits | comparisons/bloom_classic.c:156-161 | Bit 0 of the second hash is set; every other bit s is set if and only if the bits s and s + 32 of h * 0x9e3779b97f4a7c15 modulo 2^64 differ |
| Classic.SetBitsAre | comparisons/bloom_classic.c:101-109 | Position p of the bit array is binary digit p modulo 64 of word p / 64 |
| Classic.Classic.PutBit | comparisons/bloom_classic.c:101-104 | Adds exactly the masked position to the set of bits |
| Classic.Classic.GetBit | comparisons/bloom_classic.c:106-109 | Answers whether the masked position is in the set of bits |
| Classic.Classic.InsertWithPair | comparisons/bloom_classic.c:111-117 | Adds exactly the eight positions |
| Classic.Classic.ContainsWithPair | comparisons/bloom_classic.c:119-126 | True if and only if all eight positions are set, with the early exit |
| Classic.InsertFirst | comparisons/bloom_classic.c:80-117 | An insertion into an empty filter sets exactly eight bits |
| Classic.UnionMeaning | comparisons/bloom_classic.c:177-179 | A bit is set after a bulk insertion if and only if it is one of the eight positions of one of the hashes |
| Classic.Classic.ContainsPrehashBulk | comparisons/bloom_classic.c:181-187 | The result is the number of positions of the batch whose eight bits are all set |
| Classic.InsertThenProbe | comparisons/bloom_classic.c:163-179 | Every hash of a bulk insertion is found afterwards |

## Left out

- BinaryFuse.BinaryFuse8.Populate: that every key is found is promised under the guard, which is sufficient but not necessary: without it a placement may still write nothing behind the keys, and a key left out of the stack may be found by chance; in terms of the keys alone the result is exact for distinct keys only
- BinaryFuse.BinaryFuse8.Allocate: requires an exponent from 2 to 31, which the logarithm formula gives for every size
- LostKey.PopulateLosesKey: takes the exponent 3 and the capacity 15, which the floating-point formulas give for five keys, as numbers
- XorFuse.Run: requires fewer than 2^32 pushed hashes; beyond that `build` truncates the length to 32 bits
- MaskTable.Init: the generator is an arbitrary list of draws, and the flag that skips a second initialisation is not modelled
- Krassovsky.Krassovsky.constructor: takes the completed table as a constant of the filter instead of a global array, and requires at most 2^63 bits, beyond which the doubling loop of the code never ends
- Classic.Classic.constructor: requires at most 2^63 bits for the same reason
- Serialization.Deserialize: models the default cap of 2^30 bytes, which a compile-time definition can change
- Readers.RacingWriters: two writers are modelled as whole-block loads and stores, not as processes of the lane-by-lane state machine
- Floating-point sizing: `qb_estimate_bits` and the logarithms of the segment length and size factor
- Memory: allocation failure, `realloc` of NULL, alignment and freeing (other than the fields that `binary_fuse8_free` resets)
- Byte hashes: `hash16`, the variable-length hash, XXH64 and `hash16_pair` are not modelled; quickbloom's key-based paths take them as arbitrary functions
- Key-based entry points of the comparison filters, which hash and then do what the modelled prehash paths do
- Statistical false-positive rates and the probability that a seed works
- Rust shims, Python tooling, fuzz drivers, build files and timing code
