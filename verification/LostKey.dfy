/** An input on which `populate` succeeds and yet one of the keys is not found.

    Five keys, one of them twice and one cancelling the first seed.  The first attempt fails and
    removes the duplicate; the cell behind the four remaining keys then holds the zero hash.  In
    the second attempt three hashes of the upper segment run past that cell, and the last of them
    is lost, whatever the order of the keys. */
module LostKey {
  import opened Words
  import opened FuseHash
  import opened FuseGeometry
  import opened FuseTable
  import opened FusePlacement
  import opened FuseCounting
  import opened FusePeeling
  import opened FuseSolving
  import opened FuseRounds
  import opened FuseSeeds
  import opened BinaryFuse
  import opened LostKeyHashes
  import Dedup = FuseDedup

  const KEYS: seq<u64> := [A, A, B, C, Z]

  // ---- Placement in six cells with two segments ---------------------------------------------

  // `low` are the hashes placed by the first segment from cell 0 on, `high` those placed by the
  // second one from cell 2 on; the last cell is the sentinel of the larger table.
  function Six(low: seq<u64>, high: seq<u64>): Placement {
    Placement(seq(6, i requires 0 <= i < 6 =>
                       if i < |low| then low[i] else if 2 <= i < 2 + |high| then high[i - 2]
                       else if i == 5 then 1 else 0),
              [|low|, 2 + |high|])
  }

  lemma SixBounded(low: seq<u64>, high: seq<u64>)
    requires |low| <= 2 && |high| <= 3
    ensures Bounded(Six(low, high).cells, Six(low, high).ptr) && |Six(low, high).ptr| == Pow2(1)
  {
    assert Pow2(1) == 2;
  }

  function Lows(hs: seq<u64>): seq<u64> {
    if hs == [] then []
    else if Shr(hs[|hs| - 1], 63) == 0 then Lows(hs[..|hs| - 1]) + [hs[|hs| - 1]] else Lows(hs[..|hs| - 1])
  }

  function Highs(hs: seq<u64>): seq<u64> {
    if hs == [] then []
    else if Shr(hs[|hs| - 1], 63) == 0 then Highs(hs[..|hs| - 1]) else Highs(hs[..|hs| - 1]) + [hs[|hs| - 1]]
  }

  lemma SixLow(low: seq<u64>, high: seq<u64>, h: u64)
    requires |low| < 2 && |high| <= 3 && Shr(h, 63) == 0
    ensures |Six(low, high).ptr| == Pow2(1) && Bounded(Six(low, high).cells, Six(low, high).ptr)
    ensures PlaceStep(Six(low, high), h, 1) == Six(low + [h], high)
  {
    hide Shr, Pow2, PlaceStep;
    SixBounded(low, high);
    PlaceStepDirect(Six(low, high), h, 1, 0);
    assert Six(low, high).cells[|low| := h] == Six(low + [h], high).cells;
  }

  lemma SixHigh(low: seq<u64>, high: seq<u64>, h: u64)
    requires |low| <= 2 && |high| < 3 && Shr(h, 63) == 1
    ensures |Six(low, high).ptr| == Pow2(1) && Bounded(Six(low, high).cells, Six(low, high).ptr)
    ensures PlaceStep(Six(low, high), h, 1) == Six(low, high + [h])
  {
    hide Shr, Pow2, PlaceStep;
    SixBounded(low, high);
    PlaceStepDirect(Six(low, high), h, 1, 1);
    assert Six(low, high).cells[2 + |high| := h] == Six(low, high + [h]).cells;
  }

  lemma {:induction false} PlaceSix(hs: seq<u64>)
    requires |Lows(hs)| <= 2 && |Highs(hs)| <= 3
    requires forall i :: 0 <= i < |hs| ==> Shr(hs[i], 63) < 2
    ensures |Six([], []).ptr| == Pow2(1) && Bounded(Six([], []).cells, Six([], []).ptr)
    ensures PlaceAll(Six([], []), hs, 1) == Six(Lows(hs), Highs(hs))
  {
    hide Shr, Pow2, PlaceStep, Six;
    SixBounded([], []);
    if hs != [] {
      var m := |hs| - 1;
      PlaceSix(hs[..m]);
      if Shr(hs[m], 63) == 0 {
        SixLow(Lows(hs[..m]), Highs(hs[..m]), hs[m]);
      } else {
        SixHigh(Lows(hs[..m]), Highs(hs[..m]), hs[m]);
      }
    }
  }

  // A hash of the first segment whose pointer has reached the second one goes to the next free
  // cell of the latter.
  lemma SixSpill(low: seq<u64>, high: seq<u64>, h: u64)
    requires |low| == 2 && 0 < |high| < 3 && high[0] != 0 && Shr(h, 63) == 0
    ensures |Six(low, high).ptr| == Pow2(1) && Bounded(Six(low, high).cells, Six(low, high).ptr)
    ensures PlaceStep(Six(low, high), h, 1) == Six(low, high + [h])
  {
    hide Shr, Pow2, ProbeFrom;
    SixBounded(low, high);
    var p := Six(low, high);
    ProbeNext(p.cells, p.ptr, 0, 2);
    ProbeStops(p.cells, p.ptr, 1, 1);
    assert p.cells[2 + |high| := h] == Six(low, high + [h]).cells;
  }

  const START: seq<u64> := [0, 0, 0, 0, 0, 1]

  lemma PlacedInSix(hs: seq<u64>)
    requires |hs| == 4 || |hs| == 5
    ensures |Six([], []).ptr| == Pow2(1) && Bounded(Six([], []).cells, Six([], []).ptr)
    ensures Placed(START, hs, 1) == PlaceAll(Six([], []), hs, 1).cells
  {
    hide PlaceAll;
    assert Pow2(1) == 2;
    assert Shr(4, 1) == 2 && Shr(5, 1) == 2 && Shr(0, 1) == 0;
    assert Starts(|hs|, 1) == [0, 2];
    SixBounded([], []);
    assert Six([], []).cells == START;
    PlacedIs(START, hs, 1);
  }

  lemma FirstPlacement(a: u64, b: u64, c: u64)
    requires Shr(a, 63) == 0 && Shr(b, 63) == 1 && Shr(c, 63) == 1 && b != 0
    ensures Placed(START, [a, a, b, c, 0], 1) == [a, a, b, c, 0, 1]
  {
    hide Shr, Pow2, PlaceStep, PlaceAll, Placed;
    PlacedInSix([a, a, b, c, 0]);
    SplitFirst(a, b, c);
    PlaceSix([a, a, b, c]);
    ShrZero(63);
    SixSpill([a, a], [b, c], 0);
    PlaceAllNext(Six([], []), [a, a, b, c], 0, 1);
    assert [a, a, b, c] + [0] == [a, a, b, c, 0];
    assert Six([a, a], [b, c, 0]).cells == [a, a, b, c, 0, 1];
  }

  lemma SplitFirst(a: u64, b: u64, c: u64)
    requires Shr(a, 63) == 0 && Shr(b, 63) == 1 && Shr(c, 63) == 1
    ensures Lows([a, a, b, c]) == [a, a] && Highs([a, a, b, c]) == [b, c]
  {
    hide Shr;
    assert [a, a, b, c][..3] == [a, a, b] && [a, a, b][..2] == [a, a] && [a, a][..1] == [a] && [a][..0] == [];
    assert Lows([a]) == [a] && Highs([a]) == [];
    assert Lows([a, a]) == [a, a] && Highs([a, a]) == [];
    assert Lows([a, a, b]) == [a, a] && Highs([a, a, b]) == [b];
  }

  // ---- The first attempt ----------------------------------------------------------------------

  // Fewer than 64 hashes never overflow a counter.
  lemma NoOverflow(hf: SlotFn, n: nat, seen: seq<u64>, S: seq<u64>)
    requires |seen| < 64
    ensures !Overfull(hf, n, seen, S)
  {
    hide Sum, Shared;
    if Overfull(hf, n, seen, S) {
      SubsetLength(S, seen);
      var s :| 0 <= s < n && Sum(hf, S, s).count >= 64;
      SumAtMost(hf, S, s);
    }
  }

  // The hashes of the first attempt: `a` has slots of its own, `b` and `c` share all of theirs.
  ghost predicate FirstHashes(hf: SlotFn, a: u64, b: u64, c: u64) {
    && hf(a) == Slots(1, 15, 18) && hf(b) == Slots(6, 12, 20) && hf(c) == Slots(6, 12, 20)
    && hf(0) == Slots(0, 8, 16)
    && a != 0 && b != 0 && c != 0 && b != c
  }

  lemma FirstCounted(hf: SlotFn, t: Table, a: u64, b: u64, c: u64, S: seq<u64>, duplicates: nat)
    requires FirstHashes(hf, a, b, c)
    requires Counted(hf, t, 24, [a, a, b, c, 0], S, duplicates)
    ensures multiset(S) == multiset{a, b, c, 0} && |S| == 4 && duplicates == 1
  {
    hide Exact, Small;
    var seen := [a, a, b, c, 0];
    assert multiset(seen) == multiset{a, a, b, c, 0};
    assert !TouchedByOther(hf, S, a, 15) by {
      forall k | 0 <= k < |S|
        ensures S[k] == a || !hf(S[k]).Has(15)
      {
        assert S[k] in seen;
      }
    }
    assert hf(a).Has(15);
    forall x: u64
      ensures multiset(S)[x] == multiset{a, b, c, 0}[x]
    {
      assert x in S <==> x in seen;
      assert x in multiset(S) <==> x in S;
    }
    assert multiset(S) == multiset{a, b, c, 0};
    assert |multiset(S)| == |S|;
  }

  lemma FirstCore(hf: SlotFn, a: u64, b: u64, c: u64, S: seq<u64>)
    requires FirstHashes(hf, a, b, c) && multiset(S) == multiset{a, b, c, 0}
    ensures IsCore(hf, 24, S, [b, c])
  {
    forall s | 0 <= s < 24
      ensures Sum(hf, [b, c], s).count != 1
    {
      SumLast(hf, [b, c], s);
      SumLast(hf, [b], s);
      assert [b, c][..1] == [b] && [b][..0] == [];
    }
    assert multiset([b, c]) == multiset{b, c};
  }

  lemma FirstAttempt(hf: SlotFn, a: u64, b: u64, c: u64, outcome: Outcome, after: seq<u64>)
    requires Good(hf, 24) && FirstHashes(hf, a, b, c)
    requires Shr(a, 63) == 0 && Shr(b, 63) == 1 && Shr(c, 63) == 1
    requires Attempted(hf, 24, 1, [a, a, b, c, 0], START, outcome, after)
    ensures outcome == Stuck(1) && |after| == 6 && after[4] == 0 && after[5] == 1
  {
    hide Shr, Placed, Overfull, Counted, Peeled, PeelsTo, IsCore, Good, CountAll, FirstHashes;
    var H, placed := [a, a, b, c, 0], [a, a, b, c, 0, 1];
    assert b != 0 by { FirstNonZero(hf, a, b, c); }
    FirstPlacement(a, b, c);
    assert placed[..5] == H;
    CountAllMeaning(hf, 24, H);
    var counted := CountAll(hf, 24, H);
    NoOverflow(hf, 24, H, counted.represented);
    var S := counted.represented;
    FirstCounted(hf, counted.table, a, b, c, S, counted.duplicates);
    var stacksize: nat :| PeeledAfter(hf, 24, placed, 5, counted, stacksize, outcome, after);
    var found, U :| Peeled(hf, 24, S, after[..stacksize], found, U) && stacksize + |U| == |S|;
    FirstCore(hf, a, b, c, S);
    PeelsIffNoCore(hf, 24, S, after[..stacksize], found, U);
    assert stacksize <= 3;
    assert after[4] == after[stacksize..][4 - stacksize] && after[5] == after[stacksize..][5 - stacksize];
  }

  lemma FirstNonZero(hf: SlotFn, a: u64, b: u64, c: u64)
    requires FirstHashes(hf, a, b, c)
    ensures b != 0
  {}

  // ---- The second attempt ---------------------------------------------------------------------

  lemma {:induction false} LowsCount(hs: seq<u64>, x: u64)
    ensures multiset(Lows(hs))[x] == if Shr(x, 63) == 0 then multiset(hs)[x] else 0
    ensures multiset(Highs(hs))[x] == if Shr(x, 63) == 0 then 0 else multiset(hs)[x]
  {
    hide Shr;
    if hs != [] {
      var m := |hs| - 1;
      LowsCount(hs[..m], x);
      assert hs == hs[..m] + [hs[m]];
    }
  }

  // The hashes of the second attempt: `z` starts in the lower segment, the others in the upper
  // one, and no two of them, nor the hash 0, share a slot in the middle segment of the filter.
  ghost predicate SecondHashes(hf: SlotFn, a: u64, b: u64, c: u64, z: u64) {
    && hf(a) == Slots(4, 15, 19) && hf(b) == Slots(6, 14, 23) && hf(c) == Slots(7, 12, 22)
    && hf(z) == Slots(0, 13, 20) && hf(0) == Slots(0, 8, 16)
    && Shr(a, 63) == 1 && Shr(b, 63) == 1 && Shr(c, 63) == 1 && Shr(z, 63) == 0
  }

  lemma SplitSecond(hf: SlotFn, a: u64, b: u64, c: u64, z: u64, H: seq<u64>)
    requires SecondHashes(hf, a, b, c, z) && multiset(H) == multiset{a, b, c, z}
    ensures |H| == 4 && Lows(H) == [z]
    ensures |Highs(H)| == 3 && multiset(Highs(H)) == multiset{a, b, c}
  {
    hide Shr, Lows, Highs;
    forall u: u64
      ensures multiset(Lows(H))[u] == multiset{z}[u] && multiset(Highs(H))[u] == multiset{a, b, c}[u]
    {
      LowsCount(H, u);
    }
    var low, high := Lows(H), Highs(H);
    assert multiset(low) == multiset{z} && multiset(high) == multiset{a, b, c};
    assert |multiset(low)| == |low| && |multiset(high)| == |high| && |multiset(H)| == |H|;
    assert low[0] in multiset(low);
  }

  // In any order of the hashes, three run past the end and the last of them is left behind.
  lemma SecondPlacement(hf: SlotFn, a: u64, b: u64, c: u64, z: u64, H: seq<u64>)
    returns (x: u64, y: u64, w: u64)
    requires SecondHashes(hf, a, b, c, z) && multiset(H) == multiset{a, b, c, z}
    ensures |H| == 4 && Placed(START, H, 1) == [z, 0, x, y, w, 1]
    ensures multiset{x, y, w} == multiset{a, b, c}
  {
    hide Shr, Pow2, PlaceAll, Placed, Lows, Highs;
    SplitSecond(hf, a, b, c, z, H);
    var high := Highs(H);
    x, y, w := high[0], high[1], high[2];
    assert high == [x, y, w];
    assert multiset([x, y, w]) == multiset{x, y, w};
    forall i | 0 <= i < |H|
      ensures Shr(H[i], 63) < 2
    {
      assert H[i] in multiset(H);
    }
    PlacedInSix(H);
    PlaceSix(H);
    assert Six([z], [x, y, w]).cells == [z, 0, x, y, w, 1];
  }

  // Every hash of `seen` is the only one at its middle slot.
  ghost predicate Apart(hf: SlotFn, seen: seq<u64>) {
    forall i, j :: 0 <= i < j < |seen| ==> hf(seen[i]).p1 != hf(seen[j]).p1
  }

  ghost predicate Layered(hf: SlotFn, seen: seq<u64>) {
    forall i :: 0 <= i < |seen| ==> hf(seen[i]).p0 < 8 <= hf(seen[i]).p1 < 16 <= hf(seen[i]).p2 < 24
  }

  lemma ApartCounted(hf: SlotFn, t: Table, seen: seq<u64>, S: seq<u64>, duplicates: nat)
    requires Apart(hf, seen) && Counted(hf, t, 24, seen, S, duplicates)
    ensures multiset(S) == multiset(seen) && duplicates == 0
  {
    hide Exact, Small, Shared;
    assert forall i, j :: 0 <= i < j < |seen| ==> seen[i] != seen[j];
    forall x: u64
      ensures multiset(S)[x] == multiset(seen)[x]
    {
      assert x in multiset(S) <==> x in S;
      if x in seen {
        var j :| 0 <= j < |seen| && seen[j] == x;
        OccursOnce(seen, j);
      }
    }
    assert |multiset(S)| == |S| && |multiset(seen)| == |seen|;
  }

  lemma ApartPeels(hf: SlotFn, seen: seq<u64>, S: seq<u64>, stack: seq<u64>, found: seq<nat>, U: seq<u64>)
    requires Apart(hf, seen) && Layered(hf, seen) && multiset(S) == multiset(seen)
    requires Peeled(hf, 24, S, stack, found, U)
    ensures U == [] && multiset(stack) == multiset(seen)
  {
    hide PeelOrder, Sum;
    if U != [] {
      var u := U[0];
      assert u in multiset(U) && u in multiset(seen);
      var j :| 0 <= j < |seen| && seen[j] == u;
      forall i, k | 0 <= i < j < k < |seen|
        ensures seen[i] != u && seen[k] != u
      {}
      OccursOnce(seen, j);
      forall i | 0 <= i < |U| && hf(U[i]).Has(hf(u).p1)
        ensures U[i] == u
      {
        assert U[i] in multiset(U) && U[i] in multiset(seen);
        var k :| 0 <= k < |seen| && seen[k] == U[i];
      }
      TouchedByOne(hf, U, hf(u).p1, u);
      assert false;
    }
  }

  lemma SecondAttempt(hf: SlotFn, a: u64, b: u64, c: u64, z: u64, H: seq<u64>, outcome: Outcome,
                      after: seq<u64>)
    returns (w: u64)
    requires SecondHashes(hf, a, b, c, z) && multiset(H) == multiset{a, b, c, z}
    requires Attempted(hf, 24, 1, H, START, outcome, after)
    ensures outcome == Solved(4) && |after| == 6 && w in {a, b, c}
    ensures forall s :: hf(w).Has(s) ==> NoneTouch(hf, after[..4], s)
  {
    hide Shr, Placed, Overfull, Counted, Peeled, PeelsTo, CountAll, Good, SecondHashes;
    var x, y;
    x, y, w := SecondPlacement(hf, a, b, c, z, H);
    var placed, seen := [z, 0, x, y, w, 1], [z, 0, x, y];
    assert placed[..4] == seen;
    CountAllMeaning(hf, 24, seen);
    var counted := CountAll(hf, 24, seen);
    NoOverflow(hf, 24, seen, counted.represented);
    var S := counted.represented;
    ThreeApart(hf, a, b, c, z, x, y, w);
    ApartCounted(hf, counted.table, seen, S, counted.duplicates);
    var stacksize: nat :| PeeledAfter(hf, 24, placed, 4, counted, stacksize, outcome, after);
    var found, U :| Peeled(hf, 24, S, after[..stacksize], found, U) && stacksize + |U| == |S|;
    ApartPeels(hf, seen, S, after[..stacksize], found, U);
    assert |multiset(S)| == |S| && |multiset(seen)| == |seen|;
    forall s | hf(w).Has(s)
      ensures NoneTouch(hf, after[..4], s)
    {
      forall k | 0 <= k < 4
        ensures !hf(after[..4][k]).Has(s)
      {
        assert after[..4][k] in multiset(after[..4]);
        assert after[..4][k] in seen;
      }
    }
  }

  lemma ThreeApart(hf: SlotFn, a: u64, b: u64, c: u64, z: u64, x: u64, y: u64, w: u64)
    requires SecondHashes(hf, a, b, c, z) && multiset{x, y, w} == multiset{a, b, c}
    ensures Apart(hf, [z, 0, x, y]) && Layered(hf, [z, 0, x, y])
    ensures w in {a, b, c}
    ensures forall g, s :: g in [z, 0, x, y] && hf(w).Has(s) ==> !hf(g).Has(s)
  {
    hide Shr;
    ThreeDistinct(a, b, c, x, y, w);
    PairApart(hf, a, b, c, z, x, w);
    PairApart(hf, a, b, c, z, y, w);
    PairApart(hf, a, b, c, z, z, w);
    PairApart(hf, a, b, c, z, 0, w);
    PairApart(hf, a, b, c, z, x, y);
    PairApart(hf, a, b, c, z, z, x);
    PairApart(hf, a, b, c, z, z, y);
    PairApart(hf, a, b, c, z, 0, x);
    PairApart(hf, a, b, c, z, 0, y);
    hide SecondHashes;
    assert Apart(hf, [z, 0, x, y]) by { ApartFour(hf, z, x, y); }
  }

  lemma PairApart(hf: SlotFn, a: u64, b: u64, c: u64, z: u64, g: u64, w: u64)
    requires SecondHashes(hf, a, b, c, z) && g in {a, b, c, z, 0} && w in {a, b, c} && g != w
    ensures hf(g).p1 != hf(w).p1 && hf(z).p1 != hf(0).p1
    ensures forall s :: hf(w).Has(s) ==> !hf(g).Has(s)
    ensures Layered(hf, [g]) && Layered(hf, [z, 0, w])
  {
    hide Shr;
  }

  lemma ApartFour(hf: SlotFn, z: u64, x: u64, y: u64)
    requires hf(z).p1 != hf(0).p1 && hf(z).p1 != hf(x).p1 && hf(z).p1 != hf(y).p1
    requires hf(0).p1 != hf(x).p1 && hf(0).p1 != hf(y).p1 && hf(x).p1 != hf(y).p1
    ensures Apart(hf, [z, 0, x, y])
  {}

  lemma ThreeDistinct(a: u64, b: u64, c: u64, x: u64, y: u64, w: u64)
    requires multiset{x, y, w} == multiset{a, b, c} && a != b && a != c && b != c
    ensures x in {a, b, c} && y in {a, b, c} && w in {a, b, c} && x != y && x != w && y != w
  {
    var M := multiset{x, y, w};
    assert x in M && y in M && w in M;
    assert M[x] == 1 && M[y] == 1;
  }

  // ---- The keys -------------------------------------------------------------------------------

  lemma FirstRoundHashes()
    ensures Hashes(KEYS, MixWith(SeedAt(0))) == [A_0, A_0, B_0, C_0, 0]
    ensures FirstHashes(SlotsOf(SMALL), A_0, B_0, C_0)
    ensures Shr(A_0, 63) == 0 && Shr(B_0, 63) == 1 && Shr(C_0, 63) == 1
  {
    hide MixSplit, Positions, Shr, SeedAt;
    Seeds();
    HashA0();
    HashB0();
    HashC0();
    HashZ0();
  }

  const LEFT: seq<u64> := [A, B, C, Z]

  lemma SecondValues()
    ensures Hashes(LEFT, MixWith(SeedAt(1))) == [A_1, B_1, C_1, Z_1]
    ensures SecondHashes(SlotsOf(SMALL), A_1, B_1, C_1, Z_1)
  {
    hide MixSplit, Positions, Shr, SeedAt;
    Seeds();
    HashA1();
    HashB1();
    HashC1();
    HashZ1();
    HashZ0();
  }

  lemma SecondRoundHashes(keys: seq<u64>)
    requires multiset(keys) == multiset(LEFT)
    ensures multiset(Hashes(keys, MixWith(SeedAt(1)))) == multiset{A_1, B_1, C_1, Z_1}
    ensures SecondHashes(SlotsOf(SMALL), A_1, B_1, C_1, Z_1)
  {
    hide *;
    SecondValues();
    SubHashes(keys, LEFT, MixWith(SeedAt(1)));
    SubHashes(LEFT, keys, MixWith(SeedAt(1)));
    assert multiset([A_1, B_1, C_1, Z_1]) == multiset{A_1, B_1, C_1, Z_1};
  }

  // Once the two equal keys are neighbours, one of them is removed.
  lemma KeptKeys(sorted: seq<u64>)
    requires multiset(sorted) == multiset(KEYS) && Dedup.Grouped(sorted)
    ensures multiset(Dedup.Compact(sorted)) == multiset(LEFT) && |Dedup.Compact(sorted)| == 4
  {
    hide Dedup.Compact, Dedup.Grouped;
    var kept := Dedup.Compact(sorted);
    Dedup.CompactDistinctIffGrouped(sorted);
    SameElements(sorted, KEYS);
    forall x: u64
      ensures multiset(kept)[x] == multiset(LEFT)[x]
    {
      Dedup.CompactElements(sorted, x);
      if x in kept {
        var j :| 0 <= j < |kept| && kept[j] == x;
        OccursOnce(kept, j);
      }
    }
    assert multiset(kept) == multiset(LEFT);
    assert |multiset(kept)| == |kept|;
  }

  // The comparator is consistent on these keys: any arrangement without an inversion between
  // neighbours, as a sort leaves it, has the equal keys side by side.
  lemma SortedGroups(sorted: seq<u64>)
    requires multiset(sorted) == multiset(KEYS)
    requires forall i :: 0 <= i < |sorted| - 1 ==> Dedup.Compare(sorted[i], sorted[i + 1]) <= 0
    ensures Dedup.Grouped(sorted)
  {
    hide Dedup.Compare, Dedup.Grouped;
    SameElements(sorted, KEYS);
    forall i | 0 <= i < |sorted| - 1
      ensures sorted[i] <= sorted[i + 1]
    {
      assert sorted[i] in KEYS && sorted[i + 1] in KEYS;
      CompareOnKeys(sorted[i], sorted[i + 1]);
    }
    AscendingGroups(sorted);
  }

  lemma CompareOnKeys(a: u64, b: u64)
    requires a in KEYS && b in KEYS
    ensures Dedup.Compare(a, b) == a as int - b
  {}

  lemma {:induction false} Ascending(s: seq<u64>, i: nat, j: nat)
    requires i <= j < |s| && forall k :: 0 <= k < |s| - 1 ==> s[k] <= s[k + 1]
    ensures s[i] <= s[j]
  {
    if i < j {
      Ascending(s, i, j - 1);
    }
  }

  lemma AscendingGroups(s: seq<u64>)
    requires forall k :: 0 <= k < |s| - 1 ==> s[k] <= s[k + 1]
    ensures Dedup.Grouped(s)
  {
    forall i, j, k | 0 <= i < j < k < |s| && s[i] == s[k]
      ensures s[j] == s[i]
    {
      Ascending(s, i, j);
      Ascending(s, j, k);
    }
  }

  // ---- The run ----------------------------------------------------------------------------------

  lemma FirstRound(trace: seq<Round>, ok: bool, seed: u64)
    requires Good(SlotsOf(SMALL), 24)
    requires Traced(SlotsOf(SMALL), 24, 1, KEYS, trace, ok, seed) && 0 < |trace|
    ensures trace[0].keys == KEYS && trace[0].outcome == Stuck(1)
    ensures |trace[0].after| == 6 && trace[0].after[4] == 0 && trace[0].after[5] == 1
  {
    hide SlotsOf, Traced, Attempted, Hashes, MixWith, FirstHashes, Good, Shr;
    TracedAt(SlotsOf(SMALL), 24, 1, KEYS, trace, ok, seed, 0);
    assert trace[..0] == [];
    assert seq(5, _ => 0) + [1] == START;
    FirstRoundHashes();
    FirstAttempt(SlotsOf(SMALL), A_0, B_0, C_0, trace[0].outcome, trace[0].after);
  }

  lemma ErasedFour(after: seq<u64>, before: seq<u64>)
    requires Erased(4, after, before) && |after| == 6 && after[4] == 0 && after[5] == 1
    ensures before == START
  {
    assert before[4] == before[4..][0] && before[5] == before[4..][1];
  }

  lemma SecondRound(trace: seq<Round>, ok: bool, seed: u64)
    returns (w: u64)
    requires Good(SlotsOf(SMALL), 24)
    requires Traced(SlotsOf(SMALL), 24, 1, KEYS, trace, ok, seed) && 1 < |trace|
    requires Dedup.Grouped(trace[0].sorted)
    ensures trace[1].outcome == Solved(4) && |trace[1].after| == 6 && w in {A_1, B_1, C_1}
    ensures forall s :: SlotsOf(SMALL)(w).Has(s) ==> NoneTouch(SlotsOf(SMALL), trace[1].after[..4], s)
  {
    hide SlotsOf, Traced, Attempted, Hashes, MixWith, SecondHashes, Good, Shr, Dedup.Grouped, Dedup.Compact;
    FirstRound(trace, ok, seed);
    TracedAt(SlotsOf(SMALL), 24, 1, KEYS, trace, ok, seed, 0);
    TracedAt(SlotsOf(SMALL), 24, 1, KEYS, trace, ok, seed, 1);
    KeptKeys(trace[0].sorted);
    ErasedFour(trace[0].after, trace[1].before);
    SecondRoundHashes(trace[1].keys);
    w := SecondAttempt(SlotsOf(SMALL), A_1, B_1, C_1, Z_1, Hashes(trace[1].keys, MixWith(SeedAt(1))),
                       trace[1].outcome, trace[1].after);
  }

  // Every run of populate on these keys that brings the equal keys together reports success after
  // two attempts, with a key none of whose slots is touched by a stacked hash.
  lemma RunLosesKey(trace: seq<Round>, ok: bool, seed: u64)
    returns (key: u64)
    requires Good(SlotsOf(SMALL), 24)
    requires Traced(SlotsOf(SMALL), 24, 1, KEYS, trace, ok, seed)
    requires trace != [] ==> Dedup.Grouped(trace[0].sorted)
    ensures ok && |trace| == 2 && seed == SeedAt(1) && multiset(trace[0].sorted) == multiset(KEYS)
    ensures trace[1].outcome == Solved(4) && |trace[1].after| == 6
    ensures key in KEYS && MixSplit(key, seed) in {A_1, B_1, C_1}
    ensures forall s :: SlotsOf(SMALL)(MixSplit(key, seed)).Has(s) ==>
              NoneTouch(SlotsOf(SMALL), trace[1].after[..4], s)
  {
    hide SlotsOf, Attempted, Hashes, MixWith, History, Good, Shr, Dedup.Grouped, Dedup.Compact, MixSplit, SeedAt;
    assert 0 < |trace|;
    FirstRound(trace, ok, seed);
    TracedAt(SlotsOf(SMALL), 24, 1, KEYS, trace, ok, seed, 0);
    var w := SecondRound(trace, ok, seed);
    TracedAt(SlotsOf(SMALL), 24, 1, KEYS, trace, ok, seed, 1);
    key := if w == A_1 then A else if w == B_1 then B else C;
    Seeds();
    HashA1();
    HashB1();
    HashC1();
  }

  lemma OddFingerprint(h: u64)
    requires h in {A_1, B_1, C_1}
    ensures Fingerprint(h) != 0
  {
    hide Xor, Shr;
    ShrIs32(h);
    XorDigit(h, Shr(h, 32));
    assert XorShift(h, 32) % 2 == 1;
  }

  lemma ShrIs32(h: u64)
    ensures Shr(h, 32) == h / 0x1_0000_0000
  {
    hide Shr, Low, Pow2;
    Pow2Values();
    ShrLow(h, 32);
    DivUnique(h, 0x1_0000_0000, Shr(h, 32));
  }

  // A hash with zero fingerprints in all its slots is denied.
  lemma ZeroSlotsDenied(F: seq<Byte>, seed: u64, key: u64)
    requires |F| == 24 && MixSplit(key, seed) in {A_1, B_1, C_1}
    requires Positions(MixSplit(key, seed), SMALL).In(24)
    requires forall s :: 0 <= s < 24 && Positions(MixSplit(key, seed), SMALL).Has(s) ==> F[s] == 0
    ensures HashBatch(MixSplit(key, seed), SMALL).In(24) && !Lookup(F, SMALL, seed, key)
  {
    hide MixSplit, Positions, HashBatch, Xor, Fingerprint;
    SmallFits();
    BatchAgrees(MixSplit(key, seed), SMALL, 3);
    OddFingerprint(MixSplit(key, seed));
    XorZero(0);
    XorZero(Fingerprint(MixSplit(key, seed)));
  }

  lemma SizingOfFive()
    ensures Sizing(5, 3, 15) == SMALL && Good(SlotsOf(SMALL), 24)
  {
    SmallFits();
    SlotsGood(SMALL, 3);
    hide Good;
    assert Pow2(3) == 8;
    assert SegmentLength(5, 3) == 8;
    assert RoundedCount(15, 8) == 2;
  }

  lemma OneBit(blockBits: nat)
    requires LeastBits(1, blockBits)
    ensures blockBits == 1
  {}

  // A slot that no stacked hash touches is no pivot.
  lemma UntouchedKept(stack: seq<u64>, found: seq<nat>, before: seq<Byte>, F: seq<Byte>, s: nat)
    requires s < |F| && forall j :: 0 <= j < |stack| ==> SlotsOf(SMALL)(stack[j]).In(|F|)
    requires Substituted(SlotsOf(SMALL), stack, found, before, F) && NoneTouch(SlotsOf(SMALL), stack, s)
    ensures |before| == |F| && F[s] == before[s]
  {
    hide AllHold, SlotsOf;
    assert NoPivot(SlotsOf(SMALL), stack, found, s);
  }

  // The fingerprints that a run leaves deny one of the keys.
  lemma FilledDenies(f: BinaryFuse8, ok: bool, trace: seq<Round>, before: seq<Byte>) returns (key: u64)
    requires f.Allocated() && f.Geometry() == SMALL && |before| == 24 && forall s :: 0 <= s < 24 ==> before[s] == 0
    requires Good(SlotsOf(SMALL), 24)
    requires Traced(SlotsOf(SMALL), 24, 1, KEYS, trace, ok, f.Seed)
    requires trace != [] ==> Dedup.Grouped(trace[0].sorted)
    requires ok && trace != [] ==> f.Filled(1, trace[|trace| - 1], before)
    ensures ok && trace != [] && multiset(trace[0].sorted) == multiset(KEYS)
    ensures key in KEYS && !f.Contains(key)
  {
    hide Traced, Dedup.Grouped, AllHold, MixSplit, Positions, HashBatch, Lookup, NoneTouch, Substituted, RoundStack;
    key := RunLosesKey(trace, ok, f.Seed);
    var w := MixSplit(key, f.Seed);
    assert SlotsOf(SMALL)(w) == Positions(w, SMALL);
    assert SlotsOf(SMALL)(w).In(24);
    var stack := trace[|trace| - 1].after[..trace[|trace| - 1].outcome.stacksize];
    var found :| Substituted(SlotsOf(SMALL), stack, found, before, f.Fingerprints[..]);
    forall s: nat | SlotsOf(SMALL)(w).Has(s)
      ensures f.Fingerprints[..][s] == 0
    {
      UntouchedKept(stack, found, before, f.Fingerprints[..], s);
    }
    ZeroSlotsDenied(f.Fingerprints[..], f.Seed, key);
  }

  lemma FilterLength(f: BinaryFuse8)
    requires f.Allocated()
    ensures f.Fingerprints != null && f.Fingerprints.Length == f.Geometry().arrayLength
  {}

  // A filter for five keys, populated with the keys above.  Whenever the sort recorded for the
  // first attempt brought the equal keys together, populate succeeds and a key is denied.
  method PopulateLosesKey(f: BinaryFuse8, keys: array<u64>) returns (ok: bool, ghost trace: seq<Round>)
    requires keys[..] == KEYS
    modifies f, keys
    ensures f.Allocated() && f.Size == 5 && f.Geometry() == SMALL
    ensures Traced(SlotsOf(SMALL), 24, 1, KEYS, trace, ok, f.Seed) && trace != []
    ensures trace[0].keys == KEYS && multiset(trace[0].sorted) == multiset(KEYS)
    ensures Dedup.Grouped(trace[0].sorted) ==> ok && exists key :: key in KEYS && !f.Contains(key)
  {
    hide Traced, Good, Sizing, BinaryFuse8.Filled, BinaryFuse8.Contains, BinaryFuse8.Allocated, LeastBits;
    hide Trusted, Distinct, BadSeed, FirstGood, SameKeys, Dedup.Grouped, RoundSuits, BinaryFuse8.Guarded, SeedAt;
    f.Allocate(5, 3, 15);
    SizingOfFive();
    FilterLength(f);
    ghost var before := f.Fingerprints[..];
    assert keys[..5] == KEYS;
    ghost var blockBits;
    ok, blockBits, trace := f.Populate(keys, 5);
    OneBit(blockBits);
    FirstSort(trace, ok, f.Seed);
    if Dedup.Grouped(trace[0].sorted) {
      ghost var key := FilledDenies(f, ok, trace, before);
    }
  }

  // The first attempt is always followed by a removal of duplicates.
  lemma FirstSort(trace: seq<Round>, ok: bool, seed: u64)
    requires Good(SlotsOf(SMALL), 24)
    requires Traced(SlotsOf(SMALL), 24, 1, KEYS, trace, ok, seed)
    ensures trace != [] && trace[0].keys == KEYS && multiset(trace[0].sorted) == multiset(KEYS)
  {
    hide SlotsOf, Attempted, Hashes, MixWith, History, Good, Shr, Dedup.Compact, MixSplit, SeedAt;
    assert 0 < |trace|;
    FirstRound(trace, ok, seed);
    TracedAt(SlotsOf(SMALL), 24, 1, KEYS, trace, ok, seed, 0);
  }
}
