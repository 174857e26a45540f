/** One attempt of `binary_fuse8_populate` with a fixed seed: placement, counting, peeling. */
module FuseRounds {
  import opened Words
  import opened FuseTable
  import opened FusePlacement
  import opened FuseCounting
  import opened FusePeeling

  datatype Outcome =
    | Solved(stacksize: nat)
    | Overflow
    | Stuck(duplicates: nat)

  // The only reasons for an attempt to fail.  Some hashes, each of them repeated only if all its
  // slots are shared with others, crowd a slot beyond its counter or contain a core that cannot
  // be peeled.
  ghost predicate Hard(hf: SlotFn, n: nat, H: seq<u64>) {
    exists S :: multiset(S) <= multiset(H) && Shared(hf, S) && Jammed(hf, n, S)
  }

  ghost predicate Jammed(hf: SlotFn, n: nat, S: seq<u64>) {
    Crowded(hf, n, S) || exists C :: IsCore(hf, n, S, C)
  }

  // What an attempt on the hashes `H` leaves in `reverseOrder`.
  ghost predicate RoundFacts(hf: SlotFn, n: nat, H: seq<u64>, outcome: Outcome, cells: seq<u64>) {
    && |H| <= |cells|
    && (outcome.Solved? ==> outcome.stacksize <= |cells| &&
                            forall i :: 0 <= i < |H| ==> H[i] in cells[..outcome.stacksize])
    && (!outcome.Solved? ==> Hard(hf, n, H))
    && (outcome.Solved? && Distinct(H) ==> !Hard(hf, n, H))
    && (outcome.Stuck? && outcome.duplicates > 0 ==> exists a, b :: 0 <= a < b < |H| && H[a] == H[b])
    && (0 !in H ==> 0 !in cells[..|H|])
  }

  // ---- One attempt as a relation --------------------------------------------------------------

  // What the counting pass makes of the placed hashes.
  ghost function CountedAfter(hf: SlotFn, n: nat, blockBits: nat, H: seq<u64>, before: seq<u64>): Counting
    requires Good(hf, n)
    requires |H| < TWO32 && |H| < |before| && before[|before| - 1] != 0 && blockBits <= 64
  {
    CountAll(hf, n, Placed(before, H, blockBits)[..|H|])
  }

  // The complete effect of one attempt on the hashes `H`: `before` and `after` are the cells of
  // `reverseOrder`.
  ghost predicate Attempted(hf: SlotFn, n: nat, blockBits: nat, H: seq<u64>, before: seq<u64>,
                            outcome: Outcome, after: seq<u64>)
  {
    && Good(hf, n)
    && |H| < TWO32 && |H| < |before| == |after| && before[|before| - 1] != 0 && blockBits <= 64
    && var placed, c := Placed(before, H, blockBits), CountedAfter(hf, n, blockBits, H, before);
       if c.overflowed then outcome == Overflow && after == placed
       else exists stacksize: nat ::
              PeeledAfter(hf, n, placed, |H|, c, stacksize, outcome, after)
  }

  ghost predicate PeeledAfter(hf: SlotFn, n: nat, placed: seq<u64>, size: nat, c: Counting, stacksize: nat,
                              outcome: Outcome, after: seq<u64>)
  {
    && size <= |placed| == |after| && stacksize <= |after|
    && after[stacksize..] == placed[stacksize..]
    && outcome == (if stacksize + c.duplicates == size then Solved(stacksize) else Stuck(c.duplicates))
    && (exists found, U :: Peeled(hf, n, c.represented, after[..stacksize], found, U)
                           && stacksize + |U| == |c.represented|)
    && (exists found :: PeelsTo(hf, n, c.table, after[..stacksize], found))
  }

  // The stack of an attempt, with the positions of its pivots.
  ghost predicate Stacked(hf: SlotFn, n: nat, blockBits: nat, H: seq<u64>, before: seq<u64>,
                          stack: seq<u64>, found: seq<nat>)
  {
    && Good(hf, n)
    && |H| < TWO32 && |H| < |before| && before[|before| - 1] != 0 && blockBits <= 64
    && PeelsTo(hf, n, CountedAfter(hf, n, blockBits, H, before).table, stack, found)
  }

  lemma StackedOnce(hf: SlotFn, n: nat, blockBits: nat, H: seq<u64>, before: seq<u64>,
                    stack1: seq<u64>, found1: seq<nat>, stack2: seq<u64>, found2: seq<nat>)
    requires Stacked(hf, n, blockBits, H, before, stack1, found1)
    requires Stacked(hf, n, blockBits, H, before, stack2, found2)
    ensures stack1 == stack2 && found1 == found2
  {
    hide PeelsTo, CountedAfter, Good;
    PeelsToOne(hf, n, CountedAfter(hf, n, blockBits, H, before).table, stack1, found1, stack2, found2);
  }

  // The outcome is determined: an overflow if the represented list crowds a slot, success if it has
  // no core either.
  ghost predicate Suits(hf: SlotFn, n: nat, blockBits: nat, H: seq<u64>, before: seq<u64>)
    requires Good(hf, n)
    requires |H| < TWO32 && |H| < |before| && before[|before| - 1] != 0 && blockBits <= 64
  {
    !Jammed(hf, n, CountedAfter(hf, n, blockBits, H, before).represented)
  }

  lemma OutcomeExact(hf: SlotFn, n: nat, blockBits: nat, H: seq<u64>, before: seq<u64>, outcome: Outcome,
                     after: seq<u64>)
    requires Attempted(hf, n, blockBits, H, before, outcome, after)
    ensures var c := CountedAfter(hf, n, blockBits, H, before);
            && outcome == (if Crowded(hf, n, c.represented) then Overflow
                           else if Suits(hf, n, blockBits, H, before) then Solved(|c.represented|)
                           else Stuck(c.duplicates))
            && (outcome.Solved? <==> Suits(hf, n, blockBits, H, before))
  {
    hide Placed, CountAll, Crowded, Peeled, IsCore, Good, Counted, Overfull;
    var placed, c := Placed(before, H, blockBits), CountedAfter(hf, n, blockBits, H, before);
    OverflowIffCrowded(hf, n, placed[..|H|]);
    if !c.overflowed {
      var stacksize: nat :|
        PeeledAfter(hf, n, placed, |H|, c, stacksize, outcome, after);
      var found, U :| Peeled(hf, n, c.represented, after[..stacksize], found, U)
                      && stacksize + |U| == |c.represented|;
      PeelsIffNoCore(hf, n, c.represented, after[..stacksize], found, U);
      CountAllMeaning(hf, n, placed[..|H|]);
      CountedSize(hf, c.table, n, placed[..|H|], c.represented, c.duplicates);
    }
  }

  // An attempt is determined by its hashes and the cells it starts with.
  lemma AttemptsAgree(hf: SlotFn, n: nat, blockBits: nat, H: seq<u64>, before: seq<u64>,
                      outcome1: Outcome, after1: seq<u64>, outcome2: Outcome, after2: seq<u64>)
    requires Attempted(hf, n, blockBits, H, before, outcome1, after1)
    requires Attempted(hf, n, blockBits, H, before, outcome2, after2)
    ensures outcome1 == outcome2 && after1 == after2
  {
    hide Placed, CountAll, Peeled, Good, PeelsTo;
    var placed, c := Placed(before, H, blockBits), CountedAfter(hf, n, blockBits, H, before);
    if !c.overflowed {
      var s1: nat :| PeeledAfter(hf, n, placed, |H|, c, s1, outcome1, after1);
      var s2: nat :| PeeledAfter(hf, n, placed, |H|, c, s2, outcome2, after2);
      var found1 :| PeelsTo(hf, n, c.table, after1[..s1], found1);
      var found2 :| PeelsTo(hf, n, c.table, after2[..s2], found2);
      PeelsToOne(hf, n, c.table, after1[..s1], found1, after2[..s2], found2);
      assert s1 == |after1[..s1]| == |after2[..s2]| == s2;
      assert after1 == after1[..s1] + after1[s1..] && after2 == after2[..s2] + after2[s2..];
    }
  }

  lemma AttemptedPeeled(hf: SlotFn, n: nat, blockBits: nat, H: seq<u64>, before: seq<u64>, placed: seq<u64>,
                        found: seq<nat>, U: seq<u64>, stacksize: nat, after: seq<u64>)
    requires Good(hf, n)
    requires |H| < TWO32 && |H| < |before| && before[|before| - 1] != 0 && blockBits <= 64
    requires placed == Placed(before, H, blockBits) && |after| == |placed| && stacksize <= |after|
    requires after[stacksize..] == placed[stacksize..]
    requires var c := CountAll(hf, n, placed[..|H|]);
             && !c.overflowed && Peeled(hf, n, c.represented, after[..stacksize], found, U)
             && stacksize + |U| == |c.represented|
             && PeelsTo(hf, n, c.table, after[..stacksize], found)
    ensures var c := CountAll(hf, n, placed[..|H|]);
            Attempted(hf, n, blockBits, H, before,
                      if stacksize + c.duplicates == |H| then Solved(stacksize) else Stuck(c.duplicates), after)
    ensures Stacked(hf, n, blockBits, H, before, after[..stacksize], found)
  {
    hide Placed, Peeled, CountAll, PeelsTo;
    var c := CountAll(hf, n, placed[..|H|]);
    assert PeeledAfter(hf, n, placed, |H|, c, stacksize,
                       if stacksize + c.duplicates == |H| then Solved(stacksize) else Stuck(c.duplicates), after);
  }

  // With a non-zero cell behind the hashes, nothing is lost.
  lemma AttemptedFacts(hf: SlotFn, n: nat, blockBits: nat, H: seq<u64>, before: seq<u64>, outcome: Outcome,
                       after: seq<u64>)
    requires Attempted(hf, n, blockBits, H, before, outcome, after)
    requires before[|H|] != 0 && forall p :: 0 <= p < |H| ==> before[p] == 0
    ensures RoundFacts(hf, n, H, outcome, after) && after[|H|] == before[|H|]
  {
    hide Placed, CountAll, Counted, Overfull, Peeled, Hard, Good, RoundFacts, Crowded, IsCore, Shared;
    var placed, c := Placed(before, H, blockBits), CountedAfter(hf, n, blockBits, H, before);
    var order := placed[..|H|];
    PlacedExact(before, H, blockBits);
    assert placed[|H|] == placed[|H|..][0] == before[|H|..][0] == before[|H|];
    CountAllMeaning(hf, n, order);
    if c.overflowed {
      OverflowFacts(hf, n, H, c.represented, placed);
    } else {
      var stacksize: nat :|
        PeeledAfter(hf, n, placed, |H|, c, stacksize, outcome, after);
      var found, U :| Peeled(hf, n, c.represented, after[..stacksize], found, U)
                      && stacksize + |U| == |c.represented|;
      CountedSize(hf, c.table, n, order, c.represented, c.duplicates);
      assert forall p :: stacksize <= p < |after| ==> after[p] == after[stacksize..][p - stacksize] == placed[p];
      assert forall p :: stacksize <= p < |H| ==> placed[p] == order[p];
      PeeledFacts(hf, c.table, n, H, order, c.represented, c.duplicates, found, U, after, stacksize);
    }
  }

  lemma SubsetLength(S: seq<u64>, seen: seq<u64>)
    requires multiset(S) <= multiset(seen)
    ensures |S| <= |seen|
  {
    var rest := multiset(seen) - multiset(S);
    assert multiset(seen) == multiset(S) + rest;
    assert |multiset(seen)| == |multiset(S)| + |rest|;
    assert |multiset(S)| == |S| && |multiset(seen)| == |seen|;
  }

  // Repetition alone is no reason to fail: any number of copies of one hash is harmless.
  lemma CopiesNotHard(hf: SlotFn, n: nat, H: seq<u64>, h: u64)
    requires hf(h).In(n) && forall i :: 0 <= i < |H| ==> H[i] == h
    ensures !Hard(hf, n, H)
  {
    hide Sum;
    forall S | multiset(S) <= multiset(H) && Shared(hf, S)
      ensures !Jammed(hf, n, S)
    {
      AllCopies(S, H, h);
      assert hf(h).Has(hf(h).p0);
      assert !TouchedByOther(hf, S, h, hf(h).p0);
      CopiesCount(S, h);
      forall s | 0 <= s < n
        ensures Sum(hf, S, s).count < 64
      {
        SumAtMost(hf, S, s);
      }
      forall C
        ensures !IsCore(hf, n, S, C)
      {
        if C != [] && multiset(C) <= multiset(S) {
          AllCopies(C, S, h);
          SubsetLength(C, S);
          CopiesCount(C, h);
          TouchedByOne(hf, C, hf(h).p0, h);
        }
      }
    }
  }

  lemma AllCopies(S: seq<u64>, H: seq<u64>, h: u64)
    requires multiset(S) <= multiset(H) && forall i :: 0 <= i < |H| ==> H[i] == h
    ensures forall i :: 0 <= i < |S| ==> S[i] == h
  {
    forall i | 0 <= i < |S|
      ensures S[i] == h
    {
      assert S[i] in multiset(S);
    }
  }

  lemma {:induction false} CopiesCount(S: seq<u64>, h: u64)
    requires forall i :: 0 <= i < |S| ==> S[i] == h
    ensures multiset(S)[h] == |S|
  {
    if S != [] {
      CopiesCount(S[..|S| - 1], h);
      assert S == S[..|S| - 1] + [S[|S| - 1]];
    }
  }

  lemma SameElements(a: seq<u64>, b: seq<u64>)
    requires multiset(a) == multiset(b)
    ensures |a| == |b| && forall h :: h in a <==> h in b
  {
    assert |multiset(a)| == |multiset(b)|;
    forall h
      ensures h in a <==> h in b
    {
      assert h in a <==> h in multiset(a);
      assert h in b <==> h in multiset(b);
    }
  }

  lemma CountsTwice(a: seq<u64>, i: nat, j: nat)
    requires i < j < |a| && a[i] == a[j]
    ensures multiset(a)[a[i]] >= 2
  {
    var x := a[i];
    assert a == a[..j] + a[j..];
    assert a[..j][i] == x && a[j..][0] == x;
    assert x in multiset(a[..j]) && x in multiset(a[j..]);
  }

  lemma FindSecond(b: seq<u64>, x: u64) returns (k: nat, l: nat)
    requires multiset(b)[x] >= 2
    ensures k < l < |b| && b[k] == b[l] == x
  {
    k := FindFirst(b, x);
    var before: seq<u64>, rest: seq<u64> := b[..k], b[k + 1..];
    assert b == before + [x] + rest;
    assert multiset(b)[x] == multiset(before)[x] + 1 + multiset(rest)[x];
    var m := FindFirst(rest, x);
    l := k + 1 + m;
  }

  // Equal entries survive a rearrangement.
  lemma RepeatSurvives(a: seq<u64>, b: seq<u64>)
    requires multiset(a) == multiset(b)
    requires exists i, j :: 0 <= i < j < |a| && a[i] == a[j]
    ensures exists i, j :: 0 <= i < j < |b| && b[i] == b[j]
  {
    var i, j :| 0 <= i < j < |a| && a[i] == a[j];
    CountsTwice(a, i, j);
    var k, l := FindSecond(b, a[i]);
  }

  lemma FindFirst(b: seq<u64>, x: u64) returns (k: nat)
    requires x in multiset(b)
    ensures k < |b| && b[k] == x && x !in b[..k]
  {
    assert x in b;
    k := 0;
    while b[k] != x
      invariant k < |b| && x in b && x !in b[..k]
      decreases |b| - k
    {
      k := k + 1;
    }
  }

  lemma OverflowFacts(hf: SlotFn, n: nat, H: seq<u64>, S: seq<u64>, cells: seq<u64>)
    requires |H| <= |cells| && multiset(cells[..|H|]) == multiset(H)
    requires Overfull(hf, n, cells[..|H|], S)
    ensures RoundFacts(hf, n, H, Overflow, cells)
  {
    hide Crowded, IsCore, Shared;
    assert Jammed(hf, n, S);
    SameElements(cells[..|H|], H);
  }

  lemma PeeledFacts(hf: SlotFn, t: Table, n: nat, H: seq<u64>, order: seq<u64>, S: seq<u64>,
                    duplicates: nat, found: seq<nat>, U: seq<u64>, cells: seq<u64>, stacksize: nat)
    requires Good(hf, n)
    requires multiset(order) == multiset(H) && |H| <= |cells|
    requires Counted(hf, t, n, order, S, duplicates)
    requires stacksize + |U| == |S| && stacksize <= |cells|
    requires Peeled(hf, n, S, cells[..stacksize], found, U)
    requires forall p :: stacksize <= p < |H| ==> cells[p] in order
    ensures RoundFacts(hf, n, H, if stacksize + duplicates == |H| then Solved(stacksize) else Stuck(duplicates), cells)
  {
    hide Crowded, IsCore, PeelOrder, Exact, Small, Shared;
    SameElements(order, H);
    var stack := cells[..stacksize];
    if stacksize + duplicates == |H| {
      assert multiset(stack) == multiset(S) by {
        assert U == [];
      }
      SameElements(stack, S);
      if Distinct(H) {
        if duplicates > 0 {
          RepeatSurvives(order, H);
        }
        SolvedIsEasy(hf, t, n, H, order, S, stack, found);
      }
    } else {
      assert IsCore(hf, n, S, U) by { LeftoverIsCore(hf, n, S, stack, U); }
      assert Jammed(hf, n, S);
    }
    if duplicates > 0 {
      RepeatSurvives(order, H);
    }
    if 0 !in H {
      forall p | 0 <= p < |H|
        ensures cells[..|H|][p] != 0
      {
        if p < stacksize {
          assert stack[p] in multiset(S);
        }
      }
    }
  }

  // Takes `x` out of both sides.
  lemma DropCommon(a: seq<u64>, b: seq<u64>, b1: seq<u64>, b2: seq<u64>, x: u64)
    requires multiset(a + [x]) <= multiset(b) && b == b1 + [x] + b2
    ensures multiset(a) <= multiset(b1 + b2)
  {
    forall y: u64
      ensures multiset(a)[y] <= multiset(b1 + b2)[y]
    {
      assert multiset(a + [x])[y] == multiset(a)[y] + multiset{x}[y];
      assert multiset(b)[y] == multiset(b1 + b2)[y] + multiset{x}[y];
    }
  }

  // The placement of `H` writes nothing behind its first |H| cells.
  ghost predicate NoSpill(before: seq<u64>, H: seq<u64>, blockBits: nat) {
    && |H| < TWO32 && |H| < |before| && before[|before| - 1] != 0 && blockBits <= 64
    && Placed(before, H, blockBits)[|H|..] == before[|H|..]
  }

  // A solved attempt whose placement wrote nothing behind the first |H| cells has stacked all
  // hashes; for distinct hashes it has stacked all of them only then.
  lemma SolvedCovers(hf: SlotFn, n: nat, blockBits: nat, H: seq<u64>, before: seq<u64>, stacksize: nat,
                     after: seq<u64>)
    requires Attempted(hf, n, blockBits, H, before, Solved(stacksize), after)
    requires forall p :: 0 <= p < |H| ==> before[p] == 0
    ensures stacksize <= |after|
    ensures NoSpill(before, H, blockBits) ==> forall h :: h in H ==> h in after[..stacksize]
    ensures Distinct(H) && (forall h :: h in H ==> h in after[..stacksize]) ==> NoSpill(before, H, blockBits)
    ensures before[|H|] != 0 ==> NoSpill(before, H, blockBits)
  {
    hide Placed, Exact, Small, Shared, PeelOrder, CountAll, Good, Distinct;
    var cells := Placed(before, H, blockBits)[..|H|];
    PlacedExact(before, H, blockBits);
    CountAllMeaning(hf, n, cells);
    var c := CountedAfter(hf, n, blockBits, H, before);
    var stack: nat :| PeeledAfter(hf, n, Placed(before, H, blockBits), |H|, c, stack,
                                  Solved(stacksize), after);
    var found, U :| Peeled(hf, n, c.represented, after[..stack], found, U) && stack + |U| == |c.represented|;
    assert U == [];
    SameElements(after[..stack], c.represented);
    if multiset(cells) == multiset(H) {
      SameElements(cells, H);
    } else if Distinct(H) && forall h :: h in H ==> h in after[..stacksize] {
      CoverIsEqual(H, cells);
    }
  }

  // As many cells as distinct hashes, and all of them among the cells.
  lemma CoverIsEqual(H: seq<u64>, cells: seq<u64>)
    requires Distinct(H) && |cells| == |H| && forall h :: h in H ==> h in cells
    ensures multiset(cells) == multiset(H)
  {
    forall x: u64
      ensures multiset(H)[x] <= multiset(cells)[x]
    {
      if x in H {
        var j :| 0 <= j < |H| && H[j] == x;
        OccursOnce(H, j);
        assert x in multiset(cells);
      }
    }
    var rest := multiset(cells) - multiset(H);
    assert multiset(cells) == multiset(H) + rest;
    assert |multiset(cells)| == |cells| && |multiset(H)| == |H|;
    assert |rest| == 0;
  }

  // More hashes touch a slot at least as often.
  lemma {:induction false} SubCount(hf: SlotFn, A: seq<u64>, B: seq<u64>, s: nat)
    requires multiset(A) <= multiset(B)
    ensures Sum(hf, A, s).count <= Sum(hf, B, s).count
  {
    if A != [] {
      var A', x := A[..|A| - 1], A[|A| - 1];
      assert A == A' + [x];
      assert x in multiset(A);
      var k := FindFirst(B, x);
      assert B == B[..k] + [x] + B[k + 1..];
      DropCommon(A', B, B[..k], B[k + 1..], x);
      SubCount(hf, A', Without(B, k), s);
      SumWithout(hf, B, k, s);
      SumLast(hf, A, s);
    }
  }

  // Distinct hashes that were all counted without overflow and all peeled are not hard.
  lemma SolvedIsEasy(hf: SlotFn, t: Table, n: nat, H: seq<u64>, order: seq<u64>, S: seq<u64>,
                     stack: seq<u64>, found: seq<nat>)
    requires Good(hf, n) && Counted(hf, t, n, order, S, 0) && multiset(order) == multiset(H)
    requires Peeled(hf, n, S, stack, found, [])
    ensures !Hard(hf, n, H)
  {
    hide Sum, PeelOrder, Exact;
    var rest := multiset(order) - multiset(S);
    assert multiset(order) == multiset(S) + rest;
    assert |rest| == 0;
    assert multiset(S) == multiset(H);
    PeelsIffNoCore(hf, n, S, stack, found, []);
    forall T | multiset(T) <= multiset(H)
      ensures !Jammed(hf, n, T)
    {
      forall s | 0 <= s < n
        ensures Sum(hf, T, s).count < 64
      {
        SubCount(hf, T, S, s);
      }
      assert forall C :: IsCore(hf, n, T, C) ==> IsCore(hf, n, S, C);
    }
  }

  lemma LeftoverIsCore(hf: SlotFn, n: nat, S: seq<u64>, stack: seq<u64>, U: seq<u64>)
    requires U != [] && multiset(stack) + multiset(U) == multiset(S)
    requires forall s :: 0 <= s < n ==> Sum(hf, U, s).count != 1
    ensures IsCore(hf, n, S, U)
  {}

  method TryRound(keys: array<u64>, size: u32, mix: u64 -> u64, hf: SlotFn, blockBits: nat,
                  startPos: array<nat>, reverseOrder: array<u64>, t2count: array<Byte>,
                  t2hash: array<u64>, alone: array<nat>, reverseH: array<nat>)
    returns (outcome: Outcome)
    requires size <= keys.Length && size < reverseOrder.Length && size <= reverseH.Length
    requires 1 <= blockBits <= 32 && startPos.Length == Pow2(blockBits)
    requires t2count.Length == t2hash.Length == alone.Length && Good(hf, t2count.Length)
    requires reverseOrder != keys && reverseOrder != t2hash && t2hash != keys
    requires startPos != alone && startPos != reverseH && alone != reverseH
    requires forall p :: 0 <= p < size ==> reverseOrder[p] == 0
    requires forall s :: 0 <= s < t2count.Length ==> t2count[s] == 0 && t2hash[s] == 0
    requires reverseOrder[reverseOrder.Length - 1] != 0
    modifies startPos, reverseOrder, t2count, t2hash, alone, reverseH
    ensures reverseOrder[reverseOrder.Length - 1] == old(reverseOrder[reverseOrder.Length - 1])
    ensures outcome.Solved? ==> outcome.stacksize <= size
    ensures outcome.Stuck? ==> outcome.duplicates <= size
    ensures outcome.Solved? ==>
              && PeelOrder(hf, reverseOrder[..outcome.stacksize], reverseH[..outcome.stacksize])
              && Stacked(hf, t2count.Length, blockBits, Hashes(keys[..size], mix), old(reverseOrder[..]),
                         reverseOrder[..outcome.stacksize], reverseH[..outcome.stacksize])
    ensures Attempted(hf, t2count.Length, blockBits, Hashes(keys[..size], mix), old(reverseOrder[..]),
                      outcome, reverseOrder[..])
  {
    hide Counted, Peeled, Overfull, PeelOrder, Attempted, Stacked, PeelsTo, Placed, Good, CountAll;
    ghost var before := reverseOrder[..];
    ghost var n, H := t2count.Length, Hashes(keys[..size], mix);
    PlaceHashes(keys, size, mix, blockBits, reverseOrder, startPos);
    ghost var placed := reverseOrder[..];
    assert placed[..size] == reverseOrder[..size];
    var error, duplicates := CountHashes(hf, reverseOrder, size, t2count, t2hash);
    ghost var c := CountAll(hf, n, placed[..size]);
    CountAllMeaning(hf, n, placed[..size]);
    assert reverseOrder[..] == placed;
    if error {
      outcome := Overflow;
      AttemptedOverflow(hf, n, blockBits, H, before, placed);
    } else {
      CountedSize(hf, c.table, n, placed[..size], c.represented, duplicates);
      var stacksize;
      ghost var U;
      stacksize, U := Peel(hf, t2count, t2hash, alone, reverseOrder, reverseH, c.represented, placed[..size],
                           duplicates);
      outcome := if stacksize + duplicates == size then Solved(stacksize) else Stuck(duplicates);
      PeeledOrder(hf, n, c.represented, reverseOrder[..stacksize], reverseH[..stacksize], U);
      assert reverseOrder[..][stacksize..] == placed[stacksize..];
      assert reverseOrder[..][..stacksize] == reverseOrder[..stacksize];
      AttemptedPeeled(hf, n, blockBits, H, before, placed, reverseH[..stacksize], U, stacksize, reverseOrder[..]);
    }
  }

  lemma AttemptedOverflow(hf: SlotFn, n: nat, blockBits: nat, H: seq<u64>, before: seq<u64>, placed: seq<u64>)
    requires Good(hf, n)
    requires |H| < TWO32 && |H| < |before| && before[|before| - 1] != 0 && blockBits <= 64
    requires placed == Placed(before, H, blockBits) && CountAll(hf, n, placed[..|H|]).overflowed
    ensures Attempted(hf, n, blockBits, H, before, Overflow, placed)
  {
    hide Placed, CountAll;
  }

  lemma CountedSize(hf: SlotFn, t: Table, n: nat, seen: seq<u64>, S: seq<u64>, duplicates: nat)
    requires Counted(hf, t, n, seen, S, duplicates)
    ensures |S| + duplicates == |seen|
  {}

  lemma PeeledOrder(hf: SlotFn, n: nat, S: seq<u64>, stack: seq<u64>, found: seq<nat>, U: seq<u64>)
    requires Peeled(hf, n, S, stack, found, U)
    ensures PeelOrder(hf, stack, found)
  {}
}
