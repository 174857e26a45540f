/** The peeling stage of `binary_fuse8_populate`: slots touched by exactly one remaining hash
    are worked off with a queue kept in `alone`, and their hashes go onto a stack kept in
    the front of `reverseOrder`. */
module FusePeeling {
  import opened Words
  import opened FuseTable
  import opened FuseCounting

  // ---- The stack ------------------------------------------------------------------------

  function Pivot(hf: SlotFn, stack: seq<u64>, found: seq<nat>, j: nat): nat
    requires j < |stack| == |found| && found[j] < 3
  {
    hf(stack[j]).At(found[j])
  }

  // The pivot slot of every stacked hash is touched by no hash stacked after it.
  ghost predicate PeelOrder(hf: SlotFn, stack: seq<u64>, found: seq<nat>) {
    && |stack| == |found|
    && (forall j :: 0 <= j < |found| ==> found[j] < 3)
    && (forall j, k :: 0 <= j < k < |stack| ==> !hf(stack[k]).Has(Pivot(hf, stack, found, j)))
  }

  ghost predicate PivotsIn(hf: SlotFn, stack: seq<u64>, found: seq<nat>, pivots: set<nat>) {
    PeelOrder(hf, stack, found) &&
    forall j :: 0 <= j < |stack| ==> Pivot(hf, stack, found, j) in pivots
  }

  // ---- The invariant of the peeling loop ----------------------------------------------------

  // A pivot keeps its stale count of one and is touched by no remaining hash; every other
  // slot is exact for the remaining hashes `U`, and is queued when exactly one touches it.
  ghost predicate SlotOk(hf: SlotFn, t: Table, U: seq<u64>, queue: seq<nat>, pivots: set<nat>, s: nat)
    requires s < |t.counts| && s < |t.hashes|
  {
    var c := Sum(hf, U, s).count;
    && c < 64
    && (s in pivots ==> c == 0 && t.counts[s] / 4 == 1 && s !in queue)
    && (s !in pivots ==> ExactAt(hf, t, U, s) && (c == 1 ==> s in queue) && (s in queue ==> c <= 1))
  }

  ghost predicate Peeling(hf: SlotFn, t: Table, n: nat, S: seq<u64>, U: seq<u64>, queue: seq<nat>,
                          stack: seq<u64>, found: seq<nat>, pivots: set<nat>)
  {
    && t.Shaped(n)
    && Distinct(queue)
    && (forall q :: q in queue ==> q < n)
    && PivotsIn(hf, stack, found, pivots)
    && multiset(stack) + multiset(U) == multiset(S)
    && (forall s :: 0 <= s < n ==> SlotOk(hf, t, U, queue, pivots, s))
  }

  // The two other slots of a hash, in the order the code visits them.
  function Other(p: Slots, found: nat, k: nat): nat
    requires found < 3 && 1 <= k <= 2
  {
    p.At((found + k) % 3)
  }

  function Detached(t: Table, p: Slots, h: u64, found: nat): (t': Table)
    requires t.Shaped(|t.counts|) && p.In(|t.counts|) && found < 3
    ensures t'.Shaped(|t.counts|)
  {
    t.Detach(Other(p, found, 1), h, (found + 1) % 3).Detach(Other(p, found, 2), h, (found + 2) % 3)
  }

  lemma DetachedCell(t: Table, p: Slots, h: u64, found: nat, s: nat)
    requires t.Shaped(|t.counts|) && p.In(|t.counts|) && found < 3 && s < |t.counts|
    ensures Detached(t, p, h, found).At(s) ==
            if p.Has(s) && p.PositionOf(s) != found then DetachCell(t.At(s), h, p.PositionOf(s)) else t.At(s)
  {
    hide DetachCell;
  }

  // Pushes the slots that drop from two hashes to one.
  function Pushed(t: Table, queue: seq<nat>, p: Slots, found: nat): seq<nat>
    requires t.Shaped(|t.counts|) && p.In(|t.counts|) && found < 3
  {
    var o1, o2 := Other(p, found, 1), Other(p, found, 2);
    queue + (if t.counts[o1] / 4 == 2 then [o1] else []) + (if t.counts[o2] / 4 == 2 then [o2] else [])
  }

  // Spelled out: the two slots after the pivot, cyclically and in that order, each if its counter is
  // two.
  lemma PushedInOrder(t: Table, queue: seq<nat>, p: Slots, found: nat)
    requires t.Shaped(|t.counts|) && p.In(|t.counts|) && found < 3
    ensures var one, two := if found == 0 then p.p1 else if found == 1 then p.p2 else p.p0,
                            if found == 0 then p.p2 else if found == 1 then p.p0 else p.p1;
            Pushed(t, queue, p, found) ==
            queue + (if 8 <= t.counts[one] < 12 then [one] else []) + if 8 <= t.counts[two] < 12 then [two] else []
  {
    assert Other(p, found, 1) == if found == 0 then p.p1 else if found == 1 then p.p2 else p.p0;
    assert Other(p, found, 2) == if found == 0 then p.p2 else if found == 1 then p.p0 else p.p1;
  }

  // ---- Peeling as a function -------------------------------------------------------------------------

  // The state of the peeling loop.
  datatype Work = Work(table: Table, queue: seq<nat>, stack: seq<u64>, found: seq<nat>)

  // One iteration of the loop: the last slot of the queue is taken, and if a single hash touches it,
  // that hash goes onto the stack.
  function PopLast(hf: SlotFn, n: nat, p: Work): (p': Work)
    requires Good(hf, n) && p.table.Shaped(n)
    ensures p'.table.Shaped(n)
  {
    if p.queue == [] then p else
    var queue, index := p.queue[..|p.queue| - 1], p.queue[|p.queue| - 1];
    if index < n && p.table.counts[index] / 4 == 1 && p.table.counts[index] % 4 < 3 then
      var h, f := p.table.hashes[index], p.table.counts[index] % 4;
      Work(Detached(p.table, hf(h), h, f), Pushed(p.table, queue, hf(h), f), p.stack + [h], p.found + [f])
    else p.(queue := queue)
  }

  function PopTimes(hf: SlotFn, n: nat, p: Work, k: nat): (p': Work)
    requires Good(hf, n) && p.table.Shaped(n)
    ensures p'.table.Shaped(n)
  {
    if k == 0 then p else PopLast(hf, n, PopTimes(hf, n, p, k - 1))
  }

  // The slots whose counter is one, in ascending order.
  function Singles(counts: seq<Byte>): seq<nat> {
    if counts == [] then []
    else Singles(counts[..|counts| - 1]) + if counts[|counts| - 1] / 4 == 1 then [|counts| - 1] else []
  }

  // The stack and the pivot positions with which the loop ends when it starts with this table.
  ghost predicate PeelsTo(hf: SlotFn, n: nat, t: Table, stack: seq<u64>, found: seq<nat>) {
    && Good(hf, n) && t.Shaped(n)
    && exists k: nat, t': Table ::
         PopTimes(hf, n, Work(t, Singles(t.counts), [], []), k) == Work(t', [], stack, found)
  }

  lemma {:induction false} PopNothing(hf: SlotFn, n: nat, p: Work, k: nat, more: nat)
    requires Good(hf, n) && p.table.Shaped(n) && k <= more && PopTimes(hf, n, p, k).queue == []
    ensures PopTimes(hf, n, p, more) == PopTimes(hf, n, p, k)
  {
    hide Detached, Pushed, Good;
    if k < more {
      PopNothing(hf, n, p, k, more - 1);
    }
  }

  // The table determines the stack and the pivots.
  lemma PeelsToOne(hf: SlotFn, n: nat, t: Table, stack1: seq<u64>, found1: seq<nat>,
                   stack2: seq<u64>, found2: seq<nat>)
    requires PeelsTo(hf, n, t, stack1, found1) && PeelsTo(hf, n, t, stack2, found2)
    ensures stack1 == stack2 && found1 == found2
  {
    hide PopTimes, Good;
    var p := Work(t, Singles(t.counts), [], []);
    var k1: nat, t1: Table :| PopTimes(hf, n, p, k1) == Work(t1, [], stack1, found1);
    var k2: nat, t2: Table :| PopTimes(hf, n, p, k2) == Work(t2, [], stack2, found2);
    if k1 <= k2 {
      PopNothing(hf, n, p, k1, k2);
    } else {
      PopNothing(hf, n, p, k2, k1);
    }
  }

  lemma {:induction false} StackGrows(hf: SlotFn, n: nat, p: Work, k: nat, more: nat)
    requires Good(hf, n) && p.table.Shaped(n) && k <= more
    ensures PopTimes(hf, n, p, k).stack <= PopTimes(hf, n, p, more).stack
    ensures PopTimes(hf, n, p, k).found <= PopTimes(hf, n, p, more).found
  {
    hide Detached, Pushed, Good;
    if k < more {
      StackGrows(hf, n, p, k, more - 1);
    }
  }

  // The queue is a stack: the first hash peeled is that of the highest slot with counter one.
  lemma HighestFirst(hf: SlotFn, n: nat, t: Table, stack: seq<u64>, found: seq<nat>, s: nat)
    requires PeelsTo(hf, n, t, stack, found)
    requires s < n && t.counts[s] / 4 == 1 && t.counts[s] % 4 < 3
    requires forall q :: s < q < n ==> t.counts[q] / 4 != 1
    ensures stack != [] && stack[0] == t.hashes[s]
    ensures found != [] && found[0] == t.counts[s] % 4
  {
    hide PopTimes, PopLast, Good, Singles;
    var queue := Singles(t.counts);
    SinglesAre(t.counts);
    var start, m := Work(t, queue, [], []), |queue| - 1;
    assert s in queue && queue[m] in queue;
    assert queue[m] == s;
    assert queue == queue[..m] + [s];
    PopPeels(hf, n, t, queue[..m], s, [], []);
    PopNone(hf, n, start);
    PopNext(hf, n, start, 0, start, PopLast(hf, n, start));
    var k: nat, t': Table :| PopTimes(hf, n, start, k) == Work(t', [], stack, found);
    StackGrows(hf, n, start, 1, k);
  }

  // The first queue: each slot with counter one, in order.
  lemma {:induction false} SinglesAre(counts: seq<Byte>)
    ensures forall s :: s in Singles(counts) <==> 0 <= s < |counts| && counts[s] / 4 == 1
    ensures forall a, b :: 0 <= a < b < |Singles(counts)| ==> Singles(counts)[a] < Singles(counts)[b]
  {
    if counts != [] {
      var n := |counts| - 1;
      SinglesAre(counts[..n]);
      assert forall a :: 0 <= a < |Singles(counts[..n])| ==> Singles(counts[..n])[a] in Singles(counts[..n]);
    }
  }

  lemma PopSkips(hf: SlotFn, n: nat, t: Table, queue: seq<nat>, index: nat, stack: seq<u64>, found: seq<nat>)
    requires Good(hf, n) && t.Shaped(n) && index < n && t.counts[index] / 4 != 1
    ensures PopLast(hf, n, Work(t, queue + [index], stack, found)) == Work(t, queue, stack, found)
  {
    hide Detached, Pushed, Good;
    assert (queue + [index])[..|queue + [index]| - 1] == queue;
  }

  lemma PopPeels(hf: SlotFn, n: nat, t: Table, queue: seq<nat>, index: nat, stack: seq<u64>, found: seq<nat>)
    requires Good(hf, n) && t.Shaped(n) && index < n && t.counts[index] / 4 == 1 && t.counts[index] % 4 < 3
    ensures hf(t.hashes[index]).In(n)
    ensures PopLast(hf, n, Work(t, queue + [index], stack, found)) ==
            var h, f := t.hashes[index], t.counts[index] % 4;
            Work(Detached(t, hf(h), h, f), Pushed(t, queue, hf(h), f), stack + [h], found + [f])
  {
    hide Detached, Pushed;
    assert (queue + [index])[..|queue + [index]| - 1] == queue;
  }

  lemma PopNext(hf: SlotFn, n: nat, start: Work, k: nat, p: Work, p': Work)
    requires Good(hf, n) && start.table.Shaped(n) && PopTimes(hf, n, start, k) == p && PopLast(hf, n, p) == p'
    ensures PopTimes(hf, n, start, k + 1) == p'
  {
    hide PopLast, Good;
  }

  lemma PopNone(hf: SlotFn, n: nat, p: Work)
    requires Good(hf, n) && p.table.Shaped(n)
    ensures PopTimes(hf, n, p, 0) == p
  {}

  lemma PopsEnd(hf: SlotFn, n: nat, t: Table, k: nat, t': Table, stack: seq<u64>, found: seq<nat>)
    requires Good(hf, n) && t.Shaped(n)
    requires PopTimes(hf, n, Work(t, Singles(t.counts), [], []), k) == Work(t', [], stack, found)
    ensures PeelsTo(hf, n, t, stack, found)
  {
    hide PopTimes, Singles, Good;
  }

  // ---- One slot ---------------------------------------------------------------------------------

  lemma RemoveTouching(hf: SlotFn, U: seq<u64>, k: nat, s: nat)
    requires k < |U|
    ensures Sum(hf, U, s) == Plus(Sum(hf, Without(U, k), s), One(hf, U[k], s))
    ensures !hf(U[k]).Has(s) ==> Sum(hf, Without(U, k), s) == Sum(hf, U, s)
  {
    SumWithout(hf, U, k, s);
    PlusZero(Sum(hf, Without(U, k), s));
  }

  lemma SlotStepOther(hf: SlotFn, t: Table, U: seq<u64>, queue: seq<nat>, pivots: set<nat>,
                      k: nat, found: nat, index: nat, s: nat)
    requires t.Shaped(|t.counts|) && s < |t.counts|
    requires k < |U| && hf(U[k]).In(|t.counts|) && found < 3 && hf(U[k]).At(found) == index
    requires SlotOk(hf, t, U, queue + [index], pivots, s)
    requires s != index && index !in pivots && index !in queue
    ensures SlotOk(hf, Detached(t, hf(U[k]), U[k], found), Without(U, k),
                   Pushed(t, queue, hf(U[k]), found), pivots + {index}, s)
  {
    hide Sum, Xor, DetachCell, Without, Detached;
    var h, p, U' := U[k], hf(U[k]), Without(U, k);
    var queue' := Pushed(t, queue, p, found);
    RemoveTouching(hf, U, k, s);
    DetachedCell(t, p, h, found, s);
    assert s in queue' <==>
           s in queue || ((s == Other(p, found, 1) || s == Other(p, found, 2)) && t.counts[s] / 4 == 2);
    assert s in queue + [index] <==> s in queue;
    if p.Has(s) {
      assert s == Other(p, found, 1) || s == Other(p, found, 2);
      DetachEncodes(Sum(hf, U', s), h, p.PositionOf(s));
    }
  }

  lemma SlotStepPivot(hf: SlotFn, t: Table, U: seq<u64>, queue: seq<nat>, pivots: set<nat>,
                      k: nat, found: nat, index: nat)
    requires t.Shaped(|t.counts|) && index < |t.counts|
    requires k < |U| && hf(U[k]).In(|t.counts|) && found < 3 && hf(U[k]).At(found) == index
    requires Sum(hf, U, index).count == 1 && t.counts[index] / 4 == 1
    requires index !in queue
    ensures SlotOk(hf, Detached(t, hf(U[k]), U[k], found), Without(U, k),
                   Pushed(t, queue, hf(U[k]), found), pivots + {index}, index)
  {
    hide Sum, Xor, DetachCell, Without, Detached;
    RemoveTouching(hf, U, k, index);
    DetachedCell(t, hf(U[k]), U[k], found, index);
  }

  // ---- One iteration ----------------------------------------------------------------------------

  lemma QueueStep(t: Table, queue: seq<nat>, p: Slots, found: nat)
    requires t.Shaped(|t.counts|) && p.In(|t.counts|) && found < 3
    requires Distinct(queue) && forall q :: q in queue ==> q < |t.counts| && t.counts[q] / 4 <= 1
    ensures Distinct(Pushed(t, queue, p, found))
    ensures forall q :: q in Pushed(t, queue, p, found) ==> q < |t.counts|
  {
    var o1, o2 := Other(p, found, 1), Other(p, found, 2);
    assert o1 != o2 && o1 < |t.counts| && o2 < |t.counts|;
  }

  lemma StackStep(hf: SlotFn, stack: seq<u64>, found: seq<nat>, pivots: set<nat>, h: u64, f: nat)
    requires PivotsIn(hf, stack, found, pivots) && f < 3
    requires forall s :: s in pivots ==> !hf(h).Has(s)
    ensures PivotsIn(hf, stack + [h], found + [f], pivots + {hf(h).At(f)})
  {
    var stack', found' := stack + [h], found + [f];
    forall j | 0 <= j < |stack'|
      ensures found'[j] < 3
      ensures j < |stack| ==> Pivot(hf, stack', found', j) == Pivot(hf, stack, found, j)
    {}
  }

  // What the popped slot tells about its only remaining hash.
  lemma SingleHash(hf: SlotFn, t: Table, U: seq<u64>, index: nat) returns (k: nat)
    requires t.Shaped(|t.counts|) && index < |t.counts|
    requires ExactAt(hf, t, U, index) && Sum(hf, U, index).count == 1
    ensures k < |U| && U[k] == t.hashes[index] && hf(U[k]).Has(index)
    ensures hf(U[k]).PositionOf(index) == t.counts[index] % 4
    ensures t.counts[index] / 4 == 1
  {
    hide Sum;
    k := OnlyToucher(hf, U, index);
    var p := hf(U[k]).PositionOf(index);
    assert t.At(index) == Encode(Tally(1, p, U[k]));
    assert t.counts[index] == 4 * 1 + p;
  }

  lemma SkipStep(hf: SlotFn, t: Table, n: nat, S: seq<u64>, U: seq<u64>, queue: seq<nat>,
                 stack: seq<u64>, found: seq<nat>, pivots: set<nat>, index: nat)
    requires Peeling(hf, t, n, S, U, queue + [index], stack, found, pivots)
    requires index < n && t.counts[index] / 4 != 1
    ensures Peeling(hf, t, n, S, U, queue, stack, found, pivots)
  {
    hide Sum, PivotsIn;
    ShorterDistinct(queue, index);
    forall q | q in queue
      ensures q < n
    {
      assert q in queue + [index];
    }
    forall s | 0 <= s < n
      ensures SlotOk(hf, t, U, queue, pivots, s)
    {
      assert SlotOk(hf, t, U, queue + [index], pivots, s);
      assert s in queue + [index] <==> s in queue || s == index;
    }
  }

  lemma ShorterDistinct(queue: seq<nat>, index: nat)
    requires Distinct(queue + [index])
    ensures Distinct(queue) && index !in queue
  {
    var longer := queue + [index];
    forall i, j | 0 <= i < j < |queue|
      ensures queue[i] != queue[j]
    {
      assert longer[i] != longer[j];
    }
    forall i | 0 <= i < |queue|
      ensures queue[i] != index
    {
      assert longer[i] != longer[|queue|];
    }
  }

  lemma PeelStep(hf: SlotFn, t: Table, n: nat, S: seq<u64>, U: seq<u64>, queue: seq<nat>,
                 stack: seq<u64>, found: seq<nat>, pivots: set<nat>, index: nat)
    returns (k: nat)
    requires Good(hf, n)
    requires Peeling(hf, t, n, S, U, queue + [index], stack, found, pivots)
    requires index < n && t.counts[index] / 4 == 1
    ensures k < |U| && U[k] == t.hashes[index] && t.counts[index] % 4 < 3
    ensures hf(U[k]).At(t.counts[index] % 4) == index
    ensures Peeling(hf, Detached(t, hf(U[k]), U[k], t.counts[index] % 4), n, S, Without(U, k),
                    Pushed(t, queue, hf(U[k]), t.counts[index] % 4),
                    stack + [U[k]], found + [t.counts[index] % 4], pivots + {index})
  {
    hide Sum, PivotsIn, Detached, Pushed, Distinct;
    ShorterDistinct(queue, index);
    assert index in queue + [index];
    assert SlotOk(hf, t, U, queue + [index], pivots, index);
    k := SingleHash(hf, t, U, index);
    var h, f := U[k], t.counts[index] % 4;
    assert hf(h).In(n);
    SlotsAfterPeel(hf, t, n, U, queue, pivots, index, k, f);
    forall s | s in pivots
      ensures !hf(h).Has(s)
    {
      PivotUntouched(hf, t, n, U, queue + [index], pivots, k, s);
    }
    StackStep(hf, stack, found, pivots, h, f);
    forall q | q in queue
      ensures q < n && t.counts[q] / 4 <= 1
    {
      assert q in queue + [index];
      assert SlotOk(hf, t, U, queue + [index], pivots, q);
    }
    QueueStep(t, queue, hf(h), f);
    MovedToStack(stack, U, S, k);
  }

  lemma SlotsAfterPeel(hf: SlotFn, t: Table, n: nat, U: seq<u64>, queue: seq<nat>,
                       pivots: set<nat>, index: nat, k: nat, f: nat)
    requires t.Shaped(n) && index < n
    requires forall s :: 0 <= s < n ==> SlotOk(hf, t, U, queue + [index], pivots, s)
    requires index !in queue && index !in pivots
    requires k < |U| && f < 3 && hf(U[k]).In(n) && hf(U[k]).At(f) == index
    requires Sum(hf, U, index).count == 1 && t.counts[index] / 4 == 1
    ensures forall s :: 0 <= s < n ==>
              SlotOk(hf, Detached(t, hf(U[k]), U[k], f), Without(U, k),
                     Pushed(t, queue, hf(U[k]), f), pivots + {index}, s)
  {
    hide Sum, Detached, Pushed, SlotOk;
    forall s | 0 <= s < n
      ensures SlotOk(hf, Detached(t, hf(U[k]), U[k], f), Without(U, k),
                     Pushed(t, queue, hf(U[k]), f), pivots + {index}, s)
    {
      if s == index {
        SlotStepPivot(hf, t, U, queue, pivots, k, f, index);
      } else {
        SlotStepOther(hf, t, U, queue, pivots, k, f, index, s);
      }
    }
  }

  lemma PivotUntouched(hf: SlotFn, t: Table, n: nat, U: seq<u64>, queue: seq<nat>,
                       pivots: set<nat>, k: nat, s: nat)
    requires t.Shaped(n) && k < |U| && hf(U[k]).In(n)
    requires forall s :: 0 <= s < n ==> SlotOk(hf, t, U, queue, pivots, s)
    requires s in pivots
    ensures !hf(U[k]).Has(s)
  {
    if s < n {
      assert SlotOk(hf, t, U, queue, pivots, s);
      Untouched(hf, U, s);
    }
  }

  lemma MovedToStack(stack: seq<u64>, U: seq<u64>, S: seq<u64>, k: nat)
    requires k < |U| && multiset(stack) + multiset(U) == multiset(S)
    ensures multiset(stack + [U[k]]) + multiset(Without(U, k)) == multiset(S)
  {
    assert U == U[..k] + [U[k]] + U[k + 1..];
  }

  // ---- The imperative stage ---------------------------------------------------------------------

  // A queue of distinct slots, all but one of the slots at most.
  lemma QueueFits(queue: seq<nat>, index: nat, n: nat)
    requires Distinct(queue) && index !in queue && index < n
    requires forall q :: q in queue ==> q < n
    ensures |queue| < n
  {
    var all := Below(n);
    DistinctSize(queue, all - {index});
  }

  lemma {:induction false} DistinctSize(queue: seq<nat>, all: set<nat>)
    requires Distinct(queue)
    requires forall q :: q in queue ==> q in all
    ensures |queue| <= |all|
  {
    if queue != [] {
      var last := |queue| - 1;
      assert queue[last] in queue;
      DistinctSize(queue[..last], all - {queue[last]});
    }
  }

  // The slots touched by exactly one hash, queued from the front of `alone`.
  method QueueSingles(hf: SlotFn, t2count: array<Byte>, t2hash: array<u64>, alone: array<nat>,
                      ghost S: seq<u64>, ghost seen: seq<u64>, ghost duplicates: nat)
    returns (Qsize: nat)
    requires t2count.Length == t2hash.Length == alone.Length
    requires Counted(hf, View(t2count, t2hash), t2count.Length, seen, S, duplicates)
    modifies alone
    ensures Qsize <= alone.Length && alone[..Qsize] == Singles(t2count[..])
    ensures Peeling(hf, View(t2count, t2hash), t2count.Length, S, S, alone[..Qsize], [], [], {})
  {
    hide Peeling, Counted, Singles;
    ghost var counts := t2count[..];
    Qsize := 0;
    assert alone[..0] == [];
    assert Singles(counts[..0]) == [] by { NoSingles(); }
    for i := 0 to alone.Length
      invariant Qsize <= i && alone[..Qsize] == Singles(counts[..i])
    {
      ghost var before := alone[..Qsize];
      SinglesNext(counts, i);
      alone[Qsize] := i;
      assert alone[..Qsize + 1] == before + [i];
      assert alone[..Qsize] == before;
      Qsize := Qsize + if t2count[i] / 4 == 1 then 1 else 0;
    }
    assert counts[..alone.Length] == counts;
    SinglesAre(counts);
    FreshlyQueued(hf, View(t2count, t2hash), t2count.Length, seen, S, duplicates, alone[..Qsize]);
  }

  lemma NoSingles()
    ensures Singles([]) == []
  {}

  lemma SinglesNext(counts: seq<Byte>, i: nat)
    requires i < |counts|
    ensures Singles(counts[..i + 1]) == Singles(counts[..i]) + if counts[i] / 4 == 1 then [i] else []
  {
    assert counts[..i + 1][..i] == counts[..i];
  }

  lemma FreshlyQueued(hf: SlotFn, t: Table, n: nat, seen: seq<u64>, S: seq<u64>, duplicates: nat,
                      queue: seq<nat>)
    requires Counted(hf, t, n, seen, S, duplicates)
    requires |t.counts| == n && forall s :: s in queue <==> 0 <= s < n && t.counts[s] / 4 == 1
    requires forall a, b :: 0 <= a < b < |queue| ==> queue[a] < queue[b]
    ensures Peeling(hf, t, n, S, S, queue, [], [], {})
  {
    hide Sum;
    forall s | 0 <= s < n
      ensures SlotOk(hf, t, S, queue, {}, s)
    {
      assert ExactAt(hf, t, S, s);
    }
  }

  // Takes one hash out of the slot `other`, queueing the slot if a single hash remains.  The
  // write to `alone` happens in either case.
  method TakeOut(other: nat, hash: u64, q: Position, t2count: array<Byte>, t2hash: array<u64>,
                 alone: array<nat>, Qsize: nat)
    returns (Qsize': nat)
    requires t2count.Length == t2hash.Length && other < t2count.Length
    requires Qsize < alone.Length
    modifies t2count, t2hash, alone
    ensures Qsize' <= alone.Length
    ensures alone[..Qsize'] == old(alone[..Qsize]) + (if old(t2count[other]) / 4 == 2 then [other] else [])
    ensures View(t2count, t2hash) == old(View(t2count, t2hash)).Detach(other, hash, q)
  {
    ghost var before := alone[..Qsize];
    alone[Qsize] := other;
    assert alone[..Qsize] == before && alone[..Qsize + 1] == before + [other];
    Qsize' := Qsize + if t2count[other] / 4 == 2 then 1 else 0;
    DetachAt(t2count, t2hash, other, hash, q);
  }

  function Mod3(x: nat): nat {
    if x > 2 then x - 3 else x
  }

  // The two updates of the peeling loop for the hash of a popped slot.
  method PeelHash(hf: SlotFn, hash: u64, found: nat, t2count: array<Byte>, t2hash: array<u64>,
                  alone: array<nat>, Qsize: nat)
    returns (Qsize': nat)
    requires t2count.Length == t2hash.Length == alone.Length
    requires hf(hash).In(t2count.Length) && found < 3
    requires Qsize + 1 < alone.Length ||
             (Qsize < alone.Length && t2count[Other(hf(hash), found, 1)] / 4 != 2)
    modifies t2count, t2hash, alone
    ensures Qsize' <= alone.Length
    ensures alone[..Qsize'] == old(Pushed(View(t2count, t2hash), alone[..Qsize], hf(hash), found))
    ensures View(t2count, t2hash) == old(Detached(View(t2count, t2hash), hf(hash), hash, found))
  {
    hide DetachCell;
    var p := hf(hash);
    var h012 := [p.p0, p.p1, p.p2, p.p0, p.p1];
    var other1, other2 := h012[found + 1], h012[found + 2];
    assert other1 == Other(p, found, 1) && other2 == Other(p, found, 2) && other1 != other2;
    assert Mod3(found + 1) == (found + 1) % 3 && Mod3(found + 2) == (found + 2) % 3;
    Qsize' := TakeOut(other1, hash, Mod3(found + 1), t2count, t2hash, alone, Qsize);
    Qsize' := TakeOut(other2, hash, Mod3(found + 2), t2count, t2hash, alone, Qsize');
  }

  // The second write to `alone` stays in bounds: the popped slot is not queued again, so the
  // queue of distinct slots leaves room for it.
  lemma RoomForSecondPush(t: Table, queue: seq<nat>, index: nat, p: Slots, found: nat)
    requires t.Shaped(|t.counts|) && p.In(|t.counts|) && found < 3 && p.At(found) == index
    requires Distinct(queue) && index !in queue
    requires forall q :: q in queue ==> q < |t.counts| && t.counts[q] / 4 <= 1
    ensures |queue| + 1 < |t.counts| ||
            (|queue| < |t.counts| && t.counts[Other(p, found, 1)] / 4 != 2)
  {
    var other1 := Other(p, found, 1);
    if t.counts[other1] / 4 == 2 {
      QueueFits(queue + [other1], index, |t.counts|);
    } else {
      QueueFits(queue, index, |t.counts|);
    }
  }

  // What the stage promises: the stack peels in order, no hash left over touches a pivot, and
  // no slot is touched by exactly one of them.
  ghost predicate Peeled(hf: SlotFn, n: nat, S: seq<u64>, stack: seq<u64>, found: seq<nat>, U: seq<u64>) {
    && PeelOrder(hf, stack, found)
    && multiset(stack) + multiset(U) == multiset(S)
    && (forall j, k :: 0 <= j < |stack| && 0 <= k < |U| ==> !hf(U[k]).Has(Pivot(hf, stack, found, j)))
    && forall s :: 0 <= s < n ==> Sum(hf, U, s).count != 1
  }

  // One iteration of the peeling loop, on the queue alone[..Qsize + 1].
  method PopOne(hf: SlotFn, t2count: array<Byte>, t2hash: array<u64>, alone: array<nat>, Qsize: nat,
                reverseOrder: array<u64>, reverseH: array<nat>, stacksize: nat,
                ghost S: seq<u64>, ghost U: seq<u64>, ghost pivots: set<nat>)
    returns (Qsize': nat, stacksize': nat, ghost U': seq<u64>, ghost pivots': set<nat>)
    requires t2count.Length == t2hash.Length == alone.Length && Good(hf, t2count.Length)
    requires reverseOrder != t2hash && alone != reverseH
    requires Qsize < alone.Length && stacksize + |U| == |S|
    requires |S| <= reverseH.Length && |S| <= reverseOrder.Length
    requires Peeling(hf, View(t2count, t2hash), t2count.Length, S, U, alone[..Qsize + 1],
                     reverseOrder[..stacksize], reverseH[..stacksize], pivots)
    modifies t2count, t2hash, alone, reverseOrder, reverseH
    ensures Qsize' <= alone.Length && stacksize' + |U'| == |S|
    ensures Peeling(hf, View(t2count, t2hash), t2count.Length, S, U', alone[..Qsize'],
                    reverseOrder[..stacksize'], reverseH[..stacksize'], pivots')
    ensures stacksize <= stacksize' && reverseOrder[stacksize'..] == old(reverseOrder[stacksize'..])
    ensures |U'| < |U| || (|U'| == |U| && Qsize' == Qsize)
    ensures old(View(t2count, t2hash)).Shaped(t2count.Length)
    ensures PopLast(hf, t2count.Length, old(Work(View(t2count, t2hash), alone[..Qsize + 1],
                                                 reverseOrder[..stacksize], reverseH[..stacksize]))) ==
            Work(View(t2count, t2hash), alone[..Qsize'], reverseOrder[..stacksize'], reverseH[..stacksize'])
  {
    hide Peeling, Pushed, Detached, PopLast;
    ghost var n, t, queue := t2count.Length, View(t2count, t2hash), alone[..Qsize];
    ghost var stack, found := reverseOrder[..stacksize], reverseH[..stacksize];
    var index := alone[Qsize];
    assert alone[..Qsize + 1] == queue + [index];
    PopFacts(hf, t, n, S, U, queue, stack, found, pivots, index);
    if t2count[index] / 4 == 1 {
      ghost var k := PeelStep(hf, t, n, S, U, queue, stack, found, pivots, index);
      PopPeels(hf, n, t, queue, index, stack, found);
      var hash, f: nat := t2hash[index], t2count[index] % 4;
      reverseH[stacksize] := f;
      reverseOrder[stacksize] := hash;
      stacksize' := stacksize + 1;
      assert reverseOrder[..stacksize'] == stack + [hash] && reverseH[..stacksize'] == found + [f];
      RoomForSecondPush(t, queue, index, hf(hash), f);
      Qsize' := PeelHash(hf, hash, f, t2count, t2hash, alone, Qsize);
      U', pivots' := Without(U, k), pivots + {index};
    } else {
      PopSkips(hf, n, t, queue, index, stack, found);
      SkipStep(hf, t, n, S, U, queue, stack, found, pivots, index);
      Qsize', stacksize', U', pivots' := Qsize, stacksize, U, pivots;
    }
  }

  // The state of the loop after `k` iterations from the table `t` and the cells `before`.
  ghost predicate Underway(hf: SlotFn, t: Table, before: seq<u64>, k: nat, t2count: array<Byte>, t2hash: array<u64>,
                           alone: array<nat>, Qsize: nat, reverseOrder: array<u64>, reverseH: array<nat>,
                           stacksize: nat, S: seq<u64>, U: seq<u64>, pivots: set<nat>)
    reads t2count, t2hash, alone, reverseOrder, reverseH
  {
    && t2count.Length == t2hash.Length == alone.Length && Good(hf, t2count.Length) && t.Shaped(t2count.Length)
    && Qsize <= alone.Length && stacksize <= reverseOrder.Length == |before| && stacksize <= reverseH.Length
    && stacksize + |U| == |S| && |S| <= reverseH.Length && |S| <= reverseOrder.Length
    && reverseOrder != t2hash && alone != reverseH
    && reverseOrder[stacksize..] == before[stacksize..]
    && Peeling(hf, View(t2count, t2hash), t2count.Length, S, U, alone[..Qsize],
               reverseOrder[..stacksize], reverseH[..stacksize], pivots)
    && PopTimes(hf, t2count.Length, Work(t, Singles(t.counts), [], []), k) ==
       Work(View(t2count, t2hash), alone[..Qsize], reverseOrder[..stacksize], reverseH[..stacksize])
  }

  // One iteration, recorded.
  method PopRecorded(hf: SlotFn, ghost t: Table, ghost before: seq<u64>, ghost k: nat, t2count: array<Byte>,
                     t2hash: array<u64>, alone: array<nat>, Qsize: nat, reverseOrder: array<u64>,
                     reverseH: array<nat>, stacksize: nat, ghost S: seq<u64>, ghost U: seq<u64>, ghost pivots: set<nat>)
    returns (Qsize': nat, stacksize': nat, ghost U': seq<u64>, ghost pivots': set<nat>)
    requires Underway(hf, t, before, k, t2count, t2hash, alone, Qsize + 1, reverseOrder, reverseH, stacksize,
                      S, U, pivots)
    modifies t2count, t2hash, alone, reverseOrder, reverseH
    ensures Underway(hf, t, before, k + 1, t2count, t2hash, alone, Qsize', reverseOrder, reverseH, stacksize',
                     S, U', pivots')
    ensures |U'| < |U| || (|U'| == |U| && Qsize' == Qsize)
  {
    hide Peeling, PopLast, PopTimes, Singles, Good;
    ghost var n, start := t2count.Length, Work(t, Singles(t.counts), [], []);
    ghost var p := Work(View(t2count, t2hash), alone[..Qsize + 1], reverseOrder[..stacksize], reverseH[..stacksize]);
    ghost var cells := reverseOrder[..];
    Qsize', stacksize', U', pivots' :=
      PopOne(hf, t2count, t2hash, alone, Qsize, reverseOrder, reverseH, stacksize, S, U, pivots);
    PopNext(hf, n, start, k, p,
            Work(View(t2count, t2hash), alone[..Qsize'], reverseOrder[..stacksize'], reverseH[..stacksize']));
    ShorterTail(before, cells, reverseOrder[..], stacksize, stacksize');
  }

  lemma ShorterTail(a: seq<u64>, b: seq<u64>, c: seq<u64>, i: nat, j: nat)
    requires i <= j <= |a| == |b| == |c| && b[i..] == a[i..] && c[j..] == b[j..]
    ensures c[j..] == a[j..]
  {
    assert b[j..] == b[i..][j - i..] && a[j..] == a[i..][j - i..];
  }

  method Peel(hf: SlotFn, t2count: array<Byte>, t2hash: array<u64>, alone: array<nat>,
              reverseOrder: array<u64>, reverseH: array<nat>, ghost S: seq<u64>,
              ghost seen: seq<u64>, ghost duplicates: nat)
    returns (stacksize: nat, ghost U: seq<u64>)
    requires t2count.Length == t2hash.Length == alone.Length && Good(hf, t2count.Length)
    requires reverseOrder != t2hash && alone != reverseH
    requires Counted(hf, View(t2count, t2hash), t2count.Length, seen, S, duplicates)
    requires |S| <= reverseH.Length && |S| <= reverseOrder.Length
    modifies t2count, t2hash, alone, reverseOrder, reverseH
    ensures stacksize + |U| == |S|
    ensures Peeled(hf, t2count.Length, S, reverseOrder[..stacksize], reverseH[..stacksize], U)
    ensures PeelsTo(hf, t2count.Length, old(View(t2count, t2hash)), reverseOrder[..stacksize], reverseH[..stacksize])
    ensures reverseOrder[stacksize..] == old(reverseOrder[stacksize..])
  {
    ghost var t, before, k := View(t2count, t2hash), reverseOrder[..], 0;
    ghost var pivots: set<nat> := {};
    assert t.counts == t2count[..];
    hide *;
    var Qsize: nat := QueueSingles(hf, t2count, t2hash, alone, S, seen, duplicates);
    stacksize, U := 0, S;
    Started(hf, t, before, t2count, t2hash, alone, Qsize, reverseOrder, reverseH, S);
    while Qsize > 0
      invariant Underway(hf, t, before, k, t2count, t2hash, alone, Qsize, reverseOrder, reverseH, stacksize,
                         S, U, pivots)
      decreases |U|, Qsize
    {
      Qsize, stacksize, U, pivots :=
        PopRecorded(hf, t, before, k, t2count, t2hash, alone, Qsize - 1, reverseOrder, reverseH, stacksize,
                    S, U, pivots);
      k := k + 1;
    }
    Ended(hf, t, before, k, t2count, t2hash, alone, reverseOrder, reverseH, stacksize, S, U, pivots);
    assert before[stacksize..] == old(reverseOrder[stacksize..]);
  }

  lemma Started(hf: SlotFn, t: Table, before: seq<u64>, t2count: array<Byte>, t2hash: array<u64>, alone: array<nat>,
                Qsize: nat, reverseOrder: array<u64>, reverseH: array<nat>, S: seq<u64>)
    requires t2count.Length == t2hash.Length == alone.Length && Good(hf, t2count.Length)
    requires t == View(t2count, t2hash) && Qsize <= alone.Length && alone[..Qsize] == Singles(t2count[..])
    requires Peeling(hf, t, t2count.Length, S, S, alone[..Qsize], [], [], {})
    requires |S| <= reverseH.Length && |S| <= reverseOrder.Length && before == reverseOrder[..]
    requires reverseOrder != t2hash && alone != reverseH
    ensures Underway(hf, t, before, 0, t2count, t2hash, alone, Qsize, reverseOrder, reverseH, 0, S, S, {})
  {
    hide Peeling, Singles, PopTimes, Good;
    PopNone(hf, t2count.Length, Work(t, Singles(t.counts), [], []));
    assert reverseOrder[..0] == [] && reverseH[..0] == [];
  }

  lemma Ended(hf: SlotFn, t: Table, before: seq<u64>, k: nat, t2count: array<Byte>, t2hash: array<u64>,
              alone: array<nat>, reverseOrder: array<u64>, reverseH: array<nat>, stacksize: nat,
              S: seq<u64>, U: seq<u64>, pivots: set<nat>)
    requires Underway(hf, t, before, k, t2count, t2hash, alone, 0, reverseOrder, reverseH, stacksize, S, U, pivots)
    ensures stacksize + |U| == |S| && stacksize <= reverseOrder.Length == |before| && stacksize <= reverseH.Length
    ensures reverseOrder[stacksize..] == before[stacksize..]
    ensures Peeled(hf, t2count.Length, S, reverseOrder[..stacksize], reverseH[..stacksize], U)
    ensures PeelsTo(hf, t2count.Length, t, reverseOrder[..stacksize], reverseH[..stacksize])
  {
    hide Peeling, Singles, PopTimes, Good, Peeled, PeelsTo;
    assert alone[..0] == [];
    PopsEnd(hf, t2count.Length, t, k, View(t2count, t2hash), reverseOrder[..stacksize], reverseH[..stacksize]);
    NothingQueued(hf, View(t2count, t2hash), t2count.Length, S, U, alone[..0],
                  reverseOrder[..stacksize], reverseH[..stacksize], pivots);
  }

  lemma NothingQueued(hf: SlotFn, t: Table, n: nat, S: seq<u64>, U: seq<u64>, queue: seq<nat>,
                      stack: seq<u64>, found: seq<nat>, pivots: set<nat>)
    requires Good(hf, n) && Peeling(hf, t, n, S, U, queue, stack, found, pivots) && queue == []
    ensures Peeled(hf, n, S, stack, found, U)
  {
    hide Sum;
    forall j, k | 0 <= j < |stack| && 0 <= k < |U|
      ensures !hf(U[k]).Has(Pivot(hf, stack, found, j))
    {
      var s := Pivot(hf, stack, found, j);
      assert hf(stack[j]).In(n);
      assert SlotOk(hf, t, U, queue, pivots, s);
      Untouched(hf, U, s);
    }
    forall s | 0 <= s < n
      ensures Sum(hf, U, s).count != 1
    {
      assert SlotOk(hf, t, U, queue, pivots, s);
    }
  }

  lemma PopFacts(hf: SlotFn, t: Table, n: nat, S: seq<u64>, U: seq<u64>, queue: seq<nat>,
                 stack: seq<u64>, found: seq<nat>, pivots: set<nat>, index: nat)
    requires Good(hf, n)
    requires Peeling(hf, t, n, S, U, queue + [index], stack, found, pivots)
    ensures t.Shaped(n) && index < n && index !in queue && Distinct(queue)
    ensures forall q :: q in queue ==> q < n && t.counts[q] / 4 <= 1
    ensures hf(t.hashes[index]).In(n)
    ensures |stack| + |U| == |S|
  {
    hide Sum, PivotsIn, Distinct;
    ShorterDistinct(queue, index);
    assert index in queue + [index];
    forall q | q in queue
      ensures q < n && t.counts[q] / 4 <= 1
    {
      assert q in queue + [index];
      assert SlotOk(hf, t, U, queue + [index], pivots, q);
    }
    assert |multiset(stack) + multiset(U)| == |multiset(S)|;
  }

  // ---- When peeling succeeds ------------------------------------------------------------------------

  // A non-empty part of `S` in which every slot is touched either not at all or twice.
  ghost predicate IsCore(hf: SlotFn, n: nat, S: seq<u64>, C: seq<u64>) {
    C != [] && multiset(C) <= multiset(S) && forall s :: 0 <= s < n ==> Sum(hf, C, s).count != 1
  }

  lemma OccursOnce(s: seq<u64>, j: nat)
    requires j < |s| && forall k :: 0 <= k < |s| && k != j ==> s[k] != s[j]
    ensures multiset(s)[s[j]] == 1
  {
    assert s == s[..j] + [s[j]] + s[j + 1..];
  }

  lemma FirstIn(stack: seq<u64>, C: seq<u64>) returns (j: nat)
    requires C != [] && multiset(C) <= multiset(stack)
    ensures j < |stack| && stack[j] in C
    ensures forall k :: 0 <= k < j ==> stack[k] !in C
  {
    assert C[0] in multiset(C);
    j := 0;
    while stack[j] !in C
      invariant j < |stack| && forall k :: 0 <= k < j ==> stack[k] !in C
      invariant C[0] in stack
      decreases |stack| - j
    {
      j := j + 1;
    }
  }

  // Whatever the order of the queue, peeling exhausts `S` exactly when `S` has no core.
  lemma PeelsIffNoCore(hf: SlotFn, n: nat, S: seq<u64>, stack: seq<u64>, found: seq<nat>, U: seq<u64>)
    requires Good(hf, n) && Peeled(hf, n, S, stack, found, U)
    ensures U == [] <==> !exists C :: IsCore(hf, n, S, C)
  {
    if U != [] {
      assert IsCore(hf, n, S, U);
    } else {
      forall C
        ensures !IsCore(hf, n, S, C)
      {
        if C != [] && multiset(C) <= multiset(S) {
          OrderExcludesCore(hf, n, stack, found, C);
        }
      }
    }
  }

  lemma OrderExcludesCore(hf: SlotFn, n: nat, stack: seq<u64>, found: seq<nat>, C: seq<u64>)
    requires Good(hf, n) && PeelOrder(hf, stack, found)
    requires C != [] && multiset(C) <= multiset(stack)
    ensures exists s :: 0 <= s < n && Sum(hf, C, s).count == 1
  {
    hide Sum;
    var j := FirstIn(stack, C);
    var h, s := stack[j], Pivot(hf, stack, found, j);
    assert hf(h).In(n);
    forall k | 0 <= k < |stack| && stack[k] in C && hf(stack[k]).Has(s)
      ensures k == j
    {}
    OccursOnce(stack, j);
    forall i | 0 <= i < |C| && hf(C[i]).Has(s)
      ensures C[i] == h
    {
      assert C[i] in multiset(C);
    }
    TouchedByOne(hf, C, s, h);
  }

  // The rest contains every core, so it is the greatest one and no order of peeling changes it.
  lemma RestHoldsCores(hf: SlotFn, n: nat, S: seq<u64>, stack: seq<u64>, found: seq<nat>, U: seq<u64>,
                       C: seq<u64>)
    requires Good(hf, n) && Peeled(hf, n, S, stack, found, U) && IsCore(hf, n, S, C)
    ensures multiset(C) <= multiset(U)
  {
    hide Sum;
    if exists j :: 0 <= j < |stack| && stack[j] in C {
      var j := FirstStacked(stack, C);
      LonePivot(hf, n, S, stack, found, U, C, j);
      assert false;
    }
    forall x: u64
      ensures multiset(C)[x] <= multiset(U)[x]
    {
      assert x in multiset(C) <==> x in C;
      assert x in multiset(stack) <==> x in stack;
    }
  }

  lemma FirstStacked(stack: seq<u64>, C: seq<u64>) returns (j: nat)
    requires exists i :: 0 <= i < |stack| && stack[i] in C
    ensures j < |stack| && stack[j] in C && forall k :: 0 <= k < j ==> stack[k] !in C
  {
    j := 0;
    while stack[j] !in C
      invariant j < |stack| && forall k :: 0 <= k < j ==> stack[k] !in C
      decreases |stack| - j
    {
      j := j + 1;
    }
  }

  // The pivot of the first stacked hash of a group is touched by no other hash of the group.
  lemma LonePivot(hf: SlotFn, n: nat, S: seq<u64>, stack: seq<u64>, found: seq<nat>, U: seq<u64>,
                  C: seq<u64>, j: nat)
    requires Good(hf, n) && Peeled(hf, n, S, stack, found, U)
    requires multiset(C) <= multiset(S) && j < |stack| && stack[j] in C
    requires forall k :: 0 <= k < j ==> stack[k] !in C
    ensures Pivot(hf, stack, found, j) < n && Sum(hf, C, Pivot(hf, stack, found, j)).count == 1
  {
    hide Sum;
    var h, s := stack[j], Pivot(hf, stack, found, j);
    assert hf(h).In(n);
    forall k | 0 <= k < |stack| && k != j
      ensures stack[k] != h
    {}
    OccursOnce(stack, j);
    assert h !in U by {
      forall k | 0 <= k < |U|
        ensures U[k] != h
      {}
    }
    assert multiset(S)[h] == 1;
    forall i | 0 <= i < |C| && hf(C[i]).Has(s)
      ensures C[i] == h
    {
      assert C[i] in multiset(C);
      assert C[i] in multiset(stack) + multiset(U);
      assert C[i] !in U;
      var k :| 0 <= k < |stack| && stack[k] == C[i];
    }
    assert h in multiset(C);
    TouchedByOne(hf, C, s, h);
  }

  // Two ways of peeling the same hashes stack the same ones.
  lemma PeelingConfluent(hf: SlotFn, n: nat, S: seq<u64>, stack1: seq<u64>, found1: seq<nat>, U1: seq<u64>,
                         stack2: seq<u64>, found2: seq<nat>, U2: seq<u64>)
    requires Good(hf, n) && Peeled(hf, n, S, stack1, found1, U1) && Peeled(hf, n, S, stack2, found2, U2)
    ensures multiset(U1) == multiset(U2) && multiset(stack1) == multiset(stack2)
  {
    if U1 != [] {
      RestHoldsCores(hf, n, S, stack2, found2, U2, U1);
    }
    if U2 != [] {
      RestHoldsCores(hf, n, S, stack1, found1, U1, U2);
    }
    hide Peeled, Sum;
    var T := multiset(S);
    assert multiset(stack1) == T - multiset(U1) && multiset(stack2) == T - multiset(U2) by {
      StackIsRest(hf, n, S, stack1, found1, U1);
      StackIsRest(hf, n, S, stack2, found2, U2);
    }
  }

  lemma StackIsRest(hf: SlotFn, n: nat, S: seq<u64>, stack: seq<u64>, found: seq<nat>, U: seq<u64>)
    requires Peeled(hf, n, S, stack, found, U)
    ensures multiset(stack) == multiset(S) - multiset(U)
  {}
}
