/** One writer and any number of readers on a shared bitset, lane by lane: loads and stores of
    the eight lanes of a block happen one at a time, in any order, interleaved in any way. */
module Readers {
  import opened Words
  import opened Sbbf

  // The insertion in progress: lanes loaded so far with the values seen, and lanes stored.
  datatype Writer =
    | Idle
    | Active(h: u64, loaded: map<nat, u32>, stored: set<nat>)

  // A probe in progress: the outcome of each lane test so far.  `known` records whether the
  // last store of an insertion of the hash had happened when the probe began.
  datatype Reader = Reader(h: u64, known: bool, tested: map<nat, bool>)

  datatype State = State(nblocks: nat, bits: seq<u32>, writer: Writer, done: seq<u64>,
                         readers: map<nat, Reader>)

  datatype Step =
    | Begin(h: u64)             // the writer starts an insertion
    | Load(i: nat)              // it loads a lane of the block
    | Store(i: nat)             // it stores that lane with the mask bit added
    | Finish                    // all eight lanes are stored
    | Start(r: nat, h: u64)     // a reader starts a probe, possibly dropping an earlier one
    | Look(r: nat, i: nat)      // it loads and tests a lane

  function Lane(s: State, h: u64, i: nat): nat {
    LANES * BlockIndex(s.nblocks, h) + i
  }

  ghost predicate Enabled(s: State, a: Step) {
    match a
    case Begin(h) => s.writer.Idle?
    case Load(i) => s.writer.Active? && i < LANES && i !in s.writer.loaded
    case Store(i) => s.writer.Active? && i < LANES && i in s.writer.loaded && i !in s.writer.stored
    case Finish => s.writer.Active? && forall i :: 0 <= i < LANES ==> i in s.writer.stored
    case Start(r, h) => true
    case Look(r, i) => r in s.readers && i < LANES && i !in s.readers[r].tested
  }

  // Some insertion of `h` has stored all its lanes.
  ghost predicate Written(s: State, h: u64) {
    h in s.done || (s.writer.Active? && s.writer.h == h && forall i :: 0 <= i < LANES ==> i in s.writer.stored)
  }

  // A disabled step leaves the state unchanged.
  ghost function Next(s: State, a: Step): (s': State)
    requires Shape(s.bits, s.nblocks)
    ensures Shape(s'.bits, s'.nblocks) && s'.nblocks == s.nblocks
  {
    if !Enabled(s, a) then s else
    match a
    case Begin(h) => s.(writer := Active(h, map[], {}))
    case Load(i) =>
      var w := s.writer;
      BlockInRange(s.nblocks, w.h);
      s.(writer := Active(w.h, w.loaded[i := s.bits[Lane(s, w.h, i)]], w.stored))
    case Store(i) =>
      var w := s.writer;
      BlockInRange(s.nblocks, w.h);
      s.(bits := s.bits[Lane(s, w.h, i) := Or(w.loaded[i], Mask(w.h, i))],
         writer := Active(w.h, w.loaded, w.stored + {i}))
    case Finish => s.(writer := Idle, done := s.done + [s.writer.h])
    case Start(r, h) => s.(readers := s.readers[r := Reader(h, Written(s, h), map[])])
    case Look(r, i) =>
      var d := s.readers[r];
      BlockInRange(s.nblocks, d.h);
      s.(readers := s.readers[r := d.(tested := d.tested[i := Has(s.bits[Lane(s, d.h, i)], Mask(d.h, i))])])
  }

  ghost function Run(s: State, steps: seq<Step>): (s': State)
    requires Shape(s.bits, s.nblocks)
    ensures Shape(s'.bits, s'.nblocks) && s'.nblocks == s.nblocks
  {
    if steps == [] then s else Next(Run(s, steps[..|steps| - 1]), steps[|steps| - 1])
  }

  function Initial(nblocks: nat): State {
    State(nblocks, Empty(nblocks), Idle, [], map[])
  }

  // ---- The invariant ---------------------------------------------------------------------------

  // The lanes after the completed insertions.
  ghost function Settled(s: State): (bits: seq<u32>)
    requires s.nblocks > 0
    ensures Shape(bits, s.nblocks)
  {
    InsertAll(Empty(s.nblocks), s.nblocks, s.done)
  }

  // The lanes hold the completed insertions, plus the stored lanes of the current one; a
  // loaded lane still has the value that was loaded until it is stored.
  ghost predicate WriterOk(s: State) {
    && Shape(s.bits, s.nblocks)
    && (s.writer.Idle? ==> s.bits == Settled(s))
    && (s.writer.Active? ==>
          var base := LANES * BlockIndex(s.nblocks, s.writer.h);
          && (forall i :: i in s.writer.stored ==> i < LANES)
          && (forall j :: 0 <= j < |s.bits| ==>
                s.bits[j] == if base <= j && j - base in s.writer.stored
                             then Or(Settled(s)[j], Mask(s.writer.h, j - base)) else Settled(s)[j])
          && (forall i :: i in s.writer.loaded && i !in s.writer.stored ==>
                i < LANES && base + i < |s.bits| && s.writer.loaded[i] == s.bits[base + i]))
  }

  ghost predicate ReadersOk(s: State) {
    forall r :: r in s.readers && s.readers[r].known ==>
      Written(s, s.readers[r].h) && forall i :: i in s.readers[r].tested ==> s.readers[r].tested[i]
  }

  // Every lane of a completed insertion has its bit.
  lemma DoneLane(s: State, h: u64, i: nat)
    requires WriterOk(s) && h in s.done && i < LANES
    ensures Lane(s, h, i) < |s.bits| && Has(s.bits[Lane(s, h, i)], Mask(h, i))
  {
    hide InsertAll, Mask, BlockIndex, Has, Or, Probe;
    BlockInRange(s.nblocks, h);
    NoFalseNegatives(s.nblocks, s.done, h);
    ProbeLane(Settled(s), s.nblocks, h, i);
    if s.writer.Active? {
      var base := LANES * BlockIndex(s.nblocks, s.writer.h);
      var j := Lane(s, h, i);
      if base <= j && j - base in s.writer.stored {
        BlockInRange(s.nblocks, s.writer.h);
        assert j - base == i;
        OrHasMask(Settled(s)[j], s.writer.h, h, i);
      }
    }
  }

  // So has every lane of an insertion whose last store has happened.
  lemma WrittenLane(s: State, h: u64, i: nat)
    requires WriterOk(s) && Written(s, h) && i < LANES
    ensures Lane(s, h, i) < |s.bits| && Has(s.bits[Lane(s, h, i)], Mask(h, i))
  {
    hide InsertAll, Mask, BlockIndex, Has, Or, Probe;
    if h in s.done {
      DoneLane(s, h, i);
    } else {
      BlockInRange(s.nblocks, h);
      assert Lane(s, h, i) - LANES * BlockIndex(s.nblocks, h) == i;
      OrHasMask(Settled(s)[Lane(s, h, i)], h, h, i);
    }
  }

  lemma ProbeLane(bits: seq<u32>, nblocks: nat, h: u64, i: nat)
    requires Shape(bits, nblocks) && Probe(bits, nblocks, h) && i < LANES
    ensures LANES * BlockIndex(nblocks, h) + i < |bits|
    ensures Has(bits[LANES * BlockIndex(nblocks, h) + i], Mask(h, i))
  {
    hide BlockIndex, Has, Mask;
    BlockInRange(nblocks, h);
  }

  lemma WriterStep(s: State, a: Step)
    requires WriterOk(s)
    ensures WriterOk(Next(s, a))
  {
    hide InsertAll, Mask, BlockIndex, Has, Or;
    var s' := Next(s, a);
    if Enabled(s, a) {
      match a
      case Begin(h) =>
      case Load(i) =>
        BlockInRange(s.nblocks, s.writer.h);
      case Store(i) =>
        BlockInRange(s.nblocks, s.writer.h);
      case Finish =>
        FinishedLanes(s);
      case Start(r, h) =>
      case Look(r, i) =>
    }
  }

  lemma FinishedLanes(s: State)
    requires WriterOk(s) && Enabled(s, Finish)
    ensures s.bits == InsertAll(Empty(s.nblocks), s.nblocks, s.done + [s.writer.h])
  {
    hide Mask, BlockIndex, Or;
    var h, done' := s.writer.h, s.done + [s.writer.h];
    assert done'[..|done'| - 1] == s.done;
    BlockInRange(s.nblocks, h);
    var after := InsertOne(Settled(s), s.nblocks, h);
    forall j | 0 <= j < |s.bits|
      ensures s.bits[j] == after[j]
    {}
  }

  lemma WrittenStays(s: State, a: Step)
    requires Shape(s.bits, s.nblocks)
    ensures forall h :: Written(s, h) ==> Written(Next(s, a), h)
  {
    hide InsertAll, Mask, BlockIndex, Has, Or;
  }

  lemma ReaderStep(s: State, a: Step)
    requires WriterOk(s) && ReadersOk(s)
    ensures ReadersOk(Next(s, a))
  {
    hide InsertAll, Mask, BlockIndex, Has, Or, WriterOk, Written;
    assert Shape(s.bits, s.nblocks) by { ShapeOf(s); }
    var s' := Next(s, a);
    WrittenStays(s, a);
    if Enabled(s, a) && a.Look? && s.readers[a.r].known {
      WrittenLane(s, s.readers[a.r].h, a.i);
    }
  }

  lemma ShapeOf(s: State)
    requires WriterOk(s)
    ensures Shape(s.bits, s.nblocks)
  {}

  lemma {:induction false} Reachable(nblocks: nat, steps: seq<Step>)
    requires nblocks > 0
    ensures WriterOk(Run(Initial(nblocks), steps)) && ReadersOk(Run(Initial(nblocks), steps))
  {
    hide WriterOk, ReadersOk, Next;
    if steps == [] {
      InitialOk(nblocks);
    } else {
      var before := steps[..|steps| - 1];
      Reachable(nblocks, before);
      WriterStep(Run(Initial(nblocks), before), steps[|steps| - 1]);
      ReaderStep(Run(Initial(nblocks), before), steps[|steps| - 1]);
    }
  }

  lemma InitialOk(nblocks: nat)
    requires nblocks > 0
    ensures WriterOk(Initial(nblocks)) && ReadersOk(Initial(nblocks))
  {}

  // ---- The documented guarantees ----------------------------------------------------------------

  // No step ever clears a bit.
  lemma BitsOnlyGrow(nblocks: nat, steps: seq<Step>, a: Step, j: nat, b: nat)
    requires nblocks > 0 && j < LANES * nblocks
    requires Bit(Run(Initial(nblocks), steps).bits[j], b)
    ensures Bit(Run(Initial(nblocks), steps + [a]).bits[j], b)
  {
    hide InsertAll, Mask, BlockIndex, Or, Bit, ReadersOk;
    var s := Run(Initial(nblocks), steps);
    Reachable(nblocks, steps);
    assert (steps + [a])[..|steps + [a]| - 1] == steps;
    if Enabled(s, a) && a.Store? {
      BlockInRange(s.nblocks, s.writer.h);
      OrBit(s.writer.loaded[a.i], Mask(s.writer.h, a.i), b);
    }
  }

  // No step of `steps` starts another probe of reader `r`.
  predicate NoRestart(steps: seq<Step>, r: nat) {
    forall i :: 0 <= i < |steps| ==> !(steps[i].Start? && steps[i].r == r)
  }

  lemma {:induction false} ProbeStaysKnown(s: State, steps: seq<Step>, r: nat, h: u64)
    requires Shape(s.bits, s.nblocks) && NoRestart(steps, r)
    requires r in s.readers && s.readers[r].known && s.readers[r].h == h
    ensures var s' := Run(s, steps);
            r in s'.readers && s'.readers[r].known && s'.readers[r].h == h
  {
    hide BlockIndex, Has, Or, Mask;
    if steps != [] {
      ProbeStaysKnown(s, steps[..|steps| - 1], r, h);
    }
  }

  lemma {:induction false} RunConcat(s: State, a: seq<Step>, b: seq<Step>)
    requires Shape(s.bits, s.nblocks)
    ensures Run(s, a + b) == Run(Run(s, a), b)
  {
    hide Next;
    if b == [] {
      assert a + b == a;
    } else {
      var m := |b| - 1;
      assert (a + b)[..|a + b| - 1] == a + b[..m];
      RunConcat(s, a, b[..m]);
    }
  }

  // A probe that begins after the last store of an insertion of its hash reports it in every lane
  // it looks at, whatever the writer and the other readers do before and after.
  lemma NoLateFalseNegative(nblocks: nat, before: seq<Step>, after: seq<Step>, r: nat, h: u64)
    requires nblocks > 0 && Written(Run(Initial(nblocks), before), h) && NoRestart(after, r)
    ensures var s := Run(Initial(nblocks), before + [Start(r, h)] + after);
            && r in s.readers && s.readers[r].h == h
            && forall i :: i in s.readers[r].tested ==> s.readers[r].tested[i]
  {
    hide WriterOk, Run, Next, Written;
    var first := before + [Start(r, h)];
    var s := Run(Initial(nblocks), before);
    ProbeStarts(nblocks, before, r, h);
    RunConcat(Initial(nblocks), first, after);
    ProbeStaysKnown(Run(Initial(nblocks), first), after, r, h);
    Reachable(nblocks, first + after);
  }

  lemma ProbeStarts(nblocks: nat, before: seq<Step>, r: nat, h: u64)
    requires nblocks > 0
    ensures var s := Run(Initial(nblocks), before + [Start(r, h)]);
            && r in s.readers && s.readers[r].h == h
            && s.readers[r].known == Written(Run(Initial(nblocks), before), h)
  {
    hide Written;
    assert (before + [Start(r, h)])[..|before + [Start(r, h)]| - 1] == before;
  }

  // Between insertions the shared bits are those of the sequential filter.
  lemma QuiescentIsSequential(nblocks: nat, steps: seq<Step>)
    requires nblocks > 0 && Run(Initial(nblocks), steps).writer.Idle?
    ensures Run(Initial(nblocks), steps).bits ==
            InsertAll(Empty(nblocks), nblocks, Run(Initial(nblocks), steps).done)
  {
    hide ReadersOk, Run;
    Reachable(nblocks, steps);
  }

  lemma RunSnoc(s: State, steps: seq<Step>, a: Step)
    requires Shape(s.bits, s.nblocks)
    ensures Run(s, steps + [a]) == Next(Run(s, steps), a)
  {
    hide Next;
    assert (steps + [a])[..|steps + [a]| - 1] == steps;
  }

  // A bit once set stays set for the rest of the run.
  lemma {:induction false} BitStays(nblocks: nat, steps: seq<Step>, more: seq<Step>, j: nat, b: nat)
    requires nblocks > 0 && j < LANES * nblocks
    requires Bit(Run(Initial(nblocks), steps).bits[j], b)
    ensures Bit(Run(Initial(nblocks), steps + more).bits[j], b)
  {
    hide Bit, Run;
    if more == [] {
      assert steps + more == steps;
    } else {
      var n := |more| - 1;
      BitStays(nblocks, steps, more[..n], j, b);
      BitsOnlyGrow(nblocks, steps + more[..n], more[n], j, b);
      assert steps + more == steps + more[..n] + [more[n]];
    }
  }

  // The test of a lane answers whether the lane has its bit at that moment; a lane that had it keeps
  // it in every later state.
  lemma LookTruth(nblocks: nat, before: seq<Step>, r: nat, i: nat, after: seq<Step>)
    requires nblocks > 0 && Enabled(Run(Initial(nblocks), before), Look(r, i))
    ensures var s, s' := Run(Initial(nblocks), before), Run(Initial(nblocks), before + [Look(r, i)]);
            var h := s.readers[r].h;
            var j := LANES * BlockIndex(nblocks, h) + i;
            && j < LANES * nblocks
            && r in s'.readers && i in s'.readers[r].tested
            && (s'.readers[r].tested[i] <==> Bit(s.bits[j], LaneBit(LowHalf(h), i)))
            && (s'.readers[r].tested[i] ==>
                  Bit(Run(Initial(nblocks), before + ([Look(r, i)] + after)).bits[j], LaneBit(LowHalf(h), i)))
  {
    var s := Run(Initial(nblocks), before);
    assert Shape(s.bits, s.nblocks) && s.nblocks == nblocks && Shape(Initial(nblocks).bits, nblocks);
    var h := s.readers[r].h;
    hide Bit, Has, Mask, BlockIndex, LaneBit, Run;
    BlockInRange(nblocks, h);
    var j := LANES * BlockIndex(nblocks, h) + i;
    RunSnoc(Initial(nblocks), before, Look(r, i));
    HasMask(s.bits[j], h, i);
    if Bit(s.bits[j], LaneBit(LowHalf(h), i)) {
      BitStays(nblocks, before, [Look(r, i)] + after, j, LaneBit(LowHalf(h), i));
    }
  }

  // ---- Nobody has to wait ------------------------------------------------------------------------

  function Loads(n: nat): seq<Step> {
    seq(n, i requires 0 <= i < n => Load(i))
  }

  function Stores(n: nat): seq<Step> {
    seq(n, i requires 0 <= i < n => Store(i))
  }

  function Looks(r: nat, n: nat): seq<Step> {
    seq(n, i requires 0 <= i < n => Look(r, i))
  }

  lemma NextLane(r: nat, n: nat)
    requires n > 0
    ensures Loads(n) == Loads(n - 1) + [Load(n - 1)]
    ensures Stores(n) == Stores(n - 1) + [Store(n - 1)]
    ensures Looks(r, n) == Looks(r, n - 1) + [Look(r, n - 1)]
  {}

  lemma NoLanes(r: nat)
    ensures Loads(0) == [] && Stores(0) == [] && Looks(r, 0) == [] && UpTo({}, 0)
  {}

  // The lanes below `n`.
  ghost predicate UpTo(lanes: set<nat>, n: nat) {
    forall i: nat :: i in lanes <==> i < n
  }

  lemma UpToHas(lanes: set<nat>, n: nat, i: nat)
    requires UpTo(lanes, n) && i < n
    ensures i in lanes
  {}

  lemma UpToNext(lanes: set<nat>, n: nat)
    requires n > 0 && UpTo(lanes, n - 1)
    ensures UpTo(lanes + {n - 1}, n) && n - 1 !in lanes
  {}

  lemma LoadStep(s: State, i: nat)
    requires Shape(s.bits, s.nblocks) && Enabled(s, Load(i))
    ensures var s' := Next(s, Load(i));
            && s'.writer.Active? && s'.writer.h == s.writer.h && s'.writer.stored == s.writer.stored
            && s'.done == s.done && s'.writer.loaded.Keys == s.writer.loaded.Keys + {i}
  {
    hide BlockIndex;
  }

  lemma StoreStep(s: State, i: nat)
    requires Shape(s.bits, s.nblocks) && Enabled(s, Store(i))
    ensures var s' := Next(s, Store(i));
            && s'.writer.Active? && s'.writer.h == s.writer.h && s'.writer.loaded == s.writer.loaded
            && s'.done == s.done && s'.writer.stored == s.writer.stored + {i}
  {
    hide BlockIndex, Mask, Or;
  }

  lemma LookStep(s: State, r: nat, i: nat)
    requires Shape(s.bits, s.nblocks) && Enabled(s, Look(r, i))
    ensures BlockIndex(s.nblocks, s.readers[r].h) < s.nblocks
    ensures var s' := Next(s, Look(r, i));
            && s'.bits == s.bits && r in s'.readers && s'.readers[r].h == s.readers[r].h
            && s'.readers[r].tested ==
               s.readers[r].tested[i := Has(s.bits[LANES * BlockIndex(s.nblocks, s.readers[r].h) + i],
                                            Mask(s.readers[r].h, i))]
  {
    BlockInRange(s.nblocks, s.readers[r].h);
    hide BlockIndex, Mask, Has;
  }

  lemma RunNone(s: State)
    requires Shape(s.bits, s.nblocks)
    ensures Run(s, []) == s
  {}

  lemma {:induction false} AfterLoads(s: State, h: u64, n: nat)
    requires Shape(s.bits, s.nblocks) && s.writer == Active(h, map[], {}) && n <= LANES
    ensures var s' := Run(s, Loads(n));
            && s'.writer.Active? && s'.writer.h == h && s'.writer.stored == {} && s'.done == s.done
            && UpTo(s'.writer.loaded.Keys, n)
  {
    hide Next, Run, UpTo, Loads, Stores;
    if n == 0 {
      RunNone(s);
      NoLanes(0);
      assert s.writer.loaded.Keys == {};
    } else {
      AfterLoads(s, h, n - 1);
      NextLane(0, n);
      UpToNext(Run(s, Loads(n - 1)).writer.loaded.Keys, n);
      RunSnoc(s, Loads(n - 1), Load(n - 1));
      LoadStep(Run(s, Loads(n - 1)), n - 1);
    }
  }

  lemma {:induction false} AfterStores(s: State, h: u64, n: nat)
    requires Shape(s.bits, s.nblocks) && n <= LANES
    requires s.writer.Active? && s.writer.h == h && s.writer.stored == {}
    requires UpTo(s.writer.loaded.Keys, LANES)
    ensures var s' := Run(s, Stores(n));
            && s'.writer.Active? && s'.writer.h == h && s'.done == s.done
            && s'.writer.loaded == s.writer.loaded && UpTo(s'.writer.stored, n)
  {
    hide Next, Run, UpTo, Loads, Stores;
    if n == 0 {
      RunNone(s);
      NoLanes(0);
    } else {
      AfterStores(s, h, n - 1);
      NextLane(0, n);
      UpToNext(Run(s, Stores(n - 1)).writer.stored, n);
      UpToHas(s.writer.loaded.Keys, LANES, n - 1);
      RunSnoc(s, Stores(n - 1), Store(n - 1));
      StoreStep(Run(s, Stores(n - 1)), n - 1);
    }
  }

  // A writer that goes through its lanes completes its insertion.
  lemma InsertionCompletes(nblocks: nat, before: seq<Step>, h: u64)
    requires nblocks > 0 && Run(Initial(nblocks), before).writer.Idle?
    ensures var s := Run(Initial(nblocks), before);
            var s' := Run(Initial(nblocks), before + ([Begin(h)] + Loads(8) + Stores(8) + [Finish]));
            && s'.writer.Idle? && s'.done == s.done + [h] && Written(s', h)
            && s'.bits == InsertOne(s.bits, nblocks, h)
  {
    var s := Run(Initial(nblocks), before);
    var steps := [Begin(h)] + Loads(8) + Stores(8) + [Finish];
    assert Shape(s.bits, s.nblocks) && s.nblocks == nblocks && Shape(Initial(nblocks).bits, nblocks);
    RunConcat(Initial(nblocks), before, steps);
    WriterDone(s, h);
    QuiescentIsSequential(nblocks, before);
    QuiescentIsSequential(nblocks, before + steps);
    hide Run, InsertOne, Next;
    assert (s.done + [h])[..|s.done + [h]| - 1] == s.done;
  }

  lemma WriterDone(s: State, h: u64)
    requires Shape(s.bits, s.nblocks) && s.writer.Idle?
    ensures var s' := Run(s, [Begin(h)] + Loads(8) + Stores(8) + [Finish]);
            s'.writer.Idle? && s'.done == s.done + [h]
  {
    hide Run, BlockIndex, Mask, Or, Has;
    var s1 := Run(s, [Begin(h)]);
    assert s1 == Next(s, Begin(h)) by { OneStep(s, Begin(h)); }
    RunConcat(s, [Begin(h)], Loads(8));
    AfterLoads(s1, h, 8);
    var s2 := Run(s1, Loads(8));
    RunConcat(s, [Begin(h)] + Loads(8), Stores(8));
    AfterStores(s2, h, 8);
    RunSnoc(s, [Begin(h)] + Loads(8) + Stores(8), Finish);
  }

  lemma OneStep(s: State, a: Step)
    requires Shape(s.bits, s.nblocks)
    ensures Run(s, [a]) == Next(s, a)
  {
    assert [a][..0] == [];
    assert Run(s, []) == s;
  }

  // The lanes below `n` have been tested, on these bits.
  ghost predicate Answers(bits: seq<u32>, nblocks: nat, h: u64, tested: map<nat, bool>, n: nat)
    requires Shape(bits, nblocks) && BlockIndex(nblocks, h) < nblocks && n <= LANES
  {
    && UpTo(tested.Keys, n)
    && forall i: nat :: i < n ==> (tested[i] <==> Has(bits[LANES * BlockIndex(nblocks, h) + i], Mask(h, i)))
  }

  lemma AnswersNext(bits: seq<u32>, nblocks: nat, h: u64, tested: map<nat, bool>, n: nat)
    requires Shape(bits, nblocks) && BlockIndex(nblocks, h) < nblocks && n < LANES
    requires Answers(bits, nblocks, h, tested, n)
    ensures n !in tested
    ensures var hit := Has(bits[LANES * BlockIndex(nblocks, h) + n], Mask(h, n));
            Answers(bits, nblocks, h, tested[n := hit], n + 1)
  {
    hide BlockIndex, Has, Mask;
  }

  lemma NoAnswers(bits: seq<u32>, nblocks: nat, h: u64)
    requires Shape(bits, nblocks) && BlockIndex(nblocks, h) < nblocks
    ensures Answers(bits, nblocks, h, map[], 0)
  {}

  lemma {:induction false} AfterLooks(s: State, r: nat, h: u64, n: nat)
    requires Shape(s.bits, s.nblocks) && r in s.readers && s.readers[r].h == h && s.readers[r].tested == map[]
    requires n <= LANES && BlockIndex(s.nblocks, h) < s.nblocks
    ensures var s' := Run(s, Looks(r, n));
            && s'.bits == s.bits && r in s'.readers && s'.readers[r].h == h
            && Answers(s.bits, s.nblocks, h, s'.readers[r].tested, n)
  {
    hide Next, Run, Looks, Answers, BlockIndex, Mask, Has;
    if n == 0 {
      RunNone(s);
      NoLanes(r);
      NoAnswers(s.bits, s.nblocks, h);
    } else {
      AfterLooks(s, r, h, n - 1);
      NextLane(r, n);
      var before := Run(s, Looks(r, n - 1));
      AnswersNext(s.bits, s.nblocks, h, before.readers[r].tested, n - 1);
      RunSnoc(s, Looks(r, n - 1), Look(r, n - 1));
      LookStep(before, r, n - 1);
    }
  }

  // A reader that looks at its lanes undisturbed gets the answer of the sequential probe.
  lemma UndisturbedProbe(s: State, r: nat, h: u64)
    requires Shape(s.bits, s.nblocks)
    ensures var s' := Run(s, [Start(r, h)] + Looks(r, 8));
            && r in s'.readers && s'.readers[r].h == h
            && (forall i: nat :: i in s'.readers[r].tested <==> i < 8)
            && ((forall i: nat :: i < 8 ==> s'.readers[r].tested[i]) <==> Probe(s.bits, s.nblocks, h))
  {
    hide Run, BlockIndex, Mask, Or, Has, Written;
    BlockInRange(s.nblocks, h);
    OneStep(s, Start(r, h));
    var s1 := Run(s, [Start(r, h)]);
    RunConcat(s, [Start(r, h)], Looks(r, 8));
    AfterLooks(s1, r, h, 8);
  }

  // Why one writer only: a store computed from a load that precedes another writer's store
  // wipes the other writer's bit.
  lemma SecondWriterLosesUpdate(lane: u32, x: u64, y: u64, i: nat)
    requires i < LANES && Mask(x, i) != Mask(y, i) && !Has(lane, Mask(x, i))
    ensures Has(Or(lane, Mask(x, i)), Mask(x, i)) && !Has(Or(lane, Mask(y, i)), Mask(x, i))
  {
    hide Mask, Has, Or;
    OrHasMask(lane, x, x, i);
    OrHasMask(lane, y, x, i);
  }

  // The two halves of an insertion: loading the lanes of a block, and storing them with the bits
  // of the mask added.
  ghost function LoadBlock(bits: seq<u32>, nblocks: nat, h: u64): (loaded: seq<u32>)
    requires Shape(bits, nblocks)
    ensures |loaded| == LANES
  {
    BlockInRange(nblocks, h);
    seq(LANES, i requires 0 <= i < LANES => bits[LANES * BlockIndex(nblocks, h) + i])
  }

  function StoredLane(bits: seq<u32>, base: nat, h: u64, loaded: seq<u32>, j: nat): u32
    requires j < |bits| && |loaded| == LANES
  {
    if base <= j < base + LANES then Or(loaded[j - base], Mask(h, j - base)) else bits[j]
  }

  ghost function StoreBlock(bits: seq<u32>, nblocks: nat, h: u64, loaded: seq<u32>): (r: seq<u32>)
    requires Shape(bits, nblocks) && |loaded| == LANES
    ensures Shape(r, nblocks)
  {
    var base := LANES * BlockIndex(nblocks, h);
    seq(|bits|, j requires 0 <= j < |bits| => StoredLane(bits, base, h, loaded, j))
  }

  lemma LoadThenStore(bits: seq<u32>, nblocks: nat, h: u64)
    requires Shape(bits, nblocks)
    ensures StoreBlock(bits, nblocks, h, LoadBlock(bits, nblocks, h)) == InsertOne(bits, nblocks, h)
  {
    hide Mask, Or, BlockIndex;
    BlockInRange(nblocks, h);
  }

  // Two insertions that both load before either stores: in different blocks both take effect, but
  // in one block nothing is left of the one that stores first.
  lemma RacingWriters(bits: seq<u32>, nblocks: nat, x: u64, y: u64)
    requires Shape(bits, nblocks)
    ensures StoreBlock(StoreBlock(bits, nblocks, x, LoadBlock(bits, nblocks, x)), nblocks, y,
                       LoadBlock(bits, nblocks, y)) ==
            if BlockIndex(nblocks, x) == BlockIndex(nblocks, y) then InsertOne(bits, nblocks, y)
            else InsertOne(InsertOne(bits, nblocks, x), nblocks, y)
  {
    hide Mask, Or, BlockIndex;
    LoadThenStore(bits, nblocks, x);
    LoadThenStore(bits, nblocks, y);
    var first := InsertOne(bits, nblocks, x);
    LoadThenStore(first, nblocks, y);
    var loaded := LoadBlock(bits, nblocks, y);
    BlockInRange(nblocks, x);
    BlockInRange(nblocks, y);
    if BlockIndex(nblocks, x) == BlockIndex(nblocks, y) {
      assert StoreBlock(first, nblocks, y, loaded) == StoreBlock(bits, nblocks, y, loaded);
    } else {
      assert loaded == LoadBlock(first, nblocks, y);
    }
  }
}
