/** The counting pass of `binary_fuse8_populate`: packed counters, hash xors, and the removal
    of duplicate hashes on the fly. */
module FuseCounting {
  import opened Words
  import opened FuseTable

  ghost predicate Exact(hf: SlotFn, t: Table, n: nat, S: seq<u64>) {
    t.Shaped(n) && forall s :: 0 <= s < n ==> ExactAt(hf, t, S, s)
  }

  // No slot is touched so often that its six-bit counter has wrapped.
  ghost predicate Small(hf: SlotFn, n: nat, S: seq<u64>) {
    forall s :: 0 <= s < n ==> Sum(hf, S, s).count < 64
  }

  function AddHash(t: Table, p: Slots, h: u64): (t': Table)
    requires t.Shaped(|t.counts|) && p.In(|t.counts|)
    ensures t'.Shaped(|t.counts|)
  {
    t.Attach(p.p0, h, 0).Attach(p.p1, h, 1).Attach(p.p2, h, 2)
  }

  function DropHash(t: Table, p: Slots, h: u64): (t': Table)
    requires t.Shaped(|t.counts|) && p.In(|t.counts|)
    ensures t'.Shaped(|t.counts|)
  {
    t.Detach(p.p0, h, 0).Detach(p.p1, h, 1).Detach(p.p2, h, 2)
  }

  lemma AddedCell(t: Table, p: Slots, h: u64, s: nat)
    requires t.Shaped(|t.counts|) && p.In(|t.counts|) && s < |t.counts|
    ensures AddHash(t, p, h).At(s) ==
            if p.Has(s) then AttachCell(t.At(s), h, p.PositionOf(s)) else t.At(s)
  {}

  lemma DroppedCell(t: Table, p: Slots, h: u64, s: nat)
    requires t.Shaped(|t.counts|) && p.In(|t.counts|) && s < |t.counts|
    ensures DropHash(t, p, h).At(s) ==
            if p.Has(s) then DetachCell(t.At(s), h, p.PositionOf(s)) else t.At(s)
  {}

  lemma DetachUndoesAttach(c: Cell, h: u64, q: Position)
    ensures DetachCell(AttachCell(c, h, q), h, q) == c
  {
    var a := Tally(c.count / 4, c.count % 4, c.hash);
    assert Encode(a) == c;
    AttachEncodes(a, h, q);
    DetachEncodes(a, h, q);
  }

  lemma DropUndoesAdd(t: Table, p: Slots, h: u64)
    requires t.Shaped(|t.counts|) && p.In(|t.counts|)
    ensures DropHash(AddHash(t, p, h), p, h) == t
  {
    hide AttachCell, DetachCell, AddHash, DropHash;
    var t' := DropHash(AddHash(t, p, h), p, h);
    forall s | 0 <= s < |t.counts|
      ensures t'.At(s) == t.At(s)
    {
      AddedCell(t, p, h, s);
      DroppedCell(AddHash(t, p, h), p, h, s);
      if p.Has(s) {
        DetachUndoesAttach(t.At(s), h, p.PositionOf(s));
      }
    }
    SameCells(t', t);
  }

  lemma SameCells(t: Table, t': Table)
    requires t.Shaped(|t.counts|) && t'.Shaped(|t.counts|)
    requires forall s :: 0 <= s < |t.counts| ==> t.At(s) == t'.At(s)
    ensures t == t'
  {
    forall s | 0 <= s < |t.counts|
      ensures t.counts[s] == t'.counts[s] && t.hashes[s] == t'.hashes[s]
    {
      assert t.At(s) == t'.At(s);
    }
  }

  lemma SumSnoc(hf: SlotFn, S: seq<u64>, h: u64, s: nat)
    ensures Sum(hf, S + [h], s) == Plus(Sum(hf, S, s), One(hf, h, s))
  {
    assert (S + [h])[..|S + [h]| - 1] == S;
  }

  lemma AddExact(hf: SlotFn, t: Table, n: nat, S: seq<u64>, h: u64)
    requires Good(hf, n) && Exact(hf, t, n, S)
    ensures Exact(hf, AddHash(t, hf(h), h), n, S + [h])
  {
    forall s | 0 <= s < n
      ensures ExactAt(hf, AddHash(t, hf(h), h), S + [h], s)
    {
      assert ExactAt(hf, t, S, s);
      AddedCell(t, hf(h), h, s);
      SumSnoc(hf, S, h, s);
      if hf(h).Has(s) {
        AttachEncodes(Sum(hf, S, s), h, hf(h).PositionOf(s));
      } else {
        PlusZero(Sum(hf, S, s));
      }
    }
  }

  // ---- Duplicates -------------------------------------------------------------------------

  predicate Doubled(c: Cell) {
    c.hash == 0 && c.count == 8
  }

  lemma DoubledMeansPresent(hf: SlotFn, S: seq<u64>, h: u64, s: nat)
    requires Sum(hf, S, s).count < 64 && hf(h).Has(s)
    requires Doubled(Encode(Sum(hf, S + [h], s)))
    ensures h in S
  {
    hide BitXor, Sum;
    SumSnoc(hf, S, h, s);
    var c := Sum(hf, S, s).count;
    assert (c + 1) % 64 == 2;
    var k := OnlyToucher(hf, S, s);
    XorEqual(S[k], h);
  }

  // Another hash than `h` touches the slot.
  ghost predicate TouchedByOther(hf: SlotFn, S: seq<u64>, h: u64, s: nat) {
    exists k :: 0 <= k < |S| && S[k] != h && hf(S[k]).Has(s)
  }

  // What the detection of duplicates guarantees: a hash is represented twice only if each of
  // its slots is touched by another hash as well.
  ghost predicate Shared(hf: SlotFn, S: seq<u64>) {
    forall h: u64, s: nat :: multiset(S)[h] >= 2 && hf(h).Has(s) ==> TouchedByOther(hf, S, h, s)
  }

  lemma SecondCopyDoubles(hf: SlotFn, S: seq<u64>, h: u64, s: nat)
    requires hf(h).Has(s) && !TouchedByOther(hf, S, h, s) && multiset(S)[h] == 1
    ensures Doubled(Encode(Sum(hf, S + [h], s)))
  {
    hide Sum, Xor;
    TouchedByOne(hf, S, s, h);
    SumSnoc(hf, S, h, s);
    var k := OnlyToucher(hf, S, s);
    assert S[k] == h;
    XorSelf(hf(h).PositionOf(s));
    XorSelf(h);
  }

  predicate SomeDoubled(t: Table, p: Slots)
    requires t.Shaped(|t.counts|) && p.In(|t.counts|)
  {
    Doubled(t.At(p.p0)) || Doubled(t.At(p.p1)) || Doubled(t.At(p.p2))
  }

  function CountStep(t: Table, p: Slots, h: u64): (t': Table)
    requires t.Shaped(|t.counts|) && p.In(|t.counts|)
    ensures t'.Shaped(|t.counts|)
  {
    var added := AddHash(t, p, h);
    if SomeDoubled(added, p) then DropHash(added, p, h) else added
  }

  predicate Overflowed(t: Table, p: Slots)
    requires t.Shaped(|t.counts|) && p.In(|t.counts|)
  {
    t.counts[p.p0] < 4 || t.counts[p.p1] < 4 || t.counts[p.p2] < 4
  }

  // What the tables stand for after counting `seen`: a list S with the same elements, short
  // of one copy per detected duplicate.
  ghost predicate Counted(hf: SlotFn, t: Table, n: nat, seen: seq<u64>, S: seq<u64>, duplicates: nat) {
    && Exact(hf, t, n, S)
    && Small(hf, n, S)
    && |S| + duplicates == |seen|
    && (forall h :: h in S <==> h in seen)
    && multiset(S) <= multiset(seen)
    && Shared(hf, S)
    && (duplicates > 0 ==> exists a, b :: 0 <= a < b < |seen| && seen[a] == seen[b])
  }

  ghost predicate Crowded(hf: SlotFn, n: nat, S: seq<u64>) {
    exists s :: 0 <= s < n && Sum(hf, S, s).count >= 64
  }

  // Why counting fails: hashes of `seen`, copies that the code removes not included, crowd a slot.
  ghost predicate Overfull(hf: SlotFn, n: nat, seen: seq<u64>, S: seq<u64>) {
    multiset(S) <= multiset(seen) && Shared(hf, S) && Crowded(hf, n, S)
  }

  lemma DetectedIn(hf: SlotFn, t: Table, S: seq<u64>, h: u64, s: nat)
    requires t.Shaped(|t.counts|) && hf(h).In(|t.counts|) && hf(h).Has(s)
    requires ExactAt(hf, t, S + [h], s)
    requires !TouchedByOther(hf, S, h, s) && multiset(S)[h] == 1
    ensures SomeDoubled(t, hf(h))
  {
    hide Sum;
    SecondCopyDoubles(hf, S, h, s);
  }

  // Adding a hash that is not detected as a duplicate keeps `Shared`.
  lemma UndetectedShares(hf: SlotFn, t: Table, n: nat, S: seq<u64>, h: u64)
    requires Good(hf, n) && Exact(hf, t, n, S) && Shared(hf, S)
    requires hf(h).In(n) && !SomeDoubled(AddHash(t, hf(h), h), hf(h))
    ensures Shared(hf, S + [h])
  {
    hide AddHash, Sum;
    var S' := S + [h];
    AddExact(hf, t, n, S, h);
    forall x: u64, s: nat | multiset(S')[x] >= 2 && hf(x).Has(s)
      ensures TouchedByOther(hf, S', x, s)
    {
      if TouchedByOther(hf, S, x, s) {
        var k :| 0 <= k < |S| && S[k] != x && hf(S[k]).Has(s);
        assert S'[k] == S[k];
      } else {
        assert x == h && multiset(S)[h] == 1;
        DetectedIn(hf, AddHash(t, hf(h), h), S, h, s);
        assert false;
      }
    }
  }

  lemma SumBound(hf: SlotFn, S: seq<u64>, h: u64, s: nat)
    ensures Sum(hf, S + [h], s).count == Sum(hf, S, s).count + if hf(h).Has(s) then 1 else 0
  {
    SumSnoc(hf, S, h, s);
  }

  lemma PresentTouches(hf: SlotFn, S: seq<u64>, h: u64, s: nat)
    requires h in S && hf(h).Has(s)
    ensures Sum(hf, S, s).count > 0
  {
    Untouched(hf, S, s);
  }

  // A counter byte below 4 after its slot was touched: 64 hashes share the slot.
  lemma OverflowMeansFull(hf: SlotFn, t: Table, n: nat, S: seq<u64>, s: nat)
    requires Exact(hf, t, n, S) && s < n
    requires 0 < Sum(hf, S, s).count <= 64
    ensures t.counts[s] < 4 <==> Sum(hf, S, s).count == 64
  {
    hide Sum;
    assert ExactAt(hf, t, S, s);
  }

  lemma DuplicatePresent(hf: SlotFn, t: Table, n: nat, S: seq<u64>, h: u64)
    requires Good(hf, n) && Exact(hf, t, n, S) && Small(hf, n, S)
    requires hf(h).In(n) && SomeDoubled(AddHash(t, hf(h), h), hf(h))
    ensures h in S
  {
    hide AddHash, Sum;
    var p, added := hf(h), AddHash(t, hf(h), h);
    AddExact(hf, t, n, S, h);
    var s := if Doubled(added.At(p.p0)) then p.p0 else if Doubled(added.At(p.p1)) then p.p1 else p.p2;
    assert ExactAt(hf, added, S + [h], s);
    DoubledMeansPresent(hf, S, h, s);
  }

  lemma CountStepDuplicate(hf: SlotFn, t: Table, n: nat, seen: seq<u64>, S: seq<u64>,
                           duplicates: nat, h: u64)
    requires Good(hf, n) && Counted(hf, t, n, seen, S, duplicates)
    requires hf(h).In(n) && SomeDoubled(AddHash(t, hf(h), h), hf(h))
    ensures CountStep(t, hf(h), h) == t
    ensures Counted(hf, t, n, seen + [h], S, duplicates + 1)
    ensures !Overflowed(t, hf(h))
  {
    hide AddHash, DropHash, Sum;
    var p, seen' := hf(h), seen + [h];
    DropUndoesAdd(t, p, h);
    DuplicatePresent(hf, t, n, S, h);
    forall s | 0 <= s < n
      ensures p.Has(s) ==> t.counts[s] >= 4
    {
      if p.Has(s) {
        PresentTouches(hf, S, h, s);
        OverflowMeansFull(hf, t, n, S, s);
      }
    }
    var a :| 0 <= a < |seen| && seen[a] == h;
    assert seen'[a] == seen'[|seen|];
  }

  lemma CountStepFresh(hf: SlotFn, t: Table, n: nat, seen: seq<u64>, S: seq<u64>,
                       duplicates: nat, h: u64)
    requires Good(hf, n) && Counted(hf, t, n, seen, S, duplicates)
    requires hf(h).In(n) && !SomeDoubled(AddHash(t, hf(h), h), hf(h))
    ensures !Overflowed(CountStep(t, hf(h), h), hf(h)) ==>
              Counted(hf, CountStep(t, hf(h), h), n, seen + [h], S + [h], duplicates)
    ensures Overflowed(CountStep(t, hf(h), h), hf(h)) ==> Overfull(hf, n, seen + [h], S + [h])
  {
    hide AddHash, Sum;
    var p, t', S', seen' := hf(h), AddHash(t, hf(h), h), S + [h], seen + [h];
    AddExact(hf, t, n, S, h);
    UndetectedShares(hf, t, n, S, h);
    forall s | 0 <= s < n
      ensures p.Has(s) ==> (t'.counts[s] < 4 <==> Sum(hf, S', s).count == 64)
      ensures Sum(hf, S', s).count < 64 || (p.Has(s) && t'.counts[s] < 4)
    {
      SumBound(hf, S, h, s);
      if p.Has(s) {
        OverflowMeansFull(hf, t', n, S', s);
      }
    }
    if duplicates > 0 {
      var a, b :| 0 <= a < b < |seen| && seen[a] == seen[b];
      assert seen'[a] == seen'[b];
    }
  }

  lemma OverfullGrows(hf: SlotFn, n: nat, seen: seq<u64>, S: seq<u64>, h: u64)
    requires Overfull(hf, n, seen, S)
    ensures Overfull(hf, n, seen + [h], S)
  {}

  // ---- The pass as a function ---------------------------------------------------------------

  // The tables, the number of detected duplicates and whether some slot overflowed.  `represented`
  // is the list the tables stand for, up to the hash that made a slot overflow.
  datatype Counting = Counting(table: Table, represented: seq<u64>, duplicates: nat, overflowed: bool) {
    predicate Reads(t: Table, d: nat, o: bool) {
      table == t && duplicates == d && overflowed == o
    }
  }

  function ZeroTable(n: nat): (t: Table)
    ensures t.Shaped(n)
  {
    Table(seq(n, _ => 0), seq(n, _ => 0))
  }

  ghost function CountAll(hf: SlotFn, n: nat, hs: seq<u64>): (c: Counting)
    requires Good(hf, n)
    ensures c.table.Shaped(n) && c.duplicates <= |hs|
  {
    if hs == [] then Counting(ZeroTable(n), [], 0, false)
    else CountMore(hf, n, CountAll(hf, n, hs[..|hs| - 1]), hs[|hs| - 1])
  }

  ghost function CountMore(hf: SlotFn, n: nat, c: Counting, h: u64): (c': Counting)
    requires Good(hf, n) && c.table.Shaped(n)
    ensures c'.table.Shaped(n) && c'.duplicates <= c.duplicates + 1
  {
    assert hf(h).In(n);
    var duplicate := SomeDoubled(AddHash(c.table, hf(h), h), hf(h));
    var table := CountStep(c.table, hf(h), h);
    Counting(table,
             if c.overflowed || duplicate then c.represented else c.represented + [h],
             c.duplicates + if duplicate then 1 else 0,
             c.overflowed || Overflowed(table, hf(h)))
  }

  lemma CountNone(hf: SlotFn, n: nat)
    requires Good(hf, n)
    ensures CountAll(hf, n, []) == Counting(ZeroTable(n), [], 0, false)
  {}

  lemma CountNext(hf: SlotFn, n: nat, hs: seq<u64>, h: u64)
    requires Good(hf, n) && hf(h).In(n)
    ensures CountAll(hf, n, hs + [h]) == CountMore(hf, n, CountAll(hf, n, hs), h)
  {
    assert (hs + [h])[..|hs + [h]| - 1] == hs;
  }

  lemma InRange(hf: SlotFn, n: nat, h: u64)
    requires Good(hf, n)
    ensures hf(h).In(n)
  {}

  lemma CountMoreReads(hf: SlotFn, n: nat, c: Counting, h: u64, t: Table, d: nat, o: bool)
    requires Good(hf, n) && hf(h).In(n) && t.Shaped(n) && c.Reads(t, d, o)
    ensures c.table.Shaped(n)
    ensures var duplicate := SomeDoubled(AddHash(t, hf(h), h), hf(h));
            var t' := CountStep(t, hf(h), h);
            CountMore(hf, n, c, h).Reads(t', d + if duplicate then 1 else 0, o || Overflowed(t', hf(h)))
  {
    hide CountStep, AddHash, Overflowed, SomeDoubled;
  }

  // What the pass computes: without overflow the represented list stands for all hashes, an
  // overflow means that the represented list crowds a slot.
  lemma {:induction false} CountAllMeaning(hf: SlotFn, n: nat, hs: seq<u64>)
    requires Good(hf, n)
    ensures var c := CountAll(hf, n, hs);
            if c.overflowed then Overfull(hf, n, hs, c.represented)
            else Counted(hf, c.table, n, hs, c.represented, c.duplicates)
  {
    hide Counted, Overfull, CountStep, AddHash, Overflowed, SomeDoubled;
    if hs == [] {
      NothingCounted(hf, ZeroTable(n), n);
    } else {
      var seen, h := hs[..|hs| - 1], hs[|hs| - 1];
      var c := CountAll(hf, n, seen);
      assert hs == seen + [h] && hf(h).In(n);
      CountAllMeaning(hf, n, seen);
      if c.overflowed {
        OverfullGrows(hf, n, seen, c.represented, h);
      } else if SomeDoubled(AddHash(c.table, hf(h), h), hf(h)) {
        CountStepDuplicate(hf, c.table, n, seen, c.represented, c.duplicates, h);
      } else {
        CountStepFresh(hf, c.table, n, seen, c.represented, c.duplicates, h);
      }
    }
  }

  // The error is raised exactly when the represented list crowds a slot.
  lemma OverflowIffCrowded(hf: SlotFn, n: nat, hs: seq<u64>)
    requires Good(hf, n)
    ensures var c := CountAll(hf, n, hs);
            c.overflowed <==> Crowded(hf, n, c.represented)
  {
    hide Exact, Shared, CountAll, Sum;
    CountAllMeaning(hf, n, hs);
  }

  // ---- The imperative pass ------------------------------------------------------------------

  function View(t2count: array<Byte>, t2hash: array<u64>): Table
    reads t2count, t2hash
  {
    Table(t2count[..], t2hash[..])
  }

  // `t2count[s] += 4; t2count[s] ^= q; t2hash[s] ^= hash`
  method AttachAt(t2count: array<Byte>, t2hash: array<u64>, s: nat, hash: u64, q: Position)
    requires t2count.Length == t2hash.Length && s < t2count.Length
    modifies t2count, t2hash
    ensures View(t2count, t2hash) == old(View(t2count, t2hash)).Attach(s, hash, q)
  {
    var count: nat := t2count[s];
    t2count[s] := Xor((count + 4) % 256, q);
    t2hash[s] := Xor(t2hash[s], hash);
  }

  // `t2count[s] -= 4; t2count[s] ^= q; t2hash[s] ^= hash`
  method DetachAt(t2count: array<Byte>, t2hash: array<u64>, s: nat, hash: u64, q: Position)
    requires t2count.Length == t2hash.Length && s < t2count.Length
    modifies t2count, t2hash
    ensures View(t2count, t2hash) == old(View(t2count, t2hash)).Detach(s, hash, q)
  {
    var count: nat := t2count[s];
    t2count[s] := Xor((count + 252) % 256, q);
    t2hash[s] := Xor(t2hash[s], hash);
  }

  // One iteration of the counting loop.
  method CountOne(hf: SlotFn, hash: u64, t2count: array<Byte>, t2hash: array<u64>)
    returns (duplicate: bool, overflow: bool)
    requires t2count.Length == t2hash.Length && hf(hash).In(t2count.Length)
    modifies t2count, t2hash
    ensures View(t2count, t2hash) == CountStep(old(View(t2count, t2hash)), hf(hash), hash)
    ensures duplicate == SomeDoubled(AddHash(old(View(t2count, t2hash)), hf(hash), hash), hf(hash))
    ensures overflow == Overflowed(View(t2count, t2hash), hf(hash))
  {
    hide AttachCell, DetachCell, And, Doubled;
    var p := hf(hash);
    AttachAt(t2count, t2hash, p.p0, hash, 0);
    AttachAt(t2count, t2hash, p.p1, hash, 1);
    AttachAt(t2count, t2hash, p.p2, hash, 2);
    assert View(t2count, t2hash) == AddHash(old(View(t2count, t2hash)), p, hash);
    duplicate := false;
    FilterIsHarmless(View(t2count, t2hash), p);
    if And(And(t2hash[p.p0], t2hash[p.p1]), t2hash[p.p2]) == 0 {
      if (t2hash[p.p0] == 0 && t2count[p.p0] == 8) || (t2hash[p.p1] == 0 && t2count[p.p1] == 8)
         || (t2hash[p.p2] == 0 && t2count[p.p2] == 8) {
        duplicate := true;
        DetachAt(t2count, t2hash, p.p0, hash, 0);
        DetachAt(t2count, t2hash, p.p1, hash, 1);
        DetachAt(t2count, t2hash, p.p2, hash, 2);
      }
    }
    overflow := t2count[p.p0] < 4 || t2count[p.p1] < 4 || t2count[p.p2] < 4;
  }

  // The test of the three hashes together passes whenever one of them is zero.
  lemma FilterIsHarmless(t: Table, p: Slots)
    requires t.Shaped(|t.counts|) && p.In(|t.counts|)
    ensures (And(And(t.hashes[p.p0], t.hashes[p.p1]), t.hashes[p.p2]) == 0 &&
             ((t.hashes[p.p0] == 0 && t.counts[p.p0] == 8) || (t.hashes[p.p1] == 0 && t.counts[p.p1] == 8)
              || (t.hashes[p.p2] == 0 && t.counts[p.p2] == 8)))
            <==> SomeDoubled(t, p)
  {
    hide And;
    AndZero(And(t.hashes[p.p0], t.hashes[p.p1]));
    AndZero(t.hashes[p.p0]);
    AndZero(t.hashes[p.p1]);
    AndZero(t.hashes[p.p2]);
  }

  lemma NothingCounted(hf: SlotFn, t: Table, n: nat)
    requires t.Shaped(n) && forall s :: 0 <= s < n ==> t.counts[s] == 0 && t.hashes[s] == 0
    ensures Counted(hf, t, n, [], [], 0)
  {}

  method CountHashes(hf: SlotFn, reverseOrder: array<u64>, size: nat, t2count: array<Byte>,
                     t2hash: array<u64>)
    returns (error: bool, duplicates: nat)
    requires size <= reverseOrder.Length
    requires t2count.Length == t2hash.Length && Good(hf, t2count.Length)
    requires reverseOrder != t2hash
    requires forall s :: 0 <= s < t2count.Length ==> t2count[s] == 0 && t2hash[s] == 0
    modifies t2count, t2hash
    ensures CountAll(hf, t2count.Length, reverseOrder[..size]).Reads(View(t2count, t2hash), duplicates, error)
  {
    error, duplicates := false, 0;
    ghost var n := t2count.Length;
    assert reverseOrder[..0] == [];
    assert View(t2count, t2hash) == ZeroTable(n);
    CountNone(hf, n);
    hide *;
    for i := 0 to size
      invariant CountAll(hf, n, reverseOrder[..i]).Reads(View(t2count, t2hash), duplicates, error)
    {
      ghost var seen, t := reverseOrder[..i], View(t2count, t2hash);
      var hash := reverseOrder[i];
      assert reverseOrder[..i + 1] == seen + [hash];
      InRange(hf, n, hash);
      CountNext(hf, n, seen, hash);
      CountMoreReads(hf, n, CountAll(hf, n, seen), hash, t, duplicates, error);
      var duplicate, overflow := CountOne(hf, hash, t2count, t2hash);
      duplicates := if duplicate then duplicates + 1 else duplicates;
      error := if overflow then true else error;
    }
  }
}
