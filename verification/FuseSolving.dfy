/** The back-substitution of `binary_fuse8_populate`: fingerprints are assigned in the reverse
    of the peeling order, so that no assignment breaks an equation already established. */
module FuseSolving {
  import opened Words
  import opened FuseTable
  import opened FusePeeling

  // What `binary_fuse8_contain` tests for a hash.
  predicate Equation(F: seq<Byte>, p: Slots, f: Byte)
    requires p.In(|F|)
  {
    Xor(Xor(F[p.p0], F[p.p1]), F[p.p2]) == f
  }

  function Solved(F: seq<Byte>, p: Slots, found: nat, f: Byte): Byte
    requires p.In(|F|) && found < 3
  {
    Xor(Xor(f, F[Other(p, found, 1)]), F[Other(p, found, 2)])
  }

  lemma XorSolve(a: nat, b: nat, f: nat)
    ensures Xor(Xor(Xor(Xor(f, a), b), a), b) == f
  {
    XorAssoc(Xor(f, a), b, a);
    XorComm(b, a);
    XorAssoc(Xor(f, a), a, b);
    XorCancel(f, a);
    XorCancel(f, b);
  }

  lemma XorRotate(x: nat, a: nat, b: nat)
    ensures Xor(Xor(x, a), b) == Xor(Xor(b, x), a) == Xor(Xor(a, b), x)
  {
    XorAssoc(b, x, a);
    XorComm(b, Xor(x, a));
    XorAssoc(x, a, b);
    XorComm(x, Xor(a, b));
  }

  lemma SolvedHolds(F: seq<Byte>, p: Slots, found: nat, f: Byte)
    requires p.In(|F|) && found < 3
    ensures Equation(F[p.At(found) := Solved(F, p, found, f)], p, f)
  {
    hide Xor;
    var a, b, x := F[Other(p, found, 1)], F[Other(p, found, 2)], Solved(F, p, found, f);
    XorSolve(a, b, f);
    XorRotate(x, a, b);
  }

  ghost predicate AllHold(hf: SlotFn, fp: u64 -> Byte, F: seq<Byte>, stack: seq<u64>, from: nat)
    requires forall j :: 0 <= j < |stack| ==> hf(stack[j]).In(|F|)
  {
    forall j :: from <= j < |stack| ==> Equation(F, hf(stack[j]), fp(stack[j]))
  }

  // Every slot that is the pivot of no stacked hash keeps its fingerprint.
  ghost predicate OffPivots(hf: SlotFn, stack: seq<u64>, found: seq<nat>, before: seq<Byte>, F: seq<Byte>)
    requires PeelOrder(hf, stack, found)
  {
    && |before| == |F|
    && forall s :: 0 <= s < |F| && NoPivot(hf, stack, found, s) ==> F[s] == before[s]
  }

  ghost predicate NoPivot(hf: SlotFn, stack: seq<u64>, found: seq<nat>, s: nat)
    requires PeelOrder(hf, stack, found)
  {
    forall j :: 0 <= j < |stack| ==> Pivot(hf, stack, found, j) != s
  }

  lemma PivotStep(hf: SlotFn, stack: seq<u64>, found: seq<nat>, before: seq<Byte>, F: seq<Byte>, i: nat, x: Byte)
    requires PeelOrder(hf, stack, found) && i < |stack| && Pivot(hf, stack, found, i) < |F|
    requires OffPivots(hf, stack, found, before, F)
    ensures OffPivots(hf, stack, found, before, F[Pivot(hf, stack, found, i) := x])
  {}

  lemma SolveStep(hf: SlotFn, fp: u64 -> Byte, F: seq<Byte>, stack: seq<u64>, found: seq<nat>, i: nat)
    requires forall j :: 0 <= j < |stack| ==> hf(stack[j]).In(|F|)
    requires PeelOrder(hf, stack, found) && i < |stack|
    requires AllHold(hf, fp, F, stack, i + 1)
    ensures AllHold(hf, fp, F[Pivot(hf, stack, found, i) := Solved(F, hf(stack[i]), found[i], fp(stack[i]))],
                    stack, i)
  {
    hide Xor, Solved;
    SolvedHolds(F, hf(stack[i]), found[i], fp(stack[i]));
  }

  // `i--` on an unsigned 32-bit counter.
  function Decrement(i: u32): u32 {
    if i == 0 then TWO32 - 1 else i - 1
  }

  // One assignment, for the stack entry with hash `hash` and pivot position `found`.
  method SolveOne(p: Slots, found: nat, xor2: Byte, Fingerprints: array<Byte>)
    requires p.In(Fingerprints.Length) && found < 3
    modifies Fingerprints
    ensures Fingerprints[..] ==
            old(Fingerprints[..])[p.At(found) := Solved(old(Fingerprints[..]), p, found, xor2)]
  {
    hide Xor;
    var h012 := [p.p0, p.p1, p.p2, p.p0, p.p1];
    assert h012[found + 1] == Other(p, found, 1) && h012[found + 2] == Other(p, found, 2);
    Fingerprints[h012[found]] := Xor(Xor(xor2, Fingerprints[h012[found + 1]]), Fingerprints[h012[found + 2]]);
  }

  method BackSubstitute(hf: SlotFn, fp: u64 -> Byte, reverseOrder: array<u64>, reverseH: array<nat>,
                        size: u32, Fingerprints: array<Byte>)
    requires Good(hf, Fingerprints.Length)
    requires size <= reverseOrder.Length && size <= reverseH.Length
    requires PeelOrder(hf, reverseOrder[..size], reverseH[..size])
    modifies Fingerprints
    ensures AllHold(hf, fp, Fingerprints[..], reverseOrder[..size], 0)
    ensures OffPivots(hf, reverseOrder[..size], reverseH[..size], old(Fingerprints[..]), Fingerprints[..])
  {
    hide Xor, AllHold, Solved, OffPivots, PeelOrder;
    ghost var before := Fingerprints[..];
    ghost var stack, found := reverseOrder[..size], reverseH[..size];
    var i: u32 := Decrement(size);
    NoneHold(hf, fp, Fingerprints[..], stack);
    NothingWritten(hf, stack, found, before);
    while i < size
      invariant i < size || i == TWO32 - 1
      invariant AllHold(hf, fp, Fingerprints[..], stack, if i == TWO32 - 1 then 0 else i + 1)
      invariant OffPivots(hf, stack, found, before, Fingerprints[..])
      decreases if i == TWO32 - 1 then 0 else i + 1
    {
      var hash := reverseOrder[i];
      assert stack[i] == hash && found[i] == reverseH[i];
      SolveStep(hf, fp, Fingerprints[..], stack, found, i);
      OrderShape(hf, stack, found);
      PivotStep(hf, stack, found, before, Fingerprints[..], i,
                Solved(Fingerprints[..], hf(stack[i]), found[i], fp(stack[i])));
      SolveOne(hf(hash), reverseH[i], fp(hash), Fingerprints);
      i := Decrement(i);
    }
  }

  lemma OrderShape(hf: SlotFn, stack: seq<u64>, found: seq<nat>)
    requires PeelOrder(hf, stack, found)
    ensures |stack| == |found| && forall j :: 0 <= j < |found| ==> found[j] < 3
  {}

  lemma NothingWritten(hf: SlotFn, stack: seq<u64>, found: seq<nat>, F: seq<Byte>)
    requires PeelOrder(hf, stack, found)
    ensures OffPivots(hf, stack, found, F, F)
  {}

  lemma NoneHold(hf: SlotFn, fp: u64 -> Byte, F: seq<Byte>, stack: seq<u64>)
    requires forall j :: 0 <= j < |stack| ==> hf(stack[j]).In(|F|)
    ensures AllHold(hf, fp, F, stack, |stack|)
  {}

  // ---- The fingerprints are determined ------------------------------------------------------------

  // Agreement outside the pivots of the stack entries before `i`.
  ghost predicate AgreeFrom(hf: SlotFn, stack: seq<u64>, found: seq<nat>, F: seq<Byte>, G: seq<Byte>, i: nat)
    requires PeelOrder(hf, stack, found) && |F| == |G|
  {
    forall s :: 0 <= s < |F| && (forall j :: 0 <= j < i && j < |stack| ==> Pivot(hf, stack, found, j) != s) ==>
      F[s] == G[s]
  }

  lemma PivotDetermined(p: Slots, found: nat, F: seq<Byte>, G: seq<Byte>, f: Byte)
    requires found < 3 && p.In(|F|) && |F| == |G|
    requires Equation(F, p, f) && Equation(G, p, f)
    requires F[Other(p, found, 1)] == G[Other(p, found, 1)] && F[Other(p, found, 2)] == G[Other(p, found, 2)]
    ensures F[p.At(found)] == G[p.At(found)]
  {
    hide Xor;
    var a, b := F[Other(p, found, 1)], F[Other(p, found, 2)];
    var x, y := F[p.At(found)], G[p.At(found)];
    XorRotate(x, a, b);
    XorRotate(y, a, b);
    assert Xor(Xor(x, a), b) == f == Xor(Xor(y, a), b);
    XorCancel(Xor(x, a), b);
    XorCancel(Xor(y, a), b);
    XorCancel(x, a);
    XorCancel(y, a);
  }

  // One stack entry further down: the other two slots of its hash are pivots of no entry up to it.
  lemma AgreeStep(hf: SlotFn, fp: u64 -> Byte, stack: seq<u64>, found: seq<nat>, F: seq<Byte>, G: seq<Byte>, i: nat)
    requires PeelOrder(hf, stack, found) && |F| == |G| && i < |stack| && hf(stack[i]).In(|F|)
    requires Equation(F, hf(stack[i]), fp(stack[i])) && Equation(G, hf(stack[i]), fp(stack[i]))
    requires AgreeFrom(hf, stack, found, F, G, i + 1)
    ensures AgreeFrom(hf, stack, found, F, G, i)
  {
    hide Equation;
    var p, o1, o2 := hf(stack[i]), Other(hf(stack[i]), found[i], 1), Other(hf(stack[i]), found[i], 2);
    forall j | 0 <= j < i + 1
      ensures Pivot(hf, stack, found, j) != o1 && Pivot(hf, stack, found, j) != o2
    {
      assert p.Has(o1) && p.Has(o2);
    }
    PivotDetermined(p, found[i], F, G, fp(stack[i]));
  }

  lemma {:induction false} AgreeDown(hf: SlotFn, fp: u64 -> Byte, stack: seq<u64>, found: seq<nat>,
                                     F: seq<Byte>, G: seq<Byte>, i: nat)
    requires PeelOrder(hf, stack, found) && |F| == |G| && i <= |stack|
    requires forall j :: 0 <= j < |stack| ==> hf(stack[j]).In(|F|)
    requires AllHold(hf, fp, F, stack, 0) && AllHold(hf, fp, G, stack, 0)
    requires AgreeFrom(hf, stack, found, F, G, |stack|)
    ensures AgreeFrom(hf, stack, found, F, G, i)
    decreases |stack| - i
  {
    hide AgreeFrom, PeelOrder, Equation;
    if i < |stack| {
      AgreeDown(hf, fp, stack, found, F, G, i + 1);
      AgreeStep(hf, fp, stack, found, F, G, i);
    }
  }

  // Given the array before, the stack and its pivots leave no choice: there is only one array in
  // which all equations hold and no other slot has changed.
  lemma FingerprintsDetermined(hf: SlotFn, fp: u64 -> Byte, stack: seq<u64>, found: seq<nat>, before: seq<Byte>,
                               F: seq<Byte>, G: seq<Byte>)
    requires PeelOrder(hf, stack, found)
    requires forall j :: 0 <= j < |stack| ==> hf(stack[j]).In(|before|)
    requires OffPivots(hf, stack, found, before, F) && AllHold(hf, fp, F, stack, 0)
    requires OffPivots(hf, stack, found, before, G) && AllHold(hf, fp, G, stack, 0)
    ensures F == G
  {
    hide Equation;
    AgreeDown(hf, fp, stack, found, F, G, 0);
  }
}
