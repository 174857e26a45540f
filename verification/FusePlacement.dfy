/** The bucket placement of `binary_fuse8_populate`: every hash goes to the next free cell
    of its segment, probing the following segments cyclically while the pointed-to cell
    is taken. */
module FusePlacement {
  import opened Words

  // ---- The probing invariant ------------------------------------------------------------

  // `written` is the set of cells some segment pointer has moved past.  Cell 0 is written
  // or still pointed at by segment 0, and so is every cell next to a written one.
  ghost predicate Placing(cells: seq<u64>, ptr: seq<nat>, written: set<nat>, size: nat, count: nat) {
    && |ptr| > 0
    && size < |cells|
    && cells[|cells| - 1] != 0
    && (forall g :: 0 <= g < |ptr| ==> ptr[g] < |cells|)
    && (0 in written || ptr[0] == 0)
    && (forall p :: p in written ==> p + 1 in written || p + 1 in ptr)
    && |written| <= count
    && (forall p :: 0 <= p < size && p !in written ==> cells[p] == 0)
  }

  // With a non-zero cell at index `size`, no pointer ever moves past it.
  ghost predicate Guarded(cells: seq<u64>, ptr: seq<nat>, size: nat) {
    size < |cells| && cells[size] != 0 && forall g :: 0 <= g < |ptr| ==> ptr[g] <= size
  }

  lemma LeastMissing(s: set<nat>) returns (p: nat)
    ensures p <= |s| && p !in s
    ensures forall x :: 0 <= x < p ==> x in s
  {
    p := 0;
    while p in s
      invariant forall x :: 0 <= x < p ==> x in s
      decreases |s| - p
    {
      p := p + 1;
      assert Below(p) <= s;
      SubsetSize(Below(p), s);
    }
    assert Below(p) <= s;
    SubsetSize(Below(p), s);
  }

  // The least cell that no pointer has passed is always some segment's current pointer.
  lemma SomeSegmentIsFree(cells: seq<u64>, ptr: seq<nat>, written: set<nat>, size: nat, count: nat)
    returns (g: nat)
    requires Placing(cells, ptr, written, size, count)
    requires count < size
    ensures g < |ptr| && ptr[g] < size && cells[ptr[g]] == 0
  {
    var p := LeastMissing(written);
    if p == 0 {
      g := 0;
    } else {
      assert p - 1 in written;
      g :| 0 <= g < |ptr| && ptr[g] == p;
    }
  }

  lemma PlacingStep(cells: seq<u64>, ptr: seq<nat>, written: set<nat>, size: nat, count: nat,
                    seg: nat, h: u64)
    requires Placing(cells, ptr, written, size, count)
    requires seg < |ptr| && cells[ptr[seg]] == 0
    ensures Placing(cells[ptr[seg] := h], ptr[seg := ptr[seg] + 1], written + {ptr[seg]}, size, count + 1)
  {
    var pos := ptr[seg];
    assert pos < |cells| - 1;
    var written', ptr' := written + {pos}, ptr[seg := pos + 1];
    forall p | p in written'
      ensures p + 1 in written' || p + 1 in ptr'
    {
      if p == pos {
        assert ptr'[seg] == p + 1;
      } else if p + 1 !in written' {
        var g :| 0 <= g < |ptr| && ptr[g] == p + 1;
        assert ptr'[g] == p + 1;
      }
    }
  }

  // ---- Which hashes end up in the first `size` cells ------------------------------------

  function Zeros(n: nat): multiset<u64> {
    multiset{}[0 := n]
  }

  // Every placed hash is either among the first `size` cells or was spilled past them;
  // a hash that is itself zero leaves its cell looking free.
  ghost predicate Accounted(before: seq<u64>, cells: seq<u64>, size: nat, placed: seq<u64>,
                            spill: multiset<u64>)
  {
    && size < |cells| == |before|
    && |placed| <= size
    && multiset(cells[..size]) + spill == multiset(placed) + Zeros(size - |placed| + |spill|)
    && 0 !in spill
    && (spill == multiset{} ==> cells[size..] == before[size..])
    && (spill != multiset{} ==>
          exists p :: size <= p < |cells| && before[p] == 0 && cells[p] != 0)
    && (forall p :: size <= p < |cells| && cells[p] != before[p] ==> before[p] == 0)
  }

  lemma AccountedStart(cells: seq<u64>, size: nat)
    requires size < |cells|
    requires forall p :: 0 <= p < size ==> cells[p] == 0
    ensures Accounted(cells, cells, size, [], multiset{})
  {
    AllZeros(cells[..size]);
  }

  lemma {:induction false} AllZeros(s: seq<u64>)
    requires forall p :: 0 <= p < |s| ==> s[p] == 0
    ensures multiset(s) == Zeros(|s|)
  {
    if s != [] {
      var n := |s| - 1;
      AllZeros(s[..n]);
      assert s == s[..n] + [0];
    }
  }

  lemma OneFewerZero(M: multiset<u64>, spill: multiset<u64>, placed: seq<u64>, h: u64, d: nat)
    requires M + spill == multiset(placed) + Zeros(d + 1)
    requires 0 in M
    ensures M - multiset{0} + multiset{h} + spill == multiset(placed + [h]) + Zeros(d)
  {
    var P, P' := multiset(placed), multiset(placed + [h]);
    forall x: u64
      ensures (M - multiset{0} + multiset{h} + spill)[x] == (P' + Zeros(d))[x]
    {
      assert (M + spill)[x] == (P + Zeros(d + 1))[x];
    }
  }

  lemma AccountedInside(before: seq<u64>, cells: seq<u64>, size: nat, placed: seq<u64>,
                        spill: multiset<u64>, pos: nat, h: u64)
    requires Accounted(before, cells, size, placed, spill)
    requires |placed| < size && pos < size && cells[pos] == 0
    ensures Accounted(before, cells[pos := h], size, placed + [h], spill)
  {
    var cells' := cells[pos := h];
    assert cells'[..size] == cells[..size][pos := h];
    assert cells'[size..] == cells[size..];
    assert forall p :: size <= p < |cells| ==> cells'[p] == cells[p];
    assert cells[..size][pos] == 0;
    OneFewerZero(multiset(cells[..size]), spill, placed, h, size - |placed| - 1 + |spill|);
  }

  lemma AccountedOutside(before: seq<u64>, cells: seq<u64>, size: nat, placed: seq<u64>,
                         spill: multiset<u64>, pos: nat, h: u64)
    requires Accounted(before, cells, size, placed, spill)
    requires |placed| < size <= pos < |cells| && cells[pos] == 0
    requires h != 0
    ensures Accounted(before, cells[pos := h], size, placed + [h], spill + multiset{h})
  {
    var cells', spill' := cells[pos := h], spill + multiset{h};
    assert cells'[..size] == cells[..size];
    assert size - |placed| + |spill| == size - |placed + [h]| + |spill'|;
    assert multiset(placed + [h]) == multiset(placed) + multiset{h};
    var M, Z := multiset(cells[..size]), Zeros(size - |placed| + |spill|);
    assert M + spill' == (M + spill) + multiset{h};
    assert multiset(placed) + Z + multiset{h} == multiset(placed + [h]) + Z;
    assert forall p :: size <= p < |cells| && cells[p] != 0 ==> cells'[p] != 0;
    assert before[pos] == 0 && cells'[pos] != 0;
    assert h in spill';
  }

  lemma AccountedZero(before: seq<u64>, cells: seq<u64>, size: nat, placed: seq<u64>,
                      spill: multiset<u64>, pos: nat)
    requires Accounted(before, cells, size, placed, spill)
    requires |placed| < size && pos < |cells| && cells[pos] == 0
    ensures Accounted(before, cells[pos := 0], size, placed + [0], spill)
  {
    assert cells[pos := 0] == cells;
    var M, d := multiset(cells[..size]), size - |placed| - 1 + |spill|;
    assert (M + spill)[0] == (multiset(placed) + Zeros(d + 1))[0];
    OneFewerZero(M, spill, placed, 0, d);
    assert M - multiset{0} + multiset{0} == M;
  }

  // The first `size` cells are a permutation of the placed hashes exactly when no cell
  // from `size` on was changed.
  lemma PermutationIffNoSpill(before: seq<u64>, cells: seq<u64>, placed: seq<u64>,
                              spill: multiset<u64>)
    requires Accounted(before, cells, |placed|, placed, spill)
    ensures multiset(cells[..|placed|]) == multiset(placed) <==>
            cells[|placed|..] == before[|placed|..]
  {
    var M, H := multiset(cells[..|placed|]), multiset(placed);
    if spill == multiset{} {
      assert Zeros(0) == multiset{};
      assert M + spill == M && H + Zeros(0) == H;
    } else {
      var p :| |placed| <= p < |cells| && before[p] == 0 && cells[p] != 0;
      assert cells[|placed|..][p - |placed|] != before[|placed|..][p - |placed|];
      assert (M + spill)[0] == (H + Zeros(|spill|))[0];
    }
  }

  // ---- The imperative pass ---------------------------------------------------------------

  // The product is truncated to 32 bits before it is shifted.
  function StartPosition(i: nat, size: u32, blockBits: nat): nat {
    Shr(i * size % TWO32, blockBits)
  }

  lemma StartInRange(i: nat, size: u32, blockBits: nat)
    requires i < Pow2(blockBits)
    ensures StartPosition(i, size, blockBits) <= size
  {
    hide Shr, Pow2;
    var product, b := i * size, Pow2(blockBits);
    ShrLow(product % TWO32, blockBits);
    MulMono(i, b, size);
    QuotientBound(StartPosition(i, size, blockBits), b, product % TWO32, size);
  }

  lemma QuotientBound(s: nat, b: nat, x: nat, size: nat)
    requires b > 0 && s * b <= x <= b * size
    ensures s <= size
  {
    assert s * b < (size + 1) * b by {
      assert (size + 1) * b == b * size + b;
    }
    MulLess(s, size + 1, b);
  }

  method FillStartPos(startPos: array<nat>, size: u32, blockBits: nat)
    requires startPos.Length == Pow2(blockBits)
    modifies startPos
    ensures forall i :: 0 <= i < startPos.Length ==> startPos[i] == StartPosition(i, size, blockBits)
  {
    for i := 0 to startPos.Length
      invariant forall k :: 0 <= k < i ==> startPos[k] == StartPosition(k, size, blockBits)
    {
      startPos[i] := Shr(i * size % TWO32, blockBits);
    }
  }

  lemma SegmentInRange(hash: u64, blockBits: nat)
    requires blockBits <= 64
    ensures Shr(hash, 64 - blockBits) < Pow2(blockBits)
  {
    Pow2Values();
    ShrBelow(hash, 64 - blockBits, blockBits);
  }

  // ---- The probe of one hash -----------------------------------------------------------------

  // Pointers to existing cells, the last of which is taken.
  ghost predicate Bounded(cells: seq<u64>, ptr: seq<nat>) {
    && |ptr| > 0 && |cells| > 0 && cells[|cells| - 1] != 0
    && forall g :: 0 <= g < |ptr| ==> ptr[g] < |cells|
  }

  // `segment_index++; segment_index &= maskblock`
  function NextSegment(seg: nat, n: nat): nat
    requires seg < n
  {
    (seg + 1) % n
  }

  lemma NextSegmentIs(seg: nat, n: nat)
    requires seg < n
    ensures NextSegment(seg, n) == if seg + 1 == n then 0 else seg + 1
  {}

  // How many segments a probe at `seg` is away from `free`.
  function Distance(seg: nat, free: nat, n: nat): nat
    requires seg < n
  {
    if seg <= free then free - seg else free + n - seg
  }

  // Where a probe from `seg` stops: at the next segment, cyclically, with a free cell.
  ghost function ProbeFrom(cells: seq<u64>, ptr: seq<nat>, seg: nat, steps: nat): (r: nat)
    requires Bounded(cells, ptr) && seg < |ptr|
    ensures r < |ptr|
    decreases steps
  {
    NextSegmentIs(seg, |ptr|);
    if steps == 0 || cells[ptr[seg]] == 0 then seg else ProbeFrom(cells, ptr, NextSegment(seg, |ptr|), steps - 1)
  }

  datatype Placement = Placement(cells: seq<u64>, ptr: seq<nat>)

  // The effect of one hash: it is written where its probe stops, and that pointer advances.
  ghost function PlaceStep(p: Placement, hash: u64, blockBits: nat): (p': Placement)
    requires Bounded(p.cells, p.ptr) && |p.ptr| == Pow2(blockBits) && blockBits <= 64
    ensures Bounded(p'.cells, p'.ptr) && |p'.ptr| == |p.ptr| && |p'.cells| == |p.cells|
  {
    SegmentInRange(hash, blockBits);
    var seg := ProbeFrom(p.cells, p.ptr, Shr(hash, 64 - blockBits), |p.ptr|);
    var pos := p.ptr[seg];
    if p.cells[pos] != 0 then p else Placement(p.cells[pos := hash], p.ptr[seg := pos + 1])
  }

  // The effect of a list of hashes, in order.
  ghost function PlaceAll(p: Placement, hs: seq<u64>, blockBits: nat): (p': Placement)
    requires Bounded(p.cells, p.ptr) && |p.ptr| == Pow2(blockBits) && blockBits <= 64
    ensures Bounded(p'.cells, p'.ptr) && |p'.ptr| == |p.ptr| && |p'.cells| == |p.cells|
  {
    if hs == [] then p
    else PlaceStep(PlaceAll(p, hs[..|hs| - 1], blockBits), hs[|hs| - 1], blockBits)
  }

  lemma PlaceAllNext(p: Placement, hs: seq<u64>, h: u64, blockBits: nat)
    requires Bounded(p.cells, p.ptr) && |p.ptr| == Pow2(blockBits) && blockBits <= 64
    ensures PlaceAll(p, hs + [h], blockBits) == PlaceStep(PlaceAll(p, hs, blockBits), h, blockBits)
  {
    assert (hs + [h])[..|hs + [h]| - 1] == hs;
  }

  function Starts(size: u32, blockBits: nat): (ptr: seq<nat>)
    ensures |ptr| == Pow2(blockBits)
  {
    seq(Pow2(blockBits), i requires 0 <= i < Pow2(blockBits) => StartPosition(i, size, blockBits))
  }

  lemma StartsBounded(cells: seq<u64>, size: u32, blockBits: nat)
    requires size < |cells| && cells[|cells| - 1] != 0
    ensures Bounded(cells, Starts(size, blockBits))
  {
    hide Pow2, StartPosition;
    forall g | 0 <= g < Pow2(blockBits)
      ensures Starts(size, blockBits)[g] < |cells|
    {
      StartInRange(g, size, blockBits);
    }
  }

  // What one pass makes of the cells.
  ghost function Placed(cells: seq<u64>, hs: seq<u64>, blockBits: nat): (cells': seq<u64>)
    requires |hs| < TWO32 && |hs| < |cells| && cells[|cells| - 1] != 0 && blockBits <= 64
    ensures |cells'| == |cells|
  {
    StartsBounded(cells, |hs|, blockBits);
    PlaceAll(Placement(cells, Starts(|hs|, blockBits)), hs, blockBits).cells
  }

  lemma PlaceStepDirect(p: Placement, hash: u64, blockBits: nat, seg: nat)
    requires Bounded(p.cells, p.ptr) && |p.ptr| == Pow2(blockBits) && blockBits <= 64
    requires seg == Shr(hash, 64 - blockBits) < |p.ptr| && p.cells[p.ptr[seg]] == 0
    ensures PlaceStep(p, hash, blockBits) ==
            Placement(p.cells[p.ptr[seg] := hash], p.ptr[seg := p.ptr[seg] + 1])
  {
    ProbeStops(p.cells, p.ptr, seg, |p.ptr|);
  }

  // Five cells and two segments; the second points at cell `k`.
  function TwoSegments(a: u64, b: u64, c: u64, k: nat): (p: Placement)
    requires k < 5
    ensures Bounded(p.cells, p.ptr) && |p.ptr| == Pow2(1)
  {
    Placement([0, a, b, c, 1], [0, k])
  }

  lemma TwoSegmentsStep(a: u64, b: u64, c: u64, k: nat, hash: u64)
    requires 1 <= k <= 3 && [0, a, b, c, 1][k] == 0 && Shr(hash, 63) == 1
    ensures PlaceStep(TwoSegments(a, b, c, k), hash, 1) ==
            TwoSegments(if k == 1 then hash else a, if k == 2 then hash else b, if k == 3 then hash else c, k + 1)
  {
    hide Shr, PlaceStep, ProbeFrom;
    PlaceStepDirect(TwoSegments(a, b, c, k), hash, 1, 1);
  }

  // The cell behind the placed hashes must not be zero: with a zero sentinel at index 3, three
  // hashes of the second of two segments run past the end, and the first cell stays empty.
  lemma ZeroSentinelLosesHash(x: u64, y: u64, z: u64)
    requires Shr(x, 63) == Shr(y, 63) == Shr(z, 63) == 1 && 0 !in {x, y, z}
    ensures var p := PlaceStep(PlaceStep(PlaceStep(TwoSegments(0, 0, 0, 1), x, 1), y, 1), z, 1);
            p.cells == [0, x, y, z, 1] && multiset(p.cells[..3]) != multiset([x, y, z])
  {
    hide Shr, Pow2, PlaceStep, ProbeFrom, Bounded;
    TwoSegmentsStep(0, 0, 0, 1, x);
    TwoSegmentsStep(x, 0, 0, 2, y);
    TwoSegmentsStep(x, y, 0, 3, z);
    LeadingZero([0, x, y, z, 1], [x, y, z]);
  }

  lemma LeadingZero(cells: seq<u64>, hs: seq<u64>)
    requires 0 < |hs| <= |cells| && cells[0] == 0 && 0 !in hs
    ensures multiset(cells[..|hs|]) != multiset(hs)
  {
    assert cells[..|hs|][0] == 0;
    assert 0 in multiset(cells[..|hs|]);
    assert 0 !in multiset(hs);
  }

  // The segment `i` places after `first`, around the circle of `n` segments.
  function Turn(first: nat, i: nat, n: nat): (g: nat)
    requires n > 0
    ensures g < n
  {
    (first + i) % n
  }

  lemma TurnNext(first: nat, i: nat, n: nat)
    requires n > 0
    ensures Turn(first, i + 1, n) == NextSegment(Turn(first, i, n), n)
  {
    hide NextSegment;
    var q, r := (first + i) / n, (first + i) % n;
    NextSegmentIs(r, n);
    assert (q + 1) * n == q * n + n;
    DivUnique(first + i + 1, n, if r + 1 == n then q + 1 else q);
  }

  lemma NoTurn(first: nat, n: nat)
    requires first < n
    ensures Turn(first, 0, n) == first
  {}

  // The segment `k` places after `first` is the first one that points at a free cell.
  ghost predicate FirstFree(cells: seq<u64>, ptr: seq<nat>, first: nat, k: nat)
    requires Bounded(cells, ptr)
  {
    && k < |ptr| && cells[ptr[Turn(first, k, |ptr|)]] == 0
    && forall j: nat :: j < k ==> cells[ptr[Turn(first, j, |ptr|)]] != 0
  }

  // The probe stops at the first segment, around the circle from where it starts, with a free cell.
  lemma {:induction false} ProbeIsFirst(cells: seq<u64>, ptr: seq<nat>, first: nat, i: nat, free: nat)
    returns (k: nat)
    requires Bounded(cells, ptr) && free < |ptr| && cells[ptr[free]] == 0
    requires i < |ptr| && |ptr| - i > Distance(Turn(first, i, |ptr|), free, |ptr|)
    requires forall j: nat :: j < i ==> cells[ptr[Turn(first, j, |ptr|)]] != 0
    ensures FirstFree(cells, ptr, first, k)
    ensures ProbeFrom(cells, ptr, Turn(first, i, |ptr|), |ptr| - i) == Turn(first, k, |ptr|)
    decreases |ptr| - i
  {
    hide ProbeFrom, NextSegment, Turn;
    var n := |ptr|;
    if cells[ptr[Turn(first, i, n)]] == 0 {
      ProbeStops(cells, ptr, Turn(first, i, n), n - i);
      k := i;
    } else {
      ProbeNext(cells, ptr, Turn(first, i, n), n - i);
      NextSegmentIs(Turn(first, i, n), n);
      TurnNext(first, i, n);
      k := ProbeIsFirst(cells, ptr, first, i + 1, free);
    }
  }

  // `free` is a segment whose pointer is at a free cell; the cyclic distance to it bounds the
  // search.
  method FindSegment(reverseOrder: array<u64>, startPos: array<nat>, first: nat, ghost free: nat)
    returns (seg: nat)
    requires Bounded(reverseOrder[..], startPos[..])
    requires first < startPos.Length && free < startPos.Length
    requires reverseOrder[startPos[free]] == 0
    ensures seg < startPos.Length && reverseOrder[startPos[seg]] == 0
    ensures seg == ProbeFrom(reverseOrder[..], startPos[..], first, startPos.Length)
    ensures exists k: nat :: FirstFree(reverseOrder[..], startPos[..], first, k)
                             && seg == Turn(first, k, startPos.Length)
  {
    seg := first;
    ghost var cells, ptr := reverseOrder[..], startPos[..];
    ghost var steps: nat, n: nat := startPos.Length, startPos.Length;
    hide ProbeFrom, NextSegment, Turn;
    NoTurn(first, n);
    ghost var k := ProbeIsFirst(cells, ptr, first, 0, free);
    while reverseOrder[startPos[seg]] != 0
      invariant seg < n
      invariant ProbeFrom(cells, ptr, first, n) == ProbeFrom(cells, ptr, seg, steps)
      invariant steps > Distance(seg, free, n)
      decreases steps
    {
      ProbeNext(cells, ptr, seg, steps);
      NextSegmentIs(seg, n);
      seg := NextSegment(seg, startPos.Length);
      steps := steps - 1;
    }
    ProbeStops(cells, ptr, seg, steps);
  }

  lemma ProbeNext(cells: seq<u64>, ptr: seq<nat>, seg: nat, steps: nat)
    requires Bounded(cells, ptr) && seg < |ptr| && cells[ptr[seg]] != 0 && steps > 0
    ensures ProbeFrom(cells, ptr, seg, steps) == ProbeFrom(cells, ptr, NextSegment(seg, |ptr|), steps - 1)
  {}

  lemma ProbeStops(cells: seq<u64>, ptr: seq<nat>, seg: nat, steps: nat)
    requires Bounded(cells, ptr) && seg < |ptr| && cells[ptr[seg]] == 0
    ensures ProbeFrom(cells, ptr, seg, steps) == seg
  {}

  function Hashes(keys: seq<u64>, mix: u64 -> u64): (hs: seq<u64>)
    ensures |hs| == |keys|
    ensures forall i :: 0 <= i < |keys| ==> hs[i] == mix(keys[i])
  {
    seq(|keys|, i requires 0 <= i < |keys| => mix(keys[i]))
  }

  // Everything the pass knows after `|placed|` hashes.
  ghost predicate Progress(before: seq<u64>, cells: seq<u64>, ptr: seq<nat>,
                           written: set<nat>, spill: multiset<u64>, size: nat, placed: seq<u64>)
  {
    && Placing(cells, ptr, written, size, |placed|)
    && Accounted(before, cells, size, placed, spill)
    && (before[size] != 0 ==> Guarded(cells, ptr, size) && spill == multiset{})
    && cells[|cells| - 1] == before[|cells| - 1]
  }

  lemma ProgressStart(cells: seq<u64>, ptr: seq<nat>, size: u32, blockBits: nat)
    requires size < |cells| && cells[|cells| - 1] != 0
    requires forall p :: 0 <= p < size ==> cells[p] == 0
    requires |ptr| == Pow2(blockBits)
    requires forall g :: 0 <= g < |ptr| ==> ptr[g] == StartPosition(g, size, blockBits)
    ensures Progress(cells, cells, ptr, {}, multiset{}, size, [])
  {
    forall g | 0 <= g < |ptr|
      ensures ptr[g] <= size
    {
      StartInRange(g, size, blockBits);
    }
    assert 0 * size % TWO32 == 0;
    ShrZero(blockBits);
    AccountedStart(cells, size);
  }

  lemma ProgressStep(before: seq<u64>, cells: seq<u64>, ptr: seq<nat>,
                     written: set<nat>, spill: multiset<u64>, size: nat, placed: seq<u64>,
                     seg: nat, h: u64)
    returns (spill': multiset<u64>)
    requires Progress(before, cells, ptr, written, spill, size, placed)
    requires |placed| < size && seg < |ptr| && cells[ptr[seg]] == 0
    ensures Progress(before, cells[ptr[seg] := h], ptr[seg := ptr[seg] + 1],
                     written + {ptr[seg]}, spill', size, placed + [h])
  {
    var pos := ptr[seg];
    PlacingStep(cells, ptr, written, size, |placed|, seg, h);
    spill' := spill;
    if h == 0 {
      AccountedZero(before, cells, size, placed, spill, pos);
    } else if pos < size {
      AccountedInside(before, cells, size, placed, spill, pos, h);
    } else {
      AccountedOutside(before, cells, size, placed, spill, pos, h);
      spill' := spill + multiset{h};
    }
  }

  lemma ProgressFree(before: seq<u64>, cells: seq<u64>, ptr: seq<nat>, written: set<nat>,
                     spill: multiset<u64>, size: nat, placed: seq<u64>)
    returns (free: nat)
    requires Progress(before, cells, ptr, written, spill, size, placed)
    requires |placed| < size
    ensures Bounded(cells, ptr)
    ensures free < |ptr| && ptr[free] < |cells| && cells[ptr[free]] == 0
  {
    free := SomeSegmentIsFree(cells, ptr, written, size, |placed|);
  }

  lemma ProgressEnd(before: seq<u64>, cells: seq<u64>, ptr: seq<nat>, written: set<nat>,
                    spill: multiset<u64>, placed: seq<u64>)
    requires Progress(before, cells, ptr, written, spill, |placed|, placed)
    ensures |cells| == |before| > |placed|
    ensures cells[|cells| - 1] == before[|cells| - 1]
    ensures multiset(cells[..|placed|]) == multiset(placed) <==>
            cells[|placed|..] == before[|placed|..]
    ensures before[|placed|] != 0 ==> cells[|placed|..] == before[|placed|..]
  {
    PermutationIffNoSpill(before, cells, placed, spill);
  }

  // ---- The pass as a function -------------------------------------------------------------

  lemma PlaceStepFree(p: Placement, hash: u64, blockBits: nat, free: nat) returns (k: nat, seg: nat)
    requires Bounded(p.cells, p.ptr) && |p.ptr| == Pow2(blockBits) && blockBits <= 64
    requires free < |p.ptr| && p.cells[p.ptr[free]] == 0
    ensures FirstFree(p.cells, p.ptr, Shr(hash, 64 - blockBits), k)
    ensures seg == Turn(Shr(hash, 64 - blockBits), k, |p.ptr|) && p.cells[p.ptr[seg]] == 0
    ensures PlaceStep(p, hash, blockBits) ==
            Placement(p.cells[p.ptr[seg] := hash], p.ptr[seg := p.ptr[seg] + 1])
  {
    hide Shr, Pow2, ProbeFrom, Turn;
    SegmentInRange(hash, blockBits);
    NoTurn(Shr(hash, 64 - blockBits), |p.ptr|);
    k := ProbeIsFirst(p.cells, p.ptr, Shr(hash, 64 - blockBits), 0, free);
    seg := ProbeFrom(p.cells, p.ptr, Shr(hash, 64 - blockBits), |p.ptr|);
  }

  // In numbers: the top bits of the hash name the segment where its probe starts, and the hash goes
  // to the free cell of the first segment from there on that has one.
  lemma PlaceStepIs(p: Placement, hash: u64, blockBits: nat, free: nat, first: nat) returns (k: nat, seg: nat)
    requires Bounded(p.cells, p.ptr) && |p.ptr| == Pow2(blockBits) && blockBits <= 64
    requires free < |p.ptr| && p.cells[p.ptr[free]] == 0 && first == hash / Pow2(64 - blockBits)
    ensures FirstFree(p.cells, p.ptr, first, k)
    ensures seg == (first + k) % |p.ptr|
    ensures PlaceStep(p, hash, blockBits) == Placement(p.cells[p.ptr[seg] := hash], p.ptr[seg := p.ptr[seg] + 1])
  {
    ShrIsQuotient(hash, 64 - blockBits);
    hide Shr, Pow2, PlaceStep;
    k, seg := PlaceStepFree(p, hash, blockBits, free);
  }

  // The start of block i, in numbers.
  lemma StartIs(i: nat, size: u32, blockBits: nat)
    ensures StartPosition(i, size, blockBits) == i * size % 0x1_0000_0000 / Pow2(blockBits)
  {
    hide Shr, Pow2;
    ShrIsQuotient(i * size % TWO32, blockBits);
  }

  lemma {:induction false} PlacedProgress(before: seq<u64>, hs: seq<u64>, blockBits: nat, i: nat)
    returns (written: set<nat>, spill: multiset<u64>)
    requires |hs| < TWO32 && |hs| < |before| && before[|before| - 1] != 0 && i <= |hs| && blockBits <= 64
    requires forall p :: 0 <= p < |hs| ==> before[p] == 0
    ensures Bounded(before, Starts(|hs|, blockBits))
    ensures var q := PlaceAll(Placement(before, Starts(|hs|, blockBits)), hs[..i], blockBits);
            Progress(before, q.cells, q.ptr, written, spill, |hs|, hs[..i])
  {
    hide *;
    StartsBounded(before, |hs|, blockBits);
    var start := Placement(before, Starts(|hs|, blockBits));
    if i == 0 {
      written, spill := {}, multiset{};
      PlaceNone(start, blockBits);
      assert hs[..0] == [];
      StartsAre(|hs|, blockBits);
      ProgressStart(before, start.ptr, |hs|, blockBits);
    } else {
      written, spill := PlacedProgress(before, hs, blockBits, i - 1);
      var q := PlaceAll(start, hs[..i - 1], blockBits);
      var free := ProgressFree(before, q.cells, q.ptr, written, spill, |hs|, hs[..i - 1]);
      var _, seg := PlaceStepFree(q, hs[i - 1], blockBits, free);
      PrefixGrows(hs, i - 1);
      PlaceAllNext(start, hs[..i - 1], hs[i - 1], blockBits);
      spill := ProgressStep(before, q.cells, q.ptr, written, spill, |hs|, hs[..i - 1], seg, hs[i - 1]);
      written := written + {q.ptr[seg]};
    }
  }

  lemma StartsAre(size: u32, blockBits: nat)
    ensures forall g :: 0 <= g < |Starts(size, blockBits)| ==>
              Starts(size, blockBits)[g] == StartPosition(g, size, blockBits)
  {}

  // Placing keeps all hashes exactly when it writes nothing from index `size` on; a non-zero
  // sentinel there is enough.
  lemma PlacedExact(before: seq<u64>, hs: seq<u64>, blockBits: nat)
    requires |hs| < TWO32 && |hs| < |before| && before[|before| - 1] != 0 && blockBits <= 64
    requires forall p :: 0 <= p < |hs| ==> before[p] == 0
    ensures var cells := Placed(before, hs, blockBits);
            && (multiset(cells[..|hs|]) == multiset(hs) <==> cells[|hs|..] == before[|hs|..])
            && (before[|hs|] != 0 ==> cells[|hs|..] == before[|hs|..])
  {
    hide *;
    var written, spill := PlacedProgress(before, hs, blockBits, |hs|);
    assert hs[..|hs|] == hs;
    PlacedIs(before, hs, blockBits);
    var q := PlaceAll(Placement(before, Starts(|hs|, blockBits)), hs, blockBits);
    ProgressEnd(before, q.cells, q.ptr, written, spill, hs);
  }

  // Places one hash.
  method PlaceOne(reverseOrder: array<u64>, startPos: array<nat>, hash: u64, blockBits: nat, ghost free: nat)
    returns (ghost seg: nat)
    requires Bounded(reverseOrder[..], startPos[..])
    requires startPos.Length == Pow2(blockBits) && blockBits <= 64
    requires free < startPos.Length && reverseOrder[startPos[free]] == 0
    modifies reverseOrder, startPos
    ensures seg < startPos.Length && old(reverseOrder[startPos[seg]]) == 0
    ensures reverseOrder[..] == old(reverseOrder[..])[old(startPos[seg]) := hash]
    ensures startPos[..] == old(startPos[..])[seg := old(startPos[seg]) + 1]
    ensures Shr(hash, 64 - blockBits) < startPos.Length &&
            seg == ProbeFrom(old(reverseOrder[..]), old(startPos[..]), Shr(hash, 64 - blockBits), startPos.Length)
    ensures Placement(reverseOrder[..], startPos[..]) ==
            PlaceStep(Placement(old(reverseOrder[..]), old(startPos[..])), hash, blockBits)
  {
    hide Shr, Pow2, ProbeFrom;
    SegmentInRange(hash, blockBits);
    var segmentIndex := FindSegment(reverseOrder, startPos, Shr(hash, 64 - blockBits), free);
    reverseOrder[startPos[segmentIndex]] := hash;
    startPos[segmentIndex] := startPos[segmentIndex] + 1;
    seg := segmentIndex;
  }

  // Places one more hash while some segment still has a free cell.
  method PlaceNext(reverseOrder: array<u64>, startPos: array<nat>, hash: u64, blockBits: nat,
                   ghost before: seq<u64>, ghost written: set<nat>, ghost spill: multiset<u64>,
                   ghost size: nat, ghost placed: seq<u64>)
    returns (ghost written': set<nat>, ghost spill': multiset<u64>)
    requires Progress(before, reverseOrder[..], startPos[..], written, spill, size, placed)
    requires |placed| < size
    requires startPos.Length == Pow2(blockBits) && blockBits <= 64
    modifies reverseOrder, startPos
    ensures Progress(before, reverseOrder[..], startPos[..], written', spill', size, placed + [hash])
    ensures Bounded(old(reverseOrder[..]), old(startPos[..]))
    ensures Placement(reverseOrder[..], startPos[..]) ==
            PlaceStep(Placement(old(reverseOrder[..]), old(startPos[..])), hash, blockBits)
  {
    hide *;
    ghost var cells, ptr := reverseOrder[..], startPos[..];
    ghost var free := ProgressFree(before, cells, ptr, written, spill, size, placed);
    ghost var seg := PlaceOne(reverseOrder, startPos, hash, blockBits, free);
    spill' := ProgressStep(before, cells, ptr, written, spill, size, placed, seg, hash);
    written' := written + {ptr[seg]};
  }

  lemma PlaceNone(p: Placement, blockBits: nat)
    requires Bounded(p.cells, p.ptr) && |p.ptr| == Pow2(blockBits) && blockBits <= 64
    ensures PlaceAll(p, [], blockBits) == p
  {}

  lemma PlacedIs(cells: seq<u64>, hs: seq<u64>, blockBits: nat)
    requires |hs| < TWO32 && |hs| < |cells| && cells[|cells| - 1] != 0 && blockBits <= 64
    ensures Bounded(cells, Starts(|hs|, blockBits))
    ensures Placed(cells, hs, blockBits) == PlaceAll(Placement(cells, Starts(|hs|, blockBits)), hs, blockBits).cells
  {
    StartsBounded(cells, |hs|, blockBits);
  }

  lemma PrefixGrows(s: seq<u64>, i: nat)
    requires i < |s|
    ensures s[..i + 1] == s[..i] + [s[i]]
  {}

  // The placing loop.
  method PlaceEach(keys: array<u64>, size: u32, mix: u64 -> u64, blockBits: nat,
                   reverseOrder: array<u64>, startPos: array<nat>,
                   ghost before: seq<u64>, ghost hashes: seq<u64>)
    returns (ghost written: set<nat>, ghost spill: multiset<u64>)
    requires size <= keys.Length && reverseOrder != keys
    requires |hashes| == size && forall i :: 0 <= i < size ==> hashes[i] == mix(keys[i])
    requires startPos[..] == Starts(size, blockBits) && blockBits <= 64
    requires reverseOrder[..] == before && size < |before| && before[|before| - 1] != 0
    requires Progress(before, before, startPos[..], {}, multiset{}, size, [])
    modifies reverseOrder, startPos
    ensures Progress(before, reverseOrder[..], startPos[..], written, spill, size, hashes)
    ensures reverseOrder[..] == Placed(before, hashes, blockBits)
  {
    hide *;
    written, spill := {}, multiset{};
    ghost var start := Placement(before, Starts(size, blockBits));
    StartsBounded(before, size, blockBits);
    PlaceNone(start, blockBits);
    assert hashes[..0] == [];
    for i := 0 to size
      invariant Progress(before, reverseOrder[..], startPos[..], written, spill, size, hashes[..i])
      invariant Placement(reverseOrder[..], startPos[..]) == PlaceAll(start, hashes[..i], blockBits)
    {
      written, spill := PlaceNext(reverseOrder, startPos, mix(keys[i]), blockBits,
                                  before, written, spill, size, hashes[..i]);
      PrefixGrows(hashes, i);
      PlaceAllNext(start, hashes[..i], hashes[i], blockBits);
    }
    assert hashes[..size] == hashes;
    PlacedIs(before, hashes, blockBits);
  }

  method PlaceHashes(keys: array<u64>, size: u32, mix: u64 -> u64, blockBits: nat,
                     reverseOrder: array<u64>, startPos: array<nat>)
    requires size <= keys.Length && size < reverseOrder.Length
    requires 1 <= blockBits <= 32 && startPos.Length == Pow2(blockBits)
    requires reverseOrder != keys
    requires forall p :: 0 <= p < size ==> reverseOrder[p] == 0
    requires reverseOrder[reverseOrder.Length - 1] != 0
    modifies reverseOrder, startPos
    ensures reverseOrder[reverseOrder.Length - 1] == old(reverseOrder[reverseOrder.Length - 1])
    ensures multiset(reverseOrder[..size]) == multiset(Hashes(keys[..size], mix)) <==>
            reverseOrder[size..] == old(reverseOrder[size..])
    ensures old(reverseOrder[size]) != 0 ==> reverseOrder[size..] == old(reverseOrder[size..])
    ensures reverseOrder[..] == Placed(old(reverseOrder[..]), Hashes(keys[..size], mix), blockBits)
  {
    FillStartPos(startPos, size, blockBits);
    ghost var hashes := Hashes(keys[..size], mix);
    ghost var before := reverseOrder[..];
    ProgressStart(before, startPos[..], size, blockBits);
    assert startPos[..] == Starts(size, blockBits);
    hide *;
    ghost var written, spill := PlaceEach(keys, size, mix, blockBits, reverseOrder, startPos, before, hashes);
    ProgressEnd(before, reverseOrder[..], startPos[..], written, spill, hashes);
    assert before[size..] == old(reverseOrder[size..]);
    assert reverseOrder[..][size..] == reverseOrder[size..];
    assert reverseOrder[..][..size] == reverseOrder[..size];
  }
}
