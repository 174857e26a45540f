/** The mask table of the patterned filter: a bit string whose 57-bit windows all hold four or
    five bits, and the masks cut out of it. */
module MaskTable {
  import opened Words

  const NUM_MASKS: nat := 1024
  const LOG_NUM_MASKS: nat := 10
  const BITS_PER_MASK: nat := 57
  const MIN_BITS: nat := 4
  const MAX_BITS: nat := 5
  const TOTAL_BITS: nat := 1080
  const MASK_BYTES: nat := 136

  // ---- The table as a string of bits -----------------------------------------------------------

  predicate TableBit(T: seq<Byte>, i: nat)
    requires i < 8 * |T|
  {
    Bit(T[i / 8], i % 8)
  }

  // Number of set bits among the `n` bits from `lo` on.
  function Ones(T: seq<Byte>, lo: nat, n: nat): nat
    requires lo + n <= 8 * |T|
    decreases n
  {
    if n == 0 then 0 else (if TableBit(T, lo) then 1 else 0) + Ones(T, lo + 1, n - 1)
  }

  // Bit i of the table is bit i modulo 8, from the lowest, of byte i / 8.
  lemma TableBitIs(T: seq<Byte>, i: nat)
    requires i < 8 * |T|
    ensures TableBit(T, i) <==> T[i / 8] / Pow2(i % 8) % 2 == 1
  {
    hide Bit, Pow2;
    BitIsDigit(T[i / 8], i % 8);
  }

  lemma {:induction false} OnesIsCount(T: seq<Byte>, lo: nat, n: nat)
    requires lo + n <= 8 * |T|
    ensures Ones(T, lo, n) == |set j | lo <= j < lo + n && TableBit(T, j)|
    decreases n
  {
    hide TableBit;
    var ones := set j | lo <= j < lo + n && TableBit(T, j);
    if n == 0 {
      assert ones == {};
    } else {
      OnesIsCount(T, lo + 1, n - 1);
      var more := set j | lo + 1 <= j < lo + 1 + (n - 1) && TableBit(T, j);
      CountOneMore(more, ones, lo, TableBit(T, lo));
    }
  }

  lemma {:induction false} OnesSnoc(T: seq<Byte>, lo: nat, n: nat)
    requires lo + n + 1 <= 8 * |T|
    ensures Ones(T, lo, n + 1) == Ones(T, lo, n) + if TableBit(T, lo + n) then 1 else 0
    decreases n
  {
    hide TableBit;
    if n > 0 {
      OnesSnoc(T, lo + 1, n - 1);
    }
  }

  lemma {:induction false} OnesSame(T: seq<Byte>, T': seq<Byte>, lo: nat, n: nat)
    requires |T| == |T'| && lo + n <= 8 * |T|
    requires forall j :: lo <= j < lo + n ==> TableBit(T, j) == TableBit(T', j)
    ensures Ones(T, lo, n) == Ones(T', lo, n)
    decreases n
  {
    hide TableBit;
    if n > 0 {
      OnesSame(T, T', lo + 1, n - 1);
    }
  }

  function SetBit(T: seq<Byte>, i: nat): (T': seq<Byte>)
    requires i < 8 * |T|
    ensures |T'| == |T|
  {
    BitFits(i % 8);
    T[i / 8 := Or(T[i / 8], Pow2(i % 8))]
  }

  lemma SetBitEffect(T: seq<Byte>, i: nat, j: nat)
    requires i < 8 * |T| && j < 8 * |T|
    ensures TableBit(SetBit(T, i), j) <==> TableBit(T, j) || j == i
  {
    hide Or, Bit, Pow2;
    if j / 8 == i / 8 {
      OrBit(T[i / 8], Pow2(i % 8), j % 8);
      Pow2Bit(i % 8, j % 8);
      assert j == i <==> j % 8 == i % 8;
    }
  }

  // Setting a bit outside or inside a window.
  lemma {:induction false} SetBitOnes(T: seq<Byte>, i: nat, lo: nat, n: nat)
    requires i < 8 * |T| && lo + n <= 8 * |T| && !TableBit(T, i)
    ensures Ones(SetBit(T, i), lo, n) == Ones(T, lo, n) + if lo <= i < lo + n then 1 else 0
    decreases n
  {
    hide TableBit, SetBit;
    if n > 0 {
      SetBitEffect(T, i, lo);
      SetBitOnes(T, i, lo + 1, n - 1);
    }
  }

  ghost predicate WindowOk(T: seq<Byte>, lo: nat)
    requires lo + BITS_PER_MASK <= 8 * |T|
  {
    MIN_BITS <= Ones(T, lo, BITS_PER_MASK) <= MAX_BITS
  }

  // Every window is fine, which is what mask construction needs.
  ghost predicate Complete(T: seq<Byte>) {
    |T| == MASK_BYTES && forall lo :: 0 <= lo < NUM_MASKS ==> WindowOk(T, lo)
  }

  // ---- Building the table -------------------------------------------------------------------------

  // Sliding-window state before bit `i` is chosen: `cur` counts the last 57 bits, and no bit
  // from `i` on is set yet.
  ghost predicate Sliding(T: seq<Byte>, i: nat, cur: int) {
    && |T| == MASK_BYTES
    && BITS_PER_MASK <= i <= TOTAL_BITS
    && cur == Ones(T, i - BITS_PER_MASK, BITS_PER_MASK)
    && MIN_BITS <= cur <= MAX_BITS
    && (forall lo :: 0 <= lo <= i - BITS_PER_MASK ==> WindowOk(T, lo))
    && (forall j :: i <= j < 8 * MASK_BYTES ==> !TableBit(T, j))
  }

  lemma SlideStep(T: seq<Byte>, i: nat, cur: int, fill: bool, cur': int)
    requires Sliding(T, i, cur) && i < TOTAL_BITS
    requires cur' == cur + (if fill then 1 else 0) - if TableBit(T, i - BITS_PER_MASK) then 1 else 0
    requires MIN_BITS <= cur' <= MAX_BITS
    ensures Sliding(if fill then SetBit(T, i) else T, i + 1, cur')
  {
    hide TableBit, SetBit, Ones;
    var T' := if fill then SetBit(T, i) else T;
    forall lo | 0 <= lo <= i - BITS_PER_MASK
      ensures Ones(T', lo, BITS_PER_MASK) == Ones(T, lo, BITS_PER_MASK)
    {
      if fill {
        SetBitOnes(T, i, lo, BITS_PER_MASK);
      }
    }
    forall j | 0 <= j < 8 * MASK_BYTES
      ensures TableBit(T', j) <==> TableBit(T, j) || (fill && j == i)
    {
      if fill {
        SetBitEffect(T, i, j);
      }
    }
    WindowMoves(T', i);
    forall lo | 0 <= lo <= i + 1 - BITS_PER_MASK
      ensures WindowOk(T', lo)
    {
      if lo <= i - BITS_PER_MASK {
        assert WindowOk(T, lo);
      }
    }
  }

  lemma WindowMoves(T: seq<Byte>, i: nat)
    requires |T| == MASK_BYTES && BITS_PER_MASK <= i < TOTAL_BITS
    ensures Ones(T, i + 1 - BITS_PER_MASK, BITS_PER_MASK) ==
            Ones(T, i - BITS_PER_MASK, BITS_PER_MASK)
            + (if TableBit(T, i) then 1 else 0) - if TableBit(T, i - BITS_PER_MASK) then 1 else 0
  {
    hide TableBit;
    OnesSnoc(T, i + 1 - BITS_PER_MASK, BITS_PER_MASK - 1);
  }

  lemma {:induction false} NoOnes(T: seq<Byte>, lo: nat, n: nat)
    requires lo + n <= 8 * |T| && forall j :: lo <= j < lo + n ==> !TableBit(T, j)
    ensures Ones(T, lo, n) == 0
    decreases n
  {
    hide TableBit;
    if n > 0 {
      NoOnes(T, lo + 1, n - 1);
    }
  }

  lemma ClearedBits(T: seq<Byte>)
    requires forall k :: 0 <= k < |T| ==> T[k] == 0
    ensures forall j :: 0 <= j < 8 * |T| ==> !TableBit(T, j)
  {
    forall j | 0 <= j < 8 * |T|
      ensures !TableBit(T, j)
    {
      ZeroBit(j % 8);
    }
  }

  // ---- What the random source determines -------------------------------------------------------

  // A stage either leaves a table and the number of draws used, or runs out of draws.
  datatype Stage = OutOfDraws | Done(table: seq<Byte>, next: nat)

  // The first draw from `next` on that names a free position of the first window.
  function FreeDraw(T: seq<Byte>, random: seq<u32>, next: nat): (k: nat)
    requires |T| == MASK_BYTES && next <= |random|
    ensures next <= k <= |random|
    ensures k < |random| ==> !TableBit(T, random[k] % BITS_PER_MASK)
    decreases |random| - next
  {
    if next == |random| || !TableBit(T, random[next] % BITS_PER_MASK) then next else FreeDraw(T, random, next + 1)
  }

  // The first window after `n` more bits.
  function Filled(T: seq<Byte>, random: seq<u32>, n: nat, next: nat): (r: Stage)
    requires |T| == MASK_BYTES && next <= |random|
    ensures r.Done? ==> |r.table| == MASK_BYTES && next <= r.next <= |random|
    decreases n
  {
    if n == 0 then Done(T, next)
    else
      var k := FreeDraw(T, random, next);
      if k == |random| then OutOfDraws
      else Filled(SetBit(T, random[k] % BITS_PER_MASK), random, n - 1, k + 1)
  }

  // The table after the bits from `i` on; a draw is used only where both choices are allowed.
  function Slid(T: seq<Byte>, random: seq<u32>, i: nat, cur: int, next: nat): (r: Stage)
    requires |T| == MASK_BYTES && BITS_PER_MASK <= i <= TOTAL_BITS && next <= |random|
    decreases TOTAL_BITS - i
  {
    if i == TOTAL_BITS then Done(T, next)
    else
      var leaving := if TableBit(T, i - BITS_PER_MASK) then 1 else 0;
      if leaving == 1 && cur == MIN_BITS then Slid(SetBit(T, i), random, i + 1, cur, next)
      else if leaving == 0 && cur == MAX_BITS then Slid(T, random, i + 1, cur, next)
      else if next == |random| then OutOfDraws
      else if random[next] % (2 * BITS_PER_MASK) < MIN_BITS + MAX_BITS then
        Slid(SetBit(T, i), random, i + 1, cur + 1 - leaving, next + 1)
      else Slid(T, random, i + 1, cur - leaving, next + 1)
  }

  function Cleared(): (T: seq<Byte>)
    ensures |T| == MASK_BYTES
  {
    seq(MASK_BYTES, _ => 0)
  }

  function FirstCount(draw: u32): (n: nat)
    ensures MIN_BITS <= n <= MAX_BITS
  {
    MIN_BITS + draw % (MAX_BITS - MIN_BITS + 1)
  }

  function FirstStage(random: seq<u32>): (r: Stage)
    ensures r.Done? ==> |r.table| == MASK_BYTES && r.next <= |random| != 0
  {
    if random == [] then OutOfDraws else Filled(Cleared(), random, FirstCount(random[0]), 1)
  }

  // The outcome of the whole initialisation.
  function Initialised(random: seq<u32>): Stage {
    var first := FirstStage(random);
    if first.OutOfDraws? then first
    else Slid(first.table, random, BITS_PER_MASK, FirstCount(random[0]), first.next)
  }

  lemma {:induction false} SlidEnough(T: seq<Byte>, random: seq<u32>, i: nat, cur: int, next: nat)
    requires |T| == MASK_BYTES && BITS_PER_MASK <= i <= TOTAL_BITS && next + (TOTAL_BITS - i) <= |random|
    ensures Slid(T, random, i, cur, next).Done?
    decreases TOTAL_BITS - i
  {
    hide TableBit, SetBit;
    if i < TOTAL_BITS {
      var leaving := if TableBit(T, i - BITS_PER_MASK) then 1 else 0;
      if leaving == 1 && cur == MIN_BITS {
        SlidEnough(SetBit(T, i), random, i + 1, cur, next);
      } else if leaving == 0 && cur == MAX_BITS {
        SlidEnough(T, random, i + 1, cur, next);
      } else if random[next] % (2 * BITS_PER_MASK) < MIN_BITS + MAX_BITS {
        SlidEnough(SetBit(T, i), random, i + 1, cur + 1 - leaving, next + 1);
      } else {
        SlidEnough(T, random, i + 1, cur - leaving, next + 1);
      }
    }
  }

  // Only the rejection loop of the first window can starve: one more draw per remaining bit
  // always completes the table.
  lemma CompletesAfterFirstWindow(random: seq<u32>)
    requires FirstStage(random).Done?
    requires FirstStage(random).next + (TOTAL_BITS - BITS_PER_MASK) <= |random|
    ensures Initialised(random).Done?
  {
    hide FirstStage;
    var first := FirstStage(random);
    SlidEnough(first.table, random, BITS_PER_MASK, FirstCount(random[0]), first.next);
  }

  // ---- The finished table in terms of the draws ----------------------------------------------------

  lemma {:induction false} RejectedDraws(T: seq<Byte>, random: seq<u32>, next: nat, k: nat)
    requires |T| == MASK_BYTES && next <= k < |random| && k < FreeDraw(T, random, next)
    ensures TableBit(T, random[k] % BITS_PER_MASK)
    decreases k - next
  {
    hide TableBit;
    if next < k {
      RejectedDraws(T, random, next + 1, k);
    }
  }

  // Some draw names the position.
  ghost predicate Drawn(random: seq<u32>, from: nat, to: nat, i: nat)
    requires to <= |random|
  {
    exists k :: from <= k < to && random[k] % 57 == i
  }

  // Filling sets exactly the positions that the draws used for it name; the last of them is new.
  lemma {:induction false} FilledMeaning(T: seq<Byte>, random: seq<u32>, n: nat, next: nat, i: nat)
    requires |T| == MASK_BYTES && next <= |random| && Filled(T, random, n, next).Done? && i < 8 * MASK_BYTES
    ensures var r := Filled(T, random, n, next);
            && (TableBit(r.table, i) <==> TableBit(T, i) || Drawn(random, next, r.next, i))
            && Ones(r.table, 0, BITS_PER_MASK) == Ones(T, 0, BITS_PER_MASK) + n
            && (n > 0 ==> next < r.next && !Drawn(random, next, r.next - 1, random[r.next - 1] % 57)
                          && !TableBit(T, random[r.next - 1] % 57))
    decreases n
  {
    hide TableBit, SetBit, Ones, FreeDraw;
    if n > 0 {
      var k := FreeDraw(T, random, next);
      var pos := random[k] % BITS_PER_MASK;
      var T', r := SetBit(T, pos), Filled(T, random, n, next);
      FilledMeaning(T', random, n - 1, k + 1, i);
      SetBitEffect(T, pos, i);
      SetBitEffect(T, pos, random[r.next - 1] % 57);
      SetBitOnes(T, pos, 0, BITS_PER_MASK);
      forall d | next <= d < k
        ensures TableBit(T, random[d] % 57)
      {
        RejectedDraws(T, random, next, d);
      }
    }
  }

  // The first window: four or five bits by the first draw, at the positions that the following ones
  // name, up to the draw that completes them.
  lemma FirstWindowMeaning(random: seq<u32>, i: nat)
    requires FirstStage(random).Done? && i < 8 * MASK_BYTES
    ensures var r := FirstStage(random);
            && Ones(r.table, 0, 57) == 4 + random[0] % 2
            && (TableBit(r.table, i) <==> Drawn(random, 1, r.next, i))
            && 1 < r.next && !Drawn(random, 1, r.next - 1, random[r.next - 1] % 57)
  {
    hide TableBit, Ones, Filled;
    ClearedBits(Cleared());
    NoOnes(Cleared(), 0, BITS_PER_MASK);
    FilledMeaning(Cleared(), random, FirstCount(random[0]), 1, i);
  }

  // The free positions of the first window that the draws from `next` on name.
  ghost function Available(T: seq<Byte>, random: seq<u32>, next: nat): set<nat>
    requires |T| == MASK_BYTES
  {
    set p: nat | p < 57 && !TableBit(T, p) && Drawn(random, next, |random|, p)
  }

  lemma AvailableNext(T: seq<Byte>, random: seq<u32>, next: nat)
    requires |T| == MASK_BYTES && next <= |random|
    ensures var k := FreeDraw(T, random, next);
            if k == |random| then Available(T, random, next) == {}
            else var pos := random[k] % BITS_PER_MASK;
                 && pos !in Available(SetBit(T, pos), random, k + 1)
                 && Available(T, random, next) == Available(SetBit(T, pos), random, k + 1) + {pos}
  {
    hide TableBit, SetBit, FreeDraw;
    var k := FreeDraw(T, random, next);
    forall d | next <= d < k
      ensures TableBit(T, random[d] % 57)
    {
      RejectedDraws(T, random, next, d);
    }
    if k < |random| {
      var pos := random[k] % BITS_PER_MASK;
      forall p: nat | p < 57
        ensures TableBit(SetBit(T, pos), p) <==> TableBit(T, p) || p == pos
        ensures p in Available(T, random, next) <==> p in Available(SetBit(T, pos), random, k + 1) || p == pos
      {
        SetBitEffect(T, pos, p);
        if !TableBit(T, p) {
          DrawnFrom(T, random, next, k, p);
        }
      }
    }
  }

  lemma DrawnFrom(T: seq<Byte>, random: seq<u32>, next: nat, k: nat, p: nat)
    requires |T| == MASK_BYTES && next <= k < |random| && p < 57 && !TableBit(T, p)
    requires forall d :: next <= d < k ==> TableBit(T, random[d] % 57)
    ensures Drawn(random, next, |random|, p) <==> random[k] % 57 == p || Drawn(random, k + 1, |random|, p)
  {
    hide TableBit;
  }

  // The draws suffice for the first window exactly when they name enough different positions.
  lemma {:induction false} FilledDone(T: seq<Byte>, random: seq<u32>, n: nat, next: nat)
    requires |T| == MASK_BYTES && next <= |random|
    ensures Filled(T, random, n, next).Done? <==> |Available(T, random, next)| >= n
    decreases n
  {
    hide TableBit, SetBit, FreeDraw, Available;
    if n > 0 {
      AvailableNext(T, random, next);
      var k := FreeDraw(T, random, next);
      if k < |random| {
        FilledDone(SetBit(T, random[k] % BITS_PER_MASK), random, n - 1, k + 1);
      }
    }
  }

  lemma FirstWindowDone(random: seq<u32>)
    ensures FirstStage(random).Done? <==>
            random != [] && |set p: nat | p < 57 && Drawn(random, 1, |random|, p)| >= 4 + random[0] % 2
  {
    hide TableBit, Filled, Drawn;
    if random != [] {
      ClearedBits(Cleared());
      FilledDone(Cleared(), random, FirstCount(random[0]), 1);
      assert Available(Cleared(), random, 1) == set p: nat | p < 57 && Drawn(random, 1, |random|, p);
    }
  }

  // A bit is forced when the other choice would leave the window with three or six bits.
  predicate Forced(T: seq<Byte>, j: nat)
    requires 57 <= j <= 8 * |T|
  {
    if TableBit(T, j - 57) then Ones(T, j - 57, 57) == 4 else Ones(T, j - 57, 57) == 5
  }

  function Unforced(T: seq<Byte>, from: nat, to: nat): set<int>
    requires 57 <= from && to <= 8 * |T|
  {
    set m | from <= m < to && !Forced(T, m)
  }

  // A forced bit repeats the one that leaves the window.  Every other bit has a draw of its own, in
  // order, and is set when that draw modulo 114 is below 9.
  ghost predicate FollowsDraws(T: seq<Byte>, random: seq<u32>, from: nat, next: nat, j: nat)
    requires 57 <= from <= j < 8 * |T|
  {
    if Forced(T, j) then TableBit(T, j) == TableBit(T, j - 57)
    else
      var d := next + |Unforced(T, from, j)|;
      d < |random| && (TableBit(T, j) <==> random[d] % 114 < 9)
  }

  lemma FollowsLater(T: seq<Byte>, random: seq<u32>, i: nat, next: nat, j: nat)
    requires 57 <= i < j < 8 * |T|
    requires FollowsDraws(T, random, i + 1, if Forced(T, i) then next else next + 1, j)
    ensures FollowsDraws(T, random, i, next, j)
  {
    hide Forced, TableBit;
    var later := Unforced(T, i + 1, j);
    assert Unforced(T, i, j) == if Forced(T, i) then later else later + {i};
  }

  lemma FollowsNow(T: seq<Byte>, random: seq<u32>, i: nat, next: nat)
    requires 57 <= i < 8 * |T|
    requires if Forced(T, i) then TableBit(T, i) == TableBit(T, i - 57)
             else next < |random| && (TableBit(T, i) <==> random[next] % 114 < 9)
    ensures FollowsDraws(T, random, i, next, i)
  {
    hide Forced, TableBit;
    assert Unforced(T, i, i) == {};
  }

  lemma {:induction false} SlidMeaning(T: seq<Byte>, random: seq<u32>, i: nat, cur: int, next: nat, j: nat)
    requires Sliding(T, i, cur) && next <= |random| && Slid(T, random, i, cur, next).Done? && j < 8 * MASK_BYTES
    ensures var T' := Slid(T, random, i, cur, next).table;
            && |T'| == MASK_BYTES
            && (j < i || j >= TOTAL_BITS ==> TableBit(T', j) == TableBit(T, j))
            && (i <= j < TOTAL_BITS ==> FollowsDraws(T', random, i, next, j))
    decreases TOTAL_BITS - i
  {
    hide TableBit, SetBit, Ones, FollowsDraws, Forced;
    if i < TOTAL_BITS {
      var leaving := TableBit(T, i - BITS_PER_MASK);
      if leaving && cur == MIN_BITS {
        SlidNext(T, random, i, cur, next, true, cur, next, j);
      } else if !leaving && cur == MAX_BITS {
        SlidNext(T, random, i, cur, next, false, cur, next, j);
      } else if random[next] % (2 * BITS_PER_MASK) < MIN_BITS + MAX_BITS {
        SlidNext(T, random, i, cur, next, true, if leaving then cur else cur + 1, next + 1, j);
      } else {
        SlidNext(T, random, i, cur, next, false, if leaving then cur - 1 else cur, next + 1, j);
      }
    }
  }

  // Bit i has been chosen; the rest of the table keeps it.
  lemma {:induction false} SlidNext(T: seq<Byte>, random: seq<u32>, i: nat, cur: int, next: nat,
                                    fill: bool, cur': int, next': nat, j: nat)
    requires Sliding(T, i, cur) && i < TOTAL_BITS && next <= next' <= |random| && j < 8 * MASK_BYTES
    requires cur' == cur + (if fill then 1 else 0) - if TableBit(T, i - BITS_PER_MASK) then 1 else 0
    requires MIN_BITS <= cur' <= MAX_BITS
    requires var forced := if TableBit(T, i - BITS_PER_MASK) then cur == 4 else cur == 5;
             && next' == (if forced then next else next + 1)
             && (forced ==> fill == TableBit(T, i - BITS_PER_MASK))
             && (!forced ==> (fill <==> random[next] % 114 < 9))
    requires Slid(if fill then SetBit(T, i) else T, random, i + 1, cur', next').Done?
    ensures var T' := Slid(if fill then SetBit(T, i) else T, random, i + 1, cur', next').table;
            && |T'| == MASK_BYTES
            && (j < i || j >= TOTAL_BITS ==> TableBit(T', j) == TableBit(T, j))
            && (i <= j < TOTAL_BITS ==> FollowsDraws(T', random, i, next, j))
    decreases TOTAL_BITS - i, 0
  {
    hide TableBit, SetBit, Ones, FollowsDraws, Slid;
    var T1 := if fill then SetBit(T, i) else T;
    var T' := Slid(T1, random, i + 1, cur', next').table;
    SlideStep(T, i, cur, fill, cur');
    forall m: nat | m < 8 * MASK_BYTES
      ensures |T'| == MASK_BYTES
      ensures m < i || m >= TOTAL_BITS ==> TableBit(T', m) == TableBit(T, m)
      ensures m == i ==> TableBit(T', m) == fill
    {
      SlidMeaning(T1, random, i + 1, cur', next', m);
      if fill {
        SetBitEffect(T, i, m);
      }
    }
    OnesSame(T, T', i - BITS_PER_MASK, BITS_PER_MASK);
    if j == i {
      FollowsNow(T', random, i, next);
    } else if i < j < TOTAL_BITS {
      SlidMeaning(T1, random, i + 1, cur', next', j);
      FollowsLater(T', random, i, next, j);
    }
  }

  // The whole table is determined by the draws.
  lemma TableMeaning(random: seq<u32>)
    requires Initialised(random).Done?
    ensures var T, next := Initialised(random).table, FirstStage(random).next;
            && |T| == MASK_BYTES
            && Ones(T, 0, 57) == 4 + random[0] % 2
            && (forall i: nat :: i < 57 ==> (TableBit(T, i) <==> Drawn(random, 1, next, i)))
            && (forall j: nat :: 57 <= j < 1080 ==> FollowsDraws(T, random, 57, next, j))
            && (forall j: nat :: 1080 <= j < 1088 ==> !TableBit(T, j))
  {
    hide TableBit, SetBit, Ones, FollowsDraws, Slid, FirstStage, Drawn;
    var first := FirstStage(random);
    var T := Initialised(random).table;
    FirstWindowMeaning(random, 0);
    forall i: nat | i < 8 * MASK_BYTES
      ensures TableBit(first.table, i) <==> Drawn(random, 1, first.next, i)
      ensures i >= 57 ==> !TableBit(first.table, i)
    {
      FirstWindowMeaning(random, i);
      if i >= 57 {
        OutsideWindow(random, 1, first.next, i);
      }
    }
    SlidingStart(first.table, FirstCount(random[0]));
    forall j: nat | j < 8 * MASK_BYTES
      ensures |T| == MASK_BYTES
      ensures j < 57 || j >= 1080 ==> TableBit(T, j) == TableBit(first.table, j)
      ensures 57 <= j < 1080 ==> FollowsDraws(T, random, 57, first.next, j)
    {
      SlidMeaning(first.table, random, BITS_PER_MASK, FirstCount(random[0]), first.next, j);
    }
    OnesSame(first.table, T, 0, BITS_PER_MASK);
  }

  lemma OutsideWindow(random: seq<u32>, from: nat, to: nat, i: nat)
    requires to <= |random| && i >= 57
    ensures !Drawn(random, from, to, i)
  {}

  // ---- Initialisation in place ---------------------------------------------------------------------

  // `(MASK_TABLE[i / 8] >> (i % 8)) & 1`
  method ReadBit(table: array<Byte>, i: nat) returns (bit: nat)
    requires i < 8 * table.Length
    ensures bit == if TableBit(table[..], i) then 1 else 0
  {
    bit := Shr(table[i / 8], i % 8) % 2;
    ShiftedBit(table[i / 8], i % 8);
  }

  // `MASK_TABLE[i / 8] |= (uint8_t)(1u << (i % 8))`
  method WriteBit(table: array<Byte>, i: nat)
    requires i < 8 * table.Length
    modifies table
    ensures table[..] == SetBit(old(table[..]), i)
  {
    BitFits(i % 8);
    table[i / 8] := Or(table[i / 8], Pow2(i % 8));
  }

  // The random source is a given list of 32-bit outputs; `ok` is false when it runs out, as
  // happens if the rejection loop never finds a free position.
  method PickFree(table: array<Byte>, random: seq<u32>, next: nat)
    returns (ok: bool, pos: nat, next': nat)
    requires table.Length == MASK_BYTES && next <= |random|
    ensures ok <==> FreeDraw(table[..], random, next) < |random|
    ensures ok ==> next' == FreeDraw(table[..], random, next) + 1 && pos == random[next' - 1] % BITS_PER_MASK
    ensures ok ==> !TableBit(table[..], pos)
  {
    hide TableBit;
    next', pos := next, 0;
    while next' < |random|
      invariant next <= next' <= |random|
      invariant FreeDraw(table[..], random, next) == FreeDraw(table[..], random, next')
    {
      pos := random[next'] % BITS_PER_MASK;
      next' := next' + 1;
      var taken := ReadBit(table, pos);
      if taken != 1 {
        return true, pos, next';
      }
    }
    ok := false;
  }

  method FillFirst(table: array<Byte>, random: seq<u32>, numSet: nat, start: nat)
    returns (ok: bool, next: nat)
    requires table.Length == MASK_BYTES && start <= |random| && numSet <= MAX_BITS
    requires forall j :: 0 <= j < 8 * MASK_BYTES ==> !TableBit(table[..], j)
    modifies table
    ensures Filled(old(table[..]), random, numSet, start) == if ok then Done(table[..], next) else OutOfDraws
    ensures ok ==> next <= |random| && Ones(table[..], 0, BITS_PER_MASK) == numSet
    ensures ok ==> forall j :: BITS_PER_MASK <= j < 8 * MASK_BYTES ==> !TableBit(table[..], j)
  {
    hide TableBit, SetBit, Ones;
    ok, next := true, start;
    NoOnes(table[..], 0, BITS_PER_MASK);
    for i := 0 to numSet
      invariant next <= |random| && Ones(table[..], 0, BITS_PER_MASK) == i
      invariant Filled(old(table[..]), random, numSet, start) == Filled(table[..], random, numSet - i, next)
      invariant forall j :: BITS_PER_MASK <= j < 8 * MASK_BYTES ==> !TableBit(table[..], j)
    {
      var pos;
      ghost var before := table[..];
      ok, pos, next := PickFree(table, random, next);
      if !ok {
        return;
      }
      WriteBit(table, pos);
      SetBitOnes(before, pos, 0, BITS_PER_MASK);
      forall j | BITS_PER_MASK <= j < 8 * MASK_BYTES
        ensures !TableBit(table[..], j)
      {
        SetBitEffect(before, pos, j);
      }
    }
  }

  // One step of the sliding loop: the forced cases first, a random choice otherwise.
  method Slide(table: array<Byte>, random: seq<u32>, i: nat, cur: int, next: nat)
    returns (ok: bool, cur': int, next': nat)
    requires Sliding(table[..], i, cur) && i < TOTAL_BITS && next <= |random|
    modifies table
    ensures ok ==> next' <= |random| && Sliding(table[..], i + 1, cur')
    ensures Slid(old(table[..]), random, i, cur, next) ==
            if ok then Slid(table[..], random, i + 1, cur', next') else OutOfDraws
  {
    hide TableBit, SetBit, Ones;
    ghost var T := table[..];
    var leaving := ReadBit(table, i - BITS_PER_MASK);
    ok, cur', next' := true, cur, next;
    if leaving == 1 && cur == MIN_BITS {
      SlideStep(T, i, cur, true, cur);
      WriteBit(table, i);
    } else if leaving == 0 && cur == MAX_BITS {
      SlideStep(T, i, cur, false, cur);
    } else if next == |random| {
      ok := false;
    } else {
      next' := next + 1;
      if random[next] % (BITS_PER_MASK * 2) < MIN_BITS + MAX_BITS {
        cur' := if leaving == 0 then cur + 1 else cur;
        SlideStep(T, i, cur, true, cur');
        WriteBit(table, i);
      } else {
        cur' := if leaving == 1 then cur - 1 else cur;
        SlideStep(T, i, cur, false, cur');
      }
    }
  }

  lemma SlidingStart(T: seq<Byte>, numSet: nat)
    requires |T| == MASK_BYTES && Ones(T, 0, BITS_PER_MASK) == numSet && MIN_BITS <= numSet <= MAX_BITS
    requires forall j :: BITS_PER_MASK <= j < 8 * MASK_BYTES ==> !TableBit(T, j)
    ensures Sliding(T, BITS_PER_MASK, numSet)
  {
    hide Ones, TableBit;
  }

  lemma SlidingEnd(T: seq<Byte>, cur: int)
    requires Sliding(T, TOTAL_BITS, cur)
    ensures Complete(T)
  {
    hide Ones, TableBit;
  }

  method Init(table: array<Byte>, random: seq<u32>) returns (ok: bool)
    requires table.Length == MASK_BYTES
    modifies table
    ensures ok ==> Complete(table[..])
    ensures ok <==> Initialised(random).Done?
    ensures ok ==> table[..] == Initialised(random).table
  {
    hide TableBit, Ones, Sliding, Complete, Slid, FirstStage, FirstCount;
    forall k | 0 <= k < table.Length {
      table[k] := 0;
    }
    assert table[..] == Cleared();
    ClearedBits(table[..]);
    if |random| == 0 {
      NoDraws();
      return false;
    }
    var numSet: nat, next: nat;
    ok, numSet, next := FirstWindow(table, random);
    if !ok {
      return;
    }
    var cur: int := numSet;
    for i := BITS_PER_MASK to TOTAL_BITS
      invariant next <= |random| && Sliding(table[..], i, cur)
      invariant Initialised(random) == Slid(table[..], random, i, cur, next)
    {
      ok, cur, next := Slide(table, random, i, cur, next);
      if !ok {
        return;
      }
    }
    SlidingEnd(table[..], cur);
    SlidEnd(table[..], random, cur, next);
  }

  lemma NoDraws()
    ensures FirstStage([]) == OutOfDraws
  {}

  lemma SlidEnd(T: seq<Byte>, random: seq<u32>, cur: int, next: nat)
    requires |T| == MASK_BYTES && next <= |random|
    ensures Slid(T, random, TOTAL_BITS, cur, next) == Done(T, next)
  {}

  // The first window gets four or five bits.
  method FirstWindow(table: array<Byte>, random: seq<u32>) returns (ok: bool, numSet: nat, next: nat)
    requires table.Length == MASK_BYTES && |random| > 0
    requires table[..] == Cleared()
    requires forall j :: 0 <= j < 8 * MASK_BYTES ==> !TableBit(table[..], j)
    modifies table
    ensures numSet == FirstCount(random[0])
    ensures ok ==> next <= |random| && Sliding(table[..], BITS_PER_MASK, numSet)
    ensures FirstStage(random) == if ok then Done(table[..], next) else OutOfDraws
  {
    hide TableBit, Ones, Sliding, Filled;
    var range := MAX_BITS - MIN_BITS + 1;
    numSet := MIN_BITS + random[0] % range;
    ok, next := FillFirst(table, random, numSet, 1);
    if ok {
      SlidingStart(table[..], numSet);
    }
  }

  // ---- Masks ---------------------------------------------------------------------------------------

  // `memcpy(&raw, MASK_TABLE + at, 8)`: bytes in little-endian order.
  function LoadBytes(T: seq<Byte>, at: nat, n: nat): nat
    requires at + n <= |T|
    decreases n
  {
    if n == 0 then 0 else T[at] as nat + 256 * LoadBytes(T, at + 1, n - 1)
  }

  lemma {:induction false} LoadedBit(T: seq<Byte>, at: nat, n: nat, t: nat)
    requires at + n <= |T| && t < 8 * n
    ensures Bit(LoadBytes(T, at, n), t) <==> TableBit(T, 8 * at + t)
    decreases n
  {
    hide Bit;
    Pow2Values();
    JoinBit(T[at], LoadBytes(T, at + 1, n - 1), 8, t);
    if t >= 8 {
      LoadedBit(T, at + 1, n - 1, t - 8);
    } else {
      assert (8 * at + t) / 8 == at && (8 * at + t) % 8 == t;
    }
  }

  // A word below 2^n whose bits are those of a window has as many set bits as the window.
  lemma {:induction false} PopIsOnes(x: nat, T: seq<Byte>, lo: nat, n: nat)
    requires x < Pow2(n) && lo + n <= 8 * |T|
    requires forall t :: 0 <= t < n ==> Bit(x, t) == TableBit(T, lo + t)
    ensures Pop(x) == Ones(T, lo, n)
    decreases n
  {
    hide TableBit;
    if n > 0 {
      assert Bit(x, 0) == TableBit(T, lo + 0);
      forall t | 0 <= t < n - 1
        ensures Bit(x / 2, t) == TableBit(T, lo + 1 + t)
      {
        assert Bit(x, t + 1) == TableBit(T, lo + (t + 1));
      }
      PopIsOnes(x / 2, T, lo + 1, n - 1);
    }
  }

  // The 57 table bits from the index on, loaded with one unaligned 64-bit read.
  function Unrotated(T: seq<Byte>, idx: nat): u64
    requires |T| == MASK_BYTES && idx < NUM_MASKS
  {
    var x := Shr(LoadBytes(T, idx / 8, 8), idx % 8);
    WindowFits(x);
    Low(x, BITS_PER_MASK)
  }

  lemma WindowFits(x: nat)
    ensures Low(x, BITS_PER_MASK) < Pow2(BITS_PER_MASK) < TWO64
  {
    ShrLow(x, BITS_PER_MASK);
    Pow2Values();
    assert Pow2(7) == 128;
    Pow2Add(57, 7);
  }

  // The extracted bits are those of the window.
  lemma UnrotatedBit(T: seq<Byte>, idx: nat, t: nat)
    requires |T| == MASK_BYTES && idx < NUM_MASKS
    ensures Bit(Unrotated(T, idx), t) <==> t < BITS_PER_MASK && TableBit(T, idx + t)
  {
    hide Bit, TableBit, LoadBytes, Shr, Low, Pow2;
    var raw := LoadBytes(T, idx / 8, 8);
    LowBit(Shr(raw, idx % 8), BITS_PER_MASK, t);
    if t < BITS_PER_MASK {
      ShrBit(raw, idx % 8, t);
      LoadedBit(T, idx / 8, 8, idx % 8 + t);
      assert 8 * (idx / 8) + (idx % 8 + t) == idx + t;
    }
  }

  lemma UnrotatedPop(T: seq<Byte>, idx: nat)
    requires |T| == MASK_BYTES && idx < NUM_MASKS
    ensures Pop(Unrotated(T, idx)) == Ones(T, idx, BITS_PER_MASK)
  {
    hide Bit, TableBit, LoadBytes, Shr, Low, Pow2;
    WindowFits(Shr(LoadBytes(T, idx / 8, 8), idx % 8));
    forall t | 0 <= t < BITS_PER_MASK
      ensures Bit(Unrotated(T, idx), t) == TableBit(T, idx + t)
    {
      UnrotatedBit(T, idx, t);
    }
    PopIsOnes(Unrotated(T, idx), T, idx, BITS_PER_MASK);
  }

  // Rotation of a 64-bit word as the scalar code writes it.
  function Rotate(x: u64, rot: nat): u64
    requires rot < 64
  {
    var up := x * Pow2(rot) % TWO64;
    var down := if rot == 0 then 0 else Shr(x, 64 - rot);
    ShrShrinks(x, 64 - rot);
    Or(up, down)
  }

  lemma RotateSplit(x: u64, rot: nat)
    requires rot < 64
    ensures x * Pow2(rot) % TWO64 == Pow2(rot) * Low(x, 64 - rot)
    ensures Shr(x, 64 - rot) < Pow2(rot)
    ensures rot == 0 ==> Shr(x, 64) == 0
  {
    hide Shr, Low, Pow2;
    Pow2Values();
    var p, q, s, l := Pow2(rot), Pow2(64 - rot), Shr(x, 64 - rot), Low(x, 64 - rot);
    ShrLow(x, 64 - rot);
    ShrBelow(x, 64 - rot, rot);
    Pow2Add(rot, 64 - rot);
    MulMono(l + 1, q, p);
    HighPartDrops(x, p, q, s, l);
    if rot == 0 {
      ShrVanishes(x, 64, 64);
    }
  }

  lemma HighPartDrops(x: nat, p: nat, q: nat, s: nat, l: nat)
    requires x == s * q + l && p * q == TWO64 && p > 0 && (l + 1) * p <= q * p
    ensures x * p % TWO64 == p * l
  {
    assert x * p == s * (p * q) + p * l;
    assert p * l < p * q;
    assert x * p == s * 0x1_0000_0000_0000_0000 + p * l;
  }

  // Rotation keeps the number of set bits.
  lemma RotatePop(x: u64, rot: nat)
    requires rot < 64
    ensures Pop(Rotate(x, rot)) == Pop(x)
  {
    hide Shr, Low, Pow2, Or, Pop;
    var l, s := Low(x, 64 - rot), Shr(x, 64 - rot);
    RotateSplit(x, rot);
    JoinOr(s, l, rot);
    JoinPop(s, l, rot);
    ShrLow(x, 64 - rot);
    JoinPop(l, s, 64 - rot);
    assert s * Pow2(64 - rot) == Pow2(64 - rot) * s;
  }

  // Bit s of the rotated word is the bit `rot` places lower, cyclically.
  lemma RotateBit(x: u64, rot: nat, s: nat)
    requires rot < 64
    ensures Bit(Rotate(x, rot), s) <==> s < 64 && Bit(x, (s + 64 - rot) % 64)
  {
    hide Shr, Low, Pow2, Or, Bit;
    RotateSplit(x, rot);
    JoinOr(Shr(x, 64 - rot), Low(x, 64 - rot), rot);
    JoinBit(Shr(x, 64 - rot), Low(x, 64 - rot), rot, s);
    if s < rot {
      ShrBit(x, 64 - rot, s);
    } else {
      LowBit(x, 64 - rot, s - rot);
    }
  }

  // `construct_mask_scalar`
  function MaskOf(T: seq<Byte>, h: u64): u64
    requires |T| == MASK_BYTES
  {
    Rotate(Unrotated(T, h % NUM_MASKS), h / NUM_MASKS % 64)
  }

  // Bit s of the mask of a hash, from the table: the window starts at the low ten bits of the hash
  // and is rotated by the next six.
  predicate MaskHas(T: seq<Byte>, h: u64, s: nat)
    requires |T| == MASK_BYTES
  {
    && s < 64
    && (s + 64 - h / 1024 % 64) % 64 < 57
    && TableBit(T, h % 1024 + (s + 64 - h / 1024 % 64) % 64)
  }

  lemma MaskMeaning(T: seq<Byte>, h: u64, s: nat)
    requires |T| == MASK_BYTES
    ensures Bit(MaskOf(T, h), s) <==> MaskHas(T, h, s)
  {
    hide Bit, TableBit, Rotate, Unrotated;
    RotateBit(Unrotated(T, h % NUM_MASKS), h / NUM_MASKS % 64, s);
    if s < 64 {
      UnrotatedBit(T, h % NUM_MASKS, (s + 64 - h / NUM_MASKS % 64) % 64);
    }
  }

  // On a completed table every mask has four or five bits.
  lemma MaskBits(T: seq<Byte>, h: u64)
    requires Complete(T)
    ensures MIN_BITS <= Pop(MaskOf(T, h)) <= MAX_BITS
  {
    hide Rotate, Unrotated, Pop, Ones;
    var idx := h % NUM_MASKS;
    RotatePop(Unrotated(T, idx), h / NUM_MASKS % 64);
    UnrotatedPop(T, idx);
    assert WindowOk(T, idx);
  }

  // A variable shift of a 64-bit lane: by 64 or more it gives zero.
  function Srlv64(x: nat, n: nat): nat {
    if n < 64 then Shr(x, n) else 0
  }

  const WINDOW_MASK: nat := 0x1FF_FFFF_FFFF_FFFF

  // The masked and shifted values of `construct_mask_avx2` in one lane.
  lemma LaneSteps(T: seq<Byte>, h: u64)
    requires |T| == MASK_BYTES
    ensures var idx := And(h, NUM_MASKS - 1);
            && idx == h % NUM_MASKS
            && Shr(idx, 3) == idx / 8 && And(idx, 7) == idx % 8
            && And(Srlv64(LoadBytes(T, Shr(idx, 3), 8), And(idx, 7)), WINDOW_MASK) == Unrotated(T, idx)
    ensures And(Shr(h, LOG_NUM_MASKS), 63) == h / NUM_MASKS % 64
  {
    hide And, Shr, Low, Pow2, LoadBytes;
    LanePowers();
    AndIsRemainder(h, 10);
    ShrIsQuotient(h, 10);
    AndIsRemainder(Shr(h, 10), 6);
    var idx := h % NUM_MASKS;
    ShrIsQuotient(idx, 3);
    AndIsRemainder(idx, 3);
    AndMask(Shr(LoadBytes(T, idx / 8, 8), idx % 8), BITS_PER_MASK);
  }

  lemma LanePowers()
    ensures Pow2(3) == 8 && Pow2(6) == 64 && Pow2(10) == NUM_MASKS && Pow2(BITS_PER_MASK) - 1 == WINDOW_MASK
  {
    assert Pow2(3) == 8 && Pow2(5) == 32;
    Pow2Add(3, 3);
    Pow2Add(5, 5);
    Pow2Values();
    assert Pow2(7) == 128;
    Pow2Add(57, 7);
  }

  // The vector form has no case for rotation zero.
  function MaskOfLane(T: seq<Byte>, h: u64): u64
    requires |T| == MASK_BYTES
  {
    LaneSteps(T, h);
    var idx := And(h, NUM_MASKS - 1);
    var x: u64 := And(Srlv64(LoadBytes(T, Shr(idx, 3), 8), And(idx, 7)), WINDOW_MASK);
    var rot := And(Shr(h, LOG_NUM_MASKS), 63);
    LaneRotates(x, rot);
    Or(x * Pow2(rot) % TWO64, Srlv64(x, 64 - rot))
  }

  lemma LaneRotates(x: u64, rot: nat)
    requires rot < 64
    ensures Srlv64(x, 64 - rot) < TWO64
    ensures Or(x * Pow2(rot) % TWO64, Srlv64(x, 64 - rot)) == Rotate(x, rot)
  {
    hide Or, Shr, Pow2;
    ShrShrinks(x, 64 - rot);
  }

  lemma VectorMaskAgrees(T: seq<Byte>, h: u64)
    requires |T| == MASK_BYTES
    ensures MaskOfLane(T, h) == MaskOf(T, h)
  {
    hide Shr, Or, And, Pow2, Unrotated, LoadBytes, Rotate, Srlv64;
    LaneSteps(T, h);
    LaneRotates(Unrotated(T, h % NUM_MASKS), h / NUM_MASKS % 64);
  }
}
