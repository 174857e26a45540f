/** The hashing functions on given words: what the examples need, and the fact that no seed of
    `populate` is 0 or 2^64 - 1. */
module FuseValues {
  import opened Words
  import opened HexWords
  import opened FuseHash

  // `h ^ (h >> k)` for the last ten digits of `h`, `h >> k` and the result `r`.
  lemma XorShiftIs(h: u64, k: nat, high: nat, s: seq<nat>, t: seq<nat>, u: seq<nat>, r: u64)
    requires |s| == |t| == |u| == 10 && TenDigits(s) && TenDigits(t) && XorTable(s, t, u)
    requires k in {27, 30, 31, 33}
    requires h == 0x100_0000_0000 * high + Ten(s) && r == 0x100_0000_0000 * high + Ten(u)
    requires Ten(t) == h / (if k == 27 then 0x800_0000 else if k == 30 then 0x4000_0000
                            else if k == 31 then 0x8000_0000 else 0x2_0000_0000)
    ensures XorShift(h, k) == r
  {
    hide XorTable, TenDigits, Ten, Xor, Shr, Pow2;
    ShiftPowers();
    ShiftXor(h, k, high, s, t, u);
  }

  lemma LastSeedStateFirst()
    ensures Multiply(XorShift(0xcf9a04affa6badc0, 30), SPLIT_1) == 0xf027aa8c721dfdc7
  {
    hide XorShift;
    XorShiftIs(0xcf9a04affa6badc0, 30, 0xcf9a04, [0xa, 0xf, 0xf, 0xa, 0x6, 0xb, 0xa, 0xd, 0xc, 0x0],
               [0x0, 0x3, 0x3, 0xe, 0x6, 0x8, 0x1, 0x2, 0xb, 0xf],
               [0xa, 0xc, 0xc, 0x4, 0x0, 0x3, 0xb, 0xf, 0x7, 0xf], 0xcf9a04acc403bf7f);
  }

  lemma LastSeedStateSecond()
    ensures Multiply(XorShift(0xf027aa8c721dfdc7, 27), SPLIT_2) == 0xfffffffe00000003
  {
    hide XorShift;
    XorShiftIs(0xf027aa8c721dfdc7, 27, 0xf027aa, [0x8, 0xc, 0x7, 0x2, 0x1, 0xd, 0xf, 0xd, 0xc, 0x7],
               [0x1, 0xe, 0x0, 0x4, 0xf, 0x5, 0x5, 0x1, 0x8, 0xe],
               [0x9, 0x2, 0x7, 0x6, 0xe, 0x8, 0xa, 0xc, 0x4, 0x9], 0xf027aa9276e8ac49);
  }

  lemma LastSeedStateThird()
    ensures XorShift(0xfffffffe00000003, 31) == 0xffffffffffffffff
  {
    hide XorShift;
    XorShiftIs(0xfffffffe00000003, 31, 0xffffff, [0xf, 0xe, 0x0, 0x0, 0x0, 0x0, 0x0, 0x0, 0x0, 0x3],
               [0x0, 0x1, 0xf, 0xf, 0xf, 0xf, 0xf, 0xf, 0xf, 0xc],
               [0xf, 0xf, 0xf, 0xf, 0xf, 0xf, 0xf, 0xf, 0xf, 0xf], 0xffffffffffffffff);
  }

  lemma LastSeedState()
    ensures SplitMix(0xcf9a04affa6badc0) == 0xffffffffffffffff
  {
    hide XorShift, Multiply;
    LastSeedStateFirst();
    LastSeedStateSecond();
    LastSeedStateThird();
  }

  lemma SeedNotTrivial(round: nat)
    requires round < MAX_ITERATIONS
    ensures SeedAt(round) != 0 && SeedAt(round) != TWO64 - 1
  {
    hide SplitMix, CounterAt;
    SplitMixOfZero();
    LastSeedState();
    if SeedAt(round) == 0 {
      SplitMixInjective(CounterAt(round), 0);
      RoundOfState(round, 0);
    }
    if SeedAt(round) == TWO64 - 1 {
      SplitMixInjective(CounterAt(round), 0xcf9a04affa6badc0);
      RoundOfState(round, 0xcf9a04affa6badc0);
    }
  }
}
