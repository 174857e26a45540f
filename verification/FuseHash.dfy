/** The hash mixing of `binaryfusefilter.h` on 64-bit words. */
module FuseHash {
  import opened Words

  const MURMUR_1: nat := 0xff51afd7ed558ccd
  const MURMUR_2: nat := 0xc4ceb9fe1a85ec53
  const MURMUR_1_INVERSE: nat := 0x4f74430c22a54005
  const MURMUR_2_INVERSE: nat := 0x9cb4b2f8129337db

  // `h ^ (h >> k)`
  function XorShift(h: u64, k: nat): u64 {
    ShrShrinks(h, k);
    Xor(h, Shr(h, k))
  }

  function Multiply(h: u64, c: nat): u64 {
    h * c % TWO64
  }

  function Murmur64(h: u64): u64 {
    XorShift(Multiply(XorShift(Multiply(XorShift(h, 33), MURMUR_1), 33), MURMUR_2), 33)
  }

  function MixSplit(key: u64, seed: u64): u64 {
    Murmur64((key + seed) % TWO64)
  }

  function Fingerprint(hash: u64): Byte {
    XorShift(hash, 32) % 256
  }

  // Bit s of the fingerprint says whether bits s and s + 32 of the hash differ.
  lemma FingerprintBits(hash: u64, s: nat)
    ensures Bit(Fingerprint(hash), s) <==> s < 8 && Bit(hash, s) != Bit(hash, s + 32)
  {
    hide Bit, Xor, Shr, Low, Pow2;
    Pow2Values();
    LowIsRemainder(XorShift(hash, 32), 8);
    LowBit(XorShift(hash, 32), 8, s);
    XorBits(hash, Shr(hash, 32), s);
    ShrBit(hash, 32, s);
  }

  // A xor-shift by at least half the width undoes itself.
  lemma XorShiftInvolution(h: u64)
    ensures XorShift(XorShift(h, 33), 33) == h
  {
    hide BitXor, Shr;
    var s := Shr(h, 33);
    ShrShrinks(h, 33);
    XorShr(h, s, 33);
    ShrShr(h, 33, 33);
    Pow2Values();
    ShrVanishes(h, 64, 66);
    XorZero(s);
    XorCancel(h, s);
  }

  lemma ModOfSum(x: u64, t: int, y: nat)
    requires y == x + 0x1_0000_0000_0000_0000 * t
    ensures y % TWO64 == x
  {
    assert y % 0x1_0000_0000_0000_0000 == x;
  }

  lemma ModAdd(a: nat, g: nat)
    ensures (a % TWO64 + g) % TWO64 == (a + g) % TWO64
  {
    assert (a % 0x1_0000_0000_0000_0000 + g) % 0x1_0000_0000_0000_0000 == (a + g) % 0x1_0000_0000_0000_0000;
  }

  lemma MultiplyInverse(x: u64, c: nat, d: nat)
    requires c * d % TWO64 == 1
    ensures Multiply(Multiply(x, c), d) == x
  {
    var M := TWO64;
    var r, q, k := x * c % M, x * c / M, c * d / M;
    assert x * c == q * M + r && c * d == k * M + 1;
    assert r * d == x + M * (x * k - q * d) by {
      assert r * d == (x * c) * d - (q * M) * d;
      assert (x * c) * d == x * (c * d) == x * (k * M) + x;
    }
    ModOfSum(x, x * k - q * d, r * d);
  }

  lemma MurmurInverses()
    ensures MURMUR_1 * MURMUR_1_INVERSE % TWO64 == 1
    ensures MURMUR_2 * MURMUR_2_INVERSE % TWO64 == 1
  {}

  // The mixing is a bijection of the 64-bit words: it has a left inverse.
  function Unmurmur64(h: u64): u64 {
    XorShift(Multiply(XorShift(Multiply(XorShift(h, 33), MURMUR_2_INVERSE), 33), MURMUR_1_INVERSE), 33)
  }

  lemma MurmurInvertible(h: u64)
    ensures Unmurmur64(Murmur64(h)) == h
  {
    hide XorShift, Multiply;
    var a := XorShift(h, 33);
    var b := Multiply(a, MURMUR_1);
    var c := XorShift(b, 33);
    var d := Multiply(c, MURMUR_2);
    MurmurInverses();
    XorShiftInvolution(d);
    MultiplyInverse(c, MURMUR_2, MURMUR_2_INVERSE);
    XorShiftInvolution(b);
    MultiplyInverse(a, MURMUR_1, MURMUR_1_INVERSE);
    XorShiftInvolution(h);
  }

  // Distinct keys get distinct hashes under every seed.
  lemma MixInjective(a: u64, b: u64, seed: u64)
    requires MixSplit(a, seed) == MixSplit(b, seed)
    ensures a == b
  {
    hide Murmur64, Unmurmur64;
    MurmurInvertible((a + seed) % TWO64);
    MurmurInvertible((b + seed) % TWO64);
    assert (a + seed) % TWO64 == (b + seed) % TWO64;
  }

  // A key hashes to zero exactly when it cancels the seed.
  lemma MixZero(key: u64, seed: u64)
    ensures MixSplit(key, seed) == 0 <==> (key + seed) % TWO64 == 0
  {
    hide Murmur64, Unmurmur64;
    var x := (key + seed) % TWO64;
    assert Murmur64(0) == 0 by { MurmurOfZero(); }
    MurmurInvertible(x);
    MurmurInvertible(0);
  }

  lemma MurmurOfZero()
    ensures Murmur64(0) == 0
  {
    hide Shr, Xor;
    ShrZero(33);
    XorZero(0);
    assert XorShift(0, 33) == 0;
    assert Multiply(0, MURMUR_1) == 0 && Multiply(0, MURMUR_2) == 0;
  }

  // ---- Seeds ------------------------------------------------------------------------------

  const RNG_START: u64 := 0x726b2b9d438b9d4d
  const GOLDEN: nat := 0x9E3779B97F4A7C15

  const GOLDEN_INVERSE: nat := 0xf1de83e19937733d
  const SPLIT_1: nat := 0xBF58476D1CE4E5B9
  const SPLIT_2: nat := 0x94D049BB133111EB
  const SPLIT_1_INVERSE: nat := 0x96de1b173f119089
  const SPLIT_2_INVERSE: nat := 0x319642b2d24d8ec3

  function SplitMix(state: u64): u64 {
    var z := Multiply(XorShift(state, 30), SPLIT_1);
    XorShift(Multiply(XorShift(z, 27), SPLIT_2), 31)
  }

  function CounterAt(round: nat): u64 {
    (RNG_START + (round + 1) * GOLDEN) % TWO64
  }

  // `XOR_MAX_ITERATIONS`
  const MAX_ITERATIONS: nat := 100

  // The seed that `populate` uses in a given round.
  function SeedAt(round: nat): u64 {
    SplitMix(CounterAt(round))
  }

  lemma CounterStep(round: nat)
    ensures (CounterAt(round) + GOLDEN) % TWO64 == CounterAt(round + 1)
  {
    var a := RNG_START + (round + 1) * GOLDEN;
    assert RNG_START + (round + 2) * GOLDEN == a + GOLDEN;
    ModAdd(a, GOLDEN);
  }

  // ---- Which states give which seeds --------------------------------------------------------

  lemma ShrHalves(d: nat, k: nat)
    requires d > 0 && k > 0
    ensures Shr(d, k) < d
  {
    ShrShrinks(d / 2, k - 1);
  }

  lemma XorSwap(a: nat, b: nat, c: nat, d: nat)
    ensures Xor(Xor(a, b), Xor(c, d)) == Xor(Xor(a, c), Xor(b, d))
  {
    hide Xor;
    XorAssoc(a, b, Xor(c, d));
    XorAssoc(b, c, d);
    XorComm(b, c);
    XorAssoc(c, b, d);
    XorAssoc(a, c, Xor(b, d));
  }

  // A xor-shift by any positive amount is injective.
  lemma XorShiftInjective(x: u64, y: u64, k: nat)
    requires k > 0 && XorShift(x, k) == XorShift(y, k)
    ensures x == y
  {
    hide Xor, Shr;
    var d := Xor(x, y);
    XorShr(x, y, k);
    XorSwap(x, y, Shr(x, k), Shr(y, k));
    XorSelf(XorShift(x, k));
    XorEqual(d, Shr(d, k));
    if d > 0 {
      ShrHalves(d, k);
    }
    XorEqual(x, y);
  }

  lemma SplitInverses()
    ensures SPLIT_1 * SPLIT_1_INVERSE % TWO64 == 1 && SPLIT_2 * SPLIT_2_INVERSE % TWO64 == 1
    ensures GOLDEN * GOLDEN_INVERSE % TWO64 == 1
  {}

  // Different states of the generator give different seeds.
  lemma SplitMixInjective(a: u64, b: u64)
    requires SplitMix(a) == SplitMix(b)
    ensures a == b
  {
    hide XorShift, Multiply;
    SplitInverses();
    var x, y := Multiply(XorShift(a, 30), SPLIT_1), Multiply(XorShift(b, 30), SPLIT_1);
    XorShiftInjective(Multiply(XorShift(x, 27), SPLIT_2), Multiply(XorShift(y, 27), SPLIT_2), 31);
    MultiplyInverse(XorShift(x, 27), SPLIT_2, SPLIT_2_INVERSE);
    MultiplyInverse(XorShift(y, 27), SPLIT_2, SPLIT_2_INVERSE);
    XorShiftInjective(x, y, 27);
    MultiplyInverse(XorShift(a, 30), SPLIT_1, SPLIT_1_INVERSE);
    MultiplyInverse(XorShift(b, 30), SPLIT_1, SPLIT_1_INVERSE);
    XorShiftInjective(a, b, 30);
  }

  lemma SplitMixOfZero()
    ensures SplitMix(0) == 0
  {
    hide Shr, Xor;
    ShrZero(30);
    ShrZero(27);
    ShrZero(31);
    XorZero(0);
    assert XorShift(0, 30) == XorShift(0, 27) == XorShift(0, 31) == 0;
    assert Multiply(0, SPLIT_1) == 0 && Multiply(0, SPLIT_2) == 0;
  }

  // The state of the generator determines the round.
  lemma RoundOfState(round: nat, state: u64)
    requires round + 1 < TWO64 && CounterAt(round) == state
    ensures round + 1 == Multiply((state + TWO64 - RNG_START) % TWO64, GOLDEN_INVERSE)
  {
    SplitInverses();
    MultiplyInverse(round + 1, GOLDEN, GOLDEN_INVERSE);
    var x := (round + 1) * GOLDEN;
    StateDistance(x, state);
  }

  lemma StateDistance(x: nat, state: u64)
    requires (RNG_START + x) % TWO64 == state
    ensures x % TWO64 == (state + TWO64 - RNG_START) % TWO64
  {
    var s, y := RNG_START as nat, state as nat + TWO64 - RNG_START;
    var d, c, q := y % TWO64, y / TWO64, (s + x) / TWO64;
    ModOfSum(d, q - 1 + c, x);
  }
}
