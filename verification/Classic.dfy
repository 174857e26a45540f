/** The textbook filter: eight double-hashed positions in one bit array. */
module Classic {
  import opened Words

  const K_HASHES: nat := 8

  // ---- The bit array as a set of positions ----------------------------------------------------

  predicate IsSet(bits: seq<u64>, p: nat)
    requires p < 64 * |bits|
  {
    Bit(bits[p / 64], p % 64)
  }

  function SetBits(bits: seq<u64>): set<nat> {
    set p | 0 <= p < 64 * |bits| && IsSet(bits, p)
  }

  function WithBit(bits: seq<u64>, p: nat): (r: seq<u64>)
    requires p < 64 * |bits|
    ensures |r| == |bits|
  {
    BitFits(p % 64);
    bits[p / 64 := Or(bits[p / 64], Pow2(p % 64))]
  }

  // Position p is bit p modulo 64, from the lowest, of word p / 64.
  lemma SetBitsAre(bits: seq<u64>, p: nat)
    ensures p in SetBits(bits) <==> p < 64 * |bits| && bits[p / 64] / Pow2(p % 64) % 2 == 1
  {
    hide Bit, Pow2;
    if p < 64 * |bits| {
      BitIsDigit(bits[p / 64], p % 64);
    }
  }

  lemma WithBitSets(bits: seq<u64>, p: nat)
    requires p < 64 * |bits|
    ensures SetBits(WithBit(bits, p)) == SetBits(bits) + {p}
  {
    hide Or, Bit, Pow2;
    var r := WithBit(bits, p);
    forall q | 0 <= q < 64 * |bits|
      ensures IsSet(r, q) <==> IsSet(bits, q) || q == p
    {
      if q / 64 == p / 64 {
        OrBit(bits[p / 64], Pow2(p % 64), q % 64);
        Pow2Bit(p % 64, q % 64);
        assert q == p <==> q % 64 == p % 64;
      }
    }
  }

  // ---- Double hashing ------------------------------------------------------------------------------

  // The i-th probe value: `pos += h2` on 64 bits.
  function Pos(h1: u64, h2: u64, i: nat): u64 {
    if i == 0 then h1 else (Pos(h1, h2, i - 1) + h2) % TWO64
  }

  // The masked position in an array of 2^e bits.
  function Place(h1: u64, h2: u64, e: nat, i: nat): nat {
    Low(Pos(h1, h2, i), e)
  }

  function Places(h1: u64, h2: u64, e: nat, n: nat): set<nat> {
    if n == 0 then {} else Places(h1, h2, e, n - 1) + {Place(h1, h2, e, n - 1)}
  }

  lemma {:induction false} PosIs(h1: u64, h2: u64, i: nat)
    ensures Pos(h1, h2, i) == (h1 + i * h2) % 0x1_0000_0000_0000_0000
  {
    if i > 0 {
      PosIs(h1, h2, i - 1);
      NextProduct(i, h2);
      AddWrapped(h1 + (i - 1) * h2, h2);
    } else {
      assert i * h2 == 0;
    }
  }

  lemma AddWrapped(x: nat, y: nat)
    ensures (x % 0x1_0000_0000_0000_0000 + y) % 0x1_0000_0000_0000_0000 == (x + y) % 0x1_0000_0000_0000_0000
  {}

  // In numbers: an arithmetic progression modulo the size of the array.
  lemma PlaceIs(h1: u64, h2: u64, e: nat, i: nat)
    requires e <= 64
    ensures Place(h1, h2, e, i) == (h1 + i * h2) % Pow2(e)
  {
    hide Low, Pos, Pow2;
    PosIs(h1, h2, i);
    Pow2Values();
    LowIsRemainder(h1 + i * h2, 64);
    LowLow(h1 + i * h2, 64, e);
    LowIsRemainder(h1 + i * h2, e);
  }

  lemma LowMod8(x: nat, e: nat)
    requires e >= 3
    ensures Low(x, e) % 8 == x % 8
  {
    LowDigit(x, e);
    LowDigit(x / 2, e - 1);
    LowDigit(x / 2 / 2, e - 2);
    ThreeDigits(Low(x, e), Low(x / 2, e - 1), Low(x / 2 / 2, e - 2), Low(x / 2 / 2 / 2, e - 3), x);
  }

  lemma LowDigit(x: nat, e: nat)
    requires e >= 1
    ensures Low(x, e) == x % 2 + 2 * Low(x / 2, e - 1)
  {}

  lemma ThreeDigits(a: nat, b: nat, c: nat, d: nat, x: nat)
    requires a == x % 2 + 2 * b && b == x / 2 % 2 + 2 * c && c == x / 2 / 2 % 2 + 2 * d
    ensures a % 8 == x % 8
  {
    var y, z := x / 2, x / 2 / 2;
    var k := x % 2 + 2 * (y % 2) + 4 * (z % 2);
    SmallRemainder(k, z / 2, x);
    SmallRemainder(k, d, a);
  }

  lemma SmallRemainder(k: nat, q: nat, x: nat)
    requires k < 8 && x == k + 8 * q
    ensures x % 8 == k
  {}

  lemma {:induction false} PosMod8(h1: u64, h2: u64, i: nat)
    ensures Pos(h1, h2, i) % 8 == (h1 + i * h2) % 8
  {
    if i > 0 {
      PosMod8(h1, h2, i - 1);
      NextProduct(i, h2);
      StepMod8(Pos(h1, h2, i - 1), h1 + (i - 1) * h2, h2);
    } else {
      assert i * h2 == 0;
    }
  }

  lemma NextProduct(i: nat, h2: nat)
    requires i > 0
    ensures i * h2 == (i - 1) * h2 + h2
  {}

  lemma StepMod8(p: nat, q: nat, h2: nat)
    requires p % 8 == q % 8
    ensures (p + h2) % TWO64 % 8 == (q + h2) % 8
  {
    WrapMod8(p + h2);
  }

  lemma WrapMod8(x: nat)
    ensures x % TWO64 % 8 == x % 8
  {
    assert x % 0x1_0000_0000_0000_0000 % 8 == x % 8;
  }

  // An odd stride visits eight different residues modulo 8.
  lemma OddStride(h1: nat, h2: nat, i: nat, j: nat)
    requires h2 % 2 == 1 && i < j < 8
    ensures (h1 + i * h2) % 8 != (h1 + j * h2) % 8
  {
    StrideBy(h1, h2, i, j - i, h2 / 8, h2 % 8);
  }

  lemma StrideBy(h1: nat, h2: nat, i: nat, d: nat, q: nat, r: nat)
    requires 0 < d < 8 && h2 == 8 * q + r && r < 8 && r % 2 == 1
    ensures (h1 + i * h2) % 8 != (h1 + (i + d) * h2) % 8
  {
    assert (i + d) * h2 == i * h2 + 8 * (d * q) + d * r by {
      StrideProduct(i, d, q, r, h2);
    }
    assert d * r % 8 != 0 by {
      SmallProduct(d, r);
    }
    ShiftedResidue(h1, i * h2, (i + d) * h2, d * q, d * r);
  }

  lemma StrideProduct(i: nat, d: nat, q: nat, r: nat, h2: nat)
    requires h2 == 8 * q + r
    ensures (i + d) * h2 == i * h2 + 8 * (d * q) + d * r
  {
    assert (i + d) * h2 == i * h2 + d * h2;
    assert d * h2 == d * (8 * q) + d * r;
  }

  lemma SmallProduct(d: nat, r: nat)
    requires 0 < d < 8 && r < 8 && r % 2 == 1
    ensures d * r % 8 != 0
  {
    if r == 1 {
    } else if r == 3 {
    } else if r == 5 {
    } else {
      assert r == 7;
    }
  }

  lemma ShiftedResidue(h: nat, a: nat, b: nat, k: nat, y: nat)
    requires b == a + 8 * k + y && y % 8 != 0
    ensures (h + a) % 8 != (h + b) % 8
  {}

  lemma PlacesDistinct(h1: u64, h2: u64, e: nat, i: nat, j: nat)
    requires h2 % 2 == 1 && e >= 3 && i < j < 8
    ensures Place(h1, h2, e, i) != Place(h1, h2, e, j)
  {
    hide Low, Pos;
    LowMod8(Pos(h1, h2, i), e);
    LowMod8(Pos(h1, h2, j), e);
    PosMod8(h1, h2, i);
    PosMod8(h1, h2, j);
    OddStride(h1, h2, i, j);
  }

  lemma {:induction false} PlacesElements(h1: u64, h2: u64, e: nat, n: nat, p: nat)
    ensures p in Places(h1, h2, e, n) <==> exists i :: 0 <= i < n && p == Place(h1, h2, e, i)
  {
    hide Place;
    if n > 0 {
      PlacesElements(h1, h2, e, n - 1, p);
    }
  }

  // The eight positions of an odd stride are pairwise different, whatever wraps around.
  lemma {:induction false} PlacesCount(h1: u64, h2: u64, e: nat, n: nat)
    requires h2 % 2 == 1 && e >= 3 && n <= 8
    ensures |Places(h1, h2, e, n)| == n
  {
    hide Place;
    if n > 0 {
      PlacesCount(h1, h2, e, n - 1);
      PlacesElements(h1, h2, e, n - 1, Place(h1, h2, e, n - 1));
      forall i | 0 <= i < n - 1
        ensures Place(h1, h2, e, i) != Place(h1, h2, e, n - 1)
      {
        PlacesDistinct(h1, h2, e, i, n - 1);
      }
    }
  }

  // `prehash_split`
  function SecondHash(h: u64): u64 {
    var m: nat := h * 0x9e3779b97f4a7c15 % TWO64;
    Or(Xor(m, m / TWO32), 1)
  }

  // Bit 0 of the second hash is set; every other bit s says whether the bits s and s + 32 of the
  // product differ.
  lemma SecondHashBits(h: u64, s: nat)
    ensures var m: nat := h * 0x9e37_79b9_7f4a_7c15 % 0x1_0000_0000_0000_0000;
            Bit(SecondHash(h), s) <==> s == 0 || Bit(m, s) != Bit(m, s + 32)
  {
    hide Bit, Xor, Or, Shr, Pow2;
    var m: nat := h * 0x9e37_79b9_7f4a_7c15 % 0x1_0000_0000_0000_0000;
    Pow2Values();
    ShrIsQuotient(m, 32);
    OrBit(Xor(m, m / TWO32), 1, s);
    XorBits(m, Shr(m, 32), s);
    ShrBit(m, 32, s);
    Pow2Bit(0, s);
    assert Pow2(0) == 1 by { NoPower(); }
  }

  lemma NoPower()
    ensures Pow2(0) == 1
  {}

  lemma SecondHashOdd(h: u64)
    ensures SecondHash(h) % 2 == 1
  {
    hide Xor, Or;
    var m: nat := h * 0x9e3779b97f4a7c15 % TWO64;
    OrOne(Xor(m, m / TWO32));
  }

  lemma OrOne(x: nat)
    ensures Or(x, 1) % 2 == 1
  {
    OrDigit(x, 1);
  }

  // ---- The filter --------------------------------------------------------------------------------------

  class Classic {
    const bits: array<u64>
    const bitMask: nat
    ghost const e: nat  // 2^e bits

    ghost predicate Valid() {
      && e >= 6
      && bitMask == Pow2(e) - 1
      && 64 * bits.Length == Pow2(e)
    }

    // Beyond 2^63 bits the doubling would wrap to zero and never end.
    constructor (nbits: u64)
      requires nbits <= 0x8000_0000_0000_0000
      ensures Valid() && fresh(bits) && SetBits(bits[..]) == {}
      ensures nbits <= bitMask + 1 && (bitMask > 63 ==> bitMask + 1 < 2 * nbits)
    {
      var pow2: nat := 1;
      ghost var k := 0;
      while pow2 < nbits
        invariant pow2 == Pow2(k) && (k > 0 ==> pow2 < 2 * nbits)
        decreases nbits - pow2
      {
        pow2 := pow2 * 2 % TWO64;
        k := k + 1;
      }
      var nwords := pow2 / 64;
      SixtyFour(k);
      if nwords == 0 {
        nwords := 1;
        pow2 := 64;
        k := 6;
      }
      bitMask := pow2 - 1;
      bits := new u64[nwords](_ => 0);
      e := k;
      new;
      NothingSet(bits[..]);
    }

    ghost function State(): set<nat>
      reads bits
    {
      SetBits(bits[..])
    }

    method Locate(pos: u64) returns (p: nat)
      requires Valid()
      ensures p == Low(pos, e) && p < 64 * bits.Length
    {
      AndMask(pos, e);
      ShrLow(pos, e);
      p := And(pos, bitMask);
    }

    method PutBit(pos: u64)
      requires Valid()
      modifies bits
      ensures State() == old(State()) + {Low(pos, e)}
    {
      hide Low, Pow2, SetBits;
      var p := Locate(pos);
      WithBitSets(bits[..], p);
      BitFits(p % 64);
      ghost var after := WithBit(bits[..], p);
      bits[p / 64] := Or(bits[p / 64], Pow2(p % 64));
      assert bits[..] == after;
    }

    method GetBit(pos: u64) returns (isSet: bool)
      requires Valid()
      ensures isSet == (Low(pos, e) in State())
    {
      hide Low, Pow2;
      var p := Locate(pos);
      isSet := Shr(bits[p / 64], p % 64) % 2 == 1;
      ShiftedBit(bits[p / 64], p % 64);
    }

    method InsertWithPair(h1: u64, h2: u64)
      requires Valid()
      modifies bits
      ensures State() == old(State()) + Places(h1, h2, e, K_HASHES)
    {
      hide Low, Pow2;
      ghost var before := State();
      var pos: u64 := h1;
      for i := 0 to K_HASHES
        invariant pos == Pos(h1, h2, i) && State() == before + Places(h1, h2, e, i)
      {
        PutBit(pos);
        pos := (pos as nat + h2) % TWO64;
      }
    }

    method ContainsWithPair(h1: u64, h2: u64) returns (found: bool)
      requires Valid()
      ensures found == (Places(h1, h2, e, K_HASHES) <= State())
    {
      hide Low, Pow2, SetBits;
      var pos: u64 := h1;
      for i := 0 to K_HASHES
        invariant pos == Pos(h1, h2, i) && Places(h1, h2, e, i) <= State()
      {
        var isSet := GetBit(pos);
        if !isSet {
          PlacesElements(h1, h2, e, K_HASHES, Place(h1, h2, e, i));
          return false;
        }
        pos := (pos as nat + h2) % TWO64;
      }
      return true;
    }

    method InsertPrehash(h: u64)
      requires Valid()
      modifies bits
      ensures State() == old(State()) + Places(h, SecondHash(h), e, K_HASHES)
    {
      InsertWithPair(h, SecondHash(h));
    }

    method ContainsPrehash(h: u64) returns (found: bool)
      requires Valid()
      ensures found == (Places(h, SecondHash(h), e, K_HASHES) <= State())
    {
      found := ContainsWithPair(h, SecondHash(h));
    }

    method ContainsPrehashBulk(hashes: seq<u64>) returns (hits: nat)
      requires Valid()
      ensures hits == |set i | 0 <= i < |hashes| && Places(hashes[i], SecondHash(hashes[i]), e, 8) <= State()|
    {
      hide Places, SetBits, SecondHash;
      hits := 0;
      ghost var found: set<int> := {};
      for i := 0 to |hashes|
        invariant found == set k | 0 <= k < i && Places(hashes[k], SecondHash(hashes[k]), e, 8) <= State()
        invariant hits == |found|
      {
        var hit := ContainsPrehash(hashes[i]);
        hits := hits + if hit then 1 else 0;
        found := found + if hit then {i} else {};
      }
    }

    method InsertPrehashBulk(hashes: seq<u64>)
      requires Valid()
      modifies bits
      ensures State() == old(State()) + Union(hashes, e)
    {
      hide Places, SetBits, SecondHash;
      ghost var before := State();
      for i := 0 to |hashes|
        invariant State() == before + Union(hashes[..i], e)
      {
        InsertPrehash(hashes[i]);
        assert hashes[..i + 1][..i] == hashes[..i];
      }
      assert hashes[..|hashes|] == hashes;
    }
  }

  // The positions of all hashes of a run.
  function Union(hs: seq<u64>, e: nat): set<nat> {
    if hs == [] then {}
    else Union(hs[..|hs| - 1], e) + Places(hs[|hs| - 1], SecondHash(hs[|hs| - 1]), e, K_HASHES)
  }

  // Whatever is inserted is found after any run, and the run sets no bit of its own.
  lemma {:induction false} UnionMeaning(hs: seq<u64>, e: nat, p: nat)
    ensures p in Union(hs, e) <==>
            exists i :: 0 <= i < |hs| && p in Places(hs[i], SecondHash(hs[i]), e, K_HASHES)
    ensures p in Union(hs, e) <==>
            exists i, j: nat :: 0 <= i < |hs| && j < 8 && p == Place(hs[i], SecondHash(hs[i]), e, j)
  {
    hide Places, Place, SecondHash;
    if hs != [] {
      UnionMeaning(hs[..|hs| - 1], e, p);
      PlacesElements(hs[|hs| - 1], SecondHash(hs[|hs| - 1]), e, 8, p);
    }
  }

  // Inserting into an empty filter sets exactly eight bits; no insertion sets more.
  method InsertFirst(f: Classic, h: u64)
    requires f.Valid() && f.State() == {}
    modifies f.bits
    ensures |f.State()| == 8
  {
    hide Places, SetBits, SecondHash;
    f.InsertPrehash(h);
    SecondHashOdd(h);
    PlacesCount(h, SecondHash(h), f.e, K_HASHES);
    assert f.State() == Places(h, SecondHash(h), f.e, K_HASHES);
  }

  // A hash of the batch is found afterwards, for every state the filter started from.
  method InsertThenProbe(f: Classic, hashes: seq<u64>, h: u64) returns (found: bool)
    requires f.Valid()
    modifies f.bits
    ensures h in hashes ==> found
  {
    hide Places, SetBits, SecondHash;
    f.InsertPrehashBulk(hashes);
    found := f.ContainsPrehash(h);
    if h in hashes {
      var i :| 0 <= i < |hashes| && hashes[i] == h;
      forall p | p in Places(h, SecondHash(h), f.e, K_HASHES)
        ensures p in Union(hashes, f.e)
      {
        UnionMeaning(hashes, f.e, p);
      }
    }
  }

  lemma NothingSet(bits: seq<u64>)
    requires forall k :: 0 <= k < |bits| ==> bits[k] == 0
    ensures SetBits(bits) == {}
  {
    forall p | 0 <= p < 64 * |bits|
      ensures !IsSet(bits, p)
    {
      ZeroBit(p % 64);
    }
  }

  lemma SixtyFour(k: nat)
    ensures Pow2(6) == 64
    ensures k >= 6 ==> Pow2(k) % 64 == 0 && Pow2(k) >= 64
    ensures k < 6 ==> Pow2(k) < 64
  {
    Pow2Values();
    if k >= 6 {
      Pow2Add(6, k - 6);
      MulMono(1, Pow2(k - 6), 64);
    } else {
      Pow2Add(k, 6 - k);
      MulMono(2, Pow2(6 - k), Pow2(k));
    }
  }
}
