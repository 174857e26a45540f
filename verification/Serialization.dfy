/** The wire format of the filter: the lanes in memory order, four bytes each, lowest first. */
module Serialization {
  import opened Words
  import opened Sbbf
  import opened QuickBloom

  const BLOCK_BYTES: nat := 32
  const MAX_BYTES: nat := 0x4000_0000

  // Byte k of a lane on a little-endian machine.
  function ByteOf(x: u32, k: nat): Byte
    requires k < 4
  {
    if k == 0 then x % 256 else if k == 1 then x / 256 % 256 else if k == 2 then x / 65536 % 256 else x / 16777216
  }

  function FromBytes(b0: Byte, b1: Byte, b2: Byte, b3: Byte): u32 {
    b0 as nat + 256 * b1 + 65536 * b2 + 16777216 * b3
  }

  lemma LaneRoundTrip(x: u32)
    ensures FromBytes(ByteOf(x, 0), ByteOf(x, 1), ByteOf(x, 2), ByteOf(x, 3)) == x
  {
    var y := x / 256;
    assert x / 65536 == y / 256 && x / 16777216 == y / 256 / 256;
  }

  lemma BytesRoundTrip(b0: Byte, b1: Byte, b2: Byte, b3: Byte)
    ensures var x := FromBytes(b0, b1, b2, b3);
            ByteOf(x, 0) == b0 && ByteOf(x, 1) == b1 && ByteOf(x, 2) == b2 && ByteOf(x, 3) == b3
  {
    var x, y, z, w: nat := FromBytes(b0, b1, b2, b3), b1 + 256 * b2 + 65536 * b3, b2 + 256 * b3, b3;
    assert x == 256 * y + b0 && y == 256 * z + b1 && z == 256 * w + b2;
    assert x / 256 == y && x / 65536 == z && x / 16777216 == w;
  }

  // What `memcpy` of the lanes leaves in a byte buffer, and back.
  function Bytes(bits: seq<u32>): (bytes: seq<Byte>)
    ensures |bytes| == 4 * |bits|
  {
    seq(4 * |bits|, i requires 0 <= i < 4 * |bits| => ByteOf(bits[i / 4], i % 4))
  }

  function Lanes(bytes: seq<Byte>): (bits: seq<u32>)
    ensures |bits| == |bytes| / 4
  {
    seq(|bytes| / 4, j requires 0 <= j < |bytes| / 4 =>
      FromBytes(bytes[4 * j], bytes[4 * j + 1], bytes[4 * j + 2], bytes[4 * j + 3]))
  }

  lemma LanesOfBytes(bits: seq<u32>)
    ensures Lanes(Bytes(bits)) == bits
  {
    hide ByteOf, FromBytes;
    var bytes := Bytes(bits);
    forall j | 0 <= j < |bits|
      ensures Lanes(bytes)[j] == bits[j]
    {
      LaneRoundTrip(bits[j]);
      assert (4 * j + 1) / 4 == j && (4 * j + 2) / 4 == j && (4 * j + 3) / 4 == j;
      assert bytes[4 * j] == ByteOf(bits[j], 0) && bytes[4 * j + 1] == ByteOf(bits[j], 1);
      assert bytes[4 * j + 2] == ByteOf(bits[j], 2) && bytes[4 * j + 3] == ByteOf(bits[j], 3);
    }
  }

  lemma BytesSpell(bits: seq<u32>, bytes: seq<Byte>)
    requires bytes == Bytes(bits)
    ensures forall j :: 0 <= j < |bits| ==>
              bytes[4 * j] as nat + 256 * bytes[4 * j + 1] as nat + 65536 * bytes[4 * j + 2] as nat
              + 16777216 * bytes[4 * j + 3] as nat == bits[j]
  {
    hide ByteOf, Bytes;
    LanesOfBytes(bits);
    forall j | 0 <= j < |bits|
      ensures bytes[4 * j] as nat + 256 * bytes[4 * j + 1] as nat + 65536 * bytes[4 * j + 2] as nat
              + 16777216 * bytes[4 * j + 3] as nat == bits[j]
    {
      assert Lanes(bytes)[j] == bits[j];
    }
  }

  lemma BytesOfLanes(bytes: seq<Byte>)
    requires |bytes| % 4 == 0
    ensures Bytes(Lanes(bytes)) == bytes
  {
    hide ByteOf, FromBytes;
    forall i | 0 <= i < |bytes|
      ensures Bytes(Lanes(bytes))[i] == bytes[i]
    {
      var j := i / 4;
      BytesRoundTrip(bytes[4 * j], bytes[4 * j + 1], bytes[4 * j + 2], bytes[4 * j + 3]);
      assert i == 4 * j + i % 4;
    }
  }

  // ---- The power-of-two test ---------------------------------------------------------------

  ghost predicate IsPower(n: nat) {
    exists k: nat :: n == Pow2(k)
  }

  lemma PowerHalves(n: nat)
    requires n > 1
    ensures IsPower(n) <==> n % 2 == 0 && IsPower(n / 2)
  {
    if IsPower(n) {
      var k: nat :| n == Pow2(k);
      assert k > 0 && n == 2 * Pow2(k - 1);
    }
    if n % 2 == 0 && IsPower(n / 2) {
      var k: nat :| n / 2 == Pow2(k);
      assert n == Pow2(k + 1);
    }
  }

  lemma IsPowerMeans(n: nat)
    ensures IsPower(n) <==> exists k: nat :: n == Pow2(k)
  {
    if k: nat :| n == Pow2(k) {
      assert IsPower(n);
    }
    if IsPower(n) {
      var k: nat :| n == Pow2(k);
      assert n == Pow2(k);
    }
  }

  lemma {:induction false} PowerOfTwoTest(n: nat)
    requires n > 0
    ensures And(n, n - 1) == 0 <==> exists k: nat :: n == Pow2(k)
    ensures And(n, n - 1) == 0 <==> IsPower(n)
  {
    if n == 1 {
      assert Pow2(0) == 1;
      AndZero(1);
    } else {
      PowerHalves(n);
      IsPowerMeans(n);
      hide And, Pow2, IsPower;
      AndStep(n, n - 1);
      if n % 2 == 0 {
        PowerOfTwoTest(n / 2);
        assert (n - 1) / 2 == n / 2 - 1;
      } else {
        AndSame(n / 2);
        assert (n - 1) / 2 == n / 2;
      }
    }
  }

  lemma {:induction false} AndSame(n: nat)
    ensures And(n, n) == n
  {
    if n > 0 {
      AndSame(n / 2);
    }
  }

  // ---- The two operations -----------------------------------------------------------------------

  method Serialize(b: QuickBloom, dst: array<Byte>)
    requires b.Valid() && dst.Length >= b.Blocks() * BLOCK_BYTES
    modifies dst
    ensures dst[..b.Blocks() * BLOCK_BYTES] == Bytes(b.bits[..])
    ensures forall j :: 0 <= j < b.bits.Length ==>
              dst[4 * j] as nat + 256 * dst[4 * j + 1] as nat + 65536 * dst[4 * j + 2] as nat
              + 16777216 * dst[4 * j + 3] as nat == b.bits[j]
    ensures dst[b.Blocks() * BLOCK_BYTES..] == old(dst[b.Blocks() * BLOCK_BYTES..])
  {
    hide ByteOf;
    var nbytes := b.Blocks() * BLOCK_BYTES;
    assert nbytes == 4 * b.bits.Length;
    forall i | 0 <= i < nbytes {
      dst[i] := ByteOf(b.bits[i / 4], i % 4);
    }
    assert dst[..nbytes] == Bytes(b.bits[..]);
    BytesSpell(b.bits[..], dst[..nbytes]);
  }

  // The inputs that `qb_deserialize` accepts: a power of two of blocks, at most one gibibyte.
  ghost predicate Acceptable(nbytes: nat) {
    0 < nbytes <= 0x4000_0000 && exists k: nat :: nbytes == 32 * Pow2(k)
  }

  lemma AcceptableTest(nbytes: nat)
    ensures Acceptable(nbytes) <==>
            && 0 < nbytes <= MAX_BYTES && nbytes % BLOCK_BYTES == 0
            && And(nbytes / BLOCK_BYTES, nbytes / BLOCK_BYTES - 1) == 0
  {
    hide And, Pow2;
    if k: nat :| nbytes == 32 * Pow2(k) {
      assert nbytes / BLOCK_BYTES == Pow2(k);
      PowerOfTwoTest(Pow2(k));
    }
    if 0 < nbytes && nbytes % BLOCK_BYTES == 0 {
      PowerOfTwoTest(nbytes / BLOCK_BYTES);
      if k: nat :| nbytes / BLOCK_BYTES == Pow2(k) {
        assert nbytes == 32 * Pow2(k);
      }
    }
  }

  method Deserialize(bytes: seq<Byte>) returns (b: QuickBloom?)
    ensures b != null <==> Acceptable(|bytes|)
    ensures b != null ==> fresh(b) && fresh(b.bits) && b.Valid() && b.Blocks() * BLOCK_BYTES == |bytes|
    ensures b != null ==> Bytes(b.bits[..]) == bytes
    ensures b != null ==> forall j :: 0 <= j < b.bits.Length ==>
              bytes[4 * j] as nat + 256 * bytes[4 * j + 1] as nat + 65536 * bytes[4 * j + 2] as nat
              + 16777216 * bytes[4 * j + 3] as nat == b.bits[j]
  {
    AcceptableTest(|bytes|);
    hide Acceptable, And, Pow2, Bytes, Lanes;
    b := null;
    var nbytes := |bytes|;
    if nbytes == 0 || nbytes > MAX_BYTES {
      return;
    }
    if nbytes % BLOCK_BYTES != 0 {
      return;
    }
    var nblocks := nbytes / BLOCK_BYTES;
    if And(nblocks, nblocks - 1) != 0 {
      return;
    }
    PowerOfTwoTest(nblocks);
    ghost var k: nat :| nblocks == Pow2(k);
    SmallExponent(k);
    b := new QuickBloom(nblocks, k);
    CopyLanes(bytes, b.bits);
    BytesOfLanes(bytes);
    BytesSpell(b.bits[..], bytes);
  }

  method CopyLanes(bytes: seq<Byte>, bits: array<u32>)
    requires |bytes| == 4 * bits.Length
    modifies bits
    ensures bits[..] == Lanes(bytes)
  {
    hide FromBytes;
    forall j | 0 <= j < bits.Length {
      bits[j] := FromBytes(bytes[4 * j], bytes[4 * j + 1], bytes[4 * j + 2], bytes[4 * j + 3]);
    }
  }

  lemma SmallExponent(k: nat)
    requires Pow2(k) <= 0x200_0000
    ensures k <= 31
  {
    if k > 31 {
      Pow31();
      Pow2Strict(31, k);
    }
  }

  // A filter of at most the size cap survives a round trip, and both copies stay equal byte
  // for byte under further insertions.
  method RoundTrip(b: QuickBloom, hashes: seq<u64>) returns (c: QuickBloom?)
    requires b.Valid()
    modifies b.bits
    ensures c != null <==> b.Blocks() * 32 <= 0x4000_0000
    ensures c != null ==> c.Valid() && c.Blocks() == b.Blocks() && c.bits[..] == b.bits[..]
    ensures b.bits[..] == InsertAll(old(b.bits[..]), b.Blocks(), hashes)
  {
    hide InsertAll, Bytes, Lanes, Pow2;
    var dst := new Byte[b.Blocks() * BLOCK_BYTES];
    Serialize(b, dst);
    assert b.Blocks() == Pow2(32 - b.idxShift);
    assert dst[..] == dst[..b.Blocks() * BLOCK_BYTES];
    c := Deserialize(dst[..]);
    if c != null {
      LanesOfBytes(b.bits[..]);
      LanesOfBytes(c.bits[..]);
      c.InsertPrehashBulk(hashes);
    }
    b.InsertPrehashBulk(hashes);
  }
}
