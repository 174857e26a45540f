module FuseTable {
  import opened Words

  datatype Slots = Slots(p0: nat, p1: nat, p2: nat) {
    predicate In(n: nat) {
      p0 < n && p1 < n && p2 < n && p0 != p1 && p0 != p2 && p1 != p2
    }

    predicate Has(s: nat) {
      s == p0 || s == p1 || s == p2
    }

    function At(k: nat): nat
      requires k < 3
    {
      if k == 0 then p0 else if k == 1 then p1 else p2
    }

    function PositionOf(s: nat): (k: nat)
      requires Has(s)
      ensures k < 3 && At(k) == s
    {
      if s == p0 then 0 else if s == p1 then 1 else 2
    }
  }

  type SlotFn = u64 -> Slots

  ghost predicate Good(hf: SlotFn, n: nat) {
    forall h :: hf(h).In(n)
  }

  type Position = k: nat | k < 4

  datatype Tally = Tally(count: nat, pos: Position, hash: u64)

  function Plus(a: Tally, b: Tally): Tally {
    Tally(a.count + b.count, Xor(a.pos, b.pos), Xor(a.hash, b.hash))
  }

  const Zero := Tally(0, 0, 0)

  function One(hf: SlotFn, h: u64, s: nat): Tally {
    if hf(h).Has(s) then Tally(1, hf(h).PositionOf(s), h) else Zero
  }

  function Sum(hf: SlotFn, S: seq<u64>, s: nat): Tally {
    if S == [] then Zero else Plus(Sum(hf, S[..|S| - 1], s), One(hf, S[|S| - 1], s))
  }

  lemma PlusAssoc(a: Tally, b: Tally, c: Tally)
    ensures Plus(Plus(a, b), c) == Plus(a, Plus(b, c))
  {
    XorAssoc(a.pos, b.pos, c.pos);
    XorAssoc(a.hash, b.hash, c.hash);
  }

  lemma PlusComm(a: Tally, b: Tally)
    ensures Plus(a, b) == Plus(b, a)
  {
    XorComm(a.pos, b.pos);
    XorComm(a.hash, b.hash);
  }

  lemma PlusZero(a: Tally)
    ensures Plus(a, Zero) == a && Plus(Zero, a) == a
  {
    XorZero(a.pos);
    XorZero(a.hash);
  }

  lemma {:induction false} SumConcat(hf: SlotFn, A: seq<u64>, B: seq<u64>, s: nat)
    ensures Sum(hf, A + B, s) == Plus(Sum(hf, A, s), Sum(hf, B, s))
  {
    if B == [] {
      assert A + B == A;
      PlusZero(Sum(hf, A, s));
    } else {
      var n := |B| - 1;
      assert (A + B)[..|A + B| - 1] == A + B[..n];
      SumConcat(hf, A, B[..n], s);
      PlusAssoc(Sum(hf, A, s), Sum(hf, B[..n], s), One(hf, B[n], s));
    }
  }

  function Without(S: seq<u64>, k: nat): seq<u64>
    requires k < |S|
  {
    S[..k] + S[k + 1..]
  }

  lemma SumWithout(hf: SlotFn, S: seq<u64>, k: nat, s: nat)
    requires k < |S|
    ensures Sum(hf, S, s) == Plus(Sum(hf, Without(S, k), s), One(hf, S[k], s))
  {
    var A, x, B := S[..k], S[k], S[k + 1..];
    assert S == (A + [x]) + B;
    SumConcat(hf, A + [x], B, s);
    SumConcat(hf, A, B, s);
    assert (A + [x])[..k] == A;
    var a, o, b := Sum(hf, A, s), One(hf, x, s), Sum(hf, B, s);
    PlusAssoc(a, o, b);
    PlusComm(o, b);
    PlusAssoc(a, b, o);
  }

  lemma SumLast(hf: SlotFn, S: seq<u64>, s: nat)
    requires S != []
    ensures var h := S[|S| - 1];
            if hf(h).Has(s) then Sum(hf, S, s).count == Sum(hf, S[..|S| - 1], s).count + 1
            else Sum(hf, S, s) == Sum(hf, S[..|S| - 1], s)
  {
    PlusZero(Sum(hf, S[..|S| - 1], s));
  }

  ghost predicate NoneTouch(hf: SlotFn, S: seq<u64>, s: nat) {
    forall k :: 0 <= k < |S| ==> !hf(S[k]).Has(s)
  }

  lemma {:induction false} Untouched(hf: SlotFn, S: seq<u64>, s: nat)
    ensures Sum(hf, S, s).count == 0 <==> NoneTouch(hf, S, s)
  {
    if S == [] {
    } else if hf(S[|S| - 1]).Has(s) {
      SumLast(hf, S, s);
      assert !NoneTouch(hf, S, s);
    } else {
      SumLast(hf, S, s);
      Untouched(hf, S[..|S| - 1], s);
    }
  }

  lemma {:induction false} EmptyTally(hf: SlotFn, S: seq<u64>, s: nat)
    requires Sum(hf, S, s).count == 0
    ensures Sum(hf, S, s) == Zero
  {
    if S != [] {
      SumLast(hf, S, s);
      EmptyTally(hf, S[..|S| - 1], s);
    }
  }

  lemma {:induction false} OnlyToucher(hf: SlotFn, S: seq<u64>, s: nat) returns (k: nat)
    requires Sum(hf, S, s).count == 1
    ensures k < |S| && hf(S[k]).Has(s) && Sum(hf, S, s) == One(hf, S[k], s)
  {
    var n := |S| - 1;
    SumLast(hf, S, s);
    if hf(S[n]).Has(s) {
      EmptyTally(hf, S[..n], s);
      PlusZero(One(hf, S[n], s));
      k := n;
    } else {
      k := OnlyToucher(hf, S[..n], s);
    }
  }

  lemma {:induction false} TouchedByOne(hf: SlotFn, C: seq<u64>, s: nat, h: u64)
    requires hf(h).Has(s)
    requires forall i :: 0 <= i < |C| && hf(C[i]).Has(s) ==> C[i] == h
    ensures Sum(hf, C, s).count == multiset(C)[h]
  {
    if C != [] {
      var n := |C| - 1;
      SumLast(hf, C, s);
      TouchedByOne(hf, C[..n], s, h);
      assert C == C[..n] + [C[n]];
    }
  }

  // The count of a tally is the number of entries that touch the slot.
  lemma {:induction false} SumIsCount(hf: SlotFn, S: seq<u64>, s: nat)
    ensures Sum(hf, S, s).count == |set i | 0 <= i < |S| && hf(S[i]).Has(s)|
  {
    hide Sum;
    var touching := set i | 0 <= i < |S| && hf(S[i]).Has(s);
    if S == [] {
      assert touching == {};
      NothingSummed(hf, s);
    } else {
      var n := |S| - 1;
      var before := set i | 0 <= i < n && hf(S[..n][i]).Has(s);
      SumIsCount(hf, S[..n], s);
      SumLast(hf, S, s);
      CountOneMore(before, touching, n, hf(S[n]).Has(s));
    }
  }

  lemma NothingSummed(hf: SlotFn, s: nat)
    ensures Sum(hf, [], s).count == 0
  {}

  lemma {:induction false} SumAtMost(hf: SlotFn, S: seq<u64>, s: nat)
    ensures Sum(hf, S, s).count <= |S|
  {
    if S != [] {
      SumAtMost(hf, S[..|S| - 1], s);
      SumLast(hf, S, s);
    }
  }

  // ---- The packed cells of the two working arrays --------------------------------------

  datatype Cell = Cell(count: Byte, hash: u64)

  // Six count bits over two position bits; the count wraps at 64.
  function Encode(a: Tally): Cell {
    Cell(4 * (a.count % 64) + a.pos, a.hash)
  }

  function AttachCell(c: Cell, h: u64, q: Position): Cell {
    Cell(Xor((c.count + 4) % 256, q), Xor(c.hash, h))
  }

  function DetachCell(c: Cell, h: u64, q: Position): Cell {
    Cell(Xor((c.count + 252) % 256, q), Xor(c.hash, h))
  }

  lemma XorLowBits(c: nat, p: Position, q: Position)
    ensures Xor(4 * c + p, q) == 4 * c + Xor(p, q)
  {
    hide Xor;
    XorZero(c);
    XorZero(0);
    var p0, p1, q0, q1 := p % 2, p / 2, q % 2, q / 2;
    XorUnfold(p0, 2 * c + p1, q0, q1);
    XorUnfold(p1, c, q1, 0);
    XorUnfold(p0, p1, q0, q1);
    XorUnfold(p1, 0, q1, 0);
  }

  lemma CountWraps(c: nat, p: Position)
    ensures (4 * (c % 64) + p + 4) % 256 == 4 * ((c + 1) % 64) + p
    ensures (4 * ((c + 1) % 64) + p + 252) % 256 == 4 * (c % 64) + p
  {
    var r := c % 64;
    assert (c + 1) % 64 == if r == 63 then 0 else r + 1;
  }

  lemma AttachEncodes(a: Tally, h: u64, q: Position)
    ensures AttachCell(Encode(a), h, q) == Encode(Plus(a, Tally(1, q, h)))
  {
    hide Xor;
    CountWraps(a.count, a.pos);
    XorLowBits((a.count + 1) % 64, a.pos, q);
  }

  lemma DetachEncodes(a: Tally, h: u64, q: Position)
    ensures DetachCell(Encode(Plus(a, Tally(1, q, h))), h, q) == Encode(a)
  {
    hide Xor;
    var p := Xor(a.pos, q);
    assert Xor((4 * ((a.count + 1) % 64) + p + 252) % 256, q) == 4 * (a.count % 64) + a.pos by {
      CountWraps(a.count, p);
      XorLowBits(a.count % 64, p, q);
      XorCancel(a.pos, q);
    }
    XorCancel(a.hash, h);
  }

  datatype Table = Table(counts: seq<Byte>, hashes: seq<u64>) {
    predicate Shaped(n: nat) {
      |counts| == n && |hashes| == n
    }

    function At(s: nat): Cell
      requires s < |counts| && s < |hashes|
    {
      Cell(counts[s], hashes[s])
    }

    function With(s: nat, c: Cell): Table
      requires s < |counts| && s < |hashes|
    {
      Table(counts[s := c.count], hashes[s := c.hash])
    }

    function Attach(s: nat, h: u64, q: Position): Table
      requires s < |counts| && s < |hashes|
    {
      With(s, AttachCell(At(s), h, q))
    }

    function Detach(s: nat, h: u64, q: Position): Table
      requires s < |counts| && s < |hashes|
    {
      With(s, DetachCell(At(s), h, q))
    }
  }

  ghost predicate ExactAt(hf: SlotFn, t: Table, S: seq<u64>, s: nat)
    requires s < |t.counts| && s < |t.hashes|
  {
    t.At(s) == Encode(Sum(hf, S, s))
  }
}
