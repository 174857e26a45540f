/** `binary_fuse_sort_and_remove_dup`: an in-place sort followed by the removal of adjacent
    equal keys. */
module FuseDedup {
  import opened Words

  // The comparator truncates a 64-bit difference to a signed 32-bit result.
  function Compare(a: u64, b: u64): int {
    var low := (a as int - b) % TWO32;
    if low < 0x8000_0000 then low else low - TWO32
  }

  // The signed 32-bit number that is congruent to the difference.
  lemma CompareIs(a: u64, b: u64)
    ensures -0x8000_0000 <= Compare(a, b) < 0x8000_0000
    ensures (Compare(a, b) - (a as int - b)) % 0x1_0000_0000 == 0
  {
    var d := a as int - b;
    assert d - d % 0x1_0000_0000 == 0x1_0000_0000 * (d / 0x1_0000_0000);
  }

  // Truncation makes the comparator inconsistent: it calls different keys equal and is not
  // transitive, so nothing may be assumed about the order that the sort leaves.
  lemma CompareInconsistent()
    ensures exists a: u64, b: u64 :: a != b && Compare(a, b) == 0
    ensures exists a: u64, b: u64, c: u64 :: Compare(a, b) < 0 && Compare(b, c) < 0 && Compare(a, c) > 0
  {
    assert Compare(0, TWO32) == 0;
    assert Compare(0, 0x6000_0000) < 0 && Compare(0x6000_0000, 0xC000_0000) < 0 && Compare(0, 0xC000_0000) > 0;
  }

  // Keeps an element when it differs from its predecessor.
  function Compact(s: seq<u64>): (r: seq<u64>)
    ensures |r| <= |s|
  {
    if |s| <= 1 then s
    else if s[|s| - 1] != s[|s| - 2] then Compact(s[..|s| - 1]) + [s[|s| - 1]]
    else Compact(s[..|s| - 1])
  }

  lemma {:induction false} CompactElements(s: seq<u64>, x: u64)
    ensures x in Compact(s) <==> x in s
    ensures s != [] ==> Compact(s) != [] && Compact(s)[|Compact(s)| - 1] == s[|s| - 1]
  {
    if |s| > 1 {
      var n := |s| - 1;
      CompactElements(s[..n], x);
      assert s == s[..n] + [s[n]];
      assert s[..n][n - 1] == s[n - 1];
    }
  }

  lemma CompactNext(s: seq<u64>, i: nat)
    requires 0 < i < |s|
    ensures Compact(s[..i + 1]) == if s[i] != s[i - 1] then Compact(s[..i]) + [s[i]] else Compact(s[..i])
  {
    assert s[..i + 1][..i] == s[..i];
  }

  // The first of a group of equal neighbours.
  predicate Kept(s: seq<u64>, i: nat)
    requires i < |s|
  {
    i == 0 || s[i] != s[i - 1]
  }

  lemma CompactSteps(s: seq<u64>, i: nat)
    requires i < |s|
    ensures Compact(s[..i + 1]) == Compact(s[..i]) + if Kept(s, i) then [s[i]] else []
  {
    if i > 0 {
      CompactNext(s, i);
    }
  }

  lemma {:induction false} CompactLength(s: seq<u64>, n: nat)
    requires n <= |s|
    ensures |Compact(s[..n])| == |set i: nat | i < n && Kept(s, i)|
  {
    var kept := set i: nat | i < n && Kept(s, i);
    if n == 0 {
      assert kept == {};
    } else {
      var before := set i: nat | i < n - 1 && Kept(s, i);
      CompactSteps(s, n - 1);
      hide Compact, Kept;
      CompactLength(s, n - 1);
      CountOneMore(before, kept, n - 1, Kept(s, n - 1));
    }
  }

  // What is left are the first elements of the groups, in their order.
  lemma {:induction false} CompactIs(s: seq<u64>, n: nat, i: nat)
    requires i < n <= |s| && Kept(s, i)
    ensures var k := |set j: nat | j < i && Kept(s, j)|;
            k < |Compact(s[..n])| && Compact(s[..n])[k] == s[i]
  {
    assert s[..n][..n - 1] == s[..n - 1];
    CompactLength(s, i);
    if i < n - 1 {
      CompactIs(s, n - 1, i);
    }
  }

  // Equal keys stand next to each other.
  ghost predicate Grouped(s: seq<u64>) {
    forall i, j, k :: 0 <= i < j < k < |s| && s[i] == s[k] ==> s[j] == s[i]
  }

  lemma DistinctSnoc(r: seq<u64>, x: u64)
    ensures Distinct(r + [x]) <==> Distinct(r) && x !in r
  {
    var longer := r + [x];
    if Distinct(longer) {
      forall i, j | 0 <= i < j < |r|
        ensures r[i] != r[j]
      {
        assert longer[i] != longer[j];
      }
      forall i | 0 <= i < |r|
        ensures r[i] != x
      {
        assert longer[i] != longer[|r|];
      }
    }
  }

  lemma GroupedSnoc(s: seq<u64>, x: u64)
    requires s != []
    ensures Grouped(s + [x]) <==> Grouped(s) && (x in s ==> s[|s| - 1] == x)
  {
    var longer, n := s + [x], |s|;
    if Grouped(longer) {
      forall i, j, k | 0 <= i < j < k < n && s[i] == s[k]
        ensures s[j] == s[i]
      {
        assert longer[i] == longer[k];
        assert longer[j] == longer[i];
      }
      forall i | 0 <= i < n && s[i] == x
        ensures s[n - 1] == x
      {
        if i < n - 1 {
          assert longer[i] == longer[n];
          assert longer[n - 1] == longer[i];
        }
      }
    }
    if Grouped(s) && (x in s ==> s[n - 1] == x) {
      forall i, j, k | 0 <= i < j < k < |longer| && longer[i] == longer[k]
        ensures longer[j] == longer[i]
      {
        if k == n && j < n - 1 {
          assert s[i] == s[j] == s[n - 1];
        }
      }
    }
  }

  // All duplicates are gone exactly when equal keys were adjacent.
  lemma {:induction false} CompactDistinctIffGrouped(s: seq<u64>)
    ensures Distinct(Compact(s)) <==> Grouped(s)
  {
    hide Distinct, Grouped;
    if |s| <= 1 {
      ShortSequences(s);
    } else {
      var n := |s| - 1;
      CompactDistinctIffGrouped(s[..n]);
      CompactElements(s[..n], s[n]);
      GroupedSnoc(s[..n], s[n]);
      assert s == s[..n] + [s[n]] && s[..n][n - 1] == s[n - 1];
      if s[n] != s[n - 1] {
        DistinctSnoc(Compact(s[..n]), s[n]);
      }
    }
  }

  lemma ShortSequences(s: seq<u64>)
    requires |s| <= 1
    ensures Distinct(s) && Grouped(s)
  {}

  // The outcome of `qsort` with that comparator: some rearrangement of the first `length`
  // keys, whichever exchanges the library makes.
  method Rearrange(keys: array<u64>, length: nat)
    requires length <= keys.Length
    modifies keys
    ensures multiset(keys[..length]) == multiset(old(keys[..length]))
    ensures keys[length..] == old(keys[length..])
  {
    var exchanges: nat :| exchanges >= 0;
    for step := 0 to exchanges
      invariant multiset(keys[..length]) == multiset(old(keys[..length]))
      invariant keys[length..] == old(keys[length..])
    {
      if length > 0 {
        var i: nat :| i < length;
        var j: nat :| j < length;
        ghost var before := keys[..length];
        keys[i], keys[j] := keys[j], keys[i];
        assert keys[..length] == before[i := before[j]][j := before[i]];
      }
    }
  }

  // Halfway through the compaction: the kept keys, then the untouched ones.
  function Halfway(keys: seq<u64>, i: nat): seq<u64>
    requires i <= |keys|
  {
    Compact(keys[..i]) + keys[|Compact(keys[..i])|..]
  }

  // An overwritten predecessor was overwritten with itself.
  lemma HalfwayReads(keys: seq<u64>, i: nat)
    requires 0 < i < |keys|
    ensures Halfway(keys, i)[i] == keys[i] && Halfway(keys, i)[i - 1] == keys[i - 1]
  {
    CompactElements(keys[..i], 0);
  }

  lemma HalfwayStep(keys: seq<u64>, i: nat)
    requires 0 < i < |keys|
    ensures Halfway(keys, i + 1) ==
            if keys[i] != keys[i - 1] then Halfway(keys, i)[|Compact(keys[..i])| := keys[i]] else Halfway(keys, i)
    ensures |Compact(keys[..i + 1])| == |Compact(keys[..i])| + if keys[i] != keys[i - 1] then 1 else 0
  {
    hide Compact;
    CompactNext(keys, i);
  }

  // The compaction loop.
  method RemoveAdjacent(keys: array<u64>, length: nat) returns (j: nat)
    requires 0 < length <= keys.Length
    modifies keys
    ensures j == |Compact(old(keys[..length]))|
    ensures keys[..] == Halfway(old(keys[..]), length)
  {
    ghost var before := keys[..];
    j := 1;
    assert before[..1] == [before[0]] && Halfway(before, 1) == before;
    hide Compact, Halfway;
    for i := 1 to length
      invariant j == |Compact(before[..i])| && keys[..] == Halfway(before, i)
    {
      HalfwayReads(before, i);
      HalfwayStep(before, i);
      if keys[i] != keys[i - 1] {
        keys[j] := keys[i];
        j := j + 1;
      }
    }
    assert before[..length] == old(keys[..length]);
  }

  method SortAndRemoveDup(keys: array<u64>, length: nat) returns (j: nat, ghost sorted: seq<u64>)
    requires length <= keys.Length
    modifies keys
    ensures multiset(sorted) == multiset(old(keys[..length]))
    ensures length == 0 ==> j == 1
    ensures length > 0 ==> 0 < j <= length && keys[..j] == Compact(sorted)
    ensures forall k :: 0 <= k < length ==> keys[k] in sorted
    ensures keys[length..] == old(keys[length..])
  {
    Rearrange(keys, length);
    sorted := keys[..length];
    j := 1;
    if length > 0 {
      ghost var before := keys[..];
      j := RemoveAdjacent(keys, length);
      CompactElements(sorted, sorted[0]);
      HalfwayShape(before, keys[..], length);
    }
  }

  lemma HalfwayShape(before: seq<u64>, after: seq<u64>, length: nat)
    requires length <= |before| && after == Halfway(before, length)
    ensures |after| == |before| && |Compact(before[..length])| <= length
    ensures after[..|Compact(before[..length])|] == Compact(before[..length])
    ensures after[length..] == before[length..]
    ensures forall k :: 0 <= k < length ==> after[k] in before[..length]
  {
    var kept := Compact(before[..length]);
    forall k | 0 <= k < length
      ensures after[k] in before[..length]
    {
      if k < |kept| {
        assert after[k] == kept[k];
        CompactElements(before[..length], kept[k]);
      } else {
        assert after[k] == before[..length][k];
      }
    }
  }
}
