/** Machine words as naturals: fixed widths, powers of two, and the bitwise operators
    that the filters apply to them.  Wrap-around is always written out with `%`. */
module Words {
  const TWO32: nat := 0x1_0000_0000
  const TWO64: nat := 0x1_0000_0000_0000_0000

  type u64 = n: nat | n < TWO64
  type u32 = n: nat | n < TWO32
  type Byte = n: nat | n < 256

  function Pow2(k: nat): (p: nat)
    ensures p >= 1
  {
    if k == 0 then 1 else 2 * Pow2(k - 1)
  }

  lemma MulDouble(q: nat, p: nat)
    ensures q * (2 * p) == 2 * (q * p)
  {}

  lemma MulMono(a: nat, b: nat, c: nat)
    requires a <= b
    ensures a * c <= b * c
  {
    assert (b - a) * c >= 0;
  }

  lemma MulLess(a: nat, b: nat, c: nat)
    requires a * c < b * c
    ensures a < b
  {
    if b <= a {
      MulMono(b, a, c);
    }
  }

  // The quotient is the only number of divisors that fits.
  lemma DivUnique(x: nat, d: nat, q: nat)
    requires d > 0 && q * d <= x < q * d + d
    ensures x / d == q
  {
    var r := x / d;
    assert r * d <= x < r * d + d;
    assert (r + 1) * d == r * d + d && (q + 1) * d == q * d + d;
    MulLess(r, q + 1, d);
    MulLess(q, r + 1, d);
  }

  lemma {:induction false} Pow2Add(i: nat, j: nat)
    ensures Pow2(i + j) == Pow2(i) * Pow2(j)
  {
    if j > 0 {
      Pow2Add(i, j - 1);
      MulDouble(Pow2(i), Pow2(j - 1));
    } else {
      assert Pow2(i) * 1 == Pow2(i);
    }
  }

  lemma {:induction false} Pow2Mono(i: nat, j: nat)
    requires i <= j
    ensures Pow2(i) <= Pow2(j)
  {
    if i < j {
      Pow2Mono(i, j - 1);
    }
  }

  lemma {:induction false} Pow2Strict(i: nat, j: nat)
    requires i < j
    ensures Pow2(i) < Pow2(j)
  {
    if i < j - 1 {
      Pow2Strict(i, j - 1);
    }
  }

  lemma Pow2Values()
    ensures Pow2(2) == 4 && Pow2(8) == 256 && Pow2(32) == TWO32 && Pow2(64) == TWO64
  {
    assert Pow2(2) == 4 && Pow2(4) == 16;
    Pow2Add(4, 4);
    Pow2Add(8, 8);
    Pow2Add(16, 16);
    Pow2Add(32, 32);
  }

  // The `>>` operator of C on unsigned words.
  function Shr(x: nat, k: nat): nat {
    if k == 0 then x else Shr(x / 2, k - 1)
  }

  // The `&` operator of C with the mask `(1 << k) - 1`.
  function Low(x: nat, k: nat): nat {
    if k == 0 then 0 else x % 2 + 2 * Low(x / 2, k - 1)
  }

  lemma {:induction false} ShrLow(x: nat, k: nat)
    ensures x == Shr(x, k) * Pow2(k) + Low(x, k)
    ensures Low(x, k) < Pow2(k)
  {
    if k > 0 {
      ShrLow(x / 2, k - 1);
      MulDouble(Shr(x / 2, k - 1), Pow2(k - 1));
    }
  }

  lemma {:induction false} ShrBelow(x: nat, k: nat, m: nat)
    requires x < Pow2(k + m)
    ensures Shr(x, k) < Pow2(m)
  {
    if k > 0 {
      ShrBelow(x / 2, k - 1, m);
    }
  }

  lemma {:induction false} ShrShr(x: nat, i: nat, j: nat)
    ensures Shr(Shr(x, i), j) == Shr(x, i + j)
  {
    if i > 0 {
      ShrShr(x / 2, i - 1, j);
    }
  }

  lemma {:induction false} ShrZero(k: nat)
    ensures Shr(0, k) == 0
  {
    if k > 0 {
      ShrZero(k - 1);
    }
  }

  lemma ShrVanishes(x: nat, k: nat, m: nat)
    requires x < Pow2(k) && k <= m
    ensures Shr(x, m) == 0
  {
    ShrBelow(x, k, 0);
    ShrShr(x, k, m - k);
    ShrZero(m - k);
  }

  lemma {:induction false} LowLow(x: nat, j: nat, k: nat)
    requires k <= j
    ensures Low(Low(x, j), k) == Low(x, k)
  {
    if k > 0 {
      LowLow(x / 2, j - 1, k - 1);
    }
  }

  lemma {:induction false} ShrOfLow(x: nat, i: nat, j: nat)
    ensures Shr(Low(x, i + j), i) == Low(Shr(x, i), j)
  {
    if i > 0 {
      ShrOfLow(x / 2, i - 1, j);
      assert Low(x, i + j) / 2 == Low(x / 2, i + j - 1);
    }
  }

  lemma ShrIsQuotient(x: nat, k: nat)
    ensures Shr(x, k) == x / Pow2(k)
  {
    hide Shr, Pow2, Low;
    ShrLow(x, k);
    DivUnique(x, Pow2(k), Shr(x, k));
  }

  lemma LowIsRemainder(x: nat, k: nat)
    ensures Low(x, k) == x % Pow2(k)
  {
    hide Shr, Low, Pow2;
    ShrLow(x, k);
    DivUnique(x, Pow2(k), Shr(x, k));
  }

  lemma {:induction false} ShrAddBlock(x: nat, i: nat, k: nat)
    ensures Shr(x + i * Pow2(k), k) == Shr(x, k) + i
  {
    if k > 0 {
      MulDouble(i, Pow2(k - 1));
      ShrAddBlock(x / 2, i, k - 1);
    }
  }

  lemma {:induction false} ShrShrinks(x: nat, n: nat)
    ensures Shr(x, n) <= x
  {
    if n > 0 {
      ShrShrinks(x / 2, n - 1);
    }
  }

  // Bitwise exclusive or, one binary digit at a time.
  function BitXor(a: nat, b: nat): nat {
    if a == 0 && b == 0 then 0 else (if a % 2 == b % 2 then 0 else 1) + 2 * BitXor(a / 2, b / 2)
  }

  lemma {:induction false} BitXorBelow(a: nat, b: nat, k: nat)
    requires a < Pow2(k) && b < Pow2(k)
    ensures BitXor(a, b) < Pow2(k)
  {
    if k > 0 {
      BitXorBelow(a / 2, b / 2, k - 1);
    }
  }

  lemma BitXorWidths(a: nat, b: nat)
    ensures a < 4 && b < 4 ==> BitXor(a, b) < 4
    ensures a < 256 && b < 256 ==> BitXor(a, b) < 256
    ensures a < TWO64 && b < TWO64 ==> BitXor(a, b) < TWO64
  {
    Pow2Values();
    if a < 4 && b < 4 { BitXorBelow(a, b, 2); }
    if a < 256 && b < 256 { BitXorBelow(a, b, 8); }
    if a < TWO64 && b < TWO64 { BitXorBelow(a, b, 64); }
  }

  // The `^` operator of C on unsigned words: it stays within the width of its operands.
  function Xor(a: nat, b: nat): (r: nat)
    ensures a < 4 && b < 4 ==> r < 4
    ensures a < 256 && b < 256 ==> r < 256
    ensures a < TWO64 && b < TWO64 ==> r < TWO64
  {
    BitXorWidths(a, b);
    BitXor(a, b)
  }

  lemma XorDigit(a: nat, b: nat)
    ensures Xor(a, b) % 2 == if a % 2 == b % 2 then 0 else 1
    ensures Xor(a, b) / 2 == Xor(a / 2, b / 2)
  {
    XorIs(a, b);
    XorIs(a / 2, b / 2);
    hide Xor;
    assert BitXor(a, b) == (if a % 2 == b % 2 then 0 else 1) + 2 * BitXor(a / 2, b / 2);
  }

  lemma XorIs(a: nat, b: nat)
    ensures Xor(a, b) == BitXor(a, b)
  {
    hide BitXor;
  }

  lemma XorUnfold(digit: nat, rest: nat, bit: nat, other: nat)
    requires digit < 2 && bit < 2
    ensures Xor(2 * rest + digit, 2 * other + bit) == 2 * Xor(rest, other) + if digit == bit then 0 else 1
  {
    XorDigit(2 * rest + digit, 2 * other + bit);
  }

  lemma {:induction false} XorAssoc(a: nat, b: nat, c: nat)
    ensures Xor(Xor(a, b), c) == Xor(a, Xor(b, c))
  {
    var l, r := Xor(Xor(a, b), c), Xor(a, Xor(b, c));
    assert l / 2 == r / 2 && l % 2 == r % 2 by {
      if a != 0 || b != 0 || c != 0 {
        XorAssoc(a / 2, b / 2, c / 2);
      }
      XorDigit(a, b);
      XorDigit(b, c);
      XorDigit(Xor(a, b), c);
      XorDigit(a, Xor(b, c));
    }
  }

  lemma {:induction false} XorComm(a: nat, b: nat)
    ensures Xor(a, b) == Xor(b, a)
  {
    if a != 0 || b != 0 {
      XorComm(a / 2, b / 2);
    }
  }

  lemma {:induction false} XorZero(a: nat)
    ensures Xor(a, 0) == a && Xor(0, a) == a
  {
    if a != 0 {
      XorZero(a / 2);
    }
  }

  lemma {:induction false} XorSelf(a: nat)
    ensures Xor(a, a) == 0
  {
    if a != 0 {
      XorSelf(a / 2);
    }
  }

  lemma XorCancel(a: nat, b: nat)
    ensures Xor(Xor(a, b), b) == a
  {
    XorAssoc(a, b, b);
    XorSelf(b);
    XorZero(a);
  }

  lemma XorEqual(a: nat, b: nat)
    requires Xor(a, b) == 0
    ensures a == b
  {
    XorCancel(a, b);
    XorZero(b);
  }

  // The `&` operator of C on unsigned words.
  function And(a: nat, b: nat): nat {
    if a == 0 || b == 0 then 0
    else (if a % 2 == 1 && b % 2 == 1 then 1 else 0) + 2 * And(a / 2, b / 2)
  }

  lemma {:induction false} AndMask(x: nat, k: nat)
    ensures And(x, Pow2(k) - 1) == Low(x, k)
  {
    if k > 0 {
      AndMask(x / 2, k - 1);
      LowZero(k);
    }
  }

  lemma AndIsRemainder(x: nat, k: nat)
    ensures And(x, Pow2(k) - 1) == x % Pow2(k)
  {
    hide And, Low, Pow2;
    AndMask(x, k);
    LowIsRemainder(x, k);
  }

  lemma {:induction false} LowZero(k: nat)
    ensures Low(0, k) == 0
  {
    if k > 0 {
      LowZero(k - 1);
    }
  }

  lemma {:induction false} XorShr(a: nat, b: nat, k: nat)
    ensures Shr(Xor(a, b), k) == Xor(Shr(a, k), Shr(b, k))
  {
    if k > 0 {
      XorDigit(a, b);
      XorShr(a / 2, b / 2, k - 1);
    }
  }

  // ---- Or, and single bits ---------------------------------------------------------------------

  function BitOr(a: nat, b: nat): nat {
    if a == 0 && b == 0 then 0 else (if a % 2 == 0 && b % 2 == 0 then 0 else 1) + 2 * BitOr(a / 2, b / 2)
  }

  lemma {:induction false} BitOrBelow(a: nat, b: nat, k: nat)
    requires a < Pow2(k) && b < Pow2(k)
    ensures BitOr(a, b) < Pow2(k)
  {
    if k > 0 {
      BitOrBelow(a / 2, b / 2, k - 1);
    }
  }

  lemma BitOrWidths(a: nat, b: nat)
    ensures a < 256 && b < 256 ==> BitOr(a, b) < 256
    ensures a < TWO32 && b < TWO32 ==> BitOr(a, b) < TWO32
    ensures a < TWO64 && b < TWO64 ==> BitOr(a, b) < TWO64
  {
    Pow2Values();
    if a < 256 && b < 256 { BitOrBelow(a, b, 8); }
    if a < TWO32 && b < TWO32 { BitOrBelow(a, b, 32); }
    if a < TWO64 && b < TWO64 { BitOrBelow(a, b, 64); }
  }

  // The `|` operator of C on unsigned words.
  function Or(a: nat, b: nat): (r: nat)
    ensures a < 256 && b < 256 ==> r < 256
    ensures a < TWO32 && b < TWO32 ==> r < TWO32
    ensures a < TWO64 && b < TWO64 ==> r < TWO64
  {
    BitOrWidths(a, b);
    BitOr(a, b)
  }

  // Bit s of a word.
  predicate Bit(x: nat, s: nat) {
    if s == 0 then x % 2 == 1 else Bit(x / 2, s - 1)
  }

  lemma {:induction false} OrBit(a: nat, b: nat, s: nat)
    ensures Bit(Or(a, b), s) <==> Bit(a, s) || Bit(b, s)
  {
    if s > 0 {
      OrBit(a / 2, b / 2, s - 1);
    }
  }

  lemma {:induction false} ZeroBit(s: nat)
    ensures !Bit(0, s)
  {
    if s > 0 {
      ZeroBit(s - 1);
    }
  }

  lemma {:induction false} Pow2Bit(t: nat, s: nat)
    ensures Bit(Pow2(t), s) <==> s == t
  {
    if s > 0 && t > 0 {
      Pow2Bit(t - 1, s - 1);
    } else if s > 0 {
      ZeroBit(s - 1);
    }
  }

  // Words are determined by their bits.
  lemma {:induction false} SameBits(a: nat, b: nat)
    requires forall s: nat :: Bit(a, s) == Bit(b, s)
    ensures a == b
  {
    if a != 0 || b != 0 {
      assert Bit(a, 0) == Bit(b, 0);
      forall s: nat
        ensures Bit(a / 2, s) == Bit(b / 2, s)
      {
        assert Bit(a, s + 1) == Bit(b, s + 1);
      }
      SameBits(a / 2, b / 2);
    }
  }

  lemma {:induction false} ShiftedBit(x: nat, s: nat)
    ensures Shr(x, s) % 2 == if Bit(x, s) then 1 else 0
  {
    if s > 0 {
      ShiftedBit(x / 2, s - 1);
    }
  }

  // Bit s is the s-th binary digit.
  lemma BitIsDigit(x: nat, s: nat)
    ensures Bit(x, s) <==> x / Pow2(s) % 2 == 1
  {
    hide Bit, Shr, Pow2;
    ShiftedBit(x, s);
    ShrIsQuotient(x, s);
  }

  lemma NoHighBit(x: nat, k: nat, s: nat)
    requires x < Pow2(k) && k <= s
    ensures !Bit(x, s)
  {
    hide Bit, Shr, Pow2;
    ShrVanishes(x, k, s);
    ShiftedBit(x, s);
  }

  lemma {:induction false} XorBits(a: nat, b: nat, s: nat)
    ensures Bit(Xor(a, b), s) <==> Bit(a, s) != Bit(b, s)
  {
    XorDigit(a, b);
    if s > 0 {
      XorBits(a / 2, b / 2, s - 1);
    }
  }

  lemma {:induction false} ShrBit(x: nat, k: nat, t: nat)
    ensures Bit(Shr(x, k), t) == Bit(x, k + t)
  {
    if k > 0 {
      ShrBit(x / 2, k - 1, t);
    }
  }

  lemma {:induction false} LowBit(x: nat, k: nat, t: nat)
    ensures Bit(Low(x, k), t) == (t < k && Bit(x, t))
  {
    if k == 0 {
      ZeroBit(t);
    } else if t > 0 {
      LowBit(x / 2, k - 1, t - 1);
    }
  }

  // A single bit fits the word that it is a bit of.
  lemma BitFits(s: nat)
    ensures s < 8 ==> Pow2(s) < 256
    ensures s < 32 ==> Pow2(s) < TWO32
    ensures s < 64 ==> Pow2(s) < TWO64
  {
    Pow2Values();
    if s < 8 { Pow2Strict(s, 8); }
    if s < 32 { Pow2Strict(s, 32); }
    if s < 64 { Pow2Strict(s, 64); }
  }

  lemma OrLaws(a: nat, b: nat, c: nat)
    ensures Or(Or(a, b), c) == Or(Or(a, c), b)
    ensures Or(Or(a, b), b) == Or(a, b)
    ensures Or(a, b) == Or(b, a)
  {
    hide Or, Bit;
    forall s: nat
      ensures Bit(Or(Or(a, b), c), s) == Bit(Or(Or(a, c), b), s)
      ensures Bit(Or(Or(a, b), b), s) == Bit(Or(a, b), s)
      ensures Bit(Or(a, b), s) == Bit(Or(b, a), s)
    {
      OrBit(a, b, s);
      OrBit(b, a, s);
      OrBit(a, c, s);
      OrBit(Or(a, b), c, s);
      OrBit(Or(a, c), b, s);
      OrBit(Or(a, b), b, s);
    }
    SameBits(Or(Or(a, b), c), Or(Or(a, c), b));
    SameBits(Or(Or(a, b), b), Or(a, b));
    SameBits(Or(a, b), Or(b, a));
  }

  // Testing a word against a single bit.
  lemma {:induction false} AndPow2(x: nat, s: nat)
    ensures And(x, Pow2(s)) == Pow2(s) <==> Bit(x, s)
    ensures And(x, Pow2(s)) == if Bit(x, s) then Pow2(s) else 0
  {
    if s == 0 {
      AndZero(x / 2);
    } else {
      AndPow2(x / 2, s - 1);
      if x == 0 {
        ZeroBit(s);
      }
    }
  }

  lemma {:induction false} AndZero(x: nat)
    ensures And(x, 0) == 0 && And(0, x) == 0
  {}

  // `~c & m` is zero exactly when `c & m` is `m`, on words of k bits.
  lemma {:induction false} AndNotZero(c: nat, m: nat, k: nat)
    requires c < Pow2(k) && m < Pow2(k)
    ensures And(Pow2(k) - 1 - c, m) == 0 <==> And(c, m) == m
  {
    if k > 0 {
      var p := Pow2(k - 1);
      var n := 2 * p - 1 - c;
      AndNotZero(c / 2, m / 2, k - 1);
      assert n / 2 == p - 1 - c / 2 && n % 2 == 1 - c % 2;
      AndStep(n, m);
      AndStep(c, m);
    }
  }

  lemma {:induction false} AndBit(a: nat, b: nat, s: nat)
    ensures Bit(And(a, b), s) <==> Bit(a, s) && Bit(b, s)
  {
    if a == 0 || b == 0 {
      ZeroBit(s);
    } else if s > 0 {
      AndBit(a / 2, b / 2, s - 1);
    }
  }

  lemma AndStep(a: nat, b: nat)
    ensures And(a, b) == (if a % 2 == 1 && b % 2 == 1 then 1 else 0) + 2 * And(a / 2, b / 2)
  {}

  // ---- Bit counts ---------------------------------------------------------------------------------

  function Pop(x: nat): nat {
    if x == 0 then 0 else x % 2 + Pop(x / 2)
  }

  // Joining k low bits to the bits above them.
  lemma {:induction false} JoinBit(low: nat, high: nat, k: nat, t: nat)
    requires low < Pow2(k)
    ensures Bit(low + Pow2(k) * high, t) == if t < k then Bit(low, t) else Bit(high, t - k)
  {
    if k > 0 {
      var x := low + Pow2(k) * high;
      assert x == low + 2 * (Pow2(k - 1) * high) by { MulDouble(high, Pow2(k - 1)); }
      assert x / 2 == low / 2 + Pow2(k - 1) * high && x % 2 == low % 2;
      if t > 0 {
        JoinBit(low / 2, high, k - 1, t - 1);
      }
    }
  }

  lemma {:induction false} JoinPop(low: nat, high: nat, k: nat)
    requires low < Pow2(k)
    ensures Pop(low + Pow2(k) * high) == Pop(low) + Pop(high)
  {
    if k > 0 {
      var x := low + Pow2(k) * high;
      assert x == low + 2 * (Pow2(k - 1) * high) by { MulDouble(high, Pow2(k - 1)); }
      assert x / 2 == low / 2 + Pow2(k - 1) * high && x % 2 == low % 2;
      JoinPop(low / 2, high, k - 1);
    }
  }

  // The number of set bits.
  lemma {:induction false} PopIsCount(x: nat, k: nat, ones: set<nat>)
    requires x < Pow2(k) && forall s: nat :: s in ones <==> s < k && Bit(x, s)
    ensures Pop(x) == |ones|
  {
    hide Bit, Pop, Shr, Low, Pow2;
    if k == 0 {
      NoBits(x);
      assert ones == {};
    } else {
      var low, high := Low(x, k - 1), Shr(x, k - 1);
      ShrLow(x, k - 1);
      ShrBelow(x, k - 1, 1);
      assert x == low + Pow2(k - 1) * high;
      JoinPop(low, high, k - 1);
      OneBit(high);
      forall s: nat | s < k
        ensures Bit(x, s) == if s < k - 1 then Bit(low, s) else high == 1
      {
        JoinBit(low, high, k - 1, s);
      }
      PopIsCount(low, k - 1, ones - {k - 1});
    }
  }

  lemma NoBits(x: nat)
    requires x < Pow2(0)
    ensures x == 0 && Pop(x) == 0
  {}

  lemma OneBit(x: nat)
    requires x < Pow2(1)
    ensures Pop(x) == x < 2 && (Bit(x, 0) <==> x == 1)
  {}

  // Or of words without common bits is their sum.
  lemma {:induction false} JoinOr(low: nat, high: nat, k: nat)
    requires low < Pow2(k)
    ensures Or(Pow2(k) * high, low) == low + Pow2(k) * high
  {
    if k == 0 {
      OrZero(high);
    } else {
      var b := Pow2(k - 1) * high;
      assert Pow2(k) * high == 2 * b by { MulDouble(high, Pow2(k - 1)); }
      JoinOr(low / 2, high, k - 1);
      hide Or, Pow2;
      OrDigit(2 * b, low);
    }
  }

  lemma OrDigit(a: nat, b: nat)
    ensures Or(a, b) == (if a % 2 == 0 && b % 2 == 0 then 0 else 1) + 2 * Or(a / 2, b / 2)
  {}

  lemma {:induction false} OrZero(a: nat)
    ensures Or(a, 0) == a && Or(0, a) == a
  {
    if a > 0 {
      OrZero(a / 2);
    }
  }

  // ---- Sequences -------------------------------------------------------------------------------

  // The naturals below `k`.
  function Below(k: nat): (s: set<nat>)
    ensures |s| == k
    ensures forall x: nat :: x in s <==> x < k
  {
    if k == 0 then {} else
      var s := Below(k - 1);
      assert k - 1 !in s;
      s + {k - 1}
  }

  // A set with one element more, or none.
  lemma CountOneMore<T>(before: set<T>, all: set<T>, x: T, more: bool)
    requires x !in before && forall y :: y in all <==> y in before || (more && y == x)
    ensures |all| == |before| + if more then 1 else 0
  {
    assert all == if more then before + {x} else before;
  }

  lemma {:induction false} SubsetSize<T>(a: set<T>, b: set<T>)
    requires a <= b
    ensures |a| <= |b|
  {
    if a != {} {
      var x :| x in a;
      SubsetSize(a - {x}, b - {x});
    }
  }

  predicate Distinct(s: seq<nat>) {
    forall i, j :: 0 <= i < j < |s| ==> s[i] != s[j]
  }
}
