/** Exclusive or of given 64-bit words, digit by hexadecimal digit. */
module HexWords {
  import opened Words

  // The `^` of two hexadecimal digits.
  function HexXor(p: nat, q: nat): nat {
    var (p3, p') := TakeBit(p, 8);
    var (q3, q') := TakeBit(q, 8);
    var (p2, p'') := TakeBit(p', 4);
    var (q2, q'') := TakeBit(q', 4);
    var (p1, p0) := TakeBit(p'', 2);
    var (q1, q0) := TakeBit(q'', 2);
    Differ(p0, q0) + 2 * Differ(p1, q1) + 4 * Differ(p2, q2) + 8 * Differ(p3, q3)
  }

  function TakeBit(p: nat, weight: nat): (nat, nat) {
    if p >= weight then (1, p - weight) else (0, p)
  }

  function Differ(a: nat, b: nat): nat {
    if a == b then 0 else 1
  }

  lemma XorDigits(p: nat, q: nat, a: nat, b: nat)
    requires p < 16 && q < 16
    ensures Xor(p + 16 * a, q + 16 * b) == HexXor(p, q) + 16 * Xor(a, b)
  {
    hide Xor, Differ;
    var (p3, p') := TakeBit(p, 8);
    var (q3, q') := TakeBit(q, 8);
    var (p2, p'') := TakeBit(p', 4);
    var (q2, q'') := TakeBit(q', 4);
    var (p1, p0) := TakeBit(p'', 2);
    var (q1, q0) := TakeBit(q'', 2);
    var a3, b3 := 2 * a + p3, 2 * b + q3;
    var a2, b2 := 2 * a3 + p2, 2 * b3 + q2;
    var a1, b1 := 2 * a2 + p1, 2 * b2 + q1;
    XorBit(p3, a, q3, b);
    XorBit(p2, a3, q2, b3);
    XorBit(p1, a2, q1, b2);
    XorBit(p0, a1, q0, b1);
    assert 2 * a1 + p0 == p + 16 * a && 2 * b1 + q0 == q + 16 * b;
  }

  lemma XorBit(digit: nat, rest: nat, bit: nat, other: nat)
    requires digit < 2 && bit < 2
    ensures Xor(2 * rest + digit, 2 * other + bit) == 2 * Xor(rest, other) + Differ(digit, bit)
  {
    XorUnfold(digit, rest, bit, other);
  }

  ghost predicate Digits(s: seq<nat>, n: nat) {
    |s| == n && forall i :: 0 <= i < n ==> s[i] < 16
  }

  // The value of a list of digits, the most significant one first.
  function Value(s: seq<nat>): nat {
    if s == [] then 0 else s[|s| - 1] + 16 * Value(s[..|s| - 1])
  }

  function XorList(s: seq<nat>, t: seq<nat>): (u: seq<nat>)
    requires |s| == |t|
    ensures |u| == |s|
  {
    seq(|s|, i requires 0 <= i < |s| => HexXor(s[i], t[i]))
  }

  lemma {:induction false} XorOfDigits(s: seq<nat>, t: seq<nat>, n: nat)
    requires Digits(s, n) && Digits(t, n)
    ensures Xor(Value(s), Value(t)) == Value(XorList(s, t))
  {
    hide HexXor, Xor;
    if n == 0 {
      XorZero(0);
    } else {
      var m := n - 1;
      XorOfDigits(s[..m], t[..m], m);
      XorDigits(s[m], t[m], Value(s[..m]), Value(t[..m]));
      assert XorList(s, t)[..m] == XorList(s[..m], t[..m]);
    }
  }

  // The value of ten digits, written out.
  function Ten(s: seq<nat>): nat
    requires |s| == 10
  {
    s[9] + 0x10 * s[8] + 0x100 * s[7] + 0x1000 * s[6] + 0x1_0000 * s[5] + 0x10_0000 * s[4]
    + 0x100_0000 * s[3] + 0x1000_0000 * s[2] + 0x1_0000_0000 * s[1] + 0x10_0000_0000 * s[0]
  }

  lemma TenIsValue(s: seq<nat>)
    requires |s| == 10
    ensures Ten(s) == Value(s)
  {
    hide Value;
    ValueOfNone();
    Five(s, 0);
    Five(s, 5);
    assert s[..10] == s && s[..0] == [];
  }

  lemma ValueOfNone()
    ensures Value([]) == 0
  {}

  lemma Five(s: seq<nat>, i: nat)
    requires i + 5 <= |s|
    ensures Value(s[..i + 5]) ==
            s[i + 4] + 16 * s[i + 3] + 0x100 * s[i + 2] + 0x1000 * s[i + 1] + 0x1_0000 * s[i]
            + 0x10_0000 * Value(s[..i])
  {
    hide Value;
    OneMore(s, i);
    OneMore(s, i + 1);
    OneMore(s, i + 2);
    OneMore(s, i + 3);
    OneMore(s, i + 4);
  }

  lemma OneMore(s: seq<nat>, i: nat)
    requires i < |s|
    ensures Value(s[..i + 1]) == s[i] + 16 * Value(s[..i])
  {
    assert s[..i + 1][..i] == s[..i];
  }

  // `u` holds the digits of the exclusive or of `s` and `t`.
  predicate XorTable(s: seq<nat>, t: seq<nat>, u: seq<nat>)
    requires |s| == |t| == |u| == 10
  {
    && HexXor(s[0], t[0]) == u[0] && HexXor(s[1], t[1]) == u[1] && HexXor(s[2], t[2]) == u[2]
    && HexXor(s[3], t[3]) == u[3] && HexXor(s[4], t[4]) == u[4] && HexXor(s[5], t[5]) == u[5]
    && HexXor(s[6], t[6]) == u[6] && HexXor(s[7], t[7]) == u[7] && HexXor(s[8], t[8]) == u[8]
    && HexXor(s[9], t[9]) == u[9]
  }

  // All ten entries are digits.
  predicate TenDigits(s: seq<nat>)
    requires |s| == 10
  {
    && s[0] < 16 && s[1] < 16 && s[2] < 16 && s[3] < 16 && s[4] < 16
    && s[5] < 16 && s[6] < 16 && s[7] < 16 && s[8] < 16 && s[9] < 16
  }

  // `h ^ (h >> k)`, where only the last ten digits change: `s` are those of `h`, `t` those of
  // `h >> k`.
  lemma ShiftXor(h: nat, k: nat, high: nat, s: seq<nat>, t: seq<nat>, u: seq<nat>)
    requires |s| == |t| == |u| == 10 && TenDigits(s) && TenDigits(t) && XorTable(s, t, u)
    requires h == Pow2(40) * high + Ten(s) && Ten(t) == h / Pow2(k)
    ensures Xor(h, Shr(h, k)) == Pow2(40) * high + Ten(u)
  {
    hide *;
    TableIsList(s, t, u);
    XorOfTen(s, t, u);
    TenBelow(s);
    TenBelow(t);
    ShrIsQuotient(h, k);
    XorKeepsHigh(high, Ten(s), Ten(t), 40);
  }

  lemma TableIsList(s: seq<nat>, t: seq<nat>, u: seq<nat>)
    requires |s| == |t| == |u| == 10 && XorTable(s, t, u)
    ensures u == XorList(s, t)
  {
    hide HexXor;
  }

  lemma XorOfTen(s: seq<nat>, t: seq<nat>, u: seq<nat>)
    requires |s| == |t| == 10 && TenDigits(s) && TenDigits(t) && u == XorList(s, t)
    ensures Xor(Ten(s), Ten(t)) == Ten(u)
  {
    hide *;
    TenIsValue(s);
    TenIsValue(t);
    TenIsValue(u);
    DigitsOfTen(s);
    DigitsOfTen(t);
    XorOfDigits(s, t, 10);
  }

  lemma TenBelow(s: seq<nat>)
    requires |s| == 10 && TenDigits(s)
    ensures Ten(s) < Pow2(40)
  {
    hide *;
    TenIsValue(s);
    DigitsOfTen(s);
    ValueBelow(s, 10);
  }

  lemma DigitsOfTen(s: seq<nat>)
    requires |s| == 10 && TenDigits(s)
    ensures Digits(s, 10)
  {}

  lemma {:induction false} ValueBelow(s: seq<nat>, n: nat)
    requires Digits(s, n)
    ensures Value(s) < Pow2(4 * n)
  {
    if n > 0 {
      ValueBelow(s[..n - 1], n - 1);
      FourMoreBits(4 * (n - 1));
    }
  }

  lemma FourMoreBits(k: nat)
    ensures Pow2(k + 4) == 16 * Pow2(k)
  {
    assert Pow2(k + 4) == 2 * Pow2(k + 3) && Pow2(k + 3) == 2 * Pow2(k + 2) && Pow2(k + 2) == 2 * Pow2(k + 1);
  }

  // Exclusive or with a number below 2^k leaves the bits from k on.
  lemma {:induction false} XorKeepsHigh(high: nat, a: nat, b: nat, k: nat)
    requires a < Pow2(k) && b < Pow2(k)
    ensures Xor(Pow2(k) * high + a, b) == Pow2(k) * high + Xor(a, b)
  {
    hide Xor;
    if k == 0 {
      XorZero(high);
      XorZero(0);
    } else {
      XorKeepsHigh(high, a / 2, b / 2, k - 1);
      EvenPart(Pow2(k - 1) * high, a, b);
      assert Pow2(k) * high == 2 * (Pow2(k - 1) * high) by { DoubleProduct(Pow2(k - 1), high); }
    }
  }

  lemma DoubleProduct(p: nat, q: nat)
    ensures 2 * p * q == 2 * (p * q)
  {}

  lemma EvenPart(x: nat, a: nat, b: nat)
    requires Xor(x + a / 2, b / 2) == x + Xor(a / 2, b / 2)
    ensures Xor(2 * x + a, b) == 2 * x + Xor(a, b)
  {
    hide Xor;
    XorDigit(2 * x + a, b);
    XorDigit(a, b);
    assert (2 * x + a) / 2 == x + a / 2 && (2 * x + a) % 2 == a % 2;
  }

  lemma ShiftPowers()
    ensures Pow2(27) == 0x800_0000 && Pow2(30) == 0x4000_0000 && Pow2(31) == 0x8000_0000
    ensures Pow2(33) == 0x2_0000_0000 && Pow2(40) == 0x100_0000_0000
  {
    Pow2Values();
    assert Pow2(3) == 8;
    Pow2Add(24, 3);
    Pow2Add(16, 8);
    Pow2Add(8, 8);
    assert Pow2(28) == 2 * Pow2(27);
    assert Pow2(29) == 2 * Pow2(28);
    assert Pow2(30) == 2 * Pow2(29);
    assert Pow2(31) == 2 * Pow2(30);
    assert Pow2(33) == 2 * Pow2(32);
    Pow2Add(32, 8);
  }
}
