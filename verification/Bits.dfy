/** Bitwise operations on naturals, bit by bit, and the arithmetic they amount to. */
module Bits {
  import opened Bytes

  function Pow2(n: nat): (p: nat)
    ensures p > 0
  {
    if n == 0 then 1 else 2 * Pow2(n - 1)
  }

  function And(x: nat, y: nat): nat
    decreases x
  {
    if x == 0 then 0
    else (if x % 2 == 1 && y % 2 == 1 then 1 else 0) + 2 * And(x / 2, y / 2)
  }

  function Or(x: nat, y: nat): nat
    decreases x
  {
    if x == 0 then y
    else (if x % 2 == 1 || y % 2 == 1 then 1 else 0) + 2 * Or(x / 2, y / 2)
  }

  function Xor(x: nat, y: nat): nat
    decreases x
  {
    if x == 0 then y
    else (if x % 2 != y % 2 then 1 else 0) + 2 * Xor(x / 2, y / 2)
  }

  lemma {:induction false} Pow2Add(a: nat, b: nat)
    ensures Pow2(a + b) == Pow2(a) * Pow2(b)
  {
    if a > 0 {
      Pow2Add(a - 1, b);
      assert Pow2(a) * Pow2(b) == 2 * (Pow2(a - 1) * Pow2(b));
    }
  }

  lemma Pow2Values()
    ensures Pow2(7) == 0x80 && Pow2(64) == U64
  {
    assert Pow2(7) == 0x80;
    assert Pow2(8) == 0x100;
    Pow2Add(8, 8);
    Pow2Add(16, 16);
    Pow2Add(32, 32);
  }

  // Joining disjoint bit fields is addition.
  lemma {:induction false} OrDisjoint(lo: nat, hi: nat, s: nat)
    requires lo < Pow2(s)
    ensures Or(lo, hi * Pow2(s)) == lo + hi * Pow2(s)
  {
    if lo > 0 {
      var h := hi * Pow2(s - 1);
      assert hi * Pow2(s) == 2 * h;
      OrDisjoint(lo / 2, hi, s - 1);
    }
  }

  lemma AndOdd(x: nat, m: nat)
    ensures And(x, 2 * m + 1) == x % 2 + 2 * And(x / 2, m)
  {
    assert (2 * m + 1) / 2 == m && (2 * m + 1) % 2 == 1;
  }

  // Masking with s ones keeps the low s bits.
  lemma {:induction false} AndLowMask(x: nat, s: nat)
    ensures And(x, Pow2(s) - 1) == x % Pow2(s)
  {
    hide And;
    if s == 0 {
      AndZero(x);
      assert x % 1 == 0;
    } else {
      var p := Pow2(s - 1);
      assert Pow2(s) - 1 == 2 * (p - 1) + 1;
      AndOdd(x, p - 1);
      AndLowMask(x / 2, s - 1);
      ModDouble(x, p);
    }
  }

  lemma {:induction false} AndZero(x: nat)
    ensures And(x, 0) == 0
  {
    if x > 0 {
      AndZero(x / 2);
    }
  }

  // Dividing by 2p is halving, then dividing by p.
  lemma ModDouble(x: nat, p: nat)
    requires p > 0
    ensures x % (2 * p) == x % 2 + 2 * (x / 2 % p)
    ensures x / (2 * p) == x / 2 / p
  {
    var q, r := x / 2 / p, x / 2 % p;
    assert x / 2 == p * q + r;
    assert (2 * p) * q == 2 * (p * q);
    ModUnique(x, 2 * p, q, 2 * r + x % 2);
  }

  // Testing one bit.
  lemma {:induction false} AndBit(x: nat, s: nat)
    ensures And(x, Pow2(s)) == if x / Pow2(s) % 2 == 1 then Pow2(s) else 0
  {
    if x == 0 {
    } else if s == 0 {
      AndZero(x / 2);
    } else {
      var p := Pow2(s - 1);
      AndBit(x / 2, s - 1);
      ModDouble(x, p);
      assert And(x, 2 * p) == 2 * And(x / 2, p);
    }
  }

  lemma XorOdd(x: nat, m: nat)
    ensures Xor(x, 2 * m + 1) == 1 - x % 2 + 2 * Xor(x / 2, m)
  {
    assert (2 * m + 1) / 2 == m && (2 * m + 1) % 2 == 1;
  }

  // Flipping all s bits.
  lemma {:induction false} XorOnes(x: nat, s: nat)
    requires x < Pow2(s)
    ensures Xor(x, Pow2(s) - 1) == Pow2(s) - 1 - x
  {
    hide Xor;
    if s == 0 {
      XorZero(x);
    } else {
      var p := Pow2(s - 1);
      assert Pow2(s) - 1 == 2 * (p - 1) + 1;
      XorOdd(x, p - 1);
      XorOnes(x / 2, s - 1);
    }
  }

  lemma {:induction false} XorZero(x: nat)
    ensures Xor(x, 0) == x
  {
    if x > 0 {
      XorZero(x / 2);
    }
  }

  lemma {:induction false} OrSymmetric(x: nat, y: nat)
    ensures Or(x, y) == Or(y, x)
    decreases x + y
  {
    if x == 0 {
      OrZero(y);
    } else if y == 0 {
      OrZero(x);
    } else {
      OrSymmetric(x / 2, y / 2);
    }
  }

  lemma {:induction false} OrZero(x: nat)
    ensures Or(x, 0) == x
  {
    if x > 0 {
      OrZero(x / 2);
    }
  }
}
