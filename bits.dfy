/**
 * Unsigned machine arithmetic on natural numbers: powers of two, the
 * size_t modulus, and bitwise AND / OR written out bit by bit so that the
 * mask and shift tricks of the hash-table policies can be reasoned about.
 */
module Bits {

  /** 2^64: the number of distinct size_t values. */
  const SizeTModulus: nat := 0x1_0000_0000_0000_0000

  function Pow2(k: nat): (p: nat)
    ensures p >= 1
  {
    if k == 0 then 1 else 2 * Pow2(k - 1)
  }

  /** Bitwise AND of two unsigned numbers, least significant bit first. */
  function BitAnd(a: nat, b: nat): nat
    decreases a
  {
    if a == 0 || b == 0 then 0
    else 2 * BitAnd(a / 2, b / 2) + (if a % 2 == 1 && b % 2 == 1 then 1 else 0)
  }

  /** Bitwise OR of two unsigned numbers, least significant bit first. */
  function BitOr(a: nat, b: nat): nat
    decreases a + b
  {
    if a == 0 then b
    else if b == 0 then a
    else 2 * BitOr(a / 2, b / 2) + (if a % 2 == 1 || b % 2 == 1 then 1 else 0)
  }

  /** size_t left shift: bits shifted past bit 63 are lost. */
  function ShiftLeft(x: nat, s: nat): (r: nat)
    ensures r < SizeTModulus
    ensures x * Pow2(s) < SizeTModulus ==> r == x * Pow2(s)
  {
    (x * Pow2(s)) % SizeTModulus
  }

  lemma {:induction false} Pow2Add(a: nat, b: nat)
    ensures Pow2(a + b) == Pow2(a) * Pow2(b)
  {
    if a > 0 {
      Pow2Add(a - 1, b);
      assert Pow2(a + b) == 2 * Pow2(a - 1 + b);
    }
  }

  lemma {:induction false} Pow2Monotone(a: nat, b: nat)
    requires a <= b
    ensures Pow2(a) <= Pow2(b)
  {
    if a < b {
      Pow2Monotone(a, b - 1);
    }
  }

  /** Pow2 is strictly increasing, so a smaller power has a smaller exponent. */
  lemma Pow2Below(a: nat, b: nat)
    requires Pow2(a) < Pow2(b)
    ensures a < b
  {
    if a >= b {
      Pow2Monotone(b, a);
    }
  }

  lemma Pow2Eight()
    ensures Pow2(8) == 256
  {
  }

  lemma Pow2Of64()
    ensures Pow2(64) == SizeTModulus
  {
    Pow2Eight();
    Pow2Add(8, 8);
    assert Pow2(16) == 0x1_0000;
    Pow2Add(16, 16);
    assert Pow2(32) == 0x1_0000_0000;
    Pow2Add(32, 32);
  }

  /** Euclidean division is unique: the remainder of h by d is the x with h == d*s + x, 0 <= x < d. */
  lemma ModUnique(h: nat, d: nat, s: nat, x: nat)
    requires 0 <= x < d
    requires h == d * s + x
    ensures h % d == x && h / d == s
  {
    var q, r := h / d, h % d;
    assert d * (s - q) == r - x;
    MulSmallIsZero(d, s - q);
  }

  lemma MulSmallIsZero(d: int, n: int)
    requires d > 0 && -d < d * n < d
    ensures n == 0
  {
    if n > 0 {
      MulAtLeast(d, n);
      assert false;
    } else if n < 0 {
      assert false;
    }
  }

  lemma {:induction false} MulAtLeast(d: nat, n: nat)
    requires n >= 1
    ensures d * n >= d
  {
    if n > 1 {
      MulAtLeast(d, n - 1);
      assert d * n == d * (n - 1) + d;
    }
  }

  /** Halving and taking the remainder by p loses exactly the lowest bit: h % 2p == 2 (h/2 % p) + h % 2. */
  lemma ModDouble(h: nat, p: nat, d: nat)
    requires p >= 1 && d == 2 * p
    ensures h % d == 2 * ((h / 2) % p) + h % 2
  {
    var t := (h / 2) % p;
    var s := (h / 2) / p;
    assert h / 2 == p * s + t;
    assert h == d * s + (2 * t + h % 2);
    ModUnique(h, d, s, 2 * t + h % 2);
  }

  /** Masking with 2^k - 1 keeps exactly the low k bits: h & (2^k - 1) == h % 2^k. */
  lemma {:induction false} AndLowMask(h: nat, k: nat)
    ensures BitAnd(h, Pow2(k) - 1) == h % Pow2(k)
  {
    if k == 0 {
      assert Pow2(k) == 1;
    } else if h == 0 {
      assert BitAnd(h, Pow2(k) - 1) == 0;
    } else {
      var p := Pow2(k - 1);
      var d := Pow2(k);
      assert d == 2 * p;
      AndLowMask(h / 2, k - 1);
      AndLowMaskStep(h, p, d);
    }
  }

  /** The induction step of AndLowMask: the claim for h / 2 and 2^(k-1) gives it for h and 2^k. */
  lemma AndLowMaskStep(h: nat, p: nat, d: nat)
    requires h != 0 && p >= 1 && d == 2 * p
    requires BitAnd(h / 2, p - 1) == (h / 2) % p
    ensures BitAnd(h, d - 1) == h % d
  {
    AndOddStep(h, d - 1, p - 1);
    ModDouble(h, p, d);
  }

  /** The lowest bit of h & m, m odd, is the lowest bit of h; the rest is (h / 2) & (m / 2). */
  lemma AndOddStep(h: nat, m: nat, q: nat)
    requires h != 0 && m == 2 * q + 1
    ensures BitAnd(h, m) == 2 * BitAnd(h / 2, q) + h % 2
  {
    assert m / 2 == q && m % 2 == 1;
  }

  /** OR of a multiple of 2^k with a number below 2^k is their sum (the bits do not overlap). */
  lemma {:induction false} OrDisjoint(a: nat, b: nat, k: nat)
    requires a % Pow2(k) == 0
    requires b < Pow2(k)
    ensures BitOr(a, b) == a + b
  {
    if k == 0 {
      assert b == 0;
    } else if a != 0 && b != 0 {
      var p := Pow2(k - 1);
      var d := Pow2(k);
      assert d == 2 * p;
      HalfOfMultiple(a, p, d);
      OrDisjoint(a / 2, b / 2, k - 1);
      OrEvenStep(a, b);
    }
  }

  /** A multiple of 2p is even, and its half is a multiple of p. */
  lemma HalfOfMultiple(a: nat, p: nat, d: nat)
    requires p >= 1 && d == 2 * p && a % d == 0
    ensures a % 2 == 0 && (a / 2) % p == 0
  {
    var q := a / d;
    assert a == d * q;
    assert a == 2 * (p * q);
    ModUnique(a / 2, p, q, 0);
  }

  /** The lowest bit of a | b, a even, is the lowest bit of b; the rest is (a / 2) | (b / 2). */
  lemma OrEvenStep(a: nat, b: nat)
    requires a != 0 && b != 0 && a % 2 == 0
    ensures BitOr(a, b) == 2 * BitOr(a / 2, b / 2) + b % 2
  {
  }

  /** OR never sets a bit at or above position k when neither operand has one. */
  lemma {:induction false} OrBound(a: nat, b: nat, k: nat)
    requires a < Pow2(k) && b < Pow2(k)
    ensures BitOr(a, b) < Pow2(k)
  {
    if k > 0 && a != 0 && b != 0 {
      OrBound(a / 2, b / 2, k - 1);
    }
  }
}
