/** Bitwise operations on natural numbers, bit by bit. */
module Bits {

  function Or(a: nat, b: nat): nat
    decreases a + b
  {
    if a == 0 then b
    else if b == 0 then a
    else 2 * Or(a / 2, b / 2) + (if a % 2 == 1 || b % 2 == 1 then 1 else 0)
  }

  function Pow2(n: nat): (r: nat)
    ensures r > 0
  {
    if n == 0 then 1 else 2 * Pow2(n - 1)
  }

  /** a >> n. */
  function Shr(a: nat, n: nat): nat {
    if n == 0 then a else Shr(a / 2, n - 1)
  }

  predicate Bit(a: nat, i: nat) {
    Shr(a, i) % 2 == 1
  }

  lemma {:induction false} OrHalf(a: nat, b: nat)
    ensures Or(a, b) / 2 == Or(a / 2, b / 2)
    ensures Or(a, b) % 2 == 1 <==> a % 2 == 1 || b % 2 == 1
    ensures a <= Or(a, b) && b <= Or(a, b)
    decreases a + b
  {
    if a != 0 && b != 0 {
      OrHalf(a / 2, b / 2);
    }
  }

  lemma {:induction false} ShrHalf(a: nat, n: nat)
    ensures Shr(a, n) / 2 == Shr(a / 2, n) == Shr(a, n + 1)
  {
    if n > 0 {
      ShrHalf(a / 2, n - 1);
    }
  }

  lemma {:induction false} ShrShr(a: nat, m: nat, n: nat)
    ensures Shr(Shr(a, m), n) == Shr(a, m + n)
  {
    if m > 0 {
      ShrShr(a / 2, m - 1, n);
    }
  }

  lemma {:induction false} ShrOr(a: nat, b: nat, n: nat)
    ensures Shr(Or(a, b), n) == Or(Shr(a, n), Shr(b, n))
  {
    if n > 0 {
      OrHalf(a, b);
      ShrOr(a / 2, b / 2, n - 1);
    }
  }

  lemma BitOr(a: nat, b: nat, i: nat)
    ensures Bit(Or(a, b), i) <==> Bit(a, i) || Bit(b, i)
  {
    ShrOr(a, b, i);
    OrHalf(Shr(a, i), Shr(b, i));
  }

  /** Or puts together numbers that share no bit. */
  lemma {:induction false} OrLow(a: nat, b: nat, n: nat)
    requires b < Pow2(n)
    ensures Or(a * Pow2(n), b) == a * Pow2(n) + b
  {
    hide Or, Pow2;
    PowHalf(n);
    if n > 0 {
      var q := a * Pow2(n - 1);
      Doubled(a, Pow2(n - 1));
      OrLow(a, b / 2, n - 1);
      OrHalf(2 * q, b);
    } else {
      OrNothing(a);
    }
  }

  lemma PowHalf(n: nat)
    ensures Pow2(n) == if n == 0 then 1 else 2 * Pow2(n - 1)
  {
  }

  lemma Doubled(a: nat, p: nat)
    ensures a * (2 * p) == 2 * (a * p)
  {
  }

  lemma OrNothing(a: nat)
    ensures Or(a * 1, 0) == a
  {
  }

  // ---------------------------------------------------------------- the next power of two

  /** x |= x >> n */
  function Smear(x: nat, n: nat): nat {
    Or(x, Shr(x, n))
  }

  /** The five steps of pow2gt. */
  function SmearAll(x: nat): nat {
    Smear(Smear(Smear(Smear(Smear(x, 1), 2), 4), 8), 16)
  }

  lemma SmearHalf(x: nat, n: nat)
    ensures Smear(x, n) / 2 == Smear(x / 2, n)
    ensures x <= Smear(x, n)
  {
    OrHalf(x, Shr(x, n));
    ShrHalf(x, n);
  }

  /** A bit at a multiple of n leaves one at a multiple of 2n, no higher. */
  lemma SmearBit(x: nat, n: nat, k: nat) returns (h: nat)
    requires Bit(x, n * k)
    ensures h <= k / 2 && Bit(Smear(x, n), 2 * n * h)
  {
    h := k / 2;
    var j := 2 * n * h;
    if k % 2 == 0 {
      assert n * k == j by { assert k == 2 * h; }
      BitOr(x, Shr(x, n), j);
    } else {
      assert n * k == n + j by { assert k == 2 * h + 1; }
      ShrShr(x, n, j);
      BitOr(x, Shr(x, n), j);
    }
  }

  /** A positive number below 2^n has a bit below n. */
  lemma {:induction false} SomeBit(x: nat, n: nat) returns (i: nat)
    requires 0 < x < Pow2(n)
    ensures i < n && Bit(x, i)
  {
    if x % 2 == 1 {
      i := 0;
    } else {
      i := SomeBit(x / 2, n - 1);
      i := i + 1;
    }
  }

  lemma SmearAllOdd(x: nat)
    requires 0 < x < Pow2(32)
    ensures SmearAll(x) % 2 == 1
  {
    hide Shr, Or, Smear, Pow2;
    var i := SomeBit(x, 32);
    var x1 := Smear(x, 1);
    var k1 := SmearBit(x, 1, i);
    var x2 := Smear(x1, 2);
    var k2 := SmearBit(x1, 2, k1);
    var x3 := Smear(x2, 4);
    var k3 := SmearBit(x2, 4, k2);
    var x4 := Smear(x3, 8);
    var k4 := SmearBit(x3, 8, k3);
    var k5 := SmearBit(x4, 16, k4);
    assert k5 == 0;
    ShrNone(SmearAll(x));
  }

  lemma ShrNone(x: nat)
    ensures Shr(x, 0) == x
  {
  }

  lemma SmearAllHalf(x: nat)
    ensures SmearAll(x) / 2 == SmearAll(x / 2)
    ensures x <= SmearAll(x)
  {
    hide Smear;
    SmearHalf(x, 1);
    SmearHalf(Smear(x, 1), 2);
    SmearHalf(Smear(Smear(x, 1), 2), 4);
    SmearHalf(Smear(Smear(Smear(x, 1), 2), 4), 8);
    SmearHalf(Smear(Smear(Smear(Smear(x, 1), 2), 4), 8), 16);
  }

  lemma SmearZero()
    ensures SmearAll(0) == 0
  {
  }

  /** The five steps leave every bit below 2^k set, where 2^k is the power of two above x. */
  predicate Filled(x: nat, k: nat) {
    SmearAll(x) + 1 == Pow2(k) && x < Pow2(k) <= if x == 0 then 1 else 2 * x
  }

  /** Below 2^32 the five steps fill every bit below the highest: one more is the power of two
      above x, and half of that does not exceed x. */
  lemma {:induction false} SmearAllFills(x: nat, n: nat)
    requires x < Pow2(n) && n <= 32
    ensures exists k: nat :: k <= n && Filled(x, k)
  {
    hide SmearAll, Pow2;
    if x == 0 {
      SmearZero();
      PowHalf(0);
      assert Filled(0, 0);
    } else {
      PowHalf(n);
      SmearAllFills(x / 2, n - 1);
      var k: nat :| k <= n - 1 && Filled(x / 2, k);
      Pow2Monotone(n, 32);
      FillsStep(x, k);
    }
  }

  lemma FillsStep(x: nat, k: nat)
    requires 0 < x < Pow2(32) && Filled(x / 2, k)
    ensures Filled(x, k + 1)
  {
    hide SmearAll, Pow2;
    SmearAllOdd(x);
    SmearAllHalf(x);
    PowHalf(k + 1);
    if x / 2 == 0 {
      PowHalf(k);
    }
  }

  lemma {:induction false} Pow2Monotone(m: nat, n: nat)
    requires m <= n
    ensures Pow2(m) <= Pow2(n)
    decreases n - m
  {
    if m < n {
      Pow2Monotone(m + 1, n);
    }
  }
}
