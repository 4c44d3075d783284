/** Bit operations on unsigned numbers, as arithmetic. */
module Bits {

  const TWO_64 := 0x1_0000_0000_0000_0000

  function Pow2(k: nat): (r: nat)
    ensures r > 0
  {
    if k == 0 then 1 else 2 * Pow2(k - 1)
  }

  lemma Pow2Values()
    ensures Pow2(8) == 256 && Pow2(24) == 0x100_0000 && Pow2(40) == 0x100_0000_0000 && Pow2(64) == TWO_64
  {
    assert Pow2(8) == 256;
    assert Pow2(16) == 256 * Pow2(8);
    assert Pow2(24) == 256 * Pow2(16);
    assert Pow2(32) == 256 * Pow2(24);
    assert Pow2(40) == 256 * Pow2(32);
    assert Pow2(48) == 256 * Pow2(40);
    assert Pow2(56) == 256 * Pow2(48);
    assert Pow2(64) == 256 * Pow2(56);
  }

  /** x | y. */
  function BitOr(x: nat, y: nat): nat {
    if x == 0 && y == 0 then 0
    else (if x % 2 == 1 || y % 2 == 1 then 1 else 0) + 2 * BitOr(x / 2, y / 2)
  }

  /** x & y. */
  function BitAnd(x: nat, y: nat): nat {
    if x == 0 || y == 0 then 0
    else (if x % 2 == 1 && y % 2 == 1 then 1 else 0) + 2 * BitAnd(x / 2, y / 2)
  }

  /** x << k on a u64. */
  function Shl(x: nat, k: nat): nat {
    x * Pow2(k) % TWO_64
  }

  function Quotient(x: nat, n: nat): nat
    requires n > 0
  {
    x / n
  }

  /** x >> k. */
  function Shr(x: nat, k: nat): nat {
    Quotient(x, Pow2(k))
  }

  lemma {:induction false} OrZero(x: nat)
    ensures BitOr(x, 0) == x
  {
    if x > 0 { OrZero(x / 2); }
  }

  /** Disjoint bits add up. */
  lemma {:induction false} OrIsSum(a: nat, m: nat, k: nat)
    requires m < Pow2(k)
    ensures BitOr(a * Pow2(k), m) == a * Pow2(k) + m
  {
    if k == 0 {
      OrZero(a);
    } else {
      OrIsSum(a, m / 2, k - 1);
      MulDouble(a, Pow2(k - 1));
      OrStep(a * Pow2(k - 1), m);
      hide BitOr;
    }
  }

  lemma MulDouble(a: nat, q: nat)
    ensures a * (2 * q) == 2 * (a * q)
  {}

  lemma OrStep(p: nat, m: nat)
    ensures BitOr(2 * p, m) == m % 2 + 2 * BitOr(p, m / 2)
  {
    assert 2 * p / 2 == p;
  }

  /** Masking with k ones takes the remainder. */
  lemma {:induction false} MaskIsMod(x: nat, k: nat)
    ensures BitAnd(x, Pow2(k) - 1) == x % Pow2(k)
  {
    if k > 0 {
      MaskIsMod(x / 2, k - 1);
      ModHalves(x, Pow2(k - 1));
      MaskStep(x, Pow2(k - 1));
    }
  }

  lemma MaskStep(x: nat, p: nat)
    requires p > 0
    ensures BitAnd(x, 2 * p - 1) == x % 2 + 2 * BitAnd(x / 2, p - 1)
  {
    assert (2 * p - 1) / 2 == p - 1 && (2 * p - 1) % 2 == 1;
  }

  lemma ModHalves(x: nat, p: nat)
    requires p > 0
    ensures x % (2 * p) == 2 * (x / 2 % p) + x % 2
  {
    var (q, r) := (x / 2 / p, x / 2 % p);
    assert x / 2 == p * q + r;
    assert 2 * (p * q) == 2 * p * q;
    DivModUnique(x, 2 * p, q, 2 * r + x % 2);
  }

  lemma MulAtLeast(n: nat, d: int)
    requires n > 0
    ensures d >= 1 ==> n * d >= n
    ensures d <= -1 ==> n * d <= 0 - n
  {}

  lemma DivModUnique(x: nat, n: nat, q: nat, r: nat)
    requires n > 0 && x == n * q + r && r < n
    ensures x % n == r && x / n == q
  {
    var d := x / n - q;
    assert n * (x / n) + x % n == x;
    assert n * d == n * (x / n) - n * q;
    MulAtLeast(n, d);
  }

  lemma DivDouble(x: nat, p: nat)
    requires p > 0
    ensures Quotient(x, 2 * p) == Quotient(x, p) / 2
  {
    var (q, r) := (x / p, x % p);
    var (h, b) := (q / 2, q % 2);
    assert x == p * q + r && q == 2 * h + b;
    MulSplit(p, h, b);
    DivModUnique(x, 2 * p, h, p * b + r);
  }

  lemma MulSplit(p: nat, h: nat, b: nat)
    requires b < 2
    ensures p * (2 * h + b) == 2 * p * h + p * b
    ensures p * b == if b == 0 then 0 else p
  {}

  /** Shifting by one more halves. */
  lemma ShrNext(x: nat, k: nat)
    ensures Shr(x, k + 1) == Shr(x, k) / 2
  {
    DivDouble(x, Pow2(k));
    hide Quotient;
  }

  /** Shifting right in two steps. */
  lemma {:induction false} ShrShr(x: nat, j: nat, k: nat)
    ensures Shr(Shr(x, j), k) == Shr(x, j + k)
  {
    if k == 0 {
      assert Pow2(0) == 1;
    } else {
      hide Shr;
      ShrShr(x, j, k - 1);
      ShrNext(Shr(x, j), k - 1);
      ShrNext(x, j + k - 1);
    }
  }

  lemma {:induction false} Pow2Sum(j: nat, k: nat)
    ensures Pow2(j + k) == Pow2(j) * Pow2(k)
  {
    if k > 0 { Pow2Sum(j, k - 1); }
  }

  lemma {:induction false} Pow2Grows(j: nat, k: nat)
    requires j <= k
    ensures Pow2(j) <= Pow2(k)
    decreases k
  {
    if j < k { Pow2Grows(j, k - 1); }
  }

  // ---------------------------------------------------------------- single bits

  /** Bit k of x, counting from the least significant. */
  predicate BitAt(x: nat, k: nat) {
    Shr(x, k) % 2 == 1
  }

  lemma BitOfHalf(x: nat, k: nat)
    requires k > 0
    ensures BitAt(x, k) == BitAt(x / 2, k - 1)
  {
    ShrShr(x, 1, k - 1);
    assert Shr(x, 1) == x / 2 by { assert Pow2(1) == 2; }
    hide Shr;
  }

  lemma {:induction false} OrBit(x: nat, y: nat, k: nat)
    ensures BitAt(BitOr(x, y), k) <==> BitAt(x, k) || BitAt(y, k)
  {
    hide BitAt, BitOr;
    if k == 0 {
      LowBit(x);
      LowBit(y);
      LowBit(BitOr(x, y));
      OrLow(x, y);
    } else {
      OrBit(x / 2, y / 2, k - 1);
      BitOfHalf(x, k);
      BitOfHalf(y, k);
      BitOfHalf(BitOr(x, y), k);
      OrHalf(x, y);
    }
  }

  lemma LowBit(x: nat)
    ensures BitAt(x, 0) <==> x % 2 == 1
  {
    assert Pow2(0) == 1;
  }

  lemma OrLow(x: nat, y: nat)
    ensures BitOr(x, y) % 2 == 1 <==> x % 2 == 1 || y % 2 == 1
  {
    OrUnrolled(x, y);
    hide BitOr;
    EvenPart(if x % 2 == 1 || y % 2 == 1 then 1 else 0, BitOr(x / 2, y / 2));
  }

  lemma OrUnrolled(x: nat, y: nat)
    ensures BitOr(x, y) == (if x % 2 == 1 || y % 2 == 1 then 1 else 0) + 2 * BitOr(x / 2, y / 2)
  {}

  lemma EvenPart(b: nat, r: nat)
    requires b < 2
    ensures (b + 2 * r) % 2 == b
  {}

  lemma OrHalf(x: nat, y: nat)
    ensures BitOr(x, y) / 2 == BitOr(x / 2, y / 2)
  {}

  lemma {:induction false} OneBit(k: nat, j: nat)
    ensures BitAt(Pow2(k), j) <==> j == k
  {
    assert Pow2(0) == 1;
    if j == 0 {
    } else if k == 0 {
      ZeroBit(j - 1);
      BitOfHalf(1, j);
    } else {
      OneBit(k - 1, j - 1);
      BitOfHalf(Pow2(k), j);
    }
  }

  lemma ZeroBit(j: nat)
    ensures !BitAt(0, j)
  {}

  lemma {:induction false} OrBound(x: nat, y: nat, n: nat)
    requires x < Pow2(n) && y < Pow2(n)
    ensures BitOr(x, y) < Pow2(n)
  {
    if n > 0 { OrBound(x / 2, y / 2, n - 1); }
  }

  lemma AndOne(x: nat)
    ensures BitAnd(x, 1) == x % 2
  {
    assert x > 0 ==> BitAnd(x / 2, 0) == 0;
  }
}
