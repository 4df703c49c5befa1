/** Unsigned mask and shift arithmetic, as uthash uses it on bucket counts that are powers of two. */
module Bits {

  function Pow2(k: nat): (r: nat)
    ensures r >= 1
  {
    if k == 0 then 1 else 2 * Pow2(k - 1)
  }

  /** Bitwise AND, one bit at a time. */
  function BitAnd(x: nat, y: nat): nat
  {
    if x == 0 || y == 0 then 0 else (x % 2) * (y % 2) + 2 * BitAnd(x / 2, y / 2)
  }

  /** The remainder, by repeated subtraction. */
  function Rem(v: nat, n: nat): (r: nat)
    requires n > 0
    ensures r < n
    decreases v
  {
    if v < n then v else Rem(v - n, n)
  }

  /** The quotient, by repeated subtraction. */
  function Quot(v: nat, n: nat): nat
    requires n > 0
    decreases v
  {
    if v < n then 0 else 1 + Quot(v - n, n)
  }

  lemma {:induction false} QuotRem(v: nat, n: nat)
    requires n > 0
    ensures v == n * Quot(v, n) + Rem(v, n)
    decreases v
  {
    if v >= n {
      QuotRem(v - n, n);
      Distribute(n, Quot(v - n, n));
    }
  }

  lemma {:induction false} Distribute(n: nat, q: nat)
    ensures n * (1 + q) == n * q + n
  {
  }

  lemma {:induction false} QuotIsDiv(v: nat, n: nat)
    requires n > 0
    ensures Quot(v, n) == v / n && Rem(v, n) == v % n
  {
    QuotRem(v, n);
    DivModUnique(v, n, Quot(v, n), Rem(v, n));
  }

  lemma {:induction false} RemIsMod(v: nat, n: nat)
    requires n > 0
    ensures Rem(v, n) == v % n
  {
    QuotIsDiv(v, n);
  }

  /** Logical shift right. */
  function ShiftRight(x: nat, k: nat): nat
    decreases k
  {
    if k == 0 then x else ShiftRight(x / 2, k - 1)
  }

  /** Halving commutes with division by a doubled divisor. */
  lemma {:induction false} HalveBoth(x: nat, p: nat)
    requires p > 0
    ensures Quot(x, 2 * p) == Quot(x / 2, p) && Rem(x, 2 * p) == x % 2 + 2 * Rem(x / 2, p)
    decreases x
  {
    if x >= 2 * p {
      HalveBoth(x - 2 * p, p);
      assert (x - 2 * p) / 2 == x / 2 - p && (x - 2 * p) % 2 == x % 2;
    }
  }

  lemma {:induction false} ByOne(x: nat)
    ensures Quot(x, 1) == x && Rem(x, 1) == 0
  {
    if x > 0 {
      ByOne(x - 1);
    }
  }

  /** A quotient and a remainder are the only ones. */
  lemma {:induction false} DivModUnique(x: int, d: nat, q: int, r: int)
    requires d > 0 && 0 <= r < d && x == d * q + r
    ensures x / d == q && x % d == r
  {
    var q', r' := x / d, x % d;
    assert x == d * q' + r' && 0 <= r' < d;
    assert d * (q - q') == r' - r by {
      assert d * (q - q') == d * q - d * q';
    }
    if q - q' >= 1 {
      MulAtLeast(d, q - q');
    } else if q' - q >= 1 {
      MulAtLeast(d, q' - q);
    }
  }

  lemma {:induction false} MulAtLeast(d: nat, k: int)
    requires k >= 1
    ensures d * k >= d
  {
    assert d * k == d + d * (k - 1);
    assert d * (k - 1) >= 0;
  }

  /** HASH_TO_BKT: masking with a power of two less one is reduction modulo that power. */
  lemma {:induction false} MaskIsRem(x: nat, k: nat)
    ensures BitAnd(x, Pow2(k) - 1) == Rem(x, Pow2(k))
    decreases k
  {
    if k == 0 {
      ByOne(x);
    } else {
      MaskIsRem(x / 2, k - 1);
      HalveBoth(x, Pow2(k - 1));
      MaskLowBit(x, Pow2(k - 1));
    }
  }

  lemma {:induction false} MaskLowBit(x: nat, p: nat)
    requires p > 0
    ensures BitAnd(x, 2 * p - 1) == x % 2 + 2 * BitAnd(x / 2, p - 1)
  {
    var m := 2 * p - 1;
    assert m % 2 == 1 && m / 2 == p - 1;
    assert x % 2 * (m % 2) == x % 2;
  }

  lemma {:induction false} MaskIsMod(x: nat, k: nat)
    ensures BitAnd(x, Pow2(k) - 1) == x % Pow2(k)
  {
    MaskIsRem(x, k);
    RemIsMod(x, Pow2(k));
  }

  lemma {:induction false} ShiftIsQuot(x: nat, k: nat)
    ensures ShiftRight(x, k) == Quot(x, Pow2(k))
    decreases k
  {
    if k == 0 {
      ByOne(x);
    } else {
      ShiftIsQuot(x / 2, k - 1);
      HalveBoth(x, Pow2(k - 1));
    }
  }

  lemma {:induction false} ShiftIsDiv(x: nat, k: nat)
    ensures ShiftRight(x, k) == x / Pow2(k)
  {
    ShiftIsQuot(x, k);
    QuotIsDiv(x, Pow2(k));
  }

  /** The quotient rounded up. */
  function CeilDiv(a: nat, b: nat): nat
    requires b > 0
  {
    (a + b - 1) / b
  }

  lemma {:induction false} CeilFromFloor(a: nat, b: nat)
    requires b > 0
    ensures CeilDiv(a, b) == a / b + if a % b != 0 then 1 else 0
  {
    var q, r := a / b, a % b;
    assert a == b * q + r;
    if r == 0 {
      DivModUnique(a + b - 1, b, q, b - 1);
    } else {
      assert b * (q + 1) == b * q + b;
      DivModUnique(a + b - 1, b, q + 1, r - 1);
    }
  }

  /** The header's ceiling of n / 2^k, by shift and mask. */
  function CeilShift(n: nat, k: nat): nat
  {
    ShiftRight(n, k) + if BitAnd(n, Pow2(k) - 1) != 0 then 1 else 0
  }

  lemma {:induction false} CeilByShiftAndMask(n: nat, k: nat)
    ensures CeilShift(n, k) == CeilDiv(n, Pow2(k))
  {
    MaskIsMod(n, k);
    ShiftIsDiv(n, k);
    CeilFromFloor(n, Pow2(k));
  }
}
