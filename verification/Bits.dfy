// Unsigned machine words as natural numbers: the masks that src/map.c and
// src/memory.c use instead of division.

module Bits {

  const SIZE_MAX: nat := 0xFFFF_FFFF_FFFF_FFFF

  function Pow2(k: nat): (p: nat)
    ensures p > 0
  {
    if k == 0 then 1 else 2 * Pow2(k - 1)
  }

  ghost predicate IsPow2(n: nat) {
    exists k: nat :: n == Pow2(k)
  }

  /** Bitwise and of two natural numbers, bit by bit. */
  function And(a: nat, b: nat): (c: nat)
    ensures c <= a && c <= b
  {
    if a == 0 || b == 0 then 0
    else 2 * And(a / 2, b / 2) + if a % 2 == 1 && b % 2 == 1 then 1 else 0
  }

  lemma {:induction false} Pow2Adds(j: nat, k: nat)
    ensures Pow2(j + k) == Pow2(j) * Pow2(k)
  {
    if j > 0 {
      Pow2Adds(j - 1, k);
      assert Pow2(j + k) == 2 * Pow2(j - 1 + k);
      assert 2 * (Pow2(j - 1) * Pow2(k)) == (2 * Pow2(j - 1)) * Pow2(k);
    }
  }

  lemma Pow2Is64()
    ensures Pow2(32) == 0x1_0000_0000 && Pow2(64) == SIZE_MAX + 1
  {
    assert Pow2(8) == 256;
    Pow2Adds(8, 8);
    Pow2Adds(16, 16);
    Pow2Adds(32, 32);
  }

  /** Every power of two that is a word divides the number of words. */
  lemma DividesWord(cap: nat) returns (q: nat)
    requires IsPow2(cap) && cap <= SIZE_MAX
    ensures q * cap == SIZE_MAX + 1
  {
    var k: nat :| cap == Pow2(k);
    Pow2Is64();
    if k > 64 {
      Pow2Adds(k - 64, 64);
      MulLower(Pow2(k - 64), Pow2(64));
      assert false;
    }
    Pow2Adds(64 - k, k);
    q := Pow2(64 - k);
  }

  lemma AndStep(a: nat, b: nat)
    ensures And(a, b) == 2 * And(a / 2, b / 2) + if a % 2 == 1 && b % 2 == 1 then 1 else 0
  {
  }

  lemma ModUnique(x: int, q: int, r: int, m: int)
    requires m > 0 && x == q * m + r && 0 <= r < m
    ensures x % m == r && x / m == q
  {
    var q', r' := x / m, x % m;
    assert x == q' * m + r';
    if q > q' {
      MulLower(q - q', m);
      assert false;
    }
    if q < q' {
      MulLower(q' - q, m);
      assert false;
    }
  }

  lemma MulLower(d: int, m: int)
    requires d >= 1 && m > 0
    ensures d * m >= m
  {
  }

  /** Masking with a power of two minus one leaves the remainder of dividing by it. */
  lemma {:induction false} AndMaskDivides(x: nat, k: nat) returns (q: nat)
    ensures x == q * Pow2(k) + And(x, Pow2(k) - 1)
  {
    if k == 0 {
      q := x;
    } else {
      var m := Pow2(k - 1);
      q := AndMaskDivides(x / 2, k - 1);
      AndStep(x, 2 * m - 1);
      assert (2 * m - 1) / 2 == m - 1 && (2 * m - 1) % 2 == 1;
      HalfDivides(x, q, m, And(x / 2, m - 1));
    }
  }

  lemma HalfDivides(x: nat, q: nat, m: nat, low: nat)
    requires x / 2 == q * m + low
    ensures x == q * (2 * m) + (2 * low + x % 2)
  {
    DoubleProduct(q, m);
  }

  lemma DoubleProduct(q: int, m: int)
    ensures q * (2 * m) == 2 * (q * m)
  {
  }

  /** One fact behind every bucket index: the mask of a power of two is the remainder. */
  lemma AndMaskIsMod(x: nat, k: nat)
    ensures And(x, Pow2(k) - 1) == x % Pow2(k)
  {
    var q := AndMaskDivides(x, k);
    ModUnique(x, q, And(x, Pow2(k) - 1), Pow2(k));
  }

  /** Clearing the bits of `m` in a `k`-bit word subtracts the bits they share. */
  lemma {:induction false} AndComplement(x: nat, m: nat, k: nat)
    requires x < Pow2(k) && m < Pow2(k)
    ensures And(x, Pow2(k) - 1 - m) == x - And(x, m)
  {
    if k > 0 {
      var p := Pow2(k - 1);
      AndComplement(x / 2, m / 2, k - 1);
      AndStep(x, m);
      AndStep(x, 2 * p - 1 - m);
      assert (2 * p - 1 - m) / 2 == p - 1 - m / 2 && (2 * p - 1 - m) % 2 == 1 - m % 2;
    }
  }
}
