// Shifts and bitwise operations on natural numbers, one bit at a time.

module Words {
  import opened Bits

  /** `a` shifted right by `k`. */
  function Shr(a: nat, k: nat): (r: nat)
    ensures r <= a
    decreases k, a
  {
    if k == 0 then a else Shr(a / 2, k - 1)
  }

  function Shl(a: nat, k: nat): nat
    decreases k, a
  {
    if k == 0 then a else 2 * Shl(a, k - 1)
  }

  /** The low `k` bits of `a`. */
  function Low(a: nat, k: nat): (r: nat)
    ensures r < Pow2(k)
    decreases k, a
  {
    if k == 0 then 0 else 2 * Low(a / 2, k - 1) + a % 2
  }

  /** `high` in front of the `k` bits of `low`. */
  function Cat(high: nat, low: nat, k: nat): nat {
    Shl(high, k) + low
  }

  function Xor(a: nat, b: nat): nat
    decreases a + b
  {
    if a == 0 && b == 0 then 0 else 2 * Xor(a / 2, b / 2) + (a % 2 + b % 2) % 2
  }

  function Or(a: nat, b: nat): nat
    decreases a + b
  {
    if a == 0 && b == 0 then 0 else 2 * Or(a / 2, b / 2) + if a % 2 == 1 || b % 2 == 1 then 1 else 0
  }

  lemma {:induction false} ZeroShifts(k: nat)
    ensures Shl(0, k) == 0 && Shr(0, k) == 0
  {
    if k > 0 { ZeroShifts(k - 1); }
  }

  lemma {:induction false} CatParts(high: nat, low: nat, k: nat)
    requires low < Pow2(k)
    ensures Shr(Cat(high, low, k), k) == high && Low(Cat(high, low, k), k) == low
  {
    if k > 0 {
      CatParts(high, low / 2, k - 1);
      assert Cat(high, low, k) == 2 * Cat(high, low / 2, k - 1) + low % 2;
    }
  }

  lemma {:induction false} Split(a: nat, k: nat)
    ensures a == Cat(Shr(a, k), Low(a, k), k)
    decreases k
  {
    if k > 0 { Split(a / 2, k - 1); }
  }

  lemma {:induction false} CatBound(high: nat, low: nat, k: nat, m: nat)
    requires high < Pow2(m) && low < Pow2(k)
    ensures Cat(high, low, k) < Pow2(m + k)
  {
    if k > 0 { CatBound(high, low / 2, k - 1, m); }
  }

  lemma {:induction false} ShrBound(a: nat, k: nat, m: nat)
    requires a < Pow2(m + k)
    ensures Shr(a, k) < Pow2(m)
    decreases k
  {
    if k > 0 { ShrBound(a / 2, k - 1, m); }
  }

  lemma {:induction false} ShrAdds(a: nat, j: nat, k: nat)
    ensures Shr(Shr(a, j), k) == Shr(a, j + k)
    decreases j
  {
    if j > 0 { ShrAdds(a / 2, j - 1, k); }
  }

  lemma {:induction false} ShrXor(a: nat, b: nat, k: nat)
    ensures Shr(Xor(a, b), k) == Xor(Shr(a, k), Shr(b, k))
    decreases k
  {
    if k > 0 {
      assert Xor(a, b) / 2 == Xor(a / 2, b / 2);
      ShrXor(a / 2, b / 2, k - 1);
    }
  }

  lemma {:induction false} XorZero(a: nat)
    ensures Xor(0, a) == a
    decreases a
  {
    if a > 0 { XorZero(a / 2); }
  }

  lemma {:induction false} XorCancels(a: nat, b: nat)
    ensures Xor(a, Xor(a, b)) == b
    decreases a + b
  {
    if a > 0 || b > 0 {
      XorCancels(a / 2, b / 2);
      XorStep(a, Xor(a, b), Xor(a / 2, b / 2), (a % 2 + b % 2) % 2);
      BitCancels(a % 2, b % 2);
    }
  }

  lemma {:induction false} BitCancels(a: nat, b: nat)
    requires a < 2 && b < 2
    ensures (a + (a + b) % 2) % 2 == b
  {
  }

  lemma {:induction false} XorStep(a: nat, c: nat, half: nat, bit: nat)
    requires c == 2 * half + bit && bit < 2
    ensures Xor(a, c) == 2 * Xor(a / 2, half) + (a % 2 + bit) % 2
  {
    assert c / 2 == half && c % 2 == bit;
  }

  lemma {:induction false} OrSame(a: nat)
    ensures Or(a, a) == a
    decreases a
  {
    if a > 0 { OrSame(a / 2); }
  }

  lemma {:induction false} OrZero(a: nat)
    ensures Or(0, a) == a
    decreases a
  {
    if a > 0 { OrZero(a / 2); }
  }

  lemma {:induction false} OrStep(a: nat, b: nat)
    ensures Or(a, b) == 2 * Or(a / 2, b / 2) + if a % 2 == 1 || b % 2 == 1 then 1 else 0
  {
  }

  /** Parts that share no bit are joined by or. */
  lemma {:induction false} OrJoins(low: nat, high: nat, k: nat)
    requires low < Pow2(k)
    ensures Or(low, Shl(high, k)) == Cat(high, low, k)
    decreases k
  {
    if k == 0 {
      OrZero(high);
    } else {
      OrJoins(low / 2, high, k - 1);
      OrStep(low, Shl(high, k));
    }
  }

  lemma {:induction false} LowShl(x: nat, m: nat, r: nat)
    ensures Low(Shl(x, m), m + r) == Shl(Low(x, r), m)
    decreases m
  {
    if m > 0 { LowShl(x, m - 1, r); }
  }

  lemma {:induction false} LowIsMod(a: nat, k: nat)
    ensures Low(a, k) == a % Pow2(k)
    decreases k
  {
    if k > 0 {
      LowIsMod(a / 2, k - 1);
      var m, q := Pow2(k - 1), a / 2 / Pow2(k - 1);
      DoubleProduct(q, m);
      ModUnique(a, q, Low(a, k), 2 * m);
    }
  }

  lemma {:induction false} ShlIs(a: nat, k: nat)
    ensures Shl(a, k) == a * Pow2(k)
    decreases k
  {
    if k > 0 {
      ShlIs(a, k - 1);
      DoubleProduct(a, Pow2(k - 1));
    }
  }

  lemma {:induction false} PartsAre(a: nat, high: nat, low: nat, k: nat)
    requires low < Pow2(k) && a == high * Pow2(k) + low
    ensures Shr(a, k) == high && Low(a, k) == low
  {
    ShlIs(high, k);
    CatParts(high, low, k);
  }

  lemma {:induction false} CatStep(h: nat, l: nat, k: nat)
    requires k > 0
    ensures Cat(h, l, k) == 2 * Cat(h, l / 2, k - 1) + l % 2
  {
  }

  lemma {:induction false} XorCat(h: nat, l: nat, h': nat, l': nat, k: nat)
    requires l < Pow2(k) && l' < Pow2(k)
    ensures Xor(Cat(h, l, k), Cat(h', l', k)) == Cat(Xor(h, h'), Xor(l, l'), k)
    decreases k
  {
    if k == 0 {
      assert Xor(l, l') == 0;
    } else {
      XorCat(h, l / 2, h', l' / 2, k - 1);
      CatStep(h, l, k);
      CatStep(h', l', k);
      XorBits(Cat(h, l / 2, k - 1), l % 2, Cat(h', l' / 2, k - 1), l' % 2);
      XorBits(l / 2, l % 2, l' / 2, l' % 2);
      CatStep(Xor(h, h'), Xor(l, l'), k);
    }
  }

  lemma {:induction false} XorBits(a: nat, i: nat, b: nat, j: nat)
    requires i < 2 && j < 2
    ensures Xor(2 * a + i, 2 * b + j) == 2 * Xor(a, b) + (i + j) % 2
  {
    assert (2 * a + i) / 2 == a && (2 * b + j) / 2 == b;
  }
}
