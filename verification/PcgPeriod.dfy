// The state sequence of src/random.c: x -> x * MULTIPLIER + increment modulo 2^64, and
// why every odd increment makes it visit all 2^64 states.

module PcgPeriod {
  import opened Bits
  import opened Words

  const MODULUS: nat := 0x1_0000_0000_0000_0000
  const MULTIPLIER: nat := 6364136223846793005
  const QUARTER: nat := 1591034055961698251   // (MULTIPLIER - 1) / 4

  type Word64 = x: nat | x < 0x1_0000_0000_0000_0000
  type OddWord = c: nat | c < 0x1_0000_0000_0000_0000 && c % 2 == 1 witness 1

  /** What an overflowing 64-bit sum or product keeps. */
  function Wrap(x: nat): Word64 {
    Pow2Is64();
    Low(x, 64)
  }

  function Step(x: Word64, c: Word64): Word64 {
    Wrap(x * 6364136223846793005 + c)
  }

  lemma {:induction false} WrapIs(x: nat)
    ensures Wrap(x) == x % 0x1_0000_0000_0000_0000
  {
    Pow2Is64();
    LowIsMod(x, 64);
  }

  lemma {:induction false} StepIs(x: Word64, c: Word64)
    ensures Step(x, c) == (x * MULTIPLIER + c) % MODULUS
  {
    WrapIs(x * 6364136223846793005 + c);
  }

  function Steps(x: Word64, c: Word64, n: nat): Word64
    decreases n
  {
    if n == 0 then x else Step(Steps(x, c, n - 1), c)
  }

  /** One more step at the front is one more step at the back. */
  lemma {:induction false} StepsShift(x: Word64, c: Word64, n: nat)
    ensures Steps(Step(x, c), c, n) == Steps(x, c, n + 1)
    decreases n
  {
    if n > 0 { StepsShift(x, c, n - 1); }
  }

  /** 1 + M + M^2 + ... + M^(n-1) for the multiplier M. */
  function Sum(n: nat): nat {
    if n == 0 then 0 else 6364136223846793005 * Sum(n - 1) + 1
  }

  /** What `n` steps add to `x`, before the wrap-around. */
  function Advance(x: nat, c: nat, n: nat): nat {
    Sum(n) * (6364136223846793004 * x + c)
  }

  lemma {:induction false} ModuloStep(a: int, b: int, c: int, q: int)
    requires a == b + q * MODULUS
    ensures (a * MULTIPLIER + c) % MODULUS == (b * MULTIPLIER + c) % MODULUS
  {
  }

  /** Any number of steps at once. */
  lemma {:induction false} StepsAre(x: Word64, c: Word64, n: nat)
    ensures Steps(x, c, n) == (x + Advance(x, c, n)) % MODULUS
  {
    if n > 0 {
      var m := n - 1;
      StepsAre(x, c, m);
      StepAdvances(x, c, m, Steps(x, c, m));
    }
  }

  lemma {:induction false} StepAdvances(x: Word64, c: Word64, m: nat, before: Word64)
    requires before == (x + Advance(x, c, m)) % MODULUS
    ensures Step(before, c) == (x + Advance(x, c, m + 1)) % MODULUS
  {
    var a := x + Advance(x, c, m);
    StepIs(before, c);
    AdvanceNext(x, c, m);
    assert a == before + a / MODULUS * MODULUS;
    ModuloStep(a, before, c, a / MODULUS);
  }

  lemma {:induction false} AdvanceNext(x: nat, c: nat, n: nat)
    ensures x + Advance(x, c, n + 1) == (x + Advance(x, c, n)) * MULTIPLIER + c
  {
  }

  lemma {:induction false} SumAdds(m: nat, n: nat)
    ensures Sum(m + n) == Sum(m) + Sum(n) + 6364136223846793004 * (Sum(m) * Sum(n))
  {
    if m > 0 {
      SumAdds(m - 1, n);
      AddStep(Sum(m - 1), Sum(n));
    }
  }

  lemma {:induction false} AddStep(a: int, b: int)
    ensures var a' := 6364136223846793005 * a + 1;
            6364136223846793005 * (a + b + 6364136223846793004 * (a * b)) + 1 == a' + b + 6364136223846793004 * (a' * b)
  {
  }

  /** Doubling the number of steps doubles the sum, times an odd number. */
  lemma {:induction false} SumDoubles(n: nat)
    ensures Sum(2 * n) == 2 * (Sum(n) * (2 * (QUARTER * Sum(n)) + 1))
  {
    SumAdds(n, n);
    var s := Sum(n);
    assert s * (2 * (QUARTER * s) + 1) == 2 * QUARTER * (s * s) + s;
  }

  // ---------- Divisibility by powers of two ----------

  ghost predicate Divides(d: int, x: int) {
    exists q: int :: x == q * d
  }

  lemma {:induction false} OddFactorCancels(a: int, b: int, j: nat)
    requires Divides(Pow2(j), a * (2 * b + 1))
    ensures Divides(Pow2(j), a)
    decreases j
  {
    if j == 0 {
      assert a == a * 1;
    } else {
      HalveProduct(a, b, Pow2(j - 1));
      OddFactorCancels(a / 2, b, j - 1);
      DividesScales(Pow2(j - 1), a / 2, 1);
    }
  }

  lemma {:induction false} HalveProduct(a: int, b: int, d: int)
    requires Divides(2 * d, a * (2 * b + 1))
    ensures a == 2 * (a / 2) && Divides(d, (a / 2) * (2 * b + 1))
  {
    var q: int :| a * (2 * b + 1) == q * (2 * d);
    DoubleProduct(q, d);
    OddTimes(a, b);
    assert a % 2 == 0;
    OddTimes(a / 2, b);
    DoubleProduct(b, a / 2);
    assert (a / 2) * (2 * b + 1) == q * d;
  }

  lemma {:induction false} OddTimes(a: int, b: int)
    ensures a * (2 * b + 1) == 2 * (b * a) + a
  {
  }

  lemma {:induction false} DividesScales(d: int, x: int, y: int)
    requires Divides(d, x)
    ensures Divides(d, x * y) && Divides(2 * d, 2 * x)
  {
    var q: int :| x == q * d;
    assert x * y == (q * y) * d;
    assert 2 * x == q * (2 * d);
  }

  lemma {:induction false} DividesHalves(d: int, x: int)
    requires Divides(2 * d, 2 * x)
    ensures Divides(d, x)
  {
    var q: int :| 2 * x == q * (2 * d);
    DoubleProduct(q, d);
    assert x == q * d;
  }

  lemma {:induction false} SumParity(n: nat)
    ensures Sum(n) % 2 == n % 2
  {
    if n > 0 {
      SumParity(n - 1);
      assert Sum(n) == 2 * (3182068111923396502 * Sum(n - 1)) + Sum(n - 1) + 1;
    }
  }

  /** The sum over `n` steps has exactly the factors of two that `n` has. */
  lemma {:induction false} SumDivides(n: nat, j: nat)
    ensures Divides(Pow2(j), Sum(n)) <==> Divides(Pow2(j), n)
    decreases j
  {
    if j == 0 {
      assert Sum(n) == Sum(n) * 1 && n == n * 1;
    } else {
      SumParity(n);
      EvenMultiple(Sum(n), Pow2(j - 1));
      EvenMultiple(n, Pow2(j - 1));
      if n % 2 == 0 {
        var m := n / 2;
        SumDivides(m, j - 1);
        SumDoubles(m);
        var s, b := Sum(m), QUARTER * Sum(m);
        if Divides(Pow2(j), Sum(n)) {
          DividesHalves(Pow2(j - 1), s * (2 * b + 1));
          OddFactorCancels(s, b, j - 1);
          DividesScales(Pow2(j - 1), m, 1);
        }
        if Divides(Pow2(j), n) {
          DividesHalves(Pow2(j - 1), m);
          DividesScales(Pow2(j - 1), s, 2 * b + 1);
          DividesScales(Pow2(j - 1), s * (2 * b + 1), 1);
        }
      }
    }
  }

  lemma {:induction false} EvenMultiple(x: int, d: int)
    ensures Divides(2 * d, x) ==> x % 2 == 0
  {
    if Divides(2 * d, x) {
      var q: int :| x == q * (2 * d);
      DoubleProduct(q, d);
    }
  }

  /** 2^j steps add an odd multiple of 2^j, whatever the state. */
  lemma {:induction false} PowerSum(j: nat) returns (h: nat)
    ensures Sum(Pow2(j)) == (2 * h + 1) * Pow2(j)
  {
    if j == 0 {
      h := 0;
      assert Sum(1) == 1;
    } else {
      var g := PowerSum(j - 1);
      var s := Sum(Pow2(j - 1));
      SumDoubles(Pow2(j - 1));
      var b := QUARTER * s;
      h := g * (2 * b + 1) + b;
      PowerStep(g, b, Pow2(j - 1), s);
    }
  }

  lemma {:induction false} PowerStep(g: int, b: int, p: int, s: int)
    requires s == (2 * g + 1) * p
    ensures 2 * (s * (2 * b + 1)) == (2 * (g * (2 * b + 1) + b) + 1) * (2 * p)
  {
  }

  // ---------- The promises ----------

  /** Adding `d` brings a 64-bit word back if and only if 2^64 divides `d`. */
  lemma {:induction false} WrapsExactly(x: Word64, d: nat)
    ensures (x + d) % MODULUS == x <==> Divides(MODULUS, d)
  {
    if (x + d) % MODULUS == x {
      assert d == ((x + d) / MODULUS) * MODULUS;
    }
    if Divides(MODULUS, d) {
      var q: int :| d == q * MODULUS;
      ModUnique(x + d, q, x, MODULUS);
    }
  }

  lemma {:induction false} AdvanceDivides(x: Word64, c: OddWord, n: nat, j: nat)
    ensures Divides(Pow2(j), Advance(x, c, n)) <==> Divides(Pow2(j), n)
  {
    var b := (6364136223846793004 * x + c) / 2;
    assert 6364136223846793004 * x + c == 2 * b + 1;
    assert Advance(x, c, n) == Sum(n) * (2 * b + 1);
    SumDivides(n, j);
    if Divides(Pow2(j), Advance(x, c, n)) {
      OddFactorCancels(Sum(n), b, j);
    }
    if Divides(Pow2(j), Sum(n)) {
      DividesScales(Pow2(j), Sum(n), 2 * b + 1);
    }
  }

  /** The exact period: a state comes back after `n` steps if and only if 2^64 divides `n`. */
  lemma {:induction false} ReturnsExactly(x: Word64, c: OddWord, n: nat)
    ensures Steps(x, c, n) == x <==> n % MODULUS == 0
  {
    StepsAre(x, c, n);
    AdvanceDivides(x, c, n, 64);
    Pow2Is64();
    WrapsExactly(x, Advance(x, c, n));
    WrapsExactly(0, n);
  }

  lemma {:induction false} StepsAdd(x: Word64, c: Word64, m: nat, n: nat)
    ensures Steps(x, c, m + n) == Steps(Steps(x, c, m), c, n)
    decreases n
  {
    if n > 0 { StepsAdd(x, c, m, n - 1); }
  }

  /** 2^j steps flip bit `j` and leave the bits below it. */
  lemma {:induction false} PowerStepsFlip(y: Word64, target: int, c: OddWord, j: nat)
    requires j < 64 && Divides(Pow2(j), y - target) && !Divides(Pow2(j + 1), y - target)
    ensures Divides(Pow2(j + 1), Steps(y, c, Pow2(j)) - target)
  {
    var p := Pow2(j);
    var q: int :| y - target == q * p;
    var h := PowerSum(j);
    var b := (6364136223846793004 * y + c) / 2;
    assert 6364136223846793004 * y + c == 2 * b + 1;
    StepsAre(y, c, p);
    var k := FlipIsEven(q, h, b, p);
    assert y - target + Advance(y, c, p) == k * (2 * p);
    WrapsToMultiple(y + Advance(y, c, p), target, k, j);
  }

  /** Dropping the high bits keeps divisibility by a smaller power of two. */
  lemma {:induction false} WrapsToMultiple(x: nat, target: int, k: int, j: nat)
    requires j < 64 && x - target == k * (2 * Pow2(j))
    ensures Divides(Pow2(j + 1), x % MODULUS - target)
  {
    var w, m := x / 0x1_0000_0000_0000_0000, Pow2(64 - (j + 1));
    Pow2Adds(64 - (j + 1), j + 1);
    Pow2Is64();
    WholeTurns(x - target, k, w, m, Pow2(j + 1));
  }

  lemma {:induction false} WholeTurns(x: int, k: int, w: int, m: int, d: int)
    requires x == k * d
    ensures Divides(d, x - w * (m * d))
  {
    MulSwaps(w, d, m);
    Negated(w * m, d);
    MulJoins(k, -(w * m), d);
    assert x - w * (m * d) == (k - w * m) * d;
  }

  lemma {:induction false} FlipIsEven(q: int, h: int, b: int, p: int) returns (k: int)
    requires !Divides(2 * p, q * p)
    ensures q * p + ((2 * h + 1) * p) * (2 * b + 1) == k * (2 * p)
  {
    EvenQuotient(q, p);
    var o := OddProduct(h, b);
    k := (q - 1) / 2 + o + 1;
    MulSwaps(2 * h + 1, p, 2 * b + 1);
    MulJoins(q, 2 * o + 1, p);
    DoubleProduct(k, p);
    assert q + (2 * o + 1) == 2 * k;
    MulSwaps(2, p, k);
  }

  lemma {:induction false} MulSwaps(a: int, p: int, b: int)
    ensures (a * p) * b == (a * b) * p
  {
  }

  lemma {:induction false} Negated(a: int, d: int)
    ensures -a * d == -(a * d)
  {
  }

  lemma {:induction false} MulJoins(a: int, b: int, p: int)
    ensures a * p + b * p == (a + b) * p
  {
  }

  lemma {:induction false} EvenQuotient(q: int, p: int)
    ensures q % 2 == 0 ==> Divides(2 * p, q * p)
  {
    if q % 2 == 0 {
      DoubleProduct(q / 2, p);
      assert q * p == (q / 2) * (2 * p);
    }
  }

  lemma {:induction false} OddProduct(h: int, b: int) returns (o: int)
    ensures (2 * h + 1) * (2 * b + 1) == 2 * o + 1
  {
    o := 2 * (h * b) + h + b;
    assert (2 * h + 1) * (2 * b + 1) == 4 * (h * b) + 2 * h + 2 * b + 1;
  }

  /** From every state every other state is reached, in fewer than 2^64 steps: the `j` low
      bits are put right by fewer than 2^j steps. */
  lemma {:induction false} Reaches(x: Word64, target: Word64, c: OddWord, j: nat) returns (n: nat)
    requires j <= 64
    ensures n < Pow2(j) && Divides(Pow2(j), Steps(x, c, n) - target)
  {
    if j == 0 {
      n := 0;
      assert Steps(x, c, n) - target == (Steps(x, c, n) - target) * 1;
    } else {
      n := Reaches(x, target, c, j - 1);
      var y := Steps(x, c, n);
      if !Divides(Pow2(j), y - target) {
        PowerStepsFlip(y, target, c, j - 1);
        StepsAdd(x, c, n, Pow2(j - 1));
        n := n + Pow2(j - 1);
      }
    }
  }

  /** Every state is visited from every state within one period. */
  lemma {:induction false} VisitsAll(x: Word64, target: Word64, c: OddWord) returns (n: nat)
    ensures n < MODULUS && Steps(x, c, n) == target
  {
    n := Reaches(x, target, c, 64);
    Pow2Is64();
    var q: int :| Steps(x, c, n) - target == q * MODULUS;
    if q >= 1 { MulLower(q, MODULUS); }
    if q <= -1 { MulLower(-q, MODULUS); }
  }
}
