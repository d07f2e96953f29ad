// The generator of src/random.c: how a state becomes an output, how a bounded value is
// drawn without bias, and why drawing always ends.

module Random {
  import opened Bits
  import opened Words
  import opened PcgPeriod

  const WORD: nat := 0x1_0000_0000

  /** A 32-bit rotation to the right, as two shifts joined by or. */
  function RotateRight(x: nat, r: nat): nat
    requires r < 32
  {
    Or(Shr(x, r), Low(Shl(x, And((0x1_0000_0000 - r) % 0x1_0000_0000, 31)), 32))
  }

  /** The output of a state: bits 58..27 xored with the bits 18 above, rotated by the top
      five bits. */
  function Output(s: Word64): nat {
    TopFive(s);
    RotateRight(Low(Shr(Xor(Shr(s, 18), s), 27), 32), Shr(s, 59))
  }

  lemma {:induction false} TopFive(s: Word64)
    ensures Shr(s, 59) < 32 && Shr(s, 27) < Pow2(37)
  {
    Pow2Is64();
    assert Pow2(5) == 32;
    ShrBound(s, 59, 5);
    ShrBound(s, 27, 37);
  }

  // ---------- The rotation loses nothing ----------

  function RotateLeft(v: nat, r: nat): nat
    requires r < 32
  {
    Cat(Low(v, 32 - r), Shr(v, 32 - r), r)
  }

  lemma {:induction false} MaskIs(v: nat)
    ensures And(v, 31) == v % 32
  {
    assert Pow2(5) == 32;
    AndMaskIsMod(v, 5);
  }

  lemma {:induction false} RotationCount(r: nat)
    requires r < 32
    ensures And((0x1_0000_0000 - r) % 0x1_0000_0000, 31) == if r == 0 then 0 else 32 - r
  {
    MaskIs((0x1_0000_0000 - r) % 0x1_0000_0000);
  }

  lemma {:induction false} RotationIs(x: nat, r: nat)
    requires r < 32 && x < Pow2(32)
    ensures RotateRight(x, r) == Cat(Low(x, r), Shr(x, r), 32 - r)
  {
    RotationCount(r);
    if r == 0 { NoRotation(x, 32); } else { PartsTurn(x, r, 32); }
  }

  lemma {:induction false} PartsTurn(x: nat, r: nat, w: nat)
    requires 0 < r < w && x < Pow2(w)
    ensures Or(Shr(x, r), Low(Shl(x, w - r), w)) == Cat(Low(x, r), Shr(x, r), w - r)
  {
    LowShl(x, w - r, r);
    ShrBound(x, r, w - r);
    OrJoins(Shr(x, r), Low(x, r), w - r);
  }

  lemma {:induction false} NoRotation(x: nat, w: nat)
    requires x < Pow2(w)
    ensures Or(Shr(x, 0), Low(Shl(x, 0), w)) == Cat(Low(x, 0), Shr(x, 0), w)
  {
    ZeroShifts(w);
    CatParts(0, x, w);
    OrSame(x);
  }

  lemma {:induction false} RotationInverts(x: nat, r: nat)
    requires r < 32 && x < Pow2(32)
    ensures RotateRight(x, r) < Pow2(32) && RotateLeft(RotateRight(x, r), r) == x
    ensures RotateLeft(x, r) < Pow2(32) && RotateRight(RotateLeft(x, r), r) == x
  {
    RotationIs(x, r);
    ShrBound(x, r, 32 - r);
    CatParts(Low(x, r), Shr(x, r), 32 - r);
    CatBound(Low(x, r), Shr(x, r), 32 - r, r);
    Split(x, r);
    ShrBound(x, 32 - r, r);
    CatParts(Low(x, 32 - r), Shr(x, 32 - r), r);
    CatBound(Low(x, 32 - r), Shr(x, 32 - r), r, 32 - r);
    Split(x, 32 - r);
    RotationIs(RotateLeft(x, r), r);
  }

  // ---------- The xorshift loses nothing ----------

  function Xorshift(h: nat): nat {
    Xor(Shr(h, 18), h)
  }

  lemma {:induction false} ShrShrinks(a: nat, k: nat)
    requires a > 0 && k > 0
    ensures Shr(a, k) < a
  {
  }

  function Unxorshift(g: nat): (h: nat)
    decreases g
  {
    if g == 0 then 0
    else
      ShrShrinks(g, 18);
      Xor(Unxorshift(Shr(g, 18)), g)
  }

  lemma {:induction false} XorshiftShr(h: nat, k: nat)
    ensures Shr(Xorshift(h), k) == Xorshift(Shr(h, k))
  {
    ShrXor(Shr(h, 18), h, k);
    ShrAdds(h, 18, k);
    ShrAdds(h, k, 18);
  }

  lemma {:induction false} UnxorshiftStep(g: nat)
    ensures Unxorshift(g) == Xor(Unxorshift(Shr(g, 18)), g)
  {
  }

  lemma {:induction false} UnxorshiftShr(g: nat)
    ensures Shr(Unxorshift(g), 18) == Unxorshift(Shr(g, 18))
    decreases g
  {
    ZeroShifts(18);
    if g > 0 {
      ShrShrinks(g, 18);
      UnxorshiftShr(Shr(g, 18));
      UnxorshiftStep(g);
      ShrXor(Unxorshift(Shr(g, 18)), g, 18);
      UnxorshiftStep(Shr(g, 18));
    }
  }

  lemma {:induction false} XorshiftUndone(h: nat)
    ensures Unxorshift(Xorshift(h)) == h
    decreases h
  {
    ZeroShifts(18);
    if h > 0 {
      ShrShrinks(h, 18);
      XorshiftUndone(Shr(h, 18));
      XorshiftShr(h, 18);
      UnxorshiftStep(Xorshift(h));
      XorCancels(Shr(h, 18), h);
    }
  }

  lemma {:induction false} UnxorshiftUndone(g: nat)
    ensures Xorshift(Unxorshift(g)) == g
  {
    UnxorshiftShr(g);
    UnxorshiftStep(g);
    XorCancels(Unxorshift(Shr(g, 18)), g);
  }

  // ---------- Every output comes from equally many states ----------

  /** The one state with this output, these top five bits and these low 27 bits. */
  function StateFor(v: nat, top: nat, low: nat): nat
    requires top < 32
  {
    Cat(Unxorshift(Cat(top, RotateLeft(v, top), 32)), low, 27)
  }

  lemma {:induction false} SmallXorshift(r: nat)
    requires r < 32
    ensures Xorshift(r) == r && Unxorshift(r) == r
  {
    assert Pow2(5) == 32;
    Pow2Adds(5, 13);
    MulLower(Pow2(13), 32);
    ShrBound(r, 18, 0);
    XorZero(r);
    XorshiftUndone(r);
  }

  /** What an output is made of: bits 58..27 of the xorshifted state. */
  lemma {:induction false} OutputParts(s: Word64)
    ensures var h := Shr(s, 27);
            Shr(s, 59) == Shr(h, 32) < 32 && Output(s) == RotateRight(Low(Xorshift(h), 32), Shr(s, 59))
    ensures Xorshift(Shr(s, 27)) == Cat(Shr(s, 59), Low(Xorshift(Shr(s, 27)), 32), 32)
  {
    var h := Shr(s, 27);
    TopFive(s);
    XorshiftShr(s, 27);
    ShrAdds(s, 27, 32);
    XorshiftShr(h, 32);
    SmallXorshift(Shr(h, 32));
    Split(Xorshift(h), 32);
  }

  /** A state is determined by its output, its top five bits and its low 27 bits. */
  lemma {:induction false} StateIsDetermined(s: Word64)
    ensures Output(s) < WORD && Shr(s, 59) < 32 && Low(s, 27) < Pow2(27)
    ensures s == StateFor(Output(s), Shr(s, 59), Low(s, 27))
  {
    var h := Shr(s, 27);
    TopFive(s);
    Pow2Is64();
    OutputParts(s);
    RotationInverts(Low(Xorshift(h), 32), Shr(s, 59));
    XorshiftUndone(h);
    Split(s, 27);
  }

  /** And every combination of them occurs: each 32-bit value is the output of exactly
      2^5 * 2^27 = 2^32 of the 2^64 states. */
  lemma {:induction false} EveryOutputOccurs(v: nat, top: nat, low: nat)
    requires v < WORD && top < 32 && low < Pow2(27)
    ensures var s := StateFor(v, top, low);
            s < MODULUS && Output(s) == v && Shr(s, 59) == top && Low(s, 27) == low
  {
    var x, s := RotateLeft(v, top), StateFor(v, top, low);
    var g := Cat(top, x, 32);
    var h := Unxorshift(g);
    Pow2Is64();
    RotationInverts(v, top);
    CatParts(top, x, 32);
    CatParts(h, low, 27);
    UnxorshiftUndone(g);
    XorshiftShr(h, 32);
    SmallXorshift(top);
    XorshiftUndone(Shr(h, 32));
    Split(h, 32);
    assert Pow2(5) == 32;
    CatBound(top, Low(h, 32), 32, 5);
    CatBound(h, low, 27, 37);
    OutputParts(s);
  }

  // ---------- Bounded values ----------

  /** The values below this are rejected: `(0 - bound) % bound` on 32-bit words. */
  function Threshold(bound: nat): (t: nat)
    requires 0 < bound < WORD
    ensures t < bound
  {
    ((0x1_0000_0000 - bound) % 0x1_0000_0000) % bound
  }

  lemma {:induction false} ThresholdIs(bound: nat) returns (q: nat)
    requires 0 < bound < WORD
    ensures 0x1_0000_0000 == q * bound + Threshold(bound) && q >= 1
    ensures Threshold(bound) == 0x1_0000_0000 % bound && q == 0x1_0000_0000 / bound
  {
    var d := 0x1_0000_0000 - bound;
    q := d / bound + 1;
    assert 0x1_0000_0000 - bound == d % 0x1_0000_0000 == d;
    OneMore(d / bound, bound);
    ModUnique(0x1_0000_0000, q, Threshold(bound), bound);
  }

  lemma {:induction false} OneMore(k: int, b: int)
    ensures (k + 1) * b == k * b + b
  {
  }

  /** More than half of all values are accepted. */
  lemma {:induction false} MostAreAccepted(bound: nat)
    requires 0 < bound < WORD
    ensures 2 * (0x1_0000_0000 - Threshold(bound)) > 0x1_0000_0000
  {
    var q := ThresholdIs(bound);
    MulLower(q, bound);
  }

  /** How many values from `lo` up to `hi` leave the remainder `r`. */
  function Count(lo: nat, hi: nat, bound: nat, r: nat): nat
    requires lo <= hi && bound > 0
    decreases hi
  {
    if lo == hi then 0 else Count(lo, hi - 1, bound, r) + if (hi - 1) % bound == r then 1 else 0
  }

  /** `bound` consecutive values leave every remainder once; `i` of them so far. */
  lemma {:induction false} BlockCounts(lo: nat, i: nat, bound: nat, r: nat)
    requires r < bound && i <= bound
    ensures Count(lo, lo + i, bound, r) ==
              if (if r >= lo % bound then r - lo % bound else r - lo % bound + bound) < i then 1 else 0
  {
    if i > 0 {
      BlockCounts(lo, i - 1, bound, r);
      var a, k := lo % bound, lo / bound;
      if a + (i - 1) < bound {
        ModUnique(lo + (i - 1), k, a + (i - 1), bound);
      } else {
        OneMore(k, bound);
        ModUnique(lo + (i - 1), k + 1, a + (i - 1) - bound, bound);
      }
    }
  }

  lemma {:induction false} CountAppends(lo: nat, mid: nat, hi: nat, bound: nat, r: nat)
    requires lo <= mid <= hi && bound > 0
    ensures Count(lo, hi, bound, r) == Count(lo, mid, bound, r) + Count(mid, hi, bound, r)
    decreases hi
  {
    if mid < hi { CountAppends(lo, mid, hi - 1, bound, r); }
  }

  lemma {:induction false} BlocksCount(lo: nat, q: nat, hi: nat, bound: nat, r: nat)
    requires r < bound && hi == lo + q * bound
    ensures Count(lo, hi, bound, r) == q
    decreases q
  {
    if q > 0 {
      OneMore(q - 1, bound);
      var mid := lo + (q - 1) * bound;
      BlocksCount(lo, q - 1, mid, bound, r);
      BlockCounts(mid, bound, bound, r);
      CountAppends(lo, mid, hi, bound, r);
    }
  }

  /** No bias: every remainder is left by the same number of accepted 32-bit values. */
  lemma {:induction false} EveryRemainderEquallyOften(bound: nat, r: nat)
    requires r < bound < WORD
    ensures Count(Threshold(bound), 0x1_0000_0000, bound, r) == 0x1_0000_0000 / bound
  {
    var q := ThresholdIs(bound);
    BlocksCount(Threshold(bound), q, 0x1_0000_0000, bound, r);
  }

  // ---------- The generator ----------

  /** `v` is drawn from the first accepted output, which is draw number `k`. */
  ghost predicate DrawnAt(s: Word64, c: Word64, bound: nat, k: nat, v: nat)
    requires 0 < bound < WORD
  {
    && AllRejected(s, c, bound, k) && !Rejected(s, c, bound, k)
    && v == Output(Steps(s, c, k)) % bound
  }

  /** `v` comes from the first accepted output after `s`, and `s'` is the state behind it. */
  ghost predicate IsDrawn(s: Word64, c: Word64, bound: nat, v: nat, s': Word64)
    requires 0 < bound < WORD
  {
    exists k: nat :: DrawnAt(s, c, bound, k, v) && s' == Steps(s, c, k + 1)
  }

  lemma FirstAccepted(s: Word64, c: Word64, bound: nat, k: nat, v: nat, s': Word64)
    requires 0 < bound < WORD && DrawnAt(s, c, bound, k, v) && s' == Steps(s, c, k + 1)
    ensures IsDrawn(s, c, bound, v, s')
  {
  }

  /** The first `n` outputs after `s` are rejected. */
  ghost predicate AllRejected(s: Word64, c: Word64, bound: nat, n: nat)
    requires 0 < bound < WORD
  {
    n == 0 || (AllRejected(s, c, bound, n - 1) && Rejected(s, c, bound, n - 1))
  }

  ghost predicate Rejected(s: Word64, c: Word64, bound: nat, i: nat)
    requires 0 < bound < WORD
  {
    Output(Steps(s, c, i)) < Threshold(bound)
  }

  lemma BeforeAccepted(s: Word64, c: Word64, bound: nat, k: nat, last: nat)
    requires 0 < bound < WORD && Rejected(s, c, bound, k) && !Rejected(s, c, bound, last) && k <= last
    ensures k < last
  {
  }

  /** From every state some output is accepted: the one state that gives all ones is
      reached, and all ones lie above every threshold. */
  lemma {:induction false} SomeOutputAccepted(s: Word64, c: OddWord, bound: nat) returns (n: nat)
    requires 0 < bound < WORD
    ensures !Rejected(s, c, bound, n)
  {
    assert 0 < Pow2(27);
    EveryOutputOccurs(WORD - 1, 0, 0);
    n := VisitsAll(s, StateFor(WORD - 1, 0, 0), c);
  }

  /** `(stream << 1) | 1`. */
  function Increment(stream: Word64): OddWord {
    var twice := 2 * stream;
    var doubled := Wrap(twice);
    EvenWord(twice, doubled);
    doubled + 1
  }

  lemma {:induction false} EvenWord(twice: nat, doubled: Word64)
    requires twice % 2 == 0 && doubled == Wrap(twice)
    ensures doubled % 2 == 0 && doubled + 1 < MODULUS
  {
    WrapIs(twice);
  }

  function SeedState(seed: Word64, stream: Word64): Word64 {
    Step(Wrap(Step(0, Increment(stream)) + seed), Increment(stream))
  }

  /** LOR_RANDOM_INIT is seed 0 of stream 0. */
  lemma {:induction false} InitIsSeedZero(seed: Word64, stream: Word64)
    requires seed == 0 && stream == 0
    ensures SeedState(seed, stream) == 6364136223846793006 && Increment(stream) == 1
  {
    var c := Increment(stream);
    IncrementIs(stream);
    SeedStateIs(stream, seed, stream, c);
    SecondState(stream, seed, c);
  }

  lemma {:induction false} SecondState(zero: Word64, seed: Word64, c: Word64)
    requires zero == 0 && seed == 0 && c == 1
    ensures Step(Wrap(Step(zero, c) + seed), c) == 6364136223846793006
  {
    FirstSteps(zero, c);
    var x := Step(zero, c) + seed;
    SmallWrap(x);
    FirstSteps(Wrap(x), c);
  }

  lemma {:induction false} SmallWrap(x: nat)
    requires x < MODULUS
    ensures Wrap(x) == x
  {
    WrapIs(x);
    ModUnique(x, 0, x, 0x1_0000_0000_0000_0000);
  }

  lemma {:induction false} FirstSteps(x: Word64, c: Word64)
    requires x <= 1 && c == 1
    ensures Step(x, c) == if x == 0 then 1 else 6364136223846793006
  {
    SmallWrap(x * 6364136223846793005 + c);
  }

  /** Different seeds of one stream give different states. */
  lemma {:induction false} SeedsDiffer(a: Word64, b: Word64, stream: Word64)
    requires SeedState(a, stream) == SeedState(b, stream)
    ensures a == b
  {
    var first := Step(0, Increment(stream));
    StepInjective(Wrap(first + a), Wrap(first + b), Increment(stream));
    WrapInjective(first, a, b);
  }

  lemma {:induction false} WrapInjective(p: nat, a: Word64, b: Word64)
    requires Wrap(p + a) == Wrap(p + b)
    ensures a == b
  {
    WrapIs(p + a);
    WrapIs(p + b);
    var d := (p + a) / MODULUS - (p + b) / MODULUS;
    assert a - b == d * MODULUS;
    if d >= 1 { MulLower(d, MODULUS); }
    if d <= -1 { MulLower(-d, MODULUS); }
  }

  lemma {:induction false} StepInjective(x: Word64, y: Word64, c: OddWord)
    requires Step(x, c) == Step(y, c)
    ensures x == y
  {
    StepsShift(x, c, 0xFFFF_FFFF_FFFF_FFFF);
    StepsShift(y, c, 0xFFFF_FFFF_FFFF_FFFF);
    ReturnsExactly(x, c, MODULUS);
    ReturnsExactly(y, c, MODULUS);
  }

  /** `(stream << 1) | 1` keeps all bits of the stream but the highest. */
  lemma {:induction false} IncrementIs(stream: Word64)
    ensures Increment(stream) == 2 * (stream % 0x8000_0000_0000_0000) + 1
  {
    WrapIs(2 * stream);
    var h := stream / 0x8000_0000_0000_0000;
    ModUnique(2 * stream, h, 2 * (stream % 0x8000_0000_0000_0000), 0x1_0000_0000_0000_0000);
  }

  /** Two streams have the same increment exactly if they agree in their low 63 bits. */
  lemma {:induction false} StreamsDifferExactly(a: Word64, b: Word64)
    ensures Increment(a) == Increment(b) <==> a % 0x8000_0000_0000_0000 == b % 0x8000_0000_0000_0000
  {
    IncrementIs(a);
    IncrementIs(b);
  }

  /** The highest bit of a stream number is lost: two streams that differ only there are one. */
  lemma {:induction false} TopBitIsLost(seed: Word64, stream: Word64)
    requires stream < 0x8000_0000_0000_0000
    ensures Increment(stream + 0x8000_0000_0000_0000) == Increment(stream)
    ensures SeedState(seed, stream + 0x8000_0000_0000_0000) == SeedState(seed, stream)
  {
    StreamsDifferExactly(stream + 0x8000_0000_0000_0000, stream);
    SameStream(seed, stream + 0x8000_0000_0000_0000, stream);
  }

  lemma {:induction false} SameStream(seed: Word64, a: Word64, b: Word64)
    requires Increment(a) == Increment(b)
    ensures SeedState(seed, a) == SeedState(seed, b)
  {
  }

  // ---------- A known sequence ----------

  lemma {:induction false} SeedStateIs(zero: Word64, seed: Word64, stream: Word64, c: OddWord)
    requires zero == 0 && c == Increment(stream)
    ensures SeedState(seed, stream) == Step(Wrap(Step(zero, c) + seed), c)
  {
  }

  lemma {:induction false} KnownState(zero: Word64, seed: Word64, stream: Word64, c: OddWord)
    requires zero == 0 && seed == 42 && c == Increment(stream) == 109
    ensures SeedState(seed, stream) == 1753877967969059832
  {
    SeedStateIs(zero, seed, stream, c);
    KnownSeeding(zero, seed, c);
  }

  lemma {:induction false} KnownSeeding(zero: Word64, seed: Word64, c: Word64)
    requires zero == 0 && seed == 42 && c == 109
    ensures Step(Wrap(Step(zero, c) + seed), c) == 1753877967969059832
  {
    KnownSteps(zero, c);
    var x := Step(zero, c) + seed;
    SmallWrap(x);
    KnownSteps(Wrap(x), c);
  }

  lemma {:induction false} KnownIncrement(stream: Word64, c: OddWord)
    requires stream == 54 && c == Increment(stream)
    ensures c == 109
  {
    IncrementIs(stream);
  }

  /** Seed 42 of stream 54 begins with 0xa15c02b7. */
  lemma {:induction false} KnownFirstOutput(seed: Word64, stream: Word64)
    requires seed == 42 && stream == 54
    ensures Output(SeedState(seed, stream)) == 0xa15c02b7
  {
    var zero: Word64, c := 0, Increment(stream);
    KnownIncrement(stream, c);
    KnownState(zero, seed, stream, c);
    KnownOutput(SeedState(seed, stream));
  }

  lemma {:induction false} KnownSteps(x: Word64, c: Word64)
    requires (x == 0 || x == 151) && c == 109
    ensures Step(x, c) == if x == 0 then 109 else 1753877967969059832
  {
    WrapIs(x * 6364136223846793005 + c);
    ModUnique(x * 6364136223846793005 + c, if x == 0 then 0 else 52,
              if x == 0 then 109 else 1753877967969059832, 0x1_0000_0000_0000_0000);
  }

  lemma {:induction false} Powers()
    ensures Pow2(27) == 0x800_0000 && Pow2(45) == 0x2000_0000_0000 && Pow2(59) == 0x800_0000_0000_0000
    ensures Pow2(29) == 0x2000_0000
  {
    assert Pow2(8) == 256 && Pow2(5) == 32 && Pow2(3) == 8;
    Pow2Adds(8, 8);
    Pow2Adds(8, 5);
    Pow2Adds(16, 8);
    Pow2Adds(24, 3);
    Pow2Adds(24, 5);
    Pow2Adds(16, 13);
    Pow2Adds(29, 16);
    Pow2Adds(45, 8);
    Pow2Adds(53, 3);
    Pow2Adds(56, 3);
  }

  lemma {:induction false} KnownOutput(s: Word64)
    requires s == 1753877967969059832
    ensures Output(s) == 0xa15c02b7
  {
    Powers();
    PartsAre(s, 3, 24495711058789368, 59);
    PartsAre(s, 13067409157, 70124536, 27);
    PartsAre(s, 49848, 7388084962296, 45);
    ShrXor(Shr(s, 18), s, 27);
    ShrAdds(s, 18, 27);
    KnownXor();
    Pow2Is64();
    PartsAre(13067359677, 3, 182457789, 32);
    KnownRotation();
  }

  lemma {:induction false} FirstBytes()
    ensures Xor(184, 5) == 189
  {
    assert Xor(2, 0) == 2;
    assert Xor(11, 0) == 11;
    assert Xor(46, 1) == 47;
  }

  lemma {:induction false} SecondBytes()
    ensures Xor(194, 215) == 21
  {
    assert Xor(3, 3) == 0;
    assert Xor(12, 13) == 1;
    assert Xor(48, 53) == 5;
  }

  lemma {:induction false} KnownXor()
    ensures Xor(49848, 13067409157) == 13067359677
  {
    assert Pow2(8) == 256;
    FirstBytes();
    SecondBytes();
    XorZero(224);
    XorZero(778);
    ShlIs(0, 8);
    ShlIs(194, 8);
    ShlIs(778, 8);
    ShlIs(199392, 8);
    ShlIs(51044567, 8);
    ShlIs(51044373, 8);
    XorCat(0, 0, 778, 224, 8);
    XorCat(0, 194, 199392, 215, 8);
    XorCat(194, 184, 51044567, 5, 8);
  }

  lemma {:induction false} KnownRotation()
    ensures RotateRight(182457789, 3) == 0xa15c02b7
  {
    Powers();
    Pow2Is64();
    assert Pow2(3) == 8;
    PartsAre(182457789, 22807223, 5, 3);
    RotationIs(182457789, 3);
    ShlIs(5, 29);
  }

  class Generator {
    var state: Word64
    var increment: OddWord

    /** LOR_RANDOM_INIT. */
    constructor ()
      ensures state == 6364136223846793006 && increment == 1
    {
      state, increment := 6364136223846793006, 1;
    }

    /** A draw for its effect only. */
    method Advance()
      modifies `state
      ensures state == Step(old(state), increment)
    {
      state := Step(state, increment);
    }

    method NextU32() returns (v: nat)
      modifies `state
      ensures v == Output(old(state)) < WORD && state == Step(old(state), increment)
    {
      StateIsDetermined(state);
      v := Output(state);
      Advance();
    }

    method Seed(seed: Word64, stream: Word64)
      modifies this
      ensures increment == Increment(stream) && state == SeedState(seed, stream)
    {
      state, increment := 0, Increment(stream);
      Advance();
      state := Wrap(state + seed);
      Advance();
    }

    method NextU64() returns (v: nat)
      modifies `state
      ensures v == 0x1_0000_0000 * Output(old(state)) + Output(Step(old(state), increment)) < MODULUS
      ensures state == Steps(old(state), increment, 2)
    {
      var high := NextU32();
      var low := NextU32();
      v := 0x1_0000_0000 * high + low;
    }

    /** Draws until a value is accepted. The loop ends from every state, for every bound. */
    method BoundedU32(bound: nat) returns (v: nat)
      requires bound < WORD
      modifies `state
      ensures bound == 0 ==> v == 0 && state == old(state)
      ensures bound > 0 ==> v < bound && IsDrawn(old(state), increment, bound, v, state)
    {
      if bound == 0 { return 0; }
      var threshold := Threshold(bound);
      ghost var start := state;
      ghost var last := SomeOutputAccepted(start, increment, bound);
      ghost var k: nat := 0;
      while true
        invariant state == Steps(start, increment, k)
        invariant AllRejected(start, increment, bound, k) && k <= last
        decreases last - k
      {
        var accepted;
        accepted, v := TryDraw(bound, threshold, start, k);
        if accepted {
          return;
        }
        BeforeAccepted(start, increment, bound, k, last);
        k := k + 1;
      }
    }

    /** One round of the loop, draw number `k` of those from `start`. */
    method TryDraw(bound: nat, threshold: nat, ghost start: Word64, ghost k: nat) returns (accepted: bool, v: nat)
      requires 0 < bound < WORD && threshold == Threshold(bound)
      requires state == Steps(start, increment, k) && AllRejected(start, increment, bound, k)
      modifies `state
      ensures state == Steps(start, increment, k + 1)
      ensures accepted <==> !Rejected(start, increment, bound, k)
      ensures if accepted then v < bound && IsDrawn(start, increment, bound, v, state)
              else AllRejected(start, increment, bound, k + 1)
    {
      var value := NextU32();
      accepted, v := value >= threshold, 0;
      if accepted {
        v := value % bound;
        FirstAccepted(start, increment, bound, k, v, state);
      }
    }
  }
}
