// When an allocation of src/memory.c succeeds, and where: the newest block is used whenever
// it has room, at the least address that will do; otherwise one new block is made.

module ArenaSuccesses {
  import opened Common
  import opened Bits
  import opened ArenaBlocks
  import opened ArenaStates

  // ---------- In one block ----------

  /** The bytes from `x` on are aligned, behind those in use, and inside the block. */
  ghost predicate Room(b: Block, x: nat, size: nat, alignment: nat, p: Platform) {
    Start(b, p) + b.used <= x && x + size <= Start(b, p) + b.capacity && Multiple(x, alignment)
  }

  /** Memory up to `end` is committed, or will be: the size can be rounded, and the system
      commits it. */
  ghost predicate Granted(b: Block, end: nat, backend: Backend, commitSize: nat, ok: bool) {
    || backend.HeapBackend? || end - b.at <= b.committed
    || (ok && end - b.at <= LargestTotal(commitSize))
  }

  lemma {:induction false} LastMultiple(q: nat, n: nat, d: nat)
    requires d > 0 && q * d < n * d
    ensures q * d + d <= n * d
  {
    if n > q {
      assert n * d - q * d == (n - q) * d;
      MulLower(n - q, d);
    } else {
      assert q * d - n * d == (q - n) * d;
      if q > n { MulLower(q - n, d); }
    }
  }

  /** Rounding up reaches no further than any multiple of a power of two behind the value. */
  lemma {:induction false} RoundUpIsLeast(value: nat, x: nat, alignment: nat)
    requires IsPow2(alignment) && alignment <= SIZE_MAX && value <= x <= SIZE_MAX && Multiple(x, alignment)
    ensures value <= SIZE_MAX - (alignment - 1) && RoundUp(value, alignment) <= x
  {
    var q: nat :| x == q * alignment;
    var n := DividesWord(alignment);
    LastMultiple(q, n, alignment);
    RoundUpBounds(value, alignment);
    RoundUpMultiple(value, alignment);
    var r: nat :| RoundUp(value, alignment) == r * alignment;
    if q * alignment < r * alignment { LastMultiple(q, r, alignment); }
  }

  lemma {:induction false} CommitIsGranted(b: Block, needed: nat, commitSize: nat, ok: bool, p: Platform)
    requires WellPlaced(b, VirtualBackend, p) && commitSize <= SIZE_MAX && needed <= b.capacity
    ensures EnsureCommitted(b, needed, commitSize, ok, p).0 <==>
              Granted(b, Start(b, p) + needed, VirtualBackend, commitSize, ok)
  {
  }

  /** A block satisfies a request exactly if it has room somewhere that is granted, ... */
  lemma {:induction false} RoomIsUsed(b: Block, backend: Backend, commitSize: nat, size: nat, alignment: nat, ok: bool,
      x: nat, p: Platform)
    requires WellPlaced(b, backend, p) && commitSize <= SIZE_MAX
    requires size > 0 && IsPow2(alignment) && alignment <= SIZE_MAX
    requires Room(b, x, size, alignment, p) && Granted(b, x + size, backend, commitSize, ok)
    ensures var r := BlockAlloc(b, backend, commitSize, size, alignment, ok, p).0; r.Just? && r.value <= x
  {
    var current := Start(b, p) + b.used;
    RoundUpIsLeast(current, x, alignment);
    RoundUpBounds(current, alignment);
    var needed := RoundUp(current, alignment) - Start(b, p) + size;
    if backend.VirtualBackend? { CommitIsGranted(b, needed, commitSize, ok, p); }
  }

  /** ... and then takes the first address with room. */
  lemma {:induction false} SuccessHasRoom(b: Block, backend: Backend, commitSize: nat, size: nat, alignment: nat,
      ok: bool, p: Platform)
    requires WellPlaced(b, backend, p) && commitSize <= SIZE_MAX
    requires size > 0 && IsPow2(alignment) && alignment <= SIZE_MAX
    requires BlockAlloc(b, backend, commitSize, size, alignment, ok, p).0.Just?
    ensures var x := BlockAlloc(b, backend, commitSize, size, alignment, ok, p).0.value;
            && Room(b, x, size, alignment, p) && Granted(b, x + size, backend, commitSize, ok)
            && forall y :: Room(b, y, size, alignment, p) ==> x <= y
  {
    var x := BlockAlloc(b, backend, commitSize, size, alignment, ok, p).0.value;
    var current := Start(b, p) + b.used;
    RoundUpBounds(current, alignment);
    RoundUpMultiple(current, alignment);
    if backend.VirtualBackend? { CommitIsGranted(b, x - Start(b, p) + size, commitSize, ok, p); }
    forall y | Room(b, y, size, alignment, p) ensures x <= y { RoundUpIsLeast(current, y, alignment); }
  }

  // ---------- In the newest block ----------

  /** The newest block has room at `x`, and the system grants it. */
  ghost predicate Reuses(s: State, x: nat, size: nat, alignment: nat, grow: bool, p: Platform) {
    && s.blocks != []
    && var b := s.blocks[|s.blocks| - 1];
       Room(b, x, size, alignment, p) && Granted(b, x + size, s.config.backend, s.config.commitSize, grow)
  }

  ghost predicate CanReuse(s: State, size: nat, alignment: nat, grow: bool, p: Platform) {
    exists x: nat :: Reuses(s, x, size, alignment, grow, p)
  }

  lemma {:induction false} NewestExactly(s: State, size: nat, alignment: nat, grow: bool, p: Platform)
    requires Safe(s, p) && s.blocks != [] && size > 0 && IsPow2(alignment) && alignment <= SIZE_MAX
    ensures var r := AllocNewest(s, size, alignment, grow, p).0;
            && (r.Just? <==> CanReuse(s, size, alignment, grow, p))
            && (r.Just? ==> Reuses(s, r.value, size, alignment, grow, p)
                            && forall y :: Reuses(s, y, size, alignment, grow, p) ==> r.value <= y)
  {
    var b := s.blocks[|s.blocks| - 1];
    var r := AllocNewest(s, size, alignment, grow, p).0;
    assert WellPlaced(b, s.config.backend, p);
    if CanReuse(s, size, alignment, grow, p) {
      var x: nat :| Reuses(s, x, size, alignment, grow, p);
      RoomIsUsed(b, s.config.backend, s.config.commitSize, size, alignment, grow, x, p);
    }
    if r.Just? {
      SuccessHasRoom(b, s.config.backend, s.config.commitSize, size, alignment, grow, p);
      assert Reuses(s, r.value, size, alignment, grow, p);
    }
  }

  /** An allocation stays in the newest block exactly if that block has room, and then takes
      the first address with room; only otherwise it makes a new block. */
  lemma {:induction false} AllocReusesExactly(s: State, size: nat, alignment: nat, grow: bool, os: Answers, p: Platform)
    requires Safe(s, p) && size > 0 && IsPow2(alignment) && alignment <= SIZE_MAX
    ensures IsPowerOfTwo(alignment)
    ensures var (r, s') := Alloc(s, size, alignment, grow, os, p);
            if CanReuse(s, size, alignment, grow, p) then
              && r.Just? && Reuses(s, r.value, size, alignment, grow, p) && |s'.blocks| == |s.blocks|
              && forall y :: Reuses(s, y, size, alignment, grow, p) ==> r.value <= y
            else (r, s') == AllocInNew(s, size, alignment, os, p) && (r.Just? ==> |s'.blocks| == |s.blocks| + 1)
  {
    PowerTest(alignment);
    if s.blocks != [] { NewestExactly(s, size, alignment, grow, p); }
  }

  // ---------- In a new block ----------

  /** A heap block is made exactly if its size does not overflow and malloc gives it; it has
      the configured size, or what the request needs if that is more. */
  lemma {:induction false} HeapBlockExactly(blocks: seq<Block>, c: Config, need: nat, os: Answers, p: Platform)
    requires ValidConfig(c, p) && c.backend.HeapBackend?
    ensures var capacity := if need <= c.blockSize then c.blockSize else need;
            var made := NewBlock(blocks, c, need, os, p);
            && (made.Just? <==>
                  capacity + p.Slack() <= SIZE_MAX && RawRegion(blocks, capacity + p.Slack(), os.at).Just?)
            && (made.Just? ==> made.value == Block(os.at.value, capacity + p.Slack(), capacity, capacity, 0))
  {
  }

  /** What a virtual block has to reserve at least. */
  function Wanted(c: Config, need: nat, p: Platform): nat
    requires p.maxAlign > 0
  {
    if c.reserveSize < need + p.Slack() then need + p.Slack() else c.reserveSize
  }

  lemma {:induction false} SizesExactly(c: Config, need: nat, p: Platform)
    requires ValidConfig(c, p) && c.backend.VirtualBackend? && c.commitSize > 0 && need > 0
    ensures var sizes := VirtualSizes(c.reserveSize, c.commitSize, need, p);
            && (sizes.Just? <==> Wanted(c, need, p) <= SIZE_MAX - (p.pageSize - 1))
            && (sizes.Just? ==> sizes.value.0 == PageAlign(Wanted(c, need, p), p) && sizes.value.1 > 0
                                && Wanted(c, need, p) <= sizes.value.0)
  {
    PageAlignIs(Wanted(c, need, p), p);
    if need + p.Slack() <= SIZE_MAX { PageAlignIs(FirstCommit(c, need, p), p); }
  }

  /** What is to be committed first. */
  ghost function FirstCommit(c: Config, need: nat, p: Platform): (first: nat)
    requires ValidConfig(c, p) && c.backend.VirtualBackend? && c.commitSize > 0
    ensures 0 < first <= SIZE_MAX - (p.pageSize - 1)
  {
    var least := need + p.Slack();
    var enough := if c.commitSize < p.Slack() then p.Slack() else c.commitSize;
    if enough < least && least < DEFAULT_SIZE then least else enough
  }

  /** A virtual block is made exactly if its reservation does not overflow and the system
      reserves it and commits its first bytes; it reserves whole pages, at least the
      configured size and what the request needs, and by less than a page more. */
  lemma {:induction false} VirtualBlockExactly(blocks: seq<Block>, c: Config, need: nat, os: Answers, p: Platform)
    requires ValidConfig(c, p) && c.backend.VirtualBackend? && c.commitSize > 0 && need > 0
    ensures var wanted, made := Wanted(c, need, p), NewBlock(blocks, c, need, os, p);
            && (made.Just? <==>
                  && wanted <= SIZE_MAX - (p.pageSize - 1) && os.commitOk
                  && RawRegion(blocks, PageAlign(wanted, p), os.at).Just?)
            && (made.Just? ==>
                  && made.value.at == os.at.value && made.value.used == 0 && Multiple(made.value.size, p.pageSize)
                  && wanted <= made.value.size < wanted + p.pageSize)
  {
    var wanted := Wanted(c, need, p);
    SizesExactly(c, need, p);
    if wanted <= SIZE_MAX - (p.pageSize - 1) {
      RoundUpBounds(wanted, p.pageSize);
      RoundUpMultiple(wanted, p.pageSize);
    }
  }

  /** A heap arena gives memory exactly if its newest block has room, or malloc gives a new
      block of a size that does not overflow. */
  lemma {:induction false} HeapAllocExactly(s: State, size: nat, alignment: nat, grow: bool, os: Answers, p: Platform)
    requires Safe(s, p) && s.config.backend.HeapBackend? && size > 0 && IsPow2(alignment) && alignment <= SIZE_MAX
    ensures var need := WorstCase(size, alignment);
            var capacity := if need <= s.config.blockSize then s.config.blockSize else need;
            Alloc(s, size, alignment, grow, os, p).0.Just? <==>
              || CanReuse(s, size, alignment, grow, p)
              || (capacity + p.Slack() <= SIZE_MAX && RawRegion(s.blocks, capacity + p.Slack(), os.at).Just?)
  {
    AllocReusesExactly(s, size, alignment, grow, os, p);
    HeapBlockExactly(s.blocks, s.config, WorstCase(size, alignment), os, p);
    if NewBlock(s.blocks, s.config, WorstCase(size, alignment), os, p).Just? {
      HeapAllocFailsOnly(s, size, alignment, grow, os, p);
    }
  }
}
