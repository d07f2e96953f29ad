// How much of a virtual arena block in src/memory.c is committed, from its creation on: in
// which cases that is a multiple of the commit size, as is promised.

module ArenaCommits {
  import opened Common
  import opened Bits
  import opened ArenaBlocks
  import opened ArenaStates

  /** Committed in commit-size increments, or to the end. */
  ghost predicate Granular(b: Block, commitSize: nat) {
    Multiple(b.committed, commitSize) || b.committed == b.size
  }

  // ---------- The first commit ----------

  /** The first commit of a block is granular: the commit size holds what the block is made
      for, or that is at least the default size, or the pages for it happen to fit. */
  ghost predicate FirstCommitFits(least: nat, size: nat, commitSize: nat, p: Platform)
    requires 0 < p.maxAlign && 0 < p.pageSize <= SIZE_MAX
  {
    var enough := if commitSize < p.Slack() then p.Slack() else commitSize;
    if least <= enough || least >= DEFAULT_SIZE then commitSize >= p.Slack() || PagesFit(enough, size, commitSize, p)
    else PagesFit(least, size, commitSize, p)
  }

  ghost predicate PagesFit(needed: nat, size: nat, commitSize: nat, p: Platform)
    requires 0 < p.pageSize <= SIZE_MAX
  {
    PageAlign(needed, p) >= size || Multiple(PageAlign(needed, p), commitSize)
  }

  lemma {:induction false} PagesStay(size: nat, p: Platform)
    requires p.Sane() && Multiple(size, p.pageSize) && size <= SIZE_MAX - (p.pageSize - 1)
    ensures PageAlign(size, p) == size && Multiple(size, size)
  {
    var q: nat :| size == q * p.pageSize;
    RoundUpKeepsMultiples(size, q, p.pageSize);
    assert size == 1 * size;
  }

  /** The bytes first asked to be committed, before they are rounded to pages. */
  ghost function FirstSize(least: nat, commitSize: nat, p: Platform): nat
    requires 0 < p.maxAlign
  {
    var enough := if commitSize < p.Slack() then p.Slack() else commitSize;
    if enough < least < DEFAULT_SIZE then least else enough
  }

  lemma {:induction false} FitsIs(least: nat, size: nat, commitSize: nat, p: Platform)
    requires p.Sane() && PageAlign(commitSize, p) == commitSize && Multiple(commitSize, commitSize)
    ensures FirstCommitFits(least, size, commitSize, p) <==>
              PagesFit(FirstSize(least, commitSize, p), size, commitSize, p)
  {
  }

  lemma {:induction false} FirstCommitIs(reserveSize: nat, commitSize: nat, minCapacity: nat, p: Platform)
    requires p.Sane() && VirtualSizes(reserveSize, commitSize, minCapacity, p).Just?
    ensures var (size, commit) := VirtualSizes(reserveSize, commitSize, minCapacity, p).value;
            var pages := PageAlign(FirstSize(minCapacity + p.Slack(), commitSize, p), p);
            commit == if pages > size then size else pages
  {
  }

  /** Whether the first commit of a block is granular. */
  lemma {:induction false} FirstCommitExactly(reserveSize: nat, commitSize: nat, minCapacity: nat, p: Platform)
    requires p.Sane() && Multiple(commitSize, p.pageSize) && commitSize <= SIZE_MAX - (p.pageSize - 1)
    requires VirtualSizes(reserveSize, commitSize, minCapacity, p).Just?
    ensures var (size, commit) := VirtualSizes(reserveSize, commitSize, minCapacity, p).value;
            commit == size || Multiple(commit, commitSize) <==>
            FirstCommitFits(minCapacity + p.Slack(), size, commitSize, p)
  {
    var least := minCapacity + p.Slack();
    var (size, commit) := VirtualSizes(reserveSize, commitSize, minCapacity, p).value;
    PagesStay(commitSize, p);
    FirstCommitIs(reserveSize, commitSize, minCapacity, p);
    FitsIs(least, size, commitSize, p);
    CappedFits(PageAlign(FirstSize(least, commitSize, p), p), size, commit, commitSize);
  }

  lemma {:induction false} CappedFits(pages: nat, size: nat, commit: nat, commitSize: nat)
    requires commit == if pages > size then size else pages
    ensures commit == size || Multiple(commit, commitSize) <==> pages >= size || Multiple(pages, commitSize)
  {
  }

  // ---------- A block's whole life ----------

  /** What an arena does to a block it has: allocating from it, and cutting it back. */
  datatype Use = Bump(size: nat, alignment: nat, ok: bool) | CutBack(used: nat)

  ghost predicate Usable(b: Block, commitSize: nat, p: Platform) {
    WellPlaced(b, VirtualBackend, p) && 0 < commitSize <= SIZE_MAX
  }

  ghost function Used(b: Block, u: Use, commitSize: nat, p: Platform): (b': Block)
    requires Usable(b, commitSize, p)
    ensures Usable(b', commitSize, p)
  {
    match u
    case Bump(size, alignment, ok) =>
      if size == 0 || alignment > SIZE_MAX || !IsPowerOfTwo(alignment) then b
      else
        PowerTest(alignment);
        BlockAllocIs(b, VirtualBackend, commitSize, size, alignment, ok, p);
        BlockAlloc(b, VirtualBackend, commitSize, size, alignment, ok, p).1
    case CutBack(used) =>
      if used > b.used then b
      else
        ShrunkIsPlaced(b, used, VirtualBackend, p);
        b.(used := used)
  }

  ghost function After(b: Block, uses: seq<Use>, commitSize: nat, p: Platform): (b': Block)
    requires Usable(b, commitSize, p)
    ensures Usable(b', commitSize, p)
    decreases |uses|
  {
    if uses == [] then b
    else Used(After(b, uses[..|uses| - 1], commitSize, p), uses[|uses| - 1], commitSize, p)
  }

  ghost predicate AlwaysGranular(b: Block, commitSize: nat, p: Platform)
    requires Usable(b, commitSize, p)
  {
    forall uses :: Granular(After(b, uses, commitSize, p), commitSize)
  }

  /** Rounding a size of which more would have to be committed. */
  ghost predicate RoundFits(total: nat, size: nat, commitSize: nat)
    requires 0 < commitSize <= SIZE_MAX && total + (commitSize - 1) <= SIZE_MAX
  {
    RoundUp(total, commitSize) >= size || Multiple(RoundUp(total, commitSize), commitSize)
  }

  /** Whatever more is committed will be granular. */
  ghost predicate GrowthFits(b: Block, commitSize: nat)
    requires 0 < commitSize <= SIZE_MAX
  {
    forall total: nat :: b.committed < total <= b.size && total + (commitSize - 1) <= SIZE_MAX ==>
      RoundFits(total, b.size, commitSize)
  }

  lemma {:induction false} PowersGrow(b: Block, commitSize: nat)
    requires 0 < commitSize <= SIZE_MAX && IsPow2(commitSize)
    ensures GrowthFits(b, commitSize)
  {
    forall total: nat | b.committed < total <= b.size && total + (commitSize - 1) <= SIZE_MAX
      ensures RoundFits(total, b.size, commitSize)
    {
      RoundUpMultiple(total, commitSize);
    }
  }

  lemma {:induction false} GrowthCommits(b: Block, needed: nat, commitSize: nat, ok: bool, p: Platform)
    requires Usable(b, commitSize, p) && GrowthFits(b, commitSize)
    ensures var b' := EnsureCommitted(b, needed, commitSize, ok, p).1;
            b'.committed == b.committed || Granular(b', commitSize)
  {
    var total := Start(b, p) - b.at + needed;
    if b.committed < total <= b.size && total + (commitSize - 1) <= SIZE_MAX {
      assert RoundFits(total, b.size, commitSize);
    }
  }

  lemma {:induction false} BumpCommits(b: Block, size: nat, alignment: nat, commitSize: nat, ok: bool, p: Platform)
    requires Usable(b, commitSize, p) && GrowthFits(b, commitSize)
    requires size > 0 && alignment <= SIZE_MAX && IsPow2(alignment)
    ensures var b' := BlockAlloc(b, VirtualBackend, commitSize, size, alignment, ok, p).1;
            b'.size == b.size && b.committed <= b'.committed
            && (b'.committed == b.committed || Granular(b', commitSize))
  {
    BlockAllocIs(b, VirtualBackend, commitSize, size, alignment, ok, p);
    var (r, b') := BlockAlloc(b, VirtualBackend, commitSize, size, alignment, ok, p);
    if r.Just? {
      var needed := b'.used;
      GrowthCommits(b, needed, commitSize, ok, p);
      assert b'.committed == EnsureCommitted(b, needed, commitSize, ok, p).1.committed;
    }
  }

  lemma {:induction false} UseCommits(b: Block, u: Use, commitSize: nat, p: Platform)
    requires Usable(b, commitSize, p) && GrowthFits(b, commitSize)
    ensures var b' := Used(b, u, commitSize, p);
            b'.size == b.size && b.committed <= b'.committed
            && (b'.committed == b.committed || Granular(b', commitSize))
  {
    if u.Bump? && u.size > 0 && u.alignment <= SIZE_MAX && IsPowerOfTwo(u.alignment) {
      PowerTest(u.alignment);
      BumpCommits(b, u.size, u.alignment, commitSize, u.ok, p);
    }
  }

  lemma {:induction false} AfterCommits(b: Block, uses: seq<Use>, commitSize: nat, p: Platform)
    requires Usable(b, commitSize, p) && GrowthFits(b, commitSize)
    ensures var b' := After(b, uses, commitSize, p);
            b'.size == b.size && b.committed <= b'.committed
            && (b'.committed == b.committed || Granular(b', commitSize))
    decreases |uses|
  {
    if uses != [] {
      var before := uses[..|uses| - 1];
      AfterCommits(b, before, commitSize, p);
      UseCommits(After(b, before, commitSize, p), uses[|uses| - 1], commitSize, p);
    }
  }

  /** An unused block with all bytes behind its header, as every new virtual block is. */
  ghost predicate Untouched(b: Block, p: Platform) {
    b.used == 0 && b.at <= Start(b, p) && b.capacity == b.at + b.size - Start(b, p)
  }

  lemma {:induction false} OneByteAligned(b: Block, size: nat, commitSize: nat, p: Platform)
    requires Usable(b, commitSize, p) && Untouched(b, p) && 0 < size <= b.capacity
    requires b.committed < Start(b, p) - b.at + size <= LargestTotal(commitSize)
    ensures IsPowerOfTwo(1)
    ensures var rounded := RoundUp(Start(b, p) - b.at + size, commitSize);
            BlockAlloc(b, VirtualBackend, commitSize, size, 1, true, p).1.committed
            == if rounded > b.size then b.size else rounded
  {
    assert 1 == Pow2(0);
    PowerTest(1);
    RoundUpBounds(Start(b, p), 1);
  }

  /** One allocation commits for exactly `total` bytes of an untouched block. */
  lemma {:induction false} OneBump(b: Block, total: nat, commitSize: nat, p: Platform)
    requires Usable(b, commitSize, p) && Untouched(b, p)
    requires b.committed < total <= b.size && total + (commitSize - 1) <= SIZE_MAX
    ensures var rounded := RoundUp(total, commitSize);
            After(b, [Bump(b.at + total - Start(b, p), 1, true)], commitSize, p).committed
            == if rounded > b.size then b.size else rounded
  {
    var size := b.at + total - Start(b, p);
    var u := Bump(size, 1, true);
    OneByteAligned(b, size, commitSize, p);
    assert [u][..0] == [] && After(b, [], commitSize, p) == b;
    assert After(b, [u], commitSize, p) == Used(b, u, commitSize, p);
  }

  /** A block's committed memory is granular at every moment of its life exactly if its
      first commit is and everything that may follow is. */
  lemma {:induction false} LifeIsGranularExactly(b: Block, commitSize: nat, p: Platform)
    requires Usable(b, commitSize, p) && Untouched(b, p)
    ensures AlwaysGranular(b, commitSize, p) <==> Granular(b, commitSize) && GrowthFits(b, commitSize)
  {
    if AlwaysGranular(b, commitSize, p) {
      assert Granular(After(b, [], commitSize, p), commitSize);
      forall total: nat | b.committed < total <= b.size && total + (commitSize - 1) <= SIZE_MAX
        ensures RoundFits(total, b.size, commitSize)
      {
        OneBump(b, total, commitSize, p);
        var uses := [Bump(b.at + total - Start(b, p), 1, true)];
        assert Granular(After(b, uses, commitSize, p), commitSize);
        AfterKeepsSize(b, uses, commitSize, p);
      }
    }
    if Granular(b, commitSize) && GrowthFits(b, commitSize) {
      forall uses ensures Granular(After(b, uses, commitSize, p), commitSize) {
        AfterCommits(b, uses, commitSize, p);
      }
    }
  }

  lemma {:induction false} AfterKeepsSize(b: Block, uses: seq<Use>, commitSize: nat, p: Platform)
    requires Usable(b, commitSize, p)
    ensures After(b, uses, commitSize, p).size == b.size
    decreases |uses|
  {
    if uses != [] { AfterKeepsSize(b, uses[..|uses| - 1], commitSize, p); }
  }

  /** For a block that an arena makes: with a commit size that is a power of two, exactly if
      the first commit fits. */
  lemma {:induction false} NewBlockLife(blocks: seq<Block>, c: Config, minCapacity: nat, os: Answers, p: Platform)
    requires ValidConfig(c, p) && c.backend.VirtualBackend? && c.commitSize > 0 && Multiple(c.commitSize, p.pageSize)
    requires minCapacity > 0 && NewBlock(blocks, c, minCapacity, os, p).Just?
    ensures var b := NewBlock(blocks, c, minCapacity, os, p).value;
            && Usable(b, c.commitSize, p)
            && (AlwaysGranular(b, c.commitSize, p) <==>
                FirstCommitFits(minCapacity + p.Slack(), b.size, c.commitSize, p) && GrowthFits(b, c.commitSize))
            && (IsPow2(c.commitSize) ==> GrowthFits(b, c.commitSize))
  {
    var b := NewBlock(blocks, c, minCapacity, os, p).value;
    NewBlockIs(blocks, c, minCapacity, os, p);
    FirstCommitExactly(c.reserveSize, c.commitSize, minCapacity, p);
    NewIsUntouched(blocks, c, minCapacity, os, p);
    LifeIsGranularExactly(b, c.commitSize, p);
    if IsPow2(c.commitSize) { PowersGrow(b, c.commitSize); }
  }

  lemma {:induction false} NewIsUntouched(blocks: seq<Block>, c: Config, minCapacity: nat, os: Answers, p: Platform)
    requires ValidConfig(c, p) && c.backend.VirtualBackend? && minCapacity > 0
    requires NewBlock(blocks, c, minCapacity, os, p).Just?
    ensures Untouched(NewBlock(blocks, c, minCapacity, os, p).value, p)
  {
    var sizes := VirtualSizes(c.reserveSize, c.commitSize, minCapacity, p).value;
    VirtualSizesAre(c.reserveSize, c.commitSize, minCapacity, p);
    ReservedIsUntouched(NewBlock(blocks, c, minCapacity, os, p).value.at, sizes.0, sizes.1, p);
  }

  lemma {:induction false} ReservedIsUntouched(at: nat, reserve: nat, commit: nat, p: Platform)
    requires p.Sane() && p.Slack() < reserve && at + reserve <= ADDRESSES && at + p.dataOffset < ADDRESSES
    ensures Untouched(NewVirtualBlock(at, reserve, commit, p), p)
  {
    var b := NewVirtualBlock(at, reserve, commit, p);
    DataBounds(at, p);
    assert Data(b, p) == Data(Block(at, 0, 0, 0, 0), p) == Data(Block(at, reserve, 0, commit, 0), p);
  }

  // ---------- What an arena does is a use of its blocks ----------

  lemma {:induction false} NewestUses(s: State, size: nat, alignment: nat, ok: bool, p: Platform)
    requires Safe(s, p) && s.config.backend.VirtualBackend? && s.config.commitSize > 0 && s.blocks != []
    requires size > 0 && IsPow2(alignment) && alignment <= SIZE_MAX
    ensures var last, cs := |s.blocks| - 1, s.config.commitSize;
            && Usable(s.blocks[last], cs, p)
            && AllocNewest(s, size, alignment, ok, p).1.blocks
               == s.blocks[..last] + [Used(s.blocks[last], Bump(size, alignment, ok), cs, p)]
  {
    PowerTest(alignment);
    var last := |s.blocks| - 1;
    assert s.blocks == s.blocks[..last] + [s.blocks[last]];
    BlockAllocIs(s.blocks[last], VirtualBackend, s.config.commitSize, size, alignment, ok, p);
  }

  ghost predicate AllGranular(s: State) {
    forall i :: 0 <= i < |s.blocks| ==> Granular(s.blocks[i], s.config.commitSize)
  }

  /** A virtual arena whose commit size is a power of two that holds the header. */
  ghost predicate Regular(s: State, p: Platform) {
    && Safe(s, p) && s.config.backend.VirtualBackend?
    && Multiple(s.config.commitSize, p.pageSize) && IsPow2(s.config.commitSize)
    && 0 < s.config.commitSize && p.Slack() <= s.config.commitSize
  }

  lemma {:induction false} NewestStaysGranular(s: State, size: nat, alignment: nat, ok: bool, p: Platform)
    requires Regular(s, p) && AllGranular(s) && s.blocks != []
    requires size > 0 && IsPow2(alignment) && alignment <= SIZE_MAX
    ensures AllGranular(AllocNewest(s, size, alignment, ok, p).1)
  {
    var last, cs := |s.blocks| - 1, s.config.commitSize;
    NewestUses(s, size, alignment, ok, p);
    PowersGrow(s.blocks[last], cs);
    UseCommits(s.blocks[last], Bump(size, alignment, ok), cs, p);
  }

  /** The pages committed for a request suffice for it: nothing more is committed. */
  lemma {:induction false} FirstUseCommitsNothing(b: Block, size: nat, alignment: nat, cs: nat, ok: bool, p: Platform)
    requires Usable(b, cs, p) && Untouched(b, p) && size > 0 && IsPow2(alignment) && alignment <= SIZE_MAX
    requires WorstCase(size, alignment) + p.Slack() <= b.committed
    ensures BlockAlloc(b, VirtualBackend, cs, size, alignment, ok, p).1.committed == b.committed
  {
    var start := Start(b, p);
    if start <= SIZE_MAX - (alignment - 1) { RoundUpBounds(start, alignment); }
    DataBounds(b.at, p);
    assert Data(b, p) == Data(Block(b.at, 0, 0, 0, 0), p);
  }

  /** One allocation leaves all blocks granular exactly if it made no block whose first
      commit does not fit. */
  lemma {:induction false} AllocGranularExactly(s: State, size: nat, alignment: nat, grow: bool, os: Answers,
      p: Platform)
    requires Regular(s, p) && AllGranular(s)
    requires 0 < size <= SIZE_MAX - (alignment - 1) && IsPow2(alignment) && alignment <= SIZE_MAX
    ensures var s', n := Alloc(s, size, alignment, grow, os, p).1, |s.blocks|;
            AllGranular(s') <==>
              |s'.blocks| == n
              || FirstCommitFits(WorstCase(size, alignment) + p.Slack(), s'.blocks[n].size, s.config.commitSize, p)
  {
    PowerTest(alignment);
    if s.blocks != [] { NewestStaysGranular(s, size, alignment, grow, p); }
    NewGranularExactly(s, size, alignment, os, p);
  }

  lemma {:induction false} NewGranularExactly(s: State, size: nat, alignment: nat, os: Answers, p: Platform)
    requires Regular(s, p) && AllGranular(s)
    requires 0 < size <= SIZE_MAX - (alignment - 1) && IsPow2(alignment) && alignment <= SIZE_MAX
    ensures var s', n := AllocInNew(s, size, alignment, os, p).1, |s.blocks|;
            && n <= |s'.blocks| <= n + 1
            && (AllGranular(s') <==>
                |s'.blocks| == n
                || FirstCommitFits(WorstCase(size, alignment) + p.Slack(), s'.blocks[n].size, s.config.commitSize, p))
  {
    var need, cs := WorstCase(size, alignment), s.config.commitSize;
    var made := NewBlock(s.blocks, s.config, need, os, p);
    if made.Just? {
      var b := made.value;
      NewBlockIs(s.blocks, s.config, need, os, p);
      PushKeeps(s, b, p);
      var pushed := s.(blocks := s.blocks + [b]);
      NewestUses(pushed, size, alignment, os.growOk, p);
      PushedGranularExactly(s, b, size, alignment, os, p);
      assert pushed.blocks[..|s.blocks|] == s.blocks;
    }
  }

  lemma {:induction false} PushedGranularExactly(s: State, b: Block, size: nat, alignment: nat, os: Answers,
      p: Platform)
    requires Regular(s, p) && Usable(b, s.config.commitSize, p)
    requires 0 < size <= SIZE_MAX - (alignment - 1) && IsPow2(alignment) && alignment <= SIZE_MAX
    requires NewBlock(s.blocks, s.config, WorstCase(size, alignment), os, p) == Just(b)
    ensures var b' := Used(b, Bump(size, alignment, os.growOk), s.config.commitSize, p);
            && b'.size == b.size
            && (Granular(b', s.config.commitSize) <==>
                FirstCommitFits(WorstCase(size, alignment) + p.Slack(), b.size, s.config.commitSize, p))
  {
    var need, cs, ok := WorstCase(size, alignment), s.config.commitSize, os.growOk;
    PowerTest(alignment);
    PowersGrow(b, cs);
    BumpCommits(b, size, alignment, cs, ok, p);
    NewCommitIs(s, b, need, os, p);
    if !FirstCommitFits(need + p.Slack(), b.size, cs, p) { FirstUseCommitsNothing(b, size, alignment, cs, ok, p); }
  }

  lemma {:induction false} NewCommitIs(s: State, b: Block, need: nat, os: Answers, p: Platform)
    requires Regular(s, p) && need > 0 && NewBlock(s.blocks, s.config, need, os, p) == Just(b)
    ensures Usable(b, s.config.commitSize, p) && Untouched(b, p)
    ensures var cs, fits := s.config.commitSize, FirstCommitFits(need + p.Slack(), b.size, s.config.commitSize, p);
            && (Granular(b, cs) <==> fits) && (!fits ==> need + p.Slack() <= b.committed)
  {
    NewBlockIs(s.blocks, s.config, need, os, p);
    NewIsUntouched(s.blocks, s.config, need, os, p);
    FirstCommitExactly(s.config.reserveSize, s.config.commitSize, need, p);
    PageAlignIs(need + p.Slack(), p);
    VirtualSizesAre(s.config.reserveSize, s.config.commitSize, need, p);
  }

  /** Cutting blocks back and releasing newer ones commits nothing. */
  lemma {:induction false} RewindStaysGranular(s: State, m: Mark, p: Platform)
    requires AllGranular(s)
    ensures AllGranular(Rewind(s, m, p))
  {
  }

  // ---------- Two runs that are not granular ----------

  ghost function Virtual(commitSize: nat): Config {
    Config(VirtualBackend, 0, 0x10000, commitSize)
  }

  ghost predicate SmallPages(p: Platform) {
    p == Platform(48, 16, 0x1000)
  }

  lemma {:induction false} Pages(p: Platform, n: nat, commitSize: nat)
    requires SmallPages(p) && commitSize == n * 0x1000 && 0 < n <= 16
    ensures p.Sane() && PageAlign(commitSize, p) == commitSize && PageAlign(0x10000, p) == 0x10000
    ensures Init(Virtual(commitSize), p) == Just(Config(VirtualBackend, DEFAULT_SIZE, 0x10000, commitSize))
  {
    assert Pow2(4) == 16 && Pow2(8) == 256;
    Pow2Adds(4, 8);
    RoundUpKeepsMultiples(commitSize, n, 0x1000);
    RoundUpKeepsMultiples(0x10000, 16, 0x1000);
  }

  lemma {:induction false} RoundUpIs(value: nat, q: nat, d: nat)
    requires IsPow2(d) && d <= SIZE_MAX + 1 && value + (d - 1) <= SIZE_MAX
    requires value <= q * d < value + d
    ensures RoundUp(value, d) == q * d
  {
    RoundUpBounds(value, d);
    RoundUpMultiple(value, d);
    var r: nat :| RoundUp(value, d) == r * d;
    assert r * d - q * d == (r - q) * d && q * d - r * d == (q - r) * d;
    if r > q { MulLower(r - q, d); }
    if q > r { MulLower(q - r, d); }
  }

  /** What the system gave: 16 pages at 0x10000, of which some are committed. */
  ghost function SixteenPages(committed: nat, used: nat): Block {
    Block(0x10000, 0x10000, 0xFFD0, committed, used)
  }

  lemma {:induction false} DataAt(committed: nat, used: nat, p: Platform)
    requires SmallPages(p)
    ensures p.Sane() && Data(SixteenPages(committed, used), p) == Just(0x10030)
  {
    Pages(p, 1, 0x1000);
    RoundUpKeepsMultiples(0x10030, 0x1003, 16);
  }

  /** An allocation in a block of 16 pages that was used as far as `used`. */
  lemma {:induction false} BumpIs(committed: nat, used: nat, size: nat, commitSize: nat, p: Platform)
    requires SmallPages(p) && 0 < commitSize <= 0x10000 && size > 0 && used + size <= 0xFFD0
    ensures var b, rounded := SixteenPages(committed, used), RoundUp(0x30 + used + size, commitSize);
            BlockAlloc(b, VirtualBackend, commitSize, size, 1, true, p) ==
              (Just(0x10030 + used),
               SixteenPages(if 0x30 + used + size <= committed then committed
                            else if rounded > 0x10000 then 0x10000 else rounded, used + size))
  {
    DataAt(committed, used, p);
    RoundUpBounds(0x10030 + used, 1);
  }

  ghost predicate Grants(os: Answers) {
    os == Answers(Just(0x10000), true, true)
  }

  lemma {:induction false} FirstBlockIs(commitSize: nat, need: nat, committed: nat, os: Answers, p: Platform)
    requires SmallPages(p) && Grants(os) && 63 <= commitSize && 0 < need && need + 63 <= 0xF000
    requires var least := need + 63;
             committed == PageAlign(if commitSize < least then least else commitSize, p) <= 0x10000
    ensures p.Sane() && p.Slack() == 63 && PageAlign(0x10000, p) == 0x10000
    ensures NewBlock([], Config(VirtualBackend, DEFAULT_SIZE, 0x10000, commitSize), need, os, p)
         == Just(SixteenPages(committed, 0))
  {
    Pages(p, 1, 0x1000);
    DataAt(committed, 0, p);
    assert Data(Block(0x10000, 0x10000, 0, committed, 0), p) == Data(SixteenPages(committed, 0), p);
  }

  ghost function Started(commitSize: nat): State {
    State(Config(VirtualBackend, DEFAULT_SIZE, 0x10000, commitSize), [], [])
  }

  lemma {:induction false} StartedIsSafe(n: nat, commitSize: nat, p: Platform)
    requires SmallPages(p) && commitSize == n * 0x1000 && 0 < n <= 16
    ensures Safe(Started(commitSize), p) && Init(Virtual(commitSize), p) == Just(Started(commitSize).config)
    ensures Multiple(commitSize, p.pageSize) && p.Slack() <= commitSize
  {
    Pages(p, n, commitSize);
  }

  /** The first allocation makes a block and takes its first bytes. */
  lemma {:induction false} FirstAllocIs(n: nat, commitSize: nat, size: nat, committed: nat, os: Answers, p: Platform)
    requires SmallPages(p) && Grants(os) && commitSize == n * 0x1000 && 0 < n <= 16
    requires 0 < size && size + 63 <= committed <= 0x10000 && size + 63 <= 0xF000
    requires p.Sane() && committed == PageAlign(if commitSize < size + 63 then size + 63 else commitSize, p)
    ensures Safe(Started(commitSize), p)
    ensures var s := Started(commitSize);
            Alloc(s, size, 1, true, os, p)
            == (Just(0x10030), s.(blocks := [SixteenPages(committed, size)], live := [Live(0, 0x10030, size, 1)]))
  {
    StartedIsSafe(n, commitSize, p);
    assert 1 == Pow2(0);
    PowerTest(1);
    FirstBlockIs(commitSize, size, committed, os, p);
    BumpOnly(Started(commitSize), committed, size, p);
  }

  lemma {:induction false} BumpOnly(s: State, committed: nat, size: nat, p: Platform)
    requires SmallPages(p) && p.Sane() && 0 < s.config.commitSize <= 0x10000 && s.config.backend.VirtualBackend?
    requires s.blocks == [] && s.live == [] && 0 < size && 0x30 + size <= committed <= 0x10000
    ensures AllocNewest(s.(blocks := [] + [SixteenPages(committed, 0)]), size, 1, true, p)
         == (Just(0x10030), s.(blocks := [SixteenPages(committed, size)], live := [Live(0, 0x10030, size, 1)]))
  {
    BumpIs(committed, 0, size, s.config.commitSize, p);
    var b, b', l := SixteenPages(committed, 0), SixteenPages(committed, size), Live(0, 0x10030, size, 1);
    assert ([] + [b])[..0] + [b'] == [b'] && [] + [l] == [l];
  }

  /** A commit size of two pages, a power of two, is kept by initialization; the first
      allocation of a little more makes a block with three pages committed. */
  lemma {:induction false} FirstCommitNoMultiple(p: Platform, os: Answers)
    requires SmallPages(p) && Grants(os)
    ensures p.Sane() && Init(Virtual(0x2000), p) == Just(Started(0x2000).config)
    ensures Regular(Started(0x2000), p) && AllGranular(Started(0x2000))
    ensures var (r, s) := Alloc(Started(0x2000), 0x2800, 1, true, os, p);
            r == Just(0x10030) && s.blocks == [SixteenPages(0x3000, 0x2800)] && !Multiple(0x3000, 0x2000)
  {
    StartedIsSafe(2, 0x2000, p);
    TwoPagesAreAPower();
    LeastPages(p);
    FirstAllocIs(2, 0x2000, 0x2800, 0x3000, os, p);
    BetweenMultiples(0x3000, 1, 0x1000, 0x2000);
  }

  lemma {:induction false} LeastPages(p: Platform)
    requires SmallPages(p)
    ensures PageAlign(0x283F, p) == 0x3000
  {
    Pages(p, 1, 0x1000);
    RoundUpIs(0x283F, 3, 0x1000);
  }

  lemma {:induction false} TwoPagesAreAPower()
    ensures IsPow2(0x2000)
  {
    assert Pow2(5) == 32 && Pow2(8) == 256;
    Pow2Adds(5, 8);
  }

  lemma {:induction false} BetweenMultiples(x: nat, q: nat, r: nat, d: nat)
    requires x == q * d + r && 0 < r < d
    ensures !Multiple(x, d)
  {
    forall k: nat ensures x != k * d {
      assert k * d - q * d == (k - q) * d && q * d - k * d == (q - k) * d;
      if k > q { MulLower(k - q, d); }
    }
  }

  /** A commit size of three pages is kept, too; the first allocation commits three pages,
      and the next one, of a byte more than they hold, commits four. */
  lemma {:induction false} GrowthNoMultiple(p: Platform, os: Answers)
    requires SmallPages(p) && Grants(os)
    ensures p.Sane() && Init(Virtual(0x3000), p) == Just(Started(0x3000).config) && !IsPow2(0x3000)
    ensures Safe(Started(0x3000), p)
    ensures var (r, s) := Alloc(Started(0x3000), 16, 1, true, os, p);
            && r == Just(0x10030) && Safe(s, p) && s.blocks == [SixteenPages(0x3000, 16)] && AllGranular(s)
            && var (r', s') := Alloc(s, 0x2FC1, 1, true, os, p);
               r' == Just(0x10040) && s'.blocks == [SixteenPages(0x4000, 0x2FD1)] && !Multiple(0x4000, 0x3000)
  {
    ThreePagesAreNoPower();
    OneAllocIn(p, os);
    SecondAllocIs(p, os);
    BetweenMultiples(0x4000, 1, 0x1000, 0x3000);
  }

  lemma {:induction false} OneAllocIn(p: Platform, os: Answers)
    requires SmallPages(p) && Grants(os)
    ensures p.Sane() && Init(Virtual(0x3000), p) == Just(Started(0x3000).config) && Safe(Started(0x3000), p)
    ensures var s := Started(0x3000).(blocks := [SixteenPages(0x3000, 16)], live := [Live(0, 0x10030, 16, 1)]);
            Safe(s, p) && AllGranular(s) && Alloc(Started(0x3000), 16, 1, true, os, p) == (Just(0x10030), s)
  {
    StartedIsSafe(3, 0x3000, p);
    Pages(p, 3, 0x3000);
    FirstAllocIs(3, 0x3000, 16, 0x3000, os, p);
    AllocKeeps(Started(0x3000), 16, 1, true, os, p);
    assert 0x3000 == 1 * 0x3000;
  }

  lemma {:induction false} SecondAllocIs(p: Platform, os: Answers)
    requires SmallPages(p)
    ensures var s := Started(0x3000).(blocks := [SixteenPages(0x3000, 16)], live := [Live(0, 0x10030, 16, 1)]);
            Safe(s, p) ==>
              var (r, s') := Alloc(s, 0x2FC1, 1, true, os, p);
              r == Just(0x10040) && s'.blocks == [SixteenPages(0x4000, 0x2FD1)]
  {
    assert 1 == Pow2(0);
    PowerTest(1);
    ThreePageRound();
    BumpIs(0x3000, 16, 0x2FC1, 0x3000, p);
  }

  lemma {:induction false} ThreePageRound()
    ensures RoundUp(0x3001, 0x3000) == 0x4000
  {
    RoundUpBounds(0x3001, 0x3000);
    assert Pow2(4) == 16 && Pow2(8) == 256;
    Pow2Adds(4, 8);
    AndShifts(6, 2, 0xFFF, 12);
    assert And(6, 2) == 2;
  }

  lemma {:induction false} ThreePagesAreNoPower()
    ensures !IsPow2(0x3000)
  {
    assert Pow2(4) == 16 && Pow2(8) == 256;
    Pow2Adds(4, 8);
    PowerTest(0x3000);
    AndShifts(3, 2, 0xFFF, 12);
    assert And(3, 2) == 2;
  }
}
