// The arena of src/memory.c: a list of blocks of which only the newest is allocated from,
// marks, and rewinding. Blocks are listed oldest first; the newest is the last.

module ArenaStates {
  import opened Common
  import opened Bits
  import opened ArenaBlocks

  datatype Config = Config(backend: Backend, blockSize: nat, reserveSize: nat, commitSize: nat)

  /** An allocation that has not been rewound: its block, counted from the oldest, its
      address and its size. */
  datatype Live = Live(block: nat, start: nat, size: nat, alignment: nat)

  datatype State = State(config: Config, blocks: seq<Block>, live: seq<Live>)

  datatype Mark = NullMark | Mark(count: nat, used: nat)

  /** What the system answers: the address of a new region, whether its first bytes are
      committed, and whether later bytes are. */
  datatype Answers = Answers(at: Maybe<nat>, commitOk: bool, growOk: bool)

  ghost predicate ValidConfig(c: Config, p: Platform) {
    && p.Sane() && c.blockSize <= SIZE_MAX && c.reserveSize <= SIZE_MAX && c.commitSize <= SIZE_MAX
    && (c.backend.VirtualBackend? ==> c.commitSize <= SIZE_MAX - (p.pageSize - 1))
  }

  predicate Disjoint(b: Block, at: nat, size: nat) {
    b.at + b.size <= at || at + size <= b.at
  }

  /** malloc and mmap give a region of their own inside the address space, or nothing. */
  function RawRegion(blocks: seq<Block>, size: nat, at: Maybe<nat>): Maybe<nat> {
    if at.Just? && at.value + size <= 0x1_0000_0000_0000_0000
       && forall i :: 0 <= i < |blocks| ==> Disjoint(blocks[i], at.value, size)
    then at else Nothing
  }

  function NewBlock(blocks: seq<Block>, c: Config, minCapacity: nat, os: Answers, p: Platform): Maybe<Block>
    requires 0 < p.maxAlign <= SIZE_MAX && 0 < p.pageSize <= SIZE_MAX && p.Slack() <= SIZE_MAX
  {
    if c.backend.VirtualBackend? then
      var sizes := VirtualSizes(c.reserveSize, c.commitSize, minCapacity, p);
      if sizes.Nothing? then Nothing
      else
        var at := RawRegion(blocks, sizes.value.0, os.at);
        if at.Nothing? || (sizes.value.1 != 0 && !os.commitOk)
           || at.value + p.dataOffset >= 0x1_0000_0000_0000_0000 then Nothing
        else Just(NewVirtualBlock(at.value, sizes.value.0, sizes.value.1, p))
    else
      var capacity := if c.blockSize < minCapacity then minCapacity else c.blockSize;
      var size := HeapSize(capacity, p);
      if size.Nothing? then Nothing
      else
        var at := RawRegion(blocks, size.value, os.at);
        if at.Nothing? then Nothing else Just(NewHeapBlock(at.value, capacity, p))
  }

  lemma {:induction false} NewBlockIs(blocks: seq<Block>, c: Config, minCapacity: nat, os: Answers, p: Platform)
    requires ValidConfig(c, p) && minCapacity > 0
    ensures var b := NewBlock(blocks, c, minCapacity, os, p);
            b.Just? ==>
              && WellPlaced(b.value, c.backend, p) && b.value.capacity >= minCapacity && b.value.used == 0
              && forall i :: 0 <= i < |blocks| ==> Disjoint(blocks[i], b.value.at, b.value.size)
  {
    var b := NewBlock(blocks, c, minCapacity, os, p);
    if b.Just? {
      if c.backend.VirtualBackend? {
        VirtualSizesAre(c.reserveSize, c.commitSize, minCapacity, p);
        var sizes := VirtualSizes(c.reserveSize, c.commitSize, minCapacity, p).value;
        VirtualBlockIs(b.value.at, sizes.0, sizes.1, minCapacity, p);
      } else {
        HeapBlockIs(b.value.at, b.value.capacity, p);
      }
    }
  }

  /** lor_arena_init_config on a zeroed arena, with the defaults for zero fields. */
  function Init(c: Config, p: Platform): Maybe<Config>
    requires 0 < p.pageSize <= SIZE_MAX
  {
    var blockSize := if c.blockSize != 0 then c.blockSize else DEFAULT_SIZE;
    var reserveSize := if c.reserveSize != 0 then c.reserveSize else DEFAULT_RESERVE;
    var commitSize := if c.commitSize != 0 then c.commitSize else DEFAULT_SIZE;
    if c.backend.HeapBackend? then Just(Config(c.backend, blockSize, reserveSize, commitSize))
    else
      var reserve, commit := PageAlign(reserveSize, p), PageAlign(commitSize, p);
      if reserve == 0 || commit == 0 then Nothing else Just(Config(c.backend, blockSize, reserve, commit))
  }

  lemma {:induction false} Pow2Exceeds(k: nat)
    ensures k > 32 ==> Pow2(k) > 0x1_0000_0000
  {
    if k > 33 { Pow2Exceeds(k - 1); } else { Pow2Is64(); }
  }

  lemma {:induction false} InitIs(c: Config, p: Platform)
    requires p.Sane() && c.blockSize <= SIZE_MAX && c.reserveSize <= SIZE_MAX && c.commitSize <= SIZE_MAX
    ensures Init(c, p).Just? ==> ValidConfig(Init(c, p).value, p) && Init(c, p).value.blockSize > 0
    ensures c.backend.HeapBackend? ==> Init(c, p).Just?
  {
  }

  /** What is configured is kept, zero stands for the default, and a virtual arena rounds
      its sizes up to whole pages; it is refused exactly if one of them overflows. */
  lemma {:induction false} InitExactly(c: Config, p: Platform)
    requires p.Sane() && c.blockSize <= SIZE_MAX && c.reserveSize <= SIZE_MAX && c.commitSize <= SIZE_MAX
    ensures Init(c, p).Just? <==>
              || c.backend.HeapBackend?
              || (c.reserveSize <= SIZE_MAX - (p.pageSize - 1) && c.commitSize <= SIZE_MAX - (p.pageSize - 1))
    ensures Init(c, p).Just? ==>
              && var made := Init(c, p).value;
                 && made.backend == c.backend
                 && made.blockSize == OrDefault(c.blockSize, 0x1_0000)
                 && Rounded(OrDefault(c.reserveSize, 0x400_0000), made.reserveSize, c.backend, p)
                 && Rounded(OrDefault(c.commitSize, 0x1_0000), made.commitSize, c.backend, p)
  {
    RoundUpMultiple(0x1_0000, p.pageSize);
    RoundUpMultiple(0x400_0000, p.pageSize);
    PageAlignIs(0x1_0000, p);
    PageAlignIs(0x400_0000, p);
    PageAlignKeeps(c.reserveSize, p);
    PageAlignKeeps(c.commitSize, p);
    PageAlignKeeps(0x1_0000, p);
    PageAlignKeeps(0x400_0000, p);
  }

  function OrDefault(size: nat, standard: nat): nat {
    if size != 0 then size else standard
  }

  /** Heap arenas keep a size as it is; virtual ones take the next whole page. */
  ghost predicate Rounded(size: nat, made: nat, backend: Backend, p: Platform) {
    if backend.HeapBackend? then made == size
    else Multiple(made, p.pageSize) && size <= made < size + p.pageSize
  }

  lemma {:induction false} PageAlignKeeps(size: nat, p: Platform)
    requires p.Sane()
    ensures if size > SIZE_MAX - (p.pageSize - 1) then PageAlign(size, p) == 0
            else Rounded(size, PageAlign(size, p), VirtualBackend, p)
  {
    if size <= SIZE_MAX - (p.pageSize - 1) {
      RoundUpBounds(size, p.pageSize);
      RoundUpMultiple(size, p.pageSize);
    }
  }

  /** A virtual arena commits whole pages. */
  lemma {:induction false} InitGivesPages(c: Config, p: Platform)
    requires p.Sane() && Init(c, p).Just? && c.backend.VirtualBackend?
    ensures Multiple(Init(c, p).value.commitSize, p.pageSize) && Init(c, p).value.commitSize > 0
  {
    RoundUpMultiple(if c.commitSize != 0 then c.commitSize else DEFAULT_SIZE, p.pageSize);
  }

  // ---------- Allocation ----------

  /** The size with the worst padding. */
  function WorstCase(size: nat, alignment: nat): nat
    requires alignment > 0
  {
    size + (alignment - 1)
  }

  /** Allocation from the newest block, if there is one. */
  function AllocNewest(s: State, size: nat, alignment: nat, ok: bool, p: Platform): (Maybe<nat>, State)
    requires 0 < p.maxAlign <= SIZE_MAX && s.config.commitSize <= SIZE_MAX && 0 < alignment <= SIZE_MAX
    requires s.blocks != [] && s.blocks[|s.blocks| - 1].at + p.dataOffset < ADDRESSES
  {
    var last := |s.blocks| - 1;
    var (r, b) := BlockAlloc(s.blocks[last], s.config.backend, s.config.commitSize, size, alignment, ok, p);
    if r.Nothing? then (Nothing, s)
    else (r, s.(blocks := s.blocks[..last] + [b], live := s.live + [Live(last, r.value, size, alignment)]))
  }

  ghost predicate Placed(s: State, p: Platform) {
    forall i :: 0 <= i < |s.blocks| ==> WellPlaced(s.blocks[i], s.config.backend, p)
  }

  /** lor_arena__alloc_aligned on an initialized arena. `grow` answers for the newest
      block, `os` for a new one. */
  ghost function Alloc(s: State, size: nat, alignment: nat, grow: bool, os: Answers, p: Platform): (Maybe<nat>, State)
    requires Safe(s, p) && alignment <= SIZE_MAX
  {
    if size == 0 || !IsPowerOfTwo(alignment) then (Nothing, s)
    else
      var (r, s1) := if s.blocks != [] then AllocNewest(s, size, alignment, grow, p) else (Nothing, s);
      if r.Just? then (r, s1) else AllocInNew(s, size, alignment, os, p)
  }

  /** Allocation from a new block, large enough for the size and the worst padding. */
  ghost function AllocInNew(s: State, size: nat, alignment: nat, os: Answers, p: Platform): (Maybe<nat>, State)
    requires Safe(s, p) && 0 < alignment <= SIZE_MAX && size > 0
  {
    if size > SIZE_MAX - (alignment - 1) then (Nothing, s)
    else
      var b := NewBlock(s.blocks, s.config, WorstCase(size, alignment), os, p);
      if b.Nothing? then (Nothing, s)
      else
        NewBlockIs(s.blocks, s.config, WorstCase(size, alignment), os, p);
        AllocNewest(s.(blocks := s.blocks + [b.value]), size, alignment, os.growOk, p)
  }

  // ---------- Safety ----------

  /** A live allocation lies inside the used bytes of its block, aligned, and (virtual)
      committed. */
  ghost predicate Inside(s: State, l: Live, p: Platform) {
    && l.block < |s.blocks| && l.size > 0 && Multiple(l.start, l.alignment)
    && var b := s.blocks[l.block];
       && Start(b, p) <= l.start && l.start + l.size <= Start(b, p) + b.used
  }

  /** `l` was allocated before `m`. */
  ghost predicate Precedes(l: Live, m: Live) {
    l.block < m.block || (l.block == m.block && l.start + l.size <= m.start)
  }

  ghost predicate BlocksApart(blocks: seq<Block>) {
    forall i, j :: 0 <= i < j < |blocks| ==> Disjoint(blocks[i], blocks[j].at, blocks[j].size)
  }

  ghost predicate InOrder(live: seq<Live>) {
    forall k, l :: 0 <= k < l < |live| ==> Precedes(live[k], live[l])
  }

  ghost predicate AllInside(s: State, p: Platform) {
    forall k :: 0 <= k < |s.live| ==> Inside(s, s.live[k], p)
  }

  ghost predicate Safe(s: State, p: Platform) {
    ValidConfig(s.config, p) && Placed(s, p) && BlocksApart(s.blocks) && AllInside(s, p) && InOrder(s.live)
  }

  /** Live allocations do not overlap. */
  lemma {:induction false} LiveAreDisjoint(s: State, p: Platform, k: nat, l: nat)
    requires Safe(s, p) && k < l < |s.live|
    ensures s.live[k].start + s.live[k].size <= s.live[l].start || s.live[l].start + s.live[l].size <= s.live[k].start
  {
  }

  /** And they lie in the storage of their block, behind its header; virtual ones in its
      committed part. */
  lemma {:induction false} LiveAreBacked(s: State, p: Platform, k: nat)
    requires Safe(s, p) && k < |s.live|
    ensures var l, b := s.live[k], s.blocks[s.live[k].block];
            && l.block < |s.blocks| && Multiple(l.start, l.alignment)
            && b.at + p.dataOffset <= l.start && l.start + l.size <= b.at + b.size <= ADDRESSES
            && (s.config.backend.VirtualBackend? ==> l.start + l.size <= b.at + b.committed)
  {
    var l := s.live[k];
    assert Inside(s, l, p);
    assert WellPlaced(s.blocks[l.block], s.config.backend, p);
    RoundUpBounds(s.blocks[l.block].at + p.dataOffset, p.maxAlign);
  }

  // ---------- What allocation keeps ----------

  ghost predicate Grown(b: Block, b': Block) {
    b' == b.(used := b'.used, committed := b'.committed) && b.used <= b'.used && b.committed <= b'.committed
  }

  /** `l` lies behind everything that was in use in `s`. */
  ghost predicate Behind(s: State, l: Live, p: Platform) {
    || s.blocks == []
    || l.block >= |s.blocks|
    || (&& l.block == |s.blocks| - 1
        && Start(s.blocks[|s.blocks| - 1], p) + s.blocks[|s.blocks| - 1].used <= l.start)
  }

  ghost predicate AllBehind(s: State, s': State, p: Platform) {
    forall l :: |s.live| <= l < |s'.live| ==> Behind(s, s'.live[l], p)
  }

  /** `s'` came from `s` by allocating: older blocks are untouched, the newest of `s` has
      only grown, and every new allocation lies behind those of `s`. */
  ghost predicate Extends(s: State, s': State, p: Platform) {
    && s'.config == s.config && |s.blocks| <= |s'.blocks| && s.live <= s'.live
    && (forall i :: 0 <= i < |s.blocks| - 1 ==> s'.blocks[i] == s.blocks[i])
    && (s.blocks != [] ==> Grown(s.blocks[|s.blocks| - 1], s'.blocks[|s.blocks| - 1]))
    && AllBehind(s, s', p)
  }

  lemma {:induction false} AllocNewestKeeps(s: State, size: nat, alignment: nat, ok: bool, p: Platform)
    requires Safe(s, p) && s.blocks != [] && size > 0 && IsPow2(alignment) && alignment <= SIZE_MAX
    ensures var (r, s') := AllocNewest(s, size, alignment, ok, p); Safe(s', p) && Extends(s, s', p)
  {
    var last := |s.blocks| - 1;
    var b := s.blocks[last];
    BlockAllocIs(b, s.config.backend, s.config.commitSize, size, alignment, ok, p);
    var (r, b') := BlockAlloc(b, s.config.backend, s.config.commitSize, size, alignment, ok, p);
    if r.Just? { BumpedKeeps(s, b', Live(last, r.value, size, alignment), p); }
  }

  lemma {:induction false} BumpedKeeps(s: State, b': Block, l: Live, p: Platform)
    requires Safe(s, p) && s.blocks != [] && l.block == |s.blocks| - 1 && l.size > 0
    requires Bumped(s.blocks[l.block], s.config.backend, l.size, l.alignment, p, Just(l.start), b')
    ensures var s' := s.(blocks := s.blocks[..l.block] + [b'], live := s.live + [l]); Safe(s', p) && Extends(s, s', p)
  {
    var s' := s.(blocks := s.blocks[..l.block] + [b'], live := s.live + [l]);
    ReplacedKeepsPlaces(s, b', p);
    AppendedIsInside(s, s', b', p);
    AppendedIsLast(s, l, p);
    assert AllBehind(s, s', p);
  }

  lemma {:induction false} ReplacedKeepsPlaces(s: State, b': Block, p: Platform)
    requires Safe(s, p) && s.blocks != [] && WellPlaced(b', s.config.backend, p)
    requires b'.at == s.blocks[|s.blocks| - 1].at && b'.size == s.blocks[|s.blocks| - 1].size
    ensures Placed(s.(blocks := s.blocks[..|s.blocks| - 1] + [b']), p) && BlocksApart(s.blocks[..|s.blocks| - 1] + [b'])
  {
  }

  lemma {:induction false} AppendedIsInside(s: State, s': State, b': Block, p: Platform)
    requires Safe(s, p) && s.blocks != [] && Grown(s.blocks[|s.blocks| - 1], b')
    requires s'.blocks == s.blocks[..|s.blocks| - 1] + [b'] && |s'.live| == |s.live| + 1
        && s'.live[..|s.live|] == s.live
    requires Inside(s', s'.live[|s.live|], p)
    ensures AllInside(s', p)
  {
    forall k | 0 <= k < |s'.live| ensures Inside(s', s'.live[k], p) {
      if k < |s.live| {
        var l := s.live[k];
        assert Inside(s, l, p) && s'.live[k] == l;
        StaysInside(s, s', b', l, p);
      }
    }
  }

  lemma {:induction false} StaysInside(s: State, s': State, b': Block, l: Live, p: Platform)
    requires s.blocks != [] && Grown(s.blocks[|s.blocks| - 1], b') && Inside(s, l, p)
    requires s'.blocks == s.blocks[..|s.blocks| - 1] + [b']
    ensures Inside(s', l, p)
  {
  }

  lemma {:induction false} AppendedIsLast(s: State, l: Live, p: Platform)
    requires Safe(s, p) && s.blocks != [] && l.block == |s.blocks| - 1 && Behind(s, l, p)
    ensures InOrder(s.live + [l])
  {
  }

  lemma {:induction false} PushKeeps(s: State, b: Block, p: Platform)
    requires Safe(s, p) && WellPlaced(b, s.config.backend, p) && b.used == 0
    requires forall i :: 0 <= i < |s.blocks| ==> Disjoint(s.blocks[i], b.at, b.size)
    ensures Safe(s.(blocks := s.blocks + [b]), p) && Extends(s, s.(blocks := s.blocks + [b]), p)
  {
  }

  lemma {:induction false} ExtendsTrans(s: State, s': State, s'': State, p: Platform)
    requires Extends(s, s', p) && Extends(s', s'', p)
    ensures Extends(s, s'', p)
  {
  }

  lemma {:induction false} AllocInNewKeeps(s: State, size: nat, alignment: nat, os: Answers, p: Platform)
    requires Safe(s, p) && alignment <= SIZE_MAX && size > 0 && IsPow2(alignment)
    ensures var (r, s') := AllocInNew(s, size, alignment, os, p); Safe(s', p) && Extends(s, s', p)
  {
    if size <= SIZE_MAX - (alignment - 1) {
      var b := NewBlock(s.blocks, s.config, WorstCase(size, alignment), os, p);
      NewBlockIs(s.blocks, s.config, WorstCase(size, alignment), os, p);
      if b.Just? {
        var pushed := s.(blocks := s.blocks + [b.value]);
        PushKeeps(s, b.value, p);
        AllocNewestKeeps(pushed, size, alignment, os.growOk, p);
        ExtendsTrans(s, pushed, AllocNewest(pushed, size, alignment, os.growOk, p).1, p);
      }
    }
  }

  /** Every allocation, successful or not, keeps the arena safe and all earlier
      allocations where they are. */
  lemma {:induction false} AllocKeeps(s: State, size: nat, alignment: nat, grow: bool, os: Answers, p: Platform)
    requires Safe(s, p) && alignment <= SIZE_MAX
    ensures var (r, s') := Alloc(s, size, alignment, grow, os, p); Safe(s', p) && Extends(s, s', p)
  {
    PowerTest(alignment);
    if size > 0 && IsPowerOfTwo(alignment) {
      if s.blocks != [] { AllocNewestKeeps(s, size, alignment, grow, p); }
      AllocInNewKeeps(s, size, alignment, os, p);
    }
  }

  /** A fresh heap block always satisfies the request it was made for: on a heap arena an
      allocation fails only if the system has no memory or the size overflows. */
  lemma {:induction false} HeapAllocFailsOnly(s: State, size: nat, alignment: nat, grow: bool, os: Answers, p: Platform)
    requires Safe(s, p) && s.config.backend.HeapBackend? && alignment <= SIZE_MAX
    requires size > 0 && IsPow2(alignment) && size <= SIZE_MAX - (alignment - 1)
    requires NewBlock(s.blocks, s.config, WorstCase(size, alignment), os, p).Just?
    ensures Alloc(s, size, alignment, grow, os, p).0.Just?
  {
    PowerTest(alignment);
    HeapNewSucceeds(s, size, alignment, os, p);
  }

  lemma {:induction false} HeapNewSucceeds(s: State, size: nat, alignment: nat, os: Answers, p: Platform)
    requires Safe(s, p) && s.config.backend.HeapBackend? && alignment <= SIZE_MAX
    requires size > 0 && IsPow2(alignment) && size <= SIZE_MAX - (alignment - 1)
    requires NewBlock(s.blocks, s.config, WorstCase(size, alignment), os, p).Just?
    ensures AllocInNew(s, size, alignment, os, p).0.Just?
  {
    NewBlockIs(s.blocks, s.config, WorstCase(size, alignment), os, p);
    var b := NewBlock(s.blocks, s.config, WorstCase(size, alignment), os, p).value;
    RoomSuffices(b, HeapBackend, s.config.commitSize, size, alignment, os.growOk, p);
    assert (s.blocks + [b])[|s.blocks|] == b;
  }

  /** So does a fresh virtual block when the system commits what is asked: only overflowing
      sizes, and the system, make an allocation fail. */
  lemma {:induction false} VirtualAllocFailsOnly(s: State, size: nat, alignment: nat, grow: bool, os: Answers,
      p: Platform)
    requires Safe(s, p) && s.config.backend.VirtualBackend? && alignment <= SIZE_MAX && os.growOk
    requires size > 0 && IsPow2(alignment)
    requires WorstCase(size, alignment) + p.Slack() <= LargestTotal(s.config.commitSize)
    requires NewBlock(s.blocks, s.config, WorstCase(size, alignment), os, p).Just?
    ensures Alloc(s, size, alignment, grow, os, p).0.Just?
  {
    PowerTest(alignment);
    VirtualNewSucceeds(s, size, alignment, os, p);
  }

  lemma {:induction false} VirtualNewSucceeds(s: State, size: nat, alignment: nat, os: Answers, p: Platform)
    requires Safe(s, p) && s.config.backend.VirtualBackend? && alignment <= SIZE_MAX && os.growOk
    requires size > 0 && IsPow2(alignment)
    requires WorstCase(size, alignment) + p.Slack() <= LargestTotal(s.config.commitSize)
    requires NewBlock(s.blocks, s.config, WorstCase(size, alignment), os, p).Just?
    ensures AllocInNew(s, size, alignment, os, p).0.Just?
  {
    var b := NewBlock(s.blocks, s.config, WorstCase(size, alignment), os, p).value;
    NewBlockIs(s.blocks, s.config, WorstCase(size, alignment), os, p);
    DataBounds(b.at, p);
    assert Data(b, p) == Data(Block(b.at, 0, 0, 0, 0), p);
    RoomSuffices(b, VirtualBackend, s.config.commitSize, size, alignment, os.growOk, p);
    assert (s.blocks + [b])[|s.blocks|] == b;
  }

  /** A successful allocation is the newest live one, as large and as aligned as asked. */
  ghost predicate Gives(s: State, size: nat, alignment: nat, r: Maybe<nat>, s': State) {
    if r.Just? then
      && s'.blocks != [] && |s'.live| == |s.live| + 1
      && s'.live[|s.live|] == Live(|s'.blocks| - 1, r.value, size, alignment)
    else s'.live == s.live
  }

  lemma {:induction false} AllocGives(s: State, size: nat, alignment: nat, grow: bool, os: Answers, p: Platform)
    requires Safe(s, p) && alignment <= SIZE_MAX
    ensures var (r, s') := Alloc(s, size, alignment, grow, os, p); Gives(s, size, alignment, r, s')
  {
    if size > 0 && IsPowerOfTwo(alignment) { AllocInNewGives(s, size, alignment, os, p); }
  }

  lemma {:induction false} AllocInNewGives(s: State, size: nat, alignment: nat, os: Answers, p: Platform)
    requires Safe(s, p) && 0 < alignment <= SIZE_MAX && size > 0
    ensures var (r, s') := AllocInNew(s, size, alignment, os, p); Gives(s, size, alignment, r, s')
  {
  }

  // ---------- Marks ----------

  function TakeMark(s: State): Mark {
    if s.blocks == [] then NullMark else Mark(|s.blocks|, s.blocks[|s.blocks| - 1].used)
  }

  function Emptied(blocks: seq<Block>): (r: seq<Block>)
    ensures |r| == |blocks| && forall i :: 0 <= i < |blocks| ==> r[i] == blocks[i].(used := 0)
  {
    seq(|blocks|, i requires 0 <= i < |blocks| => blocks[i].(used := 0))
  }

  /** The allocations that end at or below the mark. */
  ghost function Trim(live: seq<Live>, block: nat, limit: nat): seq<Live> {
    if live == [] then []
    else
      if Beyond(live[|live| - 1], block, limit) then Trim(live[..|live| - 1], block, limit) else live
  }

  ghost predicate Beyond(l: Live, block: nat, limit: nat) {
    l.block > block || (l.block == block && l.start + l.size > limit)
  }

  /** lor_arena_rewind: newer blocks are released, and the marked one is used as far as it
      was. A mark taken before the first block empties all blocks and keeps them; a mark
      of a block that was released is refused. */
  ghost function Rewind(s: State, m: Mark, p: Platform): State {
    if m.NullMark? then s.(blocks := Emptied(s.blocks), live := [])
    else if m.count == 0 || m.count > |s.blocks| then s
    else Cut(s, m.count - 1, if m.used > s.blocks[m.count - 1].used then s.blocks[m.count - 1].used else m.used, p)
  }

  /** Only the blocks up to `index` remain, that one used as far as `used`. */
  ghost function Cut(s: State, index: nat, used: nat, p: Platform): State
    requires index < |s.blocks|
  {
    var last := s.blocks[index];
    s.(blocks := s.blocks[..index] + [last.(used := used)], live := Trim(s.live, index, Start(last, p) + used))
  }

  function UsedBytes(blocks: seq<Block>): nat {
    if blocks == [] then 0 else UsedBytes(blocks[..|blocks| - 1]) + blocks[|blocks| - 1].used
  }

  /** What a scope gives back: the use and the live allocations at its beginning. */
  ghost predicate Restored(s: State, s': State) {
    && s'.config == s.config && s'.live == s.live && UsedBytes(s'.blocks) == UsedBytes(s.blocks)
    && (s.blocks != [] ==>
          && |s'.blocks| == |s.blocks|
          && (forall i :: 0 <= i < |s.blocks| - 1 ==> s'.blocks[i] == s.blocks[i])
          && var b, b' := s.blocks[|s.blocks| - 1], s'.blocks[|s.blocks| - 1];
             b' == b.(committed := b'.committed) && b.committed <= b'.committed)
  }

  lemma {:induction false} EmptiedUse(blocks: seq<Block>)
    ensures UsedBytes(Emptied(blocks)) == 0
  {
    if blocks != [] {
      var n := |blocks| - 1;
      EmptiedUse(blocks[..n]);
      assert Emptied(blocks)[..n] == Emptied(blocks[..n]);
    }
  }

  /** Of allocations that extend `before`, trimming at the mark leaves exactly `before`. */
  lemma {:induction false} TrimLeaves(before: seq<Live>, live: seq<Live>, block: nat, limit: nat)
    requires before <= live
    requires forall k :: 0 <= k < |before| ==> !Beyond(before[k], block, limit)
    requires forall k :: |before| <= k < |live| ==> Beyond(live[k], block, limit)
    ensures Trim(live, block, limit) == before
  {
    if |live| > |before| { TrimLeaves(before, live[..|live| - 1], block, limit); }
  }

  lemma {:induction false} SameUse(blocks: seq<Block>, blocks': seq<Block>)
    requires |blocks| == |blocks'| && forall i :: 0 <= i < |blocks| ==> blocks'[i].used == blocks[i].used
    ensures UsedBytes(blocks) == UsedBytes(blocks')
  {
    if blocks != [] { SameUse(blocks[..|blocks| - 1], blocks'[..|blocks| - 1]); }
  }

  lemma {:induction false} ShrunkIsPlaced(b: Block, used: nat, backend: Backend, p: Platform)
    requires WellPlaced(b, backend, p) && used <= b.used
    ensures WellPlaced(b.(used := used), backend, p) && Start(b.(used := used), p) == Start(b, p)
  {
  }

  lemma {:induction false} NothingLive(s: State, p: Platform)
    requires Safe(s, p)
    ensures s.blocks == [] ==> s.live == []
  {
    if s.live != [] { assert Inside(s, s.live[0], p); }
  }

  lemma {:induction false} NullMarkRestores(s: State, s': State, p: Platform)
    requires Safe(s, p) && Safe(s', p) && Extends(s, s', p) && s.blocks == []
    ensures var r := Rewind(s', TakeMark(s), p); Restored(s, r) && Safe(r, p) && Extends(s, r, p)
  {
    NothingLive(s, p);
    EmptiedUse(s'.blocks);
    forall i | 0 <= i < |s'.blocks| ensures WellPlaced(Emptied(s'.blocks)[i], s.config.backend, p) {
      ShrunkIsPlaced(s'.blocks[i], 0, s.config.backend, p);
    }
  }

  /** Of the live allocations exactly those of the mark remain. */
  lemma {:induction false} TrimAtMark(s: State, s': State, p: Platform)
    requires Safe(s, p) && Safe(s', p) && Extends(s, s', p) && s.blocks != []
    ensures var b := s.blocks[|s.blocks| - 1]; Trim(s'.live, |s.blocks| - 1, Start(b, p) + b.used) == s.live
  {
    var n, b := |s.blocks| - 1, s.blocks[|s.blocks| - 1];
    var limit := Start(b, p) + b.used;
    OldAreBelow(s, p);
    NewAreBeyond(s, s', p);
    TrimLeaves(s.live, s'.live, n, limit);
  }

  lemma {:induction false} OldAreBelow(s: State, p: Platform)
    requires Safe(s, p) && s.blocks != []
    ensures var b := s.blocks[|s.blocks| - 1];
            forall k :: 0 <= k < |s.live| ==> !Beyond(s.live[k], |s.blocks| - 1, Start(b, p) + b.used)
  {
  }

  lemma {:induction false} NewAreBeyond(s: State, s': State, p: Platform)
    requires Safe(s, p) && Safe(s', p) && Extends(s, s', p) && s.blocks != []
    ensures var b := s.blocks[|s.blocks| - 1];
            forall k :: |s.live| <= k < |s'.live| ==> Beyond(s'.live[k], |s.blocks| - 1, Start(b, p) + b.used)
  {
  }

  lemma {:induction false} RewindIs(s: State, s': State, p: Platform)
    requires s.blocks != [] && |s.blocks| <= |s'.blocks| && Grown(s.blocks[|s.blocks| - 1], s'.blocks[|s.blocks| - 1])
    requires var b := s.blocks[|s.blocks| - 1]; Trim(s'.live, |s.blocks| - 1, Start(b, p) + b.used) == s.live
    ensures var n := |s.blocks| - 1;
            Rewind(s', TakeMark(s), p) ==
                s'.(blocks := s'.blocks[..n] + [s'.blocks[n].(used := s.blocks[n].used)], live := s.live)
  {
  }

  lemma {:induction false} MarkRestores(s: State, s': State, p: Platform)
    requires Safe(s, p) && Safe(s', p) && Extends(s, s', p) && s.blocks != []
    ensures var r := Rewind(s', TakeMark(s), p); Restored(s, r)
  {
    var n := |s.blocks| - 1;
    TrimAtMark(s, s', p);
    RewindIs(s, s', p);
    SameUse(s.blocks, s'.blocks[..n] + [s'.blocks[n].(used := s.blocks[n].used)]);
  }

  /** A restored arena is as safe as it was. */
  lemma {:induction false} RestoredIsSafe(s: State, s': State, r: State, p: Platform)
    requires Safe(s, p) && Safe(s', p) && s.blocks != [] && Restored(s, r) && |s.blocks| <= |s'.blocks|
    requires forall i :: 0 <= i < |s.blocks| ==>
               r.blocks[i] == s'.blocks[i].(used := r.blocks[i].used) && r.blocks[i].used <= s'.blocks[i].used
    requires s'.config == s.config
    ensures Safe(r, p) && Extends(s, r, p)
  {
    forall i | 0 <= i < |r.blocks| ensures WellPlaced(r.blocks[i], r.config.backend, p) {
      ShrunkIsPlaced(s'.blocks[i], r.blocks[i].used, s.config.backend, p);
    }
    forall k | 0 <= k < |r.live| ensures Inside(r, r.live[k], p) { assert Inside(s, s.live[k], p); }
  }

  /** Rewinding to a mark undoes whatever was allocated since: the used bytes and the live
      allocations are those at the mark. */
  lemma {:induction false} RewindRestores(s: State, s': State, p: Platform)
    requires Safe(s, p) && Safe(s', p) && Extends(s, s', p)
    ensures var r := Rewind(s', TakeMark(s), p); Restored(s, r) && Safe(r, p) && Extends(s, r, p)
  {
    if s.blocks == [] {
      NullMarkRestores(s, s', p);
    } else {
      MarkRestores(s, s', p);
      RestoredIsSafe(s, s', Rewind(s', TakeMark(s), p), p);
    }
  }

  // ---------- Any mark ----------

  /** Rewinding gives back the blocks made since the mark, and no others; the marked block is
      cut back to the mark, or left as it is when the mark lies behind its use; a mark taken
      before the first block keeps all blocks, unused. */
  lemma {:induction false} RewindKeepsBlocks(s: State, m: Mark, p: Platform)
    ensures var r := Rewind(s, m, p);
            if m.NullMark? then
              && |r.blocks| == |s.blocks| && r.live == []
              && forall i :: 0 <= i < |s.blocks| ==> r.blocks[i] == s.blocks[i].(used := 0)
            else if 0 < m.count <= |s.blocks| then
              && |r.blocks| == m.count
              && (forall i :: 0 <= i < m.count - 1 ==> r.blocks[i] == s.blocks[i])
              && var b := s.blocks[m.count - 1];
                 r.blocks[m.count - 1] == b.(used := if m.used < b.used then m.used else b.used)
            else r == s
  {
  }

  /** What trimming leaves lies at or below the mark. */
  lemma {:induction false} TrimmedLieBelow(live: seq<Live>, block: nat, limit: nat)
    requires InOrder(live)
    ensures Trim(live, block, limit) <= live
    ensures forall k :: 0 <= k < |Trim(live, block, limit)| ==> !Beyond(live[k], block, limit)
  {
    if live != [] {
      var init, l := live[..|live| - 1], live[|live| - 1];
      if Beyond(l, block, limit) {
        TrimmedLieBelow(init, block, limit);
      } else {
        forall k | 0 <= k < |init| ensures !Beyond(live[k], block, limit) { assert Precedes(live[k], l); }
      }
    }
  }

  lemma {:induction false} CutKeepsBlocks(s: State, index: nat, used: nat, p: Platform)
    requires Safe(s, p) && index < |s.blocks| && used <= s.blocks[index].used
    ensures var r := Cut(s, index, used, p); Placed(r, p) && BlocksApart(r.blocks)
  {
    ShrunkIsPlaced(s.blocks[index], used, s.config.backend, p);
  }

  lemma {:induction false} CutKeepsLive(s: State, index: nat, used: nat, p: Platform)
    requires Safe(s, p) && index < |s.blocks| && used <= s.blocks[index].used
    ensures var r := Cut(s, index, used, p); AllInside(r, p) && InOrder(r.live)
  {
    var r := Cut(s, index, used, p);
    TrimmedLieBelow(s.live, index, Start(s.blocks[index], p) + used);
    forall k | 0 <= k < |r.live| ensures Inside(r, r.live[k], p) {
      var l := s.live[k];
      assert Inside(s, l, p) && r.live[k] == l;
      CutKeepsInside(s, index, used, l, p);
    }
  }

  lemma {:induction false} CutKeepsInside(s: State, index: nat, used: nat, l: Live, p: Platform)
    requires index < |s.blocks| && Inside(s, l, p)
    requires !Beyond(l, index, Start(s.blocks[index], p) + used)
    ensures Inside(Cut(s, index, used, p), l, p)
  {
    var b := s.blocks[index];
    assert Start(b.(used := used), p) == Start(b, p);
  }

  lemma {:induction false} CutIsSafe(s: State, index: nat, used: nat, p: Platform)
    requires Safe(s, p) && index < |s.blocks| && used <= s.blocks[index].used
    ensures Safe(Cut(s, index, used, p), p)
  {
    CutKeepsBlocks(s, index, used, p);
    CutKeepsLive(s, index, used, p);
  }

  /** Rewinding to any mark, even one that is not the caller's to use, leaves a safe arena. */
  lemma {:induction false} RewindIsSafe(s: State, m: Mark, p: Platform)
    requires Safe(s, p)
    ensures Safe(Rewind(s, m, p), p)
  {
    if m.NullMark? {
      EmptiedIsSafe(s, p);
    } else if 0 < m.count <= |s.blocks| {
      var last := s.blocks[m.count - 1];
      CutIsSafe(s, m.count - 1, if m.used > last.used then last.used else m.used, p);
    }
  }

  lemma {:induction false} EmptiedIsSafe(s: State, p: Platform)
    requires Safe(s, p)
    ensures Safe(s.(blocks := Emptied(s.blocks), live := []), p)
  {
    forall i | 0 <= i < |s.blocks| ensures WellPlaced(Emptied(s.blocks)[i], s.config.backend, p) {
      ShrunkIsPlaced(s.blocks[i], 0, s.config.backend, p);
    }
  }
}
