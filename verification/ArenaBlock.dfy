// One block of an arena in src/memory.c: alignment by masking, bump allocation, and
// commit on demand. Addresses and sizes are 64-bit words.

module ArenaBlocks {
  import opened Common
  import opened Bits

  const ADDRESSES: nat := 0x1_0000_0000_0000_0000
  const DEFAULT_SIZE: nat := 0x1_0000          // LOR_ARENA_DEFAULT_BLOCK_SIZE and _COMMIT_SIZE
  const DEFAULT_RESERVE: nat := 0x400_0000     // LOR_ARENA_DEFAULT_RESERVE_SIZE

  datatype Backend = HeapBackend | VirtualBackend

  /** What the compiler and the system fix: where the data of a block starts, the largest
      alignment of a type, and the page size. */
  datatype Platform = Platform(dataOffset: nat, maxAlign: nat, pageSize: nat) {
    ghost predicate Sane() {
      && IsPow2(maxAlign) && IsPow2(pageSize)
      && dataOffset + maxAlign + pageSize + DEFAULT_SIZE <= 0x1_0000_0000
    }

    /** lor_arena__block_header_slack */
    function Slack(): nat
      requires maxAlign > 0
    {
      dataOffset + maxAlign - 1
    }
  }

  datatype Block = Block(at: nat, size: nat, capacity: nat, committed: nat, used: nat)

  // ---------- Alignment ----------

  function IsPowerOfTwo(v: nat): bool {
    v != 0 && And(v, v - 1) == 0
  }

  lemma {:induction false} AndSame(v: nat)
    ensures And(v, v) == v
  {
    if v > 0 { AndSame(v / 2); }
  }

  /** The mask test accepts exactly the powers of two. */
  lemma {:induction false} PowerTest(v: nat)
    ensures IsPowerOfTwo(v) <==> IsPow2(v)
  {
    if v == 0 {
      forall k: nat ensures v != Pow2(k) { }
    } else if v == 1 {
      assert v == Pow2(0);
    } else if v % 2 == 1 {
      AndSame(v / 2);
      AndStep(v, v - 1);
      forall k: nat ensures v != Pow2(k) { }
    } else {
      var h := v / 2;
      PowerTest(h);
      AndStep(v, v - 1);
      assert (v - 1) / 2 == h - 1;
      if IsPow2(h) {
        var k: nat :| h == Pow2(k);
        assert v == Pow2(k + 1);
      }
      if IsPow2(v) {
        var k: nat :| v == Pow2(k);
        assert h == Pow2(k - 1);
      }
    }
  }

  /** `(value + mask) & ~mask` for `mask == alignment - 1`. */
  function RoundUp(value: nat, alignment: nat): nat
    requires 0 < alignment <= SIZE_MAX + 1 && value + (alignment - 1) <= SIZE_MAX
  {
    And(value + (alignment - 1), SIZE_MAX - (alignment - 1))
  }

  ghost predicate Multiple(x: nat, d: nat) {
    exists q: nat :: x == q * d
  }

  /** Rounding up with any mask stays between the value and the value plus the mask. */
  lemma {:induction false} RoundUpBounds(value: nat, alignment: nat)
    requires 0 < alignment <= SIZE_MAX + 1 && value + (alignment - 1) <= SIZE_MAX
    ensures value <= RoundUp(value, alignment) <= value + (alignment - 1)
    ensures RoundUp(value, alignment) == value + (alignment - 1) - And(value + (alignment - 1), alignment - 1)
  {
    Pow2Is64();
    AndComplement(value + (alignment - 1), alignment - 1, 64);
  }

  /** With a power of two it is a multiple. */
  lemma {:induction false} RoundUpMultiple(value: nat, alignment: nat)
    requires IsPow2(alignment) && alignment <= SIZE_MAX + 1 && value + (alignment - 1) <= SIZE_MAX
    ensures Multiple(RoundUp(value, alignment), alignment)
  {
    var k: nat :| alignment == Pow2(k);
    RoundUpBounds(value, alignment);
    var q := AndMaskDivides(value + (alignment - 1), k);
    assert RoundUp(value, alignment) == q * alignment;
  }

  lemma {:induction false} AndShifts(h: nat, g: nat, low: nat, k: nat)
    requires low < Pow2(k)
    ensures And(h * Pow2(k), g * Pow2(k) + low) == And(h, g) * Pow2(k)
  {
    if k > 0 {
      var m := Pow2(k - 1);
      AndShifts(h, g, low / 2, k - 1);
      DoubleProduct(h, m);
      DoubleProduct(g, m);
      DoubleProduct(And(h, g), m);
      AndDoubled(h * m, g * m, low);
    }
  }

  lemma {:induction false} AndDoubled(x: nat, y: nat, low: nat)
    ensures And(2 * x, 2 * y + low) == 2 * And(x, y + low / 2)
  {
  }

  /** With any other granularity it is not: the first byte already is rounded to less. */
  lemma {:induction false} RoundUpNotMultiple(granule: nat)
    requires 0 < granule <= SIZE_MAX && !IsPow2(granule)
    ensures !Multiple(RoundUp(1, granule), granule)
  {
    RoundUpBounds(1, granule);
    PowerTest(granule);
    forall q: nat ensures RoundUp(1, granule) != q * granule {
      if q > 0 { MulLower(q, granule); }
    }
  }

  /** Rounding with a mask gives multiples exactly for the powers of two. */
  lemma {:induction false} RoundUpMultipleExactly(granule: nat)
    requires 0 < granule <= SIZE_MAX
    ensures (forall v: nat :: v + (granule - 1) <= SIZE_MAX ==> Multiple(RoundUp(v, granule), granule))
       <==> IsPow2(granule)
  {
    if IsPow2(granule) {
      forall v: nat | v + (granule - 1) <= SIZE_MAX ensures Multiple(RoundUp(v, granule), granule) {
        RoundUpMultiple(v, granule);
      }
    } else {
      RoundUpNotMultiple(granule);
    }
  }

  /** A multiple of a power of two stays as it is. */
  lemma {:induction false} RoundUpKeepsMultiples(value: nat, q: nat, alignment: nat)
    requires value == q * alignment
    requires IsPow2(alignment) && alignment <= SIZE_MAX + 1 && value + (alignment - 1) <= SIZE_MAX
    ensures RoundUp(value, alignment) == value
  {
    RoundUpBounds(value, alignment);
    RoundUpMultiple(value, alignment);
    var rounded := RoundUp(value, alignment);
    var r: nat :| rounded == r * alignment;
    NextMultiple(q, r, alignment);
  }

  lemma {:induction false} NextMultiple(q: nat, r: nat, d: nat)
    requires q * d <= r * d < q * d + d
    ensures r * d == q * d
  {
    assert r * d - q * d == (r - q) * d;
    if r > q { MulLower(r - q, d); }
  }

  function AlignForward(value: nat, alignment: nat): Maybe<nat>
    requires 0 < alignment <= SIZE_MAX + 1
  {
    if value > SIZE_MAX - (alignment - 1) then Nothing else Just(RoundUp(value, alignment))
  }

  function PageAlign(size: nat, p: Platform): nat
    requires 0 < p.pageSize <= SIZE_MAX
  {
    if size > SIZE_MAX - (p.pageSize - 1) then 0 else RoundUp(size, p.pageSize)
  }

  // ---------- A block in the address space ----------

  /** lor_arena__block_data */
  function Data(b: Block, p: Platform): Maybe<nat>
    requires 0 < p.maxAlign <= SIZE_MAX && b.at + p.dataOffset < ADDRESSES
  {
    AlignForward(b.at + p.dataOffset, p.maxAlign)
  }

  /** The block with its header lies in the address space, its usable bytes inside it,
      and (virtual) all bytes in use are committed. */
  ghost predicate WellPlaced(b: Block, backend: Backend, p: Platform) {
    && p.Sane() && b.at + b.size <= ADDRESSES && b.size <= SIZE_MAX && b.at + p.dataOffset < ADDRESSES
    && b.used <= b.capacity
    && exists d: nat :: Data(b, p) == Just(d) && PlacedAt(b, d, backend)
  }

  ghost predicate PlacedAt(b: Block, d: nat, backend: Backend) {
    && b.at <= d && d + b.capacity <= b.at + b.size
    && (backend.VirtualBackend? ==> d - b.at + b.used <= b.committed <= b.size)
  }

  /** The address of the first usable byte. */
  ghost function Start(b: Block, p: Platform): nat {
    if 0 < p.maxAlign <= SIZE_MAX && b.at + p.dataOffset < ADDRESSES && Data(b, p).Just? then Data(b, p).value else 0
  }

  lemma {:induction false} DataBounds(at: nat, p: Platform)
    requires p.Sane() && at + p.Slack() < ADDRESSES
    ensures var b := Block(at, 0, 0, 0, 0);
            Data(b, p).Just? && at + p.dataOffset <= Data(b, p).value <= at + p.Slack()
  {
    RoundUpBounds(at + p.dataOffset, p.maxAlign);
  }

  // ---------- Commit on demand ----------

  /** lor_arena__block_ensure_committed; `ok` is the system's answer to a commit. */
  function EnsureCommitted(b: Block, needed: nat, commitSize: nat, ok: bool, p: Platform): (bool, Block)
    requires 0 < p.maxAlign <= SIZE_MAX && b.at + p.dataOffset < ADDRESSES && commitSize <= SIZE_MAX
  {
    var data := Data(b, p);
    if data.Nothing? || needed > b.capacity || data.value < b.at then (false, b)
    else
      var offset := data.value - b.at;
      if offset > SIZE_MAX - needed then (false, b)
      else
        var total := offset + needed;
        if total <= b.committed then (true, b)
        else if commitSize != 0 && total > SIZE_MAX - (commitSize - 1) then (false, b)
        else
          var rounded := if commitSize != 0 then RoundUp(total, commitSize) else total;
          var capped := if rounded > b.size then b.size else rounded;
          if ok then (true, b.(committed := capped)) else (false, b)
  }

  /** The largest size that can still be rounded to commit-size increments. */
  function LargestTotal(commitSize: nat): int {
    if commitSize == 0 then SIZE_MAX else SIZE_MAX - (commitSize - 1)
  }

  /** Success means the needed bytes are committed; committed memory only grows, never
      beyond the block, and by less than a granule more than needed. */
  lemma {:induction false} EnsureCommittedIs(b: Block, needed: nat, commitSize: nat, ok: bool, p: Platform)
    requires WellPlaced(b, VirtualBackend, p) && commitSize <= SIZE_MAX
    ensures var (done, b') := EnsureCommitted(b, needed, commitSize, ok, p);
            && b' == b.(committed := b'.committed) && b.committed <= b'.committed <= b.size
            && (done ==> needed <= b.capacity && Start(b, p) - b.at + needed <= b'.committed)
            && (b'.committed == b.committed
                || b'.committed < Start(b, p) - b.at + needed + (if commitSize == 0 then 1 else commitSize))
            && (!done ==> b' == b)
  {
    var total := Start(b, p) - b.at + needed;
    if commitSize != 0 && total <= SIZE_MAX - (commitSize - 1) { RoundUpBounds(total, commitSize); }
  }

  // ---------- Bump allocation ----------

  /** lor_arena__block_alloc */
  function BlockAlloc(b: Block, backend: Backend, commitSize: nat, size: nat, alignment: nat, ok: bool,
                      p: Platform): (Maybe<nat>, Block)
    requires 0 < p.maxAlign <= SIZE_MAX && b.at + p.dataOffset < ADDRESSES && commitSize <= SIZE_MAX
    requires 0 < alignment <= SIZE_MAX
  {
    var data := Data(b, p);
    if data.Nothing? || b.used > b.capacity || data.value + b.used > SIZE_MAX then (Nothing, b)
    else
      var current := data.value + b.used;
      var aligned := AlignForward(current, alignment);
      if aligned.Nothing? || aligned.value < current then (Nothing, b)
      else
        var padding := aligned.value - current;
        if padding > b.capacity - b.used || size > b.capacity - b.used - padding then (Nothing, b)
        else
          var newUsed := b.used + padding + size;
          var (committed, b1) :=
            if backend.VirtualBackend? then EnsureCommitted(b, newUsed, commitSize, ok, p) else (true, b);
          if committed then (Just(aligned.value), b1.(used := newUsed)) else (Nothing, b)
  }

  /** What one bump allocation does to a block: a success takes aligned bytes behind those
      in use, inside the block and (virtual) committed; a failure changes nothing. */
  ghost predicate Bumped(b: Block, backend: Backend, size: nat, alignment: nat, p: Platform, r: Maybe<nat>, b': Block) {
    && WellPlaced(b', backend, p)
    && (r.Nothing? ==> b' == b)
    && (r.Just? ==>
          && b' == b.(committed := b'.committed, used := b'.used) && b.committed <= b'.committed
          && Start(b, p) + b.used <= r.value && Multiple(r.value, alignment)
          && r.value + size == Start(b, p) + b'.used
          && (backend.VirtualBackend? ==> r.value + size <= b.at + b'.committed))
  }

  lemma {:induction false} BlockAllocIs(b: Block, backend: Backend, commitSize: nat, size: nat, alignment: nat,
      ok: bool, p: Platform)
    requires WellPlaced(b, backend, p) && commitSize <= SIZE_MAX && IsPow2(alignment) && alignment <= SIZE_MAX
    ensures var (r, b') := BlockAlloc(b, backend, commitSize, size, alignment, ok, p);
            Bumped(b, backend, size, alignment, p, r, b')
  {
    var (r, b') := BlockAlloc(b, backend, commitSize, size, alignment, ok, p);
    if r.Just? {
      var current := Start(b, p) + b.used;
      RoundUpBounds(current, alignment);
      RoundUpMultiple(current, alignment);
      var newUsed := r.value - Start(b, p) + size;
      if backend.VirtualBackend? { EnsureCommittedIs(b, newUsed, commitSize, ok, p); }
      assert Data(b', p) == Data(b, p);
      assert PlacedAt(b', Start(b, p), backend);
    }
  }

  /** A block with room for the size plus the worst padding satisfies the request; only
      the system can refuse, by not committing memory. */
  lemma {:induction false} RoomSuffices(b: Block, backend: Backend, commitSize: nat, size: nat, alignment: nat,
      ok: bool, p: Platform)
    requires WellPlaced(b, backend, p) && commitSize <= SIZE_MAX && IsPow2(alignment) && alignment <= SIZE_MAX
    requires b.used == 0 && size > 0 && size + (alignment - 1) <= b.capacity
    requires backend.VirtualBackend? ==>
               ok && Start(b, p) - b.at + size + (alignment - 1) <= LargestTotal(commitSize)
    ensures BlockAlloc(b, backend, commitSize, size, alignment, ok, p).0.Just?
  {
    var current := Start(b, p);
    RoundUpBounds(current, alignment);
    if backend.VirtualBackend? {
      EnsureCommittedIs(b, RoundUp(current, alignment) - current + size, commitSize, ok, p);
    }
  }

  // ---------- New blocks ----------

  /** The bytes asked of malloc for a heap block, if the size does not overflow. */
  function HeapSize(capacity: nat, p: Platform): Maybe<nat>
    requires 0 < p.maxAlign
  {
    if capacity > SIZE_MAX - p.Slack() || p.Slack() > SIZE_MAX then Nothing else Just(capacity + p.Slack())
  }

  /** The bytes reserved and committed for a virtual block. */
  function VirtualSizes(reserveSize: nat, commitSize: nat, minCapacity: nat, p: Platform): Maybe<(nat, nat)>
    requires 0 < p.maxAlign && 0 < p.pageSize <= SIZE_MAX && p.Slack() <= SIZE_MAX
  {
    if minCapacity > SIZE_MAX - p.Slack() then Nothing
    else
      var minReserve := minCapacity + p.Slack();
      var reserve := PageAlign(if reserveSize < minReserve then minReserve else reserveSize, p);
      if reserve == 0 then Nothing
      else
        var atLeastHeader := if commitSize < p.Slack() then p.Slack() else commitSize;
        var wanted := if atLeastHeader < minReserve && minReserve < DEFAULT_SIZE then minReserve else atLeastHeader;
        var commit := PageAlign(wanted, p);
        Just((reserve, if commit > reserve then reserve else commit))
  }

  function NewHeapBlock(at: nat, capacity: nat, p: Platform): Block
    requires 0 < p.maxAlign
  {
    Block(at, capacity + p.Slack(), capacity, capacity, 0)
  }

  function NewVirtualBlock(at: nat, reserve: nat, commit: nat, p: Platform): Block
    requires 0 < p.maxAlign <= SIZE_MAX && at + p.dataOffset < ADDRESSES
  {
    var data := Data(Block(at, reserve, 0, commit, 0), p);
    var inside := data.Just? && at <= data.value <= at + reserve;
    Block(at, reserve, if inside then at + reserve - data.value else 0, commit, 0)
  }

  lemma {:induction false} HeapBlockIs(at: nat, capacity: nat, p: Platform)
    requires p.Sane() && 0 < capacity && at + capacity + p.Slack() <= ADDRESSES && capacity + p.Slack() <= SIZE_MAX
    ensures WellPlaced(NewHeapBlock(at, capacity, p), HeapBackend, p)
  {
    var b := NewHeapBlock(at, capacity, p);
    DataBounds(at, p);
    assert Data(b, p) == Data(Block(at, 0, 0, 0, 0), p);
    assert PlacedAt(b, Start(b, p), HeapBackend);
  }

  lemma {:induction false} PageAlignIs(size: nat, p: Platform)
    requires 0 < p.pageSize <= SIZE_MAX
    ensures if size > SIZE_MAX - (p.pageSize - 1) then PageAlign(size, p) == 0
            else size <= PageAlign(size, p) <= SIZE_MAX
  {
    if size <= SIZE_MAX - (p.pageSize - 1) { RoundUpBounds(size, p.pageSize); }
  }

  /** A page-aligned commit size leaves room for the header. */
  lemma {:induction false} VirtualSizesAre(reserveSize: nat, commitSize: nat, minCapacity: nat, p: Platform)
    requires p.Sane() && commitSize <= SIZE_MAX - (p.pageSize - 1) && reserveSize <= SIZE_MAX
    ensures var sizes := VirtualSizes(reserveSize, commitSize, minCapacity, p);
            sizes.Just? ==>
              minCapacity + p.Slack() <= sizes.value.0 <= SIZE_MAX && p.Slack() <= sizes.value.1 <= sizes.value.0
  {
    if minCapacity <= SIZE_MAX - p.Slack() {
      var minReserve := minCapacity + p.Slack();
      var reserve := if reserveSize < minReserve then minReserve else reserveSize;
      var atLeastHeader := if commitSize < p.Slack() then p.Slack() else commitSize;
      var wanted := if atLeastHeader < minReserve && minReserve < DEFAULT_SIZE then minReserve else atLeastHeader;
      assert p.Slack() <= wanted <= SIZE_MAX - (p.pageSize - 1);
      PageAlignIs(reserve, p);
      PageAlignIs(wanted, p);
    }
  }

  lemma {:induction false} VirtualBlockIs(at: nat, reserve: nat, commit: nat, minCapacity: nat, p: Platform)
    requires p.Sane() && 0 < minCapacity && minCapacity + p.Slack() <= reserve && at + reserve <= ADDRESSES
    requires p.Slack() <= commit <= reserve <= SIZE_MAX
    ensures WellPlaced(NewVirtualBlock(at, reserve, commit, p), VirtualBackend, p)
    ensures NewVirtualBlock(at, reserve, commit, p).capacity >= minCapacity
  {
    var b := NewVirtualBlock(at, reserve, commit, p);
    DataBounds(at, p);
    assert Data(b, p) == Data(Block(at, 0, 0, 0, 0), p) == Data(Block(at, reserve, 0, commit, 0), p);
    assert PlacedAt(b, Start(b, p), VirtualBackend);
  }
}
