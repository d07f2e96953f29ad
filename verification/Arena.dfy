// The arena object of src/memory.c, proved to act as the state machine of ArenaStates.

module Arenas {
  import opened Common
  import opened Bits
  import opened ArenaBlocks
  import opened ArenaStates

  const ZEROED := Config(HeapBackend, 0, 0, 0)

  predicate NotStarted(c: Config) {
    c.blockSize == 0 && c.reserveSize == 0
  }

  /** A zeroed arena initializes itself with the defaults at its first allocation. */
  ghost function Started(s: State, p: Platform): (s': State)
    requires Safe(s, p) && (NotStarted(s.config) ==> s == State(ZEROED, [], []))
    ensures Safe(s', p) && !NotStarted(s'.config)
  {
    InitIs(ZEROED, p);
    if NotStarted(s.config) then s.(config := Init(ZEROED, p).value) else s
  }

  class Arena {
    const platform: Platform
    var config: Config
    var blocks: seq<Block>
    ghost var live: seq<Live>

    ghost predicate Valid()
      reads this
    {
      Safe(View(), platform) && (NotStarted(config) ==> View() == State(ZEROED, [], []))
    }

    ghost function View(): State
      reads this
    {
      State(config, blocks, live)
    }

    /** LOR_ARENA_INIT */
    constructor (platform: Platform)
      requires platform.Sane()
      ensures Valid() && this.platform == platform && View() == State(ZEROED, [], [])
    {
      this.platform, config, blocks, live := platform, ZEROED, [], [];
    }

    method InitConfig(c: Config) returns (ok: bool)
      requires Valid() && c.blockSize <= SIZE_MAX && c.reserveSize <= SIZE_MAX && c.commitSize <= SIZE_MAX
      modifies `config
      ensures Valid()
      ensures ok <==> NotStarted(old(config)) && Init(c, platform).Just?
      ensures View() == if ok then old(View()).(config := Init(c, platform).value) else old(View())
    {
      InitIs(c, platform);
      if blocks != [] || config != ZEROED { return false; }
      var made := Init(c, platform);
      if made.Nothing? { return false; }
      config := made.value;
      return true;
    }

    method Alloc(size: nat, alignment: nat, grow: bool, os: Answers) returns (r: Maybe<nat>)
      requires Valid() && alignment <= SIZE_MAX
      modifies this
      ensures Valid()
      ensures size == 0 || !IsPowerOfTwo(alignment) ==> r.Nothing? && View() == old(View())
      ensures size > 0 && IsPowerOfTwo(alignment) ==>
                (r, View()) == ArenaStates.Alloc(Started(old(View()), platform), size, alignment, grow, os, platform)
    {
      if size == 0 || !IsPowerOfTwo(alignment) { return Nothing; }
      PowerTest(alignment);
      if NotStarted(config) {
        InitIs(ZEROED, platform);
        config := Init(ZEROED, platform).value;
      }
      r := AllocSomewhere(size, alignment, grow, os);
    }

    /** In the newest block, else in a new one. */
    method AllocSomewhere(size: nat, alignment: nat, grow: bool, os: Answers) returns (r: Maybe<nat>)
      requires Valid() && !NotStarted(config) && size > 0 && IsPow2(alignment) && alignment <= SIZE_MAX
      modifies `blocks, `live
      ensures Valid()
      ensures (r, View()) == ArenaStates.Alloc(old(View()), size, alignment, grow, os, platform)
    {
      PowerTest(alignment);
      if blocks != [] {
        r := AllocNewest(size, alignment, grow);
        if r.Just? { return; }
      }
      r := AllocInNew(size, alignment, os);
    }

    method AllocInNew(size: nat, alignment: nat, os: Answers) returns (r: Maybe<nat>)
      requires Valid() && !NotStarted(config) && size > 0 && IsPow2(alignment) && alignment <= SIZE_MAX
      modifies `blocks, `live
      ensures Valid()
      ensures (r, View()) == ArenaStates.AllocInNew(old(View()), size, alignment, os, platform)
    {
      if size > SIZE_MAX - (alignment - 1) { return Nothing; }
      var b := NewBlock(blocks, config, WorstCase(size, alignment), os, platform);
      if b.Nothing? { return Nothing; }
      NewBlockIs(blocks, config, WorstCase(size, alignment), os, platform);
      PushKeeps(View(), b.value, platform);
      ghost var s := View();
      blocks := blocks + [b.value];
      assert View() == s.(blocks := s.blocks + [b.value]);
      r := AllocNewest(size, alignment, os.growOk);
    }

    method AllocNewest(size: nat, alignment: nat, ok: bool) returns (r: Maybe<nat>)
      requires Valid() && !NotStarted(config) && blocks != [] && size > 0 && IsPow2(alignment) && alignment <= SIZE_MAX
      modifies `blocks, `live
      ensures Valid()
      ensures (r, View()) == ArenaStates.AllocNewest(old(View()), size, alignment, ok, platform)
    {
      var last := |blocks| - 1;
      AllocNewestKeeps(View(), size, alignment, ok, platform);
      var (result, b) := BlockAlloc(blocks[last], config.backend, config.commitSize, size, alignment, ok, platform);
      r := result;
      if r.Just? {
        blocks := blocks[..last] + [b];
        live := live + [Live(last, r.value, size, alignment)];
      }
    }

    method TakeMark() returns (m: Mark)
      ensures m == ArenaStates.TakeMark(View())
    {
      m := if blocks == [] then NullMark else Mark(|blocks|, blocks[|blocks| - 1].used);
    }

    method Reset()
      requires Valid()
      modifies `blocks, `live
      ensures Valid()
      ensures blocks == Emptied(old(blocks)) && live == []
    {
      RewindIsSafe(View(), NullMark, platform);
      live := [];
      for i := 0 to |blocks|
        invariant |blocks| == old(|blocks|) && live == []
        invariant forall j :: 0 <= j < |blocks| ==>
                    blocks[j] == if j < i then old(blocks)[j].(used := 0) else old(blocks)[j]
      {
        blocks := blocks[i := blocks[i].(used := 0)];
      }
    }

    method Rewind(m: Mark)
      requires Valid()
      modifies `blocks, `live
      ensures Valid()
      ensures View() == ArenaStates.Rewind(old(View()), m, platform)
    {
      if m.NullMark? {
        Reset();
        return;
      }
      if m.count == 0 || m.count > |blocks| { return; }
      RewindIsSafe(View(), m, platform);
      if m.used > blocks[m.count - 1].used {
        CutBack(m.count - 1, blocks[m.count - 1].used);
      } else {
        CutBack(m.count - 1, m.used);
      }
    }

    method CutBack(index: nat, used: nat)
      requires index < |blocks| && used <= blocks[index].used
      modifies `blocks, `live
      ensures View() == Cut(old(View()), index, used, platform)
    {
      ReleaseAbove(index + 1);
      live := Trim(live, index, Start(blocks[index], platform) + used);
      blocks := blocks[index := blocks[index].(used := used)];
      assert blocks == old(blocks)[..index] + [old(blocks)[index].(used := used)];
    }

    /** Frees the blocks that are newer than the first `count`. */
    method ReleaseAbove(count: nat)
      requires count <= |blocks|
      modifies `blocks
      ensures blocks == old(blocks)[..count]
    {
      while |blocks| > count
        invariant count <= |blocks| <= old(|blocks|) && blocks == old(blocks)[..|blocks|]
      {
        blocks := blocks[..|blocks| - 1];
      }
    }

    method Used() returns (total: nat)
      ensures total == UsedBytes(blocks)
    {
      total := 0;
      for i := 0 to |blocks|
        invariant total == UsedBytes(blocks[..i])
      {
        assert blocks[..i + 1][..i] == blocks[..i];
        total := total + blocks[i].used;
      }
      assert blocks[..|blocks|] == blocks;
    }
  }
}
