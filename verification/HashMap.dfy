// The hash map of src/map.c: entries stored densely in insertion order behind a
// linear-probing index. The class below stands for one finite map at all times.

module HashMaps {
  import opened Common
  import opened Bits
  import opened ProbeIndex
  import opened MapIndex
  import opened Growth

  const HEADER_SIZE: nat := 96  // sizeof(LorMapHeader); any value works
  const WORD_SIZE: nat := 8     // sizeof(size_t)

  datatype Status = Ok | InvalidArgument | OutOfMemory | Overflow

  /** What the surroundings decide during one `Set`: whether the entry argument overlaps
      the storage, and which allocations and clones succeed. */
  datatype SetEnv = SetEnv(aliased: bool, partialAlias: bool, copyOk: bool, cloneStatus: Status, growOk: bool)

  /** The finite map the dense entries stand for: key class to stored entry. */
  ghost function Rep<K(!new), C, V>(es: seq<Entry<K, V>>, config: Config<K, C>): (m: map<C, Entry<K, V>>)
    ensures |m| <= |es|
  {
    if |es| == 0 then map[]
    else
      var last := es[|es| - 1];
      Rep(es[..|es| - 1], config)[config.Class(last.key) := last]
  }

  /** No two entries have equal keys: nothing is lost between the entries and the map. */
  ghost predicate Distinct<K(!new), C, V>(es: seq<Entry<K, V>>, config: Config<K, C>) {
    |Rep(es, config)| == |es|
  }

  ghost predicate WellFormed<K(!new), C, V>(es: seq<Entry<K, V>>, capacity: nat, config: Config<K, C>) {
    && |es| <= capacity <= SIZE_MAX
    && Distinct(es, config)
    && (forall i :: 0 <= i < |es| ==> config.KeyValid(es[i].key))
  }

  /** The dense entries and the buckets of a map fit together. */
  ghost predicate Sound<K(!new), C, V>(es: seq<Entry<K, V>>, capacity: nat, buckets: seq<nat>, config: Config<K, C>) {
    && WellFormed(es, capacity, config)
    && (capacity == 0 ==> buckets == [])
    && (capacity > 0 ==> capacity < |buckets| && Indexes(buckets, es, config, |es|, 0))
  }

  lemma DistinctPrefix<K(!new), C, V>(es: seq<Entry<K, V>>, config: Config<K, C>)
    requires Distinct(es, config) && |es| > 0
    ensures Distinct(es[..|es| - 1], config)
    ensures config.Class(es[|es| - 1].key) !in Rep(es[..|es| - 1], config)
  {
  }

  /** Each entry is in the map under its own key ... */
  lemma {:induction false} RepHas<K(!new), C, V>(es: seq<Entry<K, V>>, config: Config<K, C>, i: nat)
    requires Distinct(es, config) && i < |es|
    ensures config.Class(es[i].key) in Rep(es, config) && Rep(es, config)[config.Class(es[i].key)] == es[i]
  {
    var n := |es| - 1;
    if i < n {
      DistinctPrefix(es, config);
      RepHas(es[..n], config, i);
      assert es[..n][i] == es[i];
    }
  }

  /** ... and the map holds nothing else. */
  lemma {:induction false} RepFrom<K(!new), C, V>(es: seq<Entry<K, V>>, config: Config<K, C>, c: C) returns (i: nat)
    requires c in Rep(es, config)
    ensures i < |es| && config.Class(es[i].key) == c && Rep(es, config)[c] == es[i]
  {
    var n := |es| - 1;
    if config.Class(es[n].key) == c {
      i := n;
    } else {
      i := RepFrom(es[..n], config, c);
    }
  }

  lemma RepAppend<K(!new), C, V>(es: seq<Entry<K, V>>, capacity: nat, e: Entry<K, V>, config: Config<K, C>)
    requires WellFormed(es, capacity, config) && |es| < capacity
    requires config.KeyValid(e.key) && config.Class(e.key) !in Rep(es, config)
    ensures WellFormed(es + [e], capacity, config)
    ensures Rep(es + [e], config) == Rep(es, config)[config.Class(e.key) := e]
  {
  }

  lemma {:induction false} RepOverwrite<K(!new), C, V>(es: seq<Entry<K, V>>, i: nat, e: Entry<K, V>,
      config: Config<K, C>)
    requires Distinct(es, config) && i < |es| && config.Class(e.key) == config.Class(es[i].key)
    ensures Distinct(es[i := e], config)
    ensures Rep(es[i := e], config) == Rep(es, config)[config.Class(e.key) := e]
  {
    var n := |es| - 1;
    DistinctPrefix(es, config);
    if i == n {
      assert es[i := e][..n] == es[..n];
    } else {
      RepOverwrite(es[..n], i, e, config);
      RepHas(es[..n], config, i);
      assert es[i := e][..n] == es[..n][i := e];
    }
  }

  lemma {:induction false} RepReplace<K(!new), C, V>(es: seq<Entry<K, V>>, i: nat, e: Entry<K, V>, config: Config<K, C>)
    requires Distinct(es, config) && i < |es| && config.Class(e.key) !in Rep(es, config)
    ensures Rep(es[i := e], config) == (Rep(es, config) - {config.Class(es[i].key)})[config.Class(e.key) := e]
    ensures Distinct(es[i := e], config)
  {
    var n := |es| - 1;
    DistinctPrefix(es, config);
    RepHas(es, config, i);
    if i == n {
      assert es[i := e][..n] == es[..n];
    } else {
      RepReplace(es[..n], i, e, config);
      RepHas(es[..n], config, i);
      assert es[i := e][..n] == es[..n][i := e];
    }
  }

  /** Swap with last: the last entry fills the gap and the sequence shrinks by one. */
  lemma RepSwapRemove<K(!new), C, V>(es: seq<Entry<K, V>>, i: nat, config: Config<K, C>)
    requires Distinct(es, config) && i < |es|
    ensures var es' := es[i := es[|es| - 1]][..|es| - 1];
            Distinct(es', config) && Rep(es', config) == Rep(es, config) - {config.Class(es[i].key)}
  {
    var n := |es| - 1;
    DistinctPrefix(es, config);
    RepHas(es, config, i);
    if i == n {
      assert es[i := es[n]][..n] == es[..n];
    } else {
      RepReplace(es[..n], i, es[n], config);
      RepHas(es[..n], config, i);
      assert es[i := es[n]][..n] == es[..n][i := es[n]];
    }
  }

  /** Among the entries other than the removed one, only the last has the key of the last. */
  lemma OnlyCopy<K(!new), C, V>(es: seq<Entry<K, V>>, config: Config<K, C>, i: nat, stored: nat)
    requires Distinct(es, config) && i < |es| - 1 && 0 < stored <= |es| && stored != i + 1
    requires !Differs(stored, es[i := es[|es| - 1]], config, es[|es| - 1].key)
    ensures stored == |es|
  {
    RepHas(es, config, stored - 1);
    RepHas(es, config, |es| - 1);
    DistinctPrefix(es, config);
    if stored < |es| { RepHas(es[..|es| - 1], config, stored - 1); }
  }

  lemma RemoveWellFormed<K(!new), C, V>(es: seq<Entry<K, V>>, capacity: nat, config: Config<K, C>, i: nat)
    requires WellFormed(es, capacity, config) && i < |es|
    ensures WellFormed(SwapRemoved(es, i), capacity, config)
    ensures Rep(SwapRemoved(es, i), config) == Rep(es, config) - {config.Class(es[i].key)}
  {
    RepSwapRemove(es, i, config);
  }

  /** `es` with the last entry in place of entry `i`. */
  ghost function SwapRemoved<T>(es: seq<T>, i: nat): (es': seq<T>)
    requires i < |es|
    ensures |es'| == |es| - 1
  {
    es[i := es[|es| - 1]][..|es| - 1]
  }

  /** Entry `index` is now a copy of the last one: its bucket gets the smaller number. */
  method Repoint<K(!new), C, V>(es: seq<Entry<K, V>>, copied: seq<Entry<K, V>>, capacity: nat, config: Config<K, C>,
                                index: nat, buckets: array<nat>)
    requires config.Lawful() && WellFormed(es, capacity, config) && index + 1 < |es| && buckets.Length > 0
    requires copied == es[index := es[|es| - 1]] && Indexes(buckets[..], copied, config, |es|, index + 1)
    modifies buckets
    ensures Indexes(buckets[..], copied[..|es| - 1], config, |es| - 1, 0)
  {
    var last := |es| - 1;
    var moved := FindBucket(copied, config, copied[index].key, buckets, |es|, index + 1);
    assert copied[last] == es[last];
    assert moved.Just?;
    if moved.Just? {
      OnlyCopy(es, config, index, buckets[moved.value]);
      ghost var b: seq<nat> := buckets[..];
      IndexRenames(b, copied, config, index, moved.value);
      buckets[moved.value] := index + 1;
      assert buckets[..] == b[moved.value := index + 1];
    }
  }

  /** Moves the last entry into the gap at `index` and gives it that number. */
  method FillGap<K(!new), C, V>(es: seq<Entry<K, V>>, capacity: nat, config: Config<K, C>, index: nat,
      buckets: array<nat>)
      returns (es': seq<Entry<K, V>>)
    requires config.Lawful() && WellFormed(es, capacity, config) && index < |es| && buckets.Length > 0
    requires Indexes(buckets[..], es, config, |es|, index + 1)
    modifies buckets
    ensures es' == SwapRemoved(es, index)
    ensures Indexes(buckets[..], es', config, |es'|, 0)
  {
    var last := |es| - 1;
    if index == last {
      IndexShrinks(buckets[..], es, config);
      assert es[index := es[last]] == es;
      return es[..last];
    }
    IndexCopies(buckets[..], es, config, index);
    es' := es[index := es[last]];
    Repoint(es, es', capacity, config, index, buckets);
    es' := es'[..last];
  }

  /** Unindexes the entry in `bucket` and closes its gap. */
  method RemoveAt<K(!new), C, V>(es: seq<Entry<K, V>>, capacity: nat, config: Config<K, C>, bucket: nat,
                                 buckets: array<nat>, ghost key: K)
      returns (es': seq<Entry<K, V>>)
    requires config.Lawful() && Sound(es, capacity, buckets[..], config)
    requires bucket < buckets.Length && 0 < buckets[bucket] <= |es|
    requires config.Class(es[buckets[bucket] - 1].key) == config.Class(key)
    modifies buckets
    ensures es' == SwapRemoved(es, old(buckets[bucket]) - 1) && Sound(es', capacity, buckets[..], config)
    ensures Rep(es', config) == Rep(es, config) - {config.Class(key)}
  {
    var index := buckets[bucket] - 1;
    RemoveWellFormed(es, capacity, config, index);
    EraseBucket(es, config, bucket, buckets);
    es' := FillGap(es, capacity, config, index, buckets);
  }

  // ---------- Growth ----------

  /** The least `size` times a power of two that reaches `required`. */
  function LeastTable(size: nat, required: nat): (table: nat)
    requires size > 0
    ensures required <= table && size <= table && (table > size ==> table < 2 * required)
    decreases if size < required then required - size else 0
  {
    if size >= required then size else LeastTable(2 * size, required)
  }

  /** The number of buckets for this many entries, less than three quarters of them used. */
  function TableFor(entryCount: nat): (table: nat)
    ensures 4 * entryCount < 3 * table
  {
    LeastTable(8, entryCount + entryCount / 3 + 1)
  }

  /** Whether growing to `required` entries overflows no size. */
  predicate Fits(current: nat, required: nat, entrySize: nat)
    requires current <= SIZE_MAX && required <= SIZE_MAX && entrySize > 0
  {
    var grown := NextCapacity(current, required);
    && grown <= (SIZE_MAX - HEADER_SIZE) / entrySize
    && grown <= SIZE_MAX / 4 && TableFor(grown) <= SIZE_MAX / WORD_SIZE
  }

  /** Twice the entries, or eight more, need be storable, and that is enough for most sizes. */
  lemma {:induction false} PlainBoundsFit(current: nat, required: nat, entrySize: nat)
    requires current < required && entrySize > 0
    requires 8 + 2 * required <= SIZE_MAX / 32 && (8 + 2 * required) * entrySize <= SIZE_MAX - HEADER_SIZE
    ensures Fits(current, required, entrySize)
  {
    var grown := NextCapacity(current, required);
    MulMono(grown, 8 + 2 * required, entrySize);
    QuotientTest(grown, entrySize, SIZE_MAX - HEADER_SIZE);
  }

  /** What cannot be stored does not fit. */
  lemma {:induction false} FitsStores(current: nat, required: nat, entrySize: nat)
    requires current <= SIZE_MAX && required <= SIZE_MAX && entrySize > 0 && Fits(current, required, entrySize)
    ensures required * entrySize <= SIZE_MAX - HEADER_SIZE && required <= SIZE_MAX / 4
  {
    QuotientTest(required, entrySize, SIZE_MAX - HEADER_SIZE);
  }

  /** What asking for room for `required` entries answers. */
  function ReserveStatus(current: nat, required: nat, entrySize: nat, allocOk: bool): Status
    requires current <= SIZE_MAX && entrySize > 0
  {
    if required <= current then Ok
    else if required > SIZE_MAX || !Fits(current, required, entrySize) then Overflow
    else if allocOk then Ok
    else OutOfMemory
  }

  /** Room for `required` entries: at least 8, doubling, clipped when doubling overflows. */
  method EntryCapacity(current: nat, required: nat) returns (capacity: nat)
    requires current <= SIZE_MAX && required <= SIZE_MAX
    ensures capacity == NextCapacity(current, required)
  {
    capacity := if current < 8 then 8 else current;
    while capacity < required
      invariant 0 < capacity <= SIZE_MAX && Doubled(capacity, required) == NextCapacity(current, required)
      decreases required - capacity
    {
      if capacity > SIZE_MAX / 2 { return required; }
      capacity := 2 * capacity;
    }
  }

  /** A power of two that keeps the table less than three quarters full. */
  method BucketCapacity(requiredEntries: nat) returns (status: Status, capacity: nat)
    requires requiredEntries <= SIZE_MAX
    ensures status.Ok? <==> requiredEntries <= SIZE_MAX / 4
    ensures !status.Ok? ==> status == Overflow
    ensures status.Ok? ==> capacity == if requiredEntries == 0 then 0 else TableFor(requiredEntries)
    ensures status.Ok? && requiredEntries > 0 ==>
              IsPow2(capacity) && 8 <= capacity <= SIZE_MAX && 4 * requiredEntries < 3 * capacity
  {
    if requiredEntries == 0 { return Ok, 0; }
    if requiredEntries > SIZE_MAX / 4 { return Overflow, 0; }
    var required := requiredEntries + requiredEntries / 3 + 1;
    capacity := 8;
    ghost var k: nat := 3;
    while capacity < required
      invariant capacity == Pow2(k) && 8 <= capacity <= SIZE_MAX
      invariant LeastTable(capacity, required) == TableFor(requiredEntries)
      invariant capacity > 8 ==> capacity / 2 < required
      decreases required - capacity
    {
      if capacity > SIZE_MAX / 2 {
        status := Overflow;
        return;
      }
      capacity, k := 2 * capacity, k + 1;
    }
    return Ok, capacity;
  }

  class HashMap<K(!new), C, V> {
    const config: Config<K, C>
    const entrySize: nat
    var entries: seq<Entry<K, V>>
    var capacity: nat
    var buckets: array<nat>
    ghost var clones: nat  // keys cloned so far
    ghost var drops: nat   // keys dropped so far

    ghost predicate Valid()
      reads this, buckets
    {
      Core() && Balanced(0)
    }

    /** Each stored key was cloned once and not yet dropped; `owed` more are in flight. */
    ghost predicate Balanced(owed: nat)
      reads this
    {
      if config.owning then clones == drops + |entries| + owed else clones == drops == 0
    }

    ghost predicate Core()
      reads `entries, `capacity, `buckets, buckets
    {
      && config.Lawful() && entrySize > 0
      && Sound(entries, capacity, buckets[..], config)
    }

    /** The finite map this object stands for. */
    ghost function Model(): map<C, Entry<K, V>>
      reads `entries
    {
      Rep(entries, config)
    }

    constructor (config: Config<K, C>, entrySize: nat)
      requires config.Lawful() && entrySize > 0
      ensures Valid() && Model() == map[] && capacity == 0
      ensures this.config == config && this.entrySize == entrySize && entries == [] && fresh(buckets)
    {
      this.config, this.entrySize := config, entrySize;
      entries, capacity := [], 0;
      buckets := new nat[0];
      clones, drops := 0, 0;
    }

    /** The bucket of the entry with an equal key, if there is one. */
    method Locate(key: K) returns (bucket: Maybe<nat>)
      requires Core() && config.KeyValid(key)
      ensures bucket.Just? <==> config.Class(key) in Model()
      ensures bucket.Just? ==>
                && bucket.value < buckets.Length && 0 < buckets[bucket.value] <= |entries|
                && config.Class(entries[buckets[bucket.value] - 1].key) == config.Class(key)
                && Model()[config.Class(key)] == entries[buckets[bucket.value] - 1]
    {
      bucket := FindBucket(entries, config, key, buckets, |entries|, 0);
      if bucket.Just? {
        RepHas(entries, config, buckets[bucket.value] - 1);
      } else if config.Class(key) in Model() {
        var i := RepFrom(entries, config, config.Class(key));
        assert false;
      }
    }

    method Find(key: K) returns (found: Maybe<Entry<K, V>>)
      requires Valid()
      ensures var c := config.Class(key);
              found == if config.KeyValid(key) && c in Model() then Just(Model()[c]) else Nothing
    {
      if !config.KeyValid(key) { return Nothing; }
      var bucket := Locate(key);
      if bucket.Nothing? { return Nothing; }
      return Just(entries[buckets[bucket.value] - 1]);
    }

    /** Makes room for `required` entries; a failure changes nothing. */
    method Reserve(required: nat, allocOk: bool) returns (status: Status)
      requires Core() && required <= SIZE_MAX
      modifies `capacity, `buckets
      ensures Core() && (buckets == old(buckets) || fresh(buckets))
      ensures status == ReserveStatus(old(capacity), required, entrySize, allocOk)
      ensures status.Ok? ==> required <= capacity
      ensures capacity == if status.Ok? && required > old(capacity) then NextCapacity(old(capacity), required)
                          else old(capacity)
      ensures !status.Ok? || required <= old(capacity) ==> buckets == old(buckets)
    {
      if required <= capacity { return Ok; }
      var newCapacity := EntryCapacity(capacity, required);
      if newCapacity > (SIZE_MAX - HEADER_SIZE) / entrySize { return Overflow; }
      var grown, tableSize := BucketCapacity(newCapacity);
      if !grown.Ok? { return grown; }
      if tableSize > SIZE_MAX / WORD_SIZE { return Overflow; }
      if !allocOk { return OutOfMemory; }
      var table := new nat[tableSize](_ => 0);
      FillBuckets(entries, config, table);
      capacity, buckets := newCapacity, table;
      return Ok;
    }

    /** Copies or clones the entry argument when it may move or must be owned. */
    method PrepareEntry(key: K, env: SetEnv) returns (status: Status, stored: K)
      requires Core() && config.KeyValid(key)
      modifies this`clones
      ensures Core()
      ensures status.Ok? <==> PrepareSucceeds(env)
      ensures !status.Ok? ==> status == if env.copyOk then env.cloneStatus else OutOfMemory
      ensures status.Ok? ==> stored == if config.owning then config.Clone(key) else key
      ensures clones == old(clones) + if status.Ok? && config.owning then 1 else 0
    {
      stored := key;
      if !config.owning && !env.aliased { return Ok, key; }
      if !env.copyOk { return OutOfMemory, key; }
      if config.owning {
        if !env.cloneStatus.Ok? { return env.cloneStatus, key; }
        stored := config.Clone(key);
        clones := clones + 1;
      }
      return Ok, stored;
    }

    predicate PrepareSucceeds(env: SetEnv) {
      && (config.owning || env.aliased ==> env.copyOk)
      && (config.owning ==> env.cloneStatus.Ok?)
    }

    /** Drops the key of entry `index` and moves the prepared entry `e` in its place. */
    method Overwrite(index: nat, e: Entry<K, V>)
      requires Core() && Balanced(if config.owning then 1 else 0)
      requires index < |entries| && config.KeyValid(e.key) && config.Class(e.key) == config.Class(entries[index].key)
      modifies this`entries, this`drops
      ensures Valid() && entries == old(entries)[index := e]
      ensures Model() == old(Model())[config.Class(e.key) := e]
    {
      RepOverwrite(entries, index, e, config);
      assert config.Equal(e.key, entries[index].key);
      IndexOverwrites(buckets[..], entries, config, index, e);
      if config.owning { drops := drops + 1; }
      entries := entries[index := e];
    }

    /** Puts the prepared entry `e`, whose key is new, after the others. */
    method Append(e: Entry<K, V>)
      requires Core() && Balanced(if config.owning then 1 else 0)
      requires |entries| < capacity && config.KeyValid(e.key) && config.Class(e.key) !in Model()
      modifies this`entries, buckets
      ensures Valid() && entries == old(entries) + [e]
      ensures Model() == old(Model())[config.Class(e.key) := e]
    {
      RepAppend(entries, capacity, e, config);
      IndexAppends(buckets[..], entries, config, e);
      entries := entries + [e];
      InsertBucket(entries, config, |entries| - 1, buckets);
    }

    /** Reserves room for the prepared entry `e` and appends it, or drops it again.
        (The size can never be SIZE_MAX: a table that large is refused.) */
    method Insert(e: Entry<K, V>, growOk: bool) returns (status: Status)
      requires Core() && Balanced(if config.owning then 1 else 0)
      requires config.KeyValid(e.key) && config.Class(e.key) !in Model()
      modifies this, buckets
      ensures Valid() && (buckets == old(buckets) || fresh(buckets))
      ensures status.Ok? ==> entries == old(entries) + [e] && Model() == old(Model())[config.Class(e.key) := e]
      ensures !status.Ok? ==> entries == old(entries) && capacity == old(capacity)
      ensures !status.Ok? ==> buckets == old(buckets) && buckets[..] == old(buckets[..])
      ensures status == ReserveStatus(old(capacity), |old(entries)| + 1, entrySize, growOk)
      ensures old(capacity) <= capacity
    {
      status := Reserve(|entries| + 1, growOk);
      if status.Ok? {
        Append(e);
      } else if config.owning {
        drops := drops + 1;
      }
    }

    /** Puts the prepared entry `e` in the place of the one in `bucket`, or after the others. */
    method Place(bucket: Maybe<nat>, e: Entry<K, V>, growOk: bool) returns (status: Status)
      requires Core() && Balanced(if config.owning then 1 else 0) && config.KeyValid(e.key)
      requires bucket.Just? <==> config.Class(e.key) in Model()
      requires bucket.Just? ==>
                 && bucket.value < buckets.Length && 0 < buckets[bucket.value] <= |entries|
                 && config.Class(entries[buckets[bucket.value] - 1].key) == config.Class(e.key)
      modifies this, buckets
      ensures Valid() && (buckets == old(buckets) || fresh(buckets))
      ensures status == if bucket.Just? then Ok
                        else ReserveStatus(old(capacity), |old(entries)| + 1, entrySize, growOk)
      ensures status.Ok? ==> Model() == old(Model())[config.Class(e.key) := e]
      ensures status.Ok? ==> |entries| == |old(entries)| + if bucket.Just? then 0 else 1
      ensures !status.Ok? ==> entries == old(entries) && capacity == old(capacity)
      ensures !status.Ok? ==> buckets == old(buckets) && buckets[..] == old(buckets[..])
      ensures old(capacity) <= capacity
    {
      if bucket.Just? {
        Overwrite(buckets[bucket.value] - 1, e);
        status := Ok;
      } else {
        status := Insert(e, growOk);
      }
    }

    /** Adds or replaces the entry of a key. Every failure leaves the map as it was. */
    method Set(key: K, value: V, env: SetEnv) returns (status: Status)
      requires Valid()
      modifies this, buckets
      ensures Valid() && (buckets == old(buckets) || fresh(buckets))
      ensures status.Ok? ==>
                var stored := if config.owning then config.Clone(key) else key;
                Model() == old(Model())[config.Class(key) := Entry(stored, value)]
      ensures status.Ok? && config.Class(key) !in old(Model()) ==> |entries| == |old(entries)| + 1
      ensures status.Ok? && config.Class(key) in old(Model()) ==> |entries| == |old(entries)|
      ensures !status.Ok? ==> entries == old(entries) && capacity == old(capacity)
      ensures !status.Ok? ==> buckets == old(buckets) && buckets[..] == old(buckets[..])
      ensures status == if !config.KeyValid(key) || env.partialAlias then InvalidArgument
                        else if !PrepareSucceeds(env) then (if env.copyOk then env.cloneStatus else OutOfMemory)
                        else if config.Class(key) in old(Model()) then Ok
                        else ReserveStatus(old(capacity), |old(entries)| + 1, entrySize, env.growOk)
      ensures old(capacity) <= capacity
    {
      if !config.KeyValid(key) { return InvalidArgument; }
      var bucket := Locate(key);
      if env.partialAlias { return InvalidArgument; }
      var stored;
      status, stored := PrepareEntry(key, env);
      if !status.Ok? { return; }
      status := Place(bucket, Entry(stored, value), env.growOk);
    }

    /** Removes the entry with an equal key; the last entry moves into its place. */
    method Remove(key: K) returns (removed: bool)
      requires Valid()
      modifies `entries, `drops, buckets
      ensures Valid()
      ensures removed <==> config.KeyValid(key) && config.Class(key) in old(Model())
      ensures removed ==> Model() == old(Model()) - {config.Class(key)} && |entries| == |old(entries)| - 1
      ensures !removed ==> entries == old(entries) && drops == old(drops) && buckets[..] == old(buckets[..])
    {
      if !config.KeyValid(key) { return false; }
      var bucket := Locate(key);
      if bucket.Nothing? { return false; }
      Discard(bucket.value, key);
      return true;
    }

    /** Takes out the entry in `bucket`, whose key equals `key`. */
    method Discard(bucket: nat, ghost key: K)
      requires Valid() && bucket < buckets.Length && 0 < buckets[bucket] <= |entries|
      requires config.Class(entries[buckets[bucket] - 1].key) == config.Class(key)
      modifies `entries, `drops, buckets
      ensures Valid() && Model() == old(Model()) - {config.Class(key)} && |entries| == |old(entries)| - 1
    {
      var rest := RemoveAt(entries, capacity, config, bucket, buckets, key);
      if config.owning { drops := drops + 1; }
      entries := rest;
    }

    /** Drops every key and empties the buckets; the capacity stays. */
    method Clear()
      requires Valid()
      modifies `entries, `drops, buckets
      ensures Valid() && entries == [] && Model() == map[]
    {
      if config.owning {
        for i := 0 to |entries|
          invariant entries == old(entries) && drops == old(drops) + i
        {
          drops := drops + 1;
        }
      }
      entries := [];
      for p := 0 to buckets.Length
        invariant entries == [] && forall q :: 0 <= q < p ==> buckets[q] == 0
        invariant drops == old(drops) + if config.owning then |old(entries)| else 0
      {
        buckets[p] := 0;
      }
      if capacity > 0 { EmptyIndexes(buckets[..], entries, config); }
    }
  }
}
