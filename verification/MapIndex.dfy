// The bucket operations of src/map.c: probing, inserting, backward-shift deletion and
// rebuilding, on the array that indexes the densely stored entries.

module MapIndex {
  import opened Common
  import opened Bits
  import opened ProbeIndex

  datatype Entry<+K, +V> = Entry(key: K, value: V)

  /** The callbacks of a map. `owning` maps keep a clone of each key and drop it later.
      `classOf` is for specifications only: what two equal keys have in common. */
  datatype Config<!K(!new), !C> = Config(
    hash: K -> nat,
    equal: (K, K) -> bool,
    keyValid: K -> bool,
    owning: bool,
    clone: K -> K,
    classOf: K -> C)
  {
    function Hash(k: K): nat { hash(k) }
    predicate Equal(a: K, b: K) { equal(a, b) }
    predicate KeyValid(k: K) { keyValid(k) }
    function Clone(k: K): K { clone(k) }
    function Class(k: K): C { classOf(k) }

    /** What the map demands of its callbacks: on valid keys `equal` is an equivalence,
        that is, it compares their classes, and equal keys hash alike. */
    ghost predicate Lawful() {
      && (forall a, b {:trigger Equal(a, b)} :: KeyValid(a) && KeyValid(b) ==>
            (Equal(a, b) <==> Class(a) == Class(b)) && (Equal(a, b) ==> Hash(a) == Hash(b)))
      && (forall k {:trigger Clone(k)} :: owning && KeyValid(k) ==> KeyValid(Clone(k)) && Class(Clone(k)) == Class(k))
    }
  }

  /** Where an entry with hash `h` wants to be among `cap` buckets: the remainder by `cap`. */
  function Home(h: nat, cap: nat): (p: nat)
    ensures cap > 0 ==> p < cap
  {
    if cap == 0 then 0 else if h < cap then h else Home(h - cap, cap)
  }

  lemma {:induction false} HomeIsMod(h: nat, cap: nat)
    requires cap > 0
    ensures Home(h, cap) == h % cap
  {
    if h < cap {
      ModUnique(h, 0, h, cap);
    } else {
      HomeIsMod(h - cap, cap);
      var q, r := (h - cap) / cap, (h - cap) % cap;
      assert (q + 1) * cap == q * cap + cap;
      ModUnique(h, q + 1, r, cap);
    }
  }

  ghost predicate Homes<K(!new), C, V>(ideals: seq<nat>, es: seq<Entry<K, V>>, config: Config<K, C>, cap: nat) {
    |ideals| == |es| && forall i :: 0 <= i < |es| ==> ideals[i] == Home(config.Hash(es[i].key), cap)
  }

  /** `h & (cap - 1)`: the table size is a power of two, so the mask is the remainder. */
  method BucketFor(h: nat, cap: nat) returns (p: nat)
    requires IsPow2(cap)
    ensures p == Home(h, cap) && p < cap
  {
    ghost var k: nat :| cap == Pow2(k);
    AndMaskIsMod(h, k);
    HomeIsMod(h, cap);
    p := And(h, cap - 1);
  }

  method NextBucket(p: nat, cap: nat) returns (n: nat)
    requires IsPow2(cap) && p < cap
    ensures n == Succ(p, cap)
  {
    n := BucketFor(p + 1, cap);
    HomeIsMod(p + 1, cap);
    if p + 1 == cap { ModUnique(p + 1, 1, 0, cap); } else { ModUnique(p + 1, 0, p + 1, cap); }
  }

  /** The source subtracts unsigned words, which wrap around, before it masks. */
  method ProbeDistance(ideal: nat, actual: nat, cap: nat) returns (d: nat)
    requires IsPow2(cap) && cap <= SIZE_MAX && ideal < cap && actual < cap
    ensures d == Dist(ideal, actual, cap)
  {
    var difference: nat := if actual >= ideal then actual - ideal else actual - ideal + (SIZE_MAX + 1);
    d := BucketFor(difference, cap);
    HomeIsMod(difference, cap);
    if actual >= ideal {
      ModUnique(difference, 0, difference, cap);
    } else {
      var q := DividesWord(cap);
      DistributeMinusOne(q, cap);
      ModUnique(difference, q - 1, Dist(ideal, actual, cap), cap);
    }
  }

  lemma DistributeMinusOne(q: int, cap: int)
    ensures (q - 1) * cap == q * cap - cap
  {
  }

  // ---------- The index operations, on the bucket array of a map ----------

  /** A table of `cap` buckets that is never full of its `n` entries. */
  ghost predicate Roomy(cap: nat, n: nat) {
    IsPow2(cap) && 1 < cap <= SIZE_MAX && n < cap
  }

  /** The buckets index the first `n` entries except the one numbered `gone` (0: none),
      with stored number `s` in bucket `pos[s]` and entry `i` at home in `ideals[i]`. */
  ghost predicate IndexesVia<K(!new), C, V>(b: seq<nat>, es: seq<Entry<K, V>>, config: Config<K, C>, n: nat, gone: nat,
                                            pos: map<nat, nat>, ideals: seq<nat>) {
    && n <= |es| && |pos| <= n && Roomy(|b|, |pos|)
    && Homes(ideals, es, config, |b|)
    && Indexed(b, pos, ideals)
    && (forall s :: s in pos <==> 0 < s <= n && s != gone)
  }

  ghost predicate Indexes<K(!new), C, V>(b: seq<nat>, es: seq<Entry<K, V>>, config: Config<K, C>, n: nat, gone: nat) {
    exists pos, ideals :: IndexesVia(b, es, config, n, gone, pos, ideals)
  }

  /** Stored number `stored` is that of an entry with another key. */
  ghost predicate Differs<K(!new), C, V>(stored: nat, es: seq<Entry<K, V>>, config: Config<K, C>, key: K) {
    0 < stored <= |es| && config.Class(es[stored - 1].key) != config.Class(key)
  }

  lemma EqualMeansSameClass<K(!new), C, V>(es: seq<Entry<K, V>>, config: Config<K, C>, stored: nat, key: K)
    requires config.Lawful() && config.KeyValid(key) && 0 < stored <= |es| && config.KeyValid(es[stored - 1].key)
    ensures config.Equal(es[stored - 1].key, key) <==> !Differs(stored, es, config, key)
  {
  }

  lemma ScanGrows<K(!new), C, V>(b: seq<nat>, es: seq<Entry<K, V>>, config: Config<K, C>, key: K, start: nat,
      bucket: nat)
    requires start < |b| && bucket < |b| && Differs(b[bucket], es, config, key)
    requires forall q :: 0 <= q < |b| && Before(start, q, bucket, |b|) ==> Differs(b[q], es, config, key)
    ensures forall q :: 0 <= q < |b| && Before(start, q, Succ(bucket, |b|), |b|) ==> Differs(b[q], es, config, key)
  {
  }

  /** A probe that saw only other keys before an empty bucket: the key is absent. */
  lemma ProbeMisses<K(!new), C, V>(b: seq<nat>, es: seq<Entry<K, V>>, config: Config<K, C>, n: nat, gone: nat,
                                   pos: map<nat, nat>, ideals: seq<nat>, key: K, bucket: nat)
    requires config.Lawful() && config.KeyValid(key) && forall i :: 0 <= i < |es| ==> config.KeyValid(es[i].key)
    requires IndexesVia(b, es, config, n, gone, pos, ideals) && bucket < |b| && b[bucket] == 0
    requires forall q :: 0 <= q < |b| && Before(Home(config.Hash(key), |b|), q, bucket, |b|) ==>
               Differs(b[q], es, config, key)
    ensures forall i :: 0 <= i < n && i + 1 != gone ==> config.Class(es[i].key) != config.Class(key)
  {
    forall i | 0 <= i < n && i + 1 != gone ensures config.Class(es[i].key) != config.Class(key) {
      ProbePasses(b, pos, ideals, i + 1, bucket);
      assert b[pos[i + 1]] == i + 1;
      assert ideals[i] == Home(config.Hash(es[i].key), |b|);
      assert config.Equal(es[i].key, key) <==> config.Class(es[i].key) == config.Class(key);
    }
  }

  /** Probes for `key`; every probe ends at an empty bucket. */
  method FindBucket<K(!new), C, V>(es: seq<Entry<K, V>>, config: Config<K, C>, key: K, buckets: array<nat>,
                                   ghost n: nat, ghost gone: nat) returns (found: Maybe<nat>)
    requires config.Lawful() && config.KeyValid(key)
    requires if buckets.Length == 0 then n == 0 else Indexes(buckets[..], es, config, n, gone)
    requires forall i :: 0 <= i < |es| ==> config.KeyValid(es[i].key)
    ensures found.Just? ==>
              && found.value < buckets.Length && 0 < buckets[found.value] <= n <= |es| && buckets[found.value] != gone
              && !Differs(buckets[found.value], es, config, key)
    ensures found.Nothing? ==>
              forall i :: 0 <= i < n <= |es| && i + 1 != gone ==> config.Class(es[i].key) != config.Class(key)
  {
    var cap := buckets.Length;
    if cap == 0 { return Nothing; }
    var bucket: nat := BucketFor(config.Hash(key), cap);
    ghost var b: seq<nat> := buckets[..];
    ghost var pos: map<nat, nat>, ideals: seq<nat> :| IndexesVia(b, es, config, n, gone, pos, ideals);
    ghost var start := bucket;
    ghost var free := EmptyBucket(b, pos, ideals);
    while true
      invariant bucket < cap && Dist(start, bucket, cap) <= Dist(start, free, cap)
      invariant forall q :: 0 <= q < cap && Before(start, q, bucket, cap) ==> Differs(b[q], es, config, key)
      decreases Dist(bucket, free, cap)
    {
      var stored := buckets[bucket];
      assert stored == b[bucket];
      if stored == 0 {
        ProbeMisses(b, es, config, n, gone, pos, ideals, key, bucket);
        return Nothing;
      }
      assert stored in pos;
      EqualMeansSameClass(es, config, stored, key);
      if config.Equal(es[stored - 1].key, key) {
        assert !Differs(stored, es, config, key);
        return Just(bucket);
      }
      ScanGrows(b, es, config, key, start, bucket);
      SuccAdvances(start, bucket, free, cap);
      bucket := NextBucket(bucket, cap);
    }
  }

  /** The first free bucket from the home of the next entry. */
  method FreeBucket<K(!new), C, V>(es: seq<Entry<K, V>>, config: Config<K, C>, index: nat, buckets: array<nat>)
      returns (bucket: nat)
    requires Indexes(buckets[..], es, config, index, 0) && index < |es| && index + 1 < buckets.Length
    ensures bucket < buckets.Length && buckets[bucket] == 0
    ensures FullUntil(buckets[..], Home(config.Hash(es[index].key), buckets.Length), bucket)
  {
    var cap := buckets.Length;
    bucket := BucketFor(config.Hash(es[index].key), cap);
    ghost var b: seq<nat> := buckets[..];
    ghost var pos: map<nat, nat>, ideals: seq<nat> :| IndexesVia(b, es, config, index, 0, pos, ideals);
    ghost var start := bucket;
    ghost var free := EmptyBucket(b, pos, ideals);
    while buckets[bucket] != 0
      invariant bucket < cap && Dist(start, bucket, cap) <= Dist(start, free, cap)
      invariant FullUntil(b, start, bucket)
      decreases Dist(bucket, free, cap)
    {
      assert b[bucket] != 0;
      FullGrows(b, start, bucket);
      SuccAdvances(start, bucket, free, cap);
      bucket := NextBucket(bucket, cap);
    }
  }

  /** Stores the next entry in the first free bucket from its home. */
  method InsertBucket<K(!new), C, V>(es: seq<Entry<K, V>>, config: Config<K, C>, index: nat, buckets: array<nat>)
    requires Indexes(buckets[..], es, config, index, 0) && index < |es| && index + 1 < buckets.Length
    modifies buckets
    ensures Indexes(buckets[..], es, config, index + 1, 0)
  {
    var bucket := FreeBucket(es, config, index, buckets);
    ghost var b: seq<nat> := buckets[..];
    IndexGains(b, es, config, index, bucket);
    buckets[bucket] := index + 1;
    assert buckets[..] == b[bucket := index + 1];
  }

  lemma IndexGains<K(!new), C, V>(b: seq<nat>, es: seq<Entry<K, V>>, config: Config<K, C>, n: nat, bucket: nat)
    requires Indexes(b, es, config, n, 0) && n < |es| && n + 1 < |b|
    requires bucket < |b| && b[bucket] == 0
    requires FullUntil(b, Home(config.Hash(es[n].key), |b|), bucket)
    ensures Indexes(b[bucket := n + 1], es, config, n + 1, 0)
  {
    var pos: map<nat, nat>, ideals: seq<nat> :| IndexesVia(b, es, config, n, 0, pos, ideals);
    GainsVia(b, es, config, n, bucket, pos, ideals);
  }

  lemma GainsVia<K(!new), C, V>(b: seq<nat>, es: seq<Entry<K, V>>, config: Config<K, C>, n: nat, bucket: nat,
                                pos: map<nat, nat>, ideals: seq<nat>)
    requires IndexesVia(b, es, config, n, 0, pos, ideals) && n < |es| && n + 1 < |b|
    requires bucket < |b| && b[bucket] == 0
    requires FullUntil(b, Home(config.Hash(es[n].key), |b|), bucket)
    ensures IndexesVia(b[bucket := n + 1], es, config, n + 1, 0, pos[n + 1 := bucket], ideals)
  {
    assert ideals[n] == Home(config.Hash(es[n].key), |b|);
    Placed(b, pos, ideals, n + 1, bucket);
  }

  /** Whether the entry with hash `h` in bucket `next` is found only across `hole`. */
  method HoleOnPath(h: nat, hole: nat, next: nat, cap: nat) returns (onPath: bool)
    requires Roomy(cap, 0) && hole < cap && next < cap
    ensures onPath <==> Before(Home(h, cap), hole, next, cap)
  {
    var ideal := BucketFor(h, cap);
    var toNext := ProbeDistance(ideal, next, cap);
    var toHole := ProbeDistance(ideal, hole, cap);
    return toNext > toHole;
  }

  /** The shift loop is at `next`, with a stale number in `hole`; `free` ends the scan. */
  ghost predicate Scan(b: seq<nat>, pos: map<nat, nat>, ideals: seq<nat>, hole: nat, next: nat, free: nat) {
    && hole < |b| && free < |b| && hole != free && b[free] == 0
    && Holed(b[hole := 0], pos, ideals, hole, next)
    && Dist(hole, next, |b|) <= Dist(hole, free, |b|)
  }

  lemma ScanStep(b: seq<nat>, pos: map<nat, nat>, ideals: seq<nat>, hole: nat, next: nat, free: nat, stored: nat)
    requires Scan(b, pos, ideals, hole, next, free) && b[next] == stored != 0
    ensures stored in pos && 0 < stored <= |ideals| && ideals[stored - 1] < |b|
    ensures pos[stored := hole].Keys == pos.Keys
    ensures Dist(Succ(next, |b|), free, |b|) < Dist(next, free, |b|)
    ensures Before(ideals[stored - 1], hole, next, |b|) ==>
              Scan(b[hole := stored], pos[stored := hole], ideals, next, Succ(next, |b|), free)
    ensures !Before(ideals[stored - 1], hole, next, |b|) ==> Scan(b, pos, ideals, hole, Succ(next, |b|), free)
  {
    var b0 := b[hole := 0];
    assert b0[next] == stored;
    SuccAdvances(hole, next, free, |b|);
    if Before(ideals[stored - 1], hole, next, |b|) {
      HoleMoves(b0, pos, ideals, hole, next);
      assert b0[hole := stored][next := 0] == b[hole := stored][next := 0];
    } else {
      HoleStays(b0, pos, ideals, hole, next);
    }
  }

  /** Backward-shift deletion: later entries of the cluster move up so that lookups
      never cross a hole. */
  method EraseBucket<K(!new), C, V>(es: seq<Entry<K, V>>, config: Config<K, C>, bucket: nat, buckets: array<nat>)
    requires Indexes(buckets[..], es, config, |es|, 0) && |es| < buckets.Length
    requires bucket < buckets.Length && buckets[bucket] != 0
    modifies buckets
    ensures Indexes(buckets[..], es, config, |es|, old(buckets[bucket]))
  {
    var cap := buckets.Length;
    ghost var b: seq<nat> := buckets[..];
    ghost var pos: map<nat, nat>, ideals: seq<nat> :| IndexesVia(b, es, config, |es|, 0, pos, ideals);
    ghost var free := EmptyBucket(b, pos, ideals);
    ghost var gone := b[bucket];
    HoleOpens(b, pos, ideals, bucket);
    ghost var live := pos.Keys - {gone};
    pos := pos - {gone};
    var hole: nat := bucket;
    var next: nat := NextBucket(hole, cap);
    while buckets[next] != 0
      invariant next < cap && hole < cap && b == buckets[..]
      invariant Scan(b, pos, ideals, hole, next, free)
      invariant pos.Keys == live
      decreases Dist(next, free, cap)
    {
      var stored := buckets[next];
      assert b[next] == stored;
      ScanStep(b, pos, ideals, hole, next, free, stored);
      assert ideals[stored - 1] == Home(config.Hash(es[stored - 1].key), cap);
      var movesUp := HoleOnPath(config.Hash(es[stored - 1].key), hole, next, cap);
      if movesUp {
        buckets[hole] := stored;
        b := b[hole := stored];
        pos := pos[stored := hole];
        hole := next;
      }
      next := NextBucket(next, cap);
    }
    IndexLoses(b[hole := 0], es, config, gone, pos, ideals, hole, next);
    buckets[hole] := 0;
    assert buckets[..] == b[hole := 0];
  }

  lemma IndexLoses<K(!new), C, V>(b: seq<nat>, es: seq<Entry<K, V>>, config: Config<K, C>, gone: nat,
                                  pos: map<nat, nat>, ideals: seq<nat>, hole: nat, next: nat)
    requires Holed(b, pos, ideals, hole, next) && b[next] == 0
    requires Homes(ideals, es, config, |b|) && Roomy(|b|, 0)
    requires |es| < |b| && forall s :: s in pos <==> 0 < s <= |es| && s != gone
    ensures Indexes(b, es, config, |es|, gone)
  {
    HoleCloses(b, pos, ideals, hole, next);
    CountUpto(pos, |es|);
    assert IndexesVia(b, es, config, |es|, gone, pos, ideals);
  }

  /** Indexes all entries afresh in a zeroed table. */
  method FillBuckets<K(!new), C, V>(es: seq<Entry<K, V>>, config: Config<K, C>, buckets: array<nat>)
    requires Roomy(buckets.Length, |es|)
    requires forall p :: 0 <= p < buckets.Length ==> buckets[p] == 0
    modifies buckets
    ensures Indexes(buckets[..], es, config, |es|, 0)
  {
    EmptyIndexes(buckets[..], es, config);
    for i := 0 to |es|
      invariant Indexes(buckets[..], es, config, i, 0)
    {
      InsertBucket(es, config, i, buckets);
    }
  }

  lemma EmptyIndexes<K(!new), C, V>(b: seq<nat>, es: seq<Entry<K, V>>, config: Config<K, C>)
    requires Roomy(|b|, |es|) && forall p :: 0 <= p < |b| ==> b[p] == 0
    ensures Indexes(b, es, config, 0, 0)
  {
    var ideals := HomesOf(es, config, |b|);
    assert IndexesVia(b, es, config, 0, 0, map[], ideals);
  }

  ghost function HomesOf<K(!new), C, V>(es: seq<Entry<K, V>>, config: Config<K, C>, cap: nat): (ideals: seq<nat>)
    ensures Homes(ideals, es, config, cap)
  {
    seq<nat>(|es|, i requires 0 <= i < |es| => Home(config.Hash(es[i].key), cap))
  }

  lemma IndexAppends<K(!new), C, V>(b: seq<nat>, es: seq<Entry<K, V>>, config: Config<K, C>, e: Entry<K, V>)
    requires Indexes(b, es, config, |es|, 0)
    ensures Indexes(b, es + [e], config, |es|, 0)
  {
    var pos: map<nat, nat>, ideals: seq<nat> :| IndexesVia(b, es, config, |es|, 0, pos, ideals);
    var ideals' := ideals + [Home(config.Hash(e.key), |b|)];
    SameHomes(b, pos, ideals, ideals');
    assert IndexesVia(b, es + [e], config, |es|, 0, pos, ideals');
  }

  lemma IndexOverwrites<K(!new), C, V>(b: seq<nat>, es: seq<Entry<K, V>>, config: Config<K, C>, i: nat, e: Entry<K, V>)
    requires Indexes(b, es, config, |es|, 0) && i < |es| && config.Hash(e.key) == config.Hash(es[i].key)
    ensures Indexes(b, es[i := e], config, |es|, 0)
  {
    var pos: map<nat, nat>, ideals: seq<nat> :| IndexesVia(b, es, config, |es|, 0, pos, ideals);
    assert IndexesVia(b, es[i := e], config, |es|, 0, pos, ideals);
  }

  /** Removing the last entry once its number is gone. */
  lemma IndexShrinks<K(!new), C, V>(b: seq<nat>, es: seq<Entry<K, V>>, config: Config<K, C>)
    requires |es| > 0 && Indexes(b, es, config, |es|, |es|)
    ensures Indexes(b, es[..|es| - 1], config, |es| - 1, 0)
  {
    var n := |es| - 1;
    var pos: map<nat, nat>, ideals: seq<nat> :| IndexesVia(b, es, config, |es|, |es|, pos, ideals);
    CountUpto(pos, n);
    SameHomes(b, pos, ideals, ideals[..n]);
    assert IndexesVia(b, es[..n], config, n, 0, pos, ideals[..n]);
  }

  /** The last entry is copied over a removed one whose number is gone. */
  lemma IndexCopies<K(!new), C, V>(b: seq<nat>, es: seq<Entry<K, V>>, config: Config<K, C>, i: nat)
    requires i < |es| && Indexes(b, es, config, |es|, i + 1)
    ensures Indexes(b, es[i := es[|es| - 1]], config, |es|, i + 1)
  {
    var pos: map<nat, nat>, ideals: seq<nat> :| IndexesVia(b, es, config, |es|, i + 1, pos, ideals);
    var ideals' := ideals[i := ideals[|es| - 1]];
    SameHomes(b, pos, ideals, ideals');
    assert IndexesVia(b, es[i := es[|es| - 1]], config, |es|, i + 1, pos, ideals');
  }

  /** The copied last entry, found in `bucket`, takes over the free number. */
  lemma IndexRenames<K(!new), C, V>(b: seq<nat>, es: seq<Entry<K, V>>, config: Config<K, C>, i: nat, bucket: nat)
    requires i + 1 < |es| && es[i] == es[|es| - 1] && Indexes(b, es, config, |es|, i + 1)
    requires bucket < |b| && b[bucket] == |es|
    ensures Indexes(b[bucket := i + 1], es[..|es| - 1], config, |es| - 1, 0)
  {
    var pos: map<nat, nat>, ideals: seq<nat> :| IndexesVia(b, es, config, |es|, i + 1, pos, ideals);
    var pos': map<nat, nat> := (pos - {|es|})[i + 1 := bucket];
    assert |pos - {|es|}| == |pos| - 1;
    RenameVia(b, es, config, i, bucket, pos, ideals, pos');
  }

  lemma RenameVia<K(!new), C, V>(b: seq<nat>, es: seq<Entry<K, V>>, config: Config<K, C>, i: nat, bucket: nat,
                                 pos: map<nat, nat>, ideals: seq<nat>, pos': map<nat, nat>)
    requires i + 1 < |es| && es[i] == es[|es| - 1] && IndexesVia(b, es, config, |es|, i + 1, pos, ideals)
    requires bucket < |b| && b[bucket] == |es|
    requires pos' == (pos - {|es|})[i + 1 := bucket] && |pos'| == |pos|
    ensures IndexesVia(b[bucket := i + 1], es[..|es| - 1], config, |es| - 1, 0, pos', ideals[..|es| - 1])
  {
    var n := |es| - 1;
    assert ideals[i] == ideals[n];
    Renamed(b, pos, ideals, n + 1, bucket, i + 1, ideals[..n]);
    CountUpto(pos', n);
  }
}
