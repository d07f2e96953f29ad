// The set algebra of src/set.c on top of the hash map: a set is a map whose entries
// are bare keys, and a null handle is the empty set.

module HashSets {
  import opened Common
  import opened Bits
  import opened ProbeIndex
  import opened MapIndex
  import opened HashMaps
  import opened Growth

  type SetHandle<K(!new), C> = HashMap?<K, C, ()>

  datatype Operation = Union | Intersection | Difference | SymmetricDifference

  ghost predicate Good<K(!new), C>(s: SetHandle<K, C>)
    reads s, if s == null then {} else {s.buckets}
  {
    s != null ==> s.Valid()
  }

  /** The mathematical set: the classes of the stored keys. */
  ghost function Keys<K(!new), C>(s: SetHandle<K, C>): set<C>
    reads s
  {
    if s == null then {} else s.Model().Keys
  }

  /** What the operation promises to build. */
  ghost function Combined<C>(a: set<C>, b: set<C>, operation: Operation): set<C> {
    match operation
    case Union => a + b
    case Intersection => a * b
    case Difference => a - b
    case SymmetricDifference => (a - b) + (b - a)
  }

  /** Both sets hash, compare and validate keys alike, as the operations demand. */
  ghost predicate SameKeys<K(!new), C>(a: Config<K, C>, b: Config<K, C>) {
    && a.classOf == b.classOf
    && forall k {:trigger a.KeyValid(k)} {:trigger b.KeyValid(k)} :: a.KeyValid(k) == b.KeyValid(k)
  }

  ghost predicate Compatible<K(!new), C>(a: SetHandle<K, C>, b: SetHandle<K, C>) {
    a != null && b != null ==> SameKeys(a.config, b.config)
  }

  function Size<K(!new), C>(s: SetHandle<K, C>): nat
    reads s
  {
    if s == null then 0 else |s.entries|
  }

  function LayoutValid<K(!new), C>(s: SetHandle<K, C>, elementSize: nat): bool {
    s == null || (elementSize != 0 && s.entrySize == elementSize)
  }

  lemma SizeIsCount<K(!new), C>(s: SetHandle<K, C>)
    requires Good(s)
    ensures Size(s) == |Keys(s)|
  {
  }

  method Contains<K(!new), C>(s: SetHandle<K, C>, key: K) returns (found: bool)
    requires Good(s)
    ensures found <==> s != null && s.config.KeyValid(key) && s.config.Class(key) in Keys(s)
  {
    if s == null { return false; }
    var entry := s.Find(key);
    return entry.Just?;
  }

  /** The operands may be compared and combined: same element size, and cloning policies that
      agree when both sets hold keys and own them. */
  predicate MayCombine<K(!new), C>(a: SetHandle<K, C>, b: SetHandle<K, C>, elementSize: nat, clonesAgree: bool)
    reads a, b
  {
    && elementSize != 0 && LayoutValid(a, elementSize) && LayoutValid(b, elementSize)
    && (a != null && b != null && Size(a) != 0 && Size(b) != 0 && a.config.owning && b.config.owning ==> clonesAgree)
  }

  /** Whether every key of `a` is in `b`; the size test answers most calls at once. */
  method IsSubset<K(!new), C>(a: SetHandle<K, C>, b: SetHandle<K, C>, elementSize: nat, clonesAgree: bool)
      returns (subset: bool)
    requires Good(a) && Good(b) && Compatible(a, b)
    ensures subset <==> MayCombine(a, b, elementSize, clonesAgree) && Keys(a) <= Keys(b)
  {
    SizeIsCount(a);
    SizeIsCount(b);
    if !MayCombine(a, b, elementSize, clonesAgree) { return false; }
    if Size(a) > Size(b) {
      if Keys(a) <= Keys(b) { Subset(Keys(a), Keys(b)); }
      return false;
    }
    if a == null { return true; }
    ghost var passed: set<C>, others := {}, Keys(b);
    for i := 0 to |a.entries|
      invariant passed == Rep(a.entries[..i], a.config).Keys && passed <= others
    {
      PrefixGrows(a.entries, a.config, i);
      RepHas(a.entries, a.config, i);
      var found := Contains(b, a.entries[i].key);
      if !found { return false; }
      passed := passed + {a.config.Class(a.entries[i].key)};
    }
    assert a.entries[..|a.entries|] == a.entries;
    return true;
  }

  lemma PrefixGrows<K(!new), C>(es: seq<Entry<K, ()>>, config: Config<K, C>, i: nat)
    requires i < |es|
    ensures Rep(es[..i + 1], config).Keys == Rep(es[..i], config).Keys + {config.Class(es[i].key)}
  {
    assert es[..i + 1][..i] == es[..i];
  }

  method IsEqual<K(!new), C>(a: SetHandle<K, C>, b: SetHandle<K, C>, elementSize: nat, clonesAgree: bool)
      returns (equal: bool)
    requires Good(a) && Good(b) && Compatible(a, b)
    ensures equal <==> MayCombine(a, b, elementSize, clonesAgree) && Keys(a) == Keys(b)
  {
    SizeIsCount(a);
    SizeIsCount(b);
    if Size(a) != Size(b) { return false; }
    equal := IsSubset(a, b, elementSize, clonesAgree);
    if equal { SubsetOfSameSize(Keys(a), Keys(b)); }
  }

  lemma SubsetOfSameSize<T>(a: set<T>, b: set<T>)
    requires a <= b
    ensures |a| == |b| <==> a == b
    ensures |a| < |b| <==> a < b
  {
    assert b == a + (b - a);
    if a != b { assert exists x :: x in b - a; }
  }

  method IsProperSubset<K(!new), C>(a: SetHandle<K, C>, b: SetHandle<K, C>, elementSize: nat, clonesAgree: bool)
      returns (proper: bool)
    requires Good(a) && Good(b) && Compatible(a, b)
    ensures proper <==> MayCombine(a, b, elementSize, clonesAgree) && Keys(a) < Keys(b)
  {
    SizeIsCount(a);
    SizeIsCount(b);
    if Size(a) >= Size(b) {
      if Keys(a) < Keys(b) { SubsetOfSameSize(Keys(a), Keys(b)); }
      return false;
    }
    proper := IsSubset(a, b, elementSize, clonesAgree);
    if proper { SubsetOfSameSize(Keys(a), Keys(b)); }
  }

  /** Whether the sets share no key: the keys of the smaller are looked up in the larger. */
  method IsDisjoint<K(!new), C>(a: SetHandle<K, C>, b: SetHandle<K, C>, elementSize: nat, clonesAgree: bool)
      returns (disjoint: bool)
    requires Good(a) && Good(b) && Compatible(a, b)
    ensures disjoint <==> MayCombine(a, b, elementSize, clonesAgree) && Keys(a) !! Keys(b)
  {
    if !MayCombine(a, b, elementSize, clonesAgree) { return false; }
    var small, large := if Size(a) <= Size(b) then a else b, if Size(a) <= Size(b) then b else a;
    disjoint := SharesNone(small, large);
  }

  method SharesNone<K(!new), C>(small: SetHandle<K, C>, large: SetHandle<K, C>) returns (none: bool)
    requires Good(small) && Good(large) && Compatible(small, large)
    ensures none <==> Keys(small) !! Keys(large)
  {
    if small == null { return true; }
    for i := 0 to |small.entries|
      invariant Rep(small.entries[..i], small.config).Keys !! Keys(large)
    {
      PrefixGrows(small.entries, small.config, i);
      var found := Contains(large, small.entries[i].key);
      if found {
        RepHas(small.entries, small.config, i);
        return false;
      }
    }
    assert small.entries[..|small.entries|] == small.entries;
    return true;
  }

  /** The policy of the result: an owning operand's if there is one, else that of a
      non-empty operand, else of any operand. */
  function ResultConfig<K(!new), C>(a: SetHandle<K, C>, b: SetHandle<K, C>, bytes: Config<K, C>): Config<K, C>
    reads a, b
  {
    if a != null && a.config.owning then a.config
    else if b != null && b.config.owning then b.config
    else if Size(a) != 0 then a.config
    else if Size(b) != 0 then b.config
    else if a != null then a.config
    else if b != null then b.config
    else bytes
  }

  /** Adds one key of an operand if it was chosen; `ok` says whether the allocations this
      needs succeed. The capacity reserved for `target` always suffices. */
  method AddChosen<K(!new), C>(result: HashMap<K, C, ()>, key: K, chosen: bool, ok: bool, ghost target: set<C>)
      returns (status: Status)
    requires result.Valid() && result.config.KeyValid(key)
    requires Keys(result) <= target && |target| <= result.capacity
    requires chosen ==> result.config.Class(key) in target
    modifies result, result.buckets
    ensures result.Valid() && (result.buckets == old(result.buckets) || fresh(result.buckets))
    ensures status.Ok? ==> Keys(result) == old(Keys(result)) + if chosen then {result.config.Class(key)} else {}
    ensures ok ==> status.Ok?
    ensures status.Ok? || status == OutOfMemory
    ensures result.capacity >= old(result.capacity)
  {
    if !chosen { return Ok; }
    RoomForOne(result, target, result.config.Class(key));
    status := result.Set(key, (), SetEnv(false, false, ok, if ok then Ok else OutOfMemory, ok));
  }

  /** Which keys of one operand a pass over it adds. */
  datatype Selection = All | InOther | NotInOther

  ghost function Selected<C>(source: set<C>, other: set<C>, which: Selection): set<C> {
    match which
    case All => source
    case InOther => source * other
    case NotInOther => source - other
  }

  method IsSelected<K(!new), C>(other: SetHandle<K, C>, key: K, which: Selection, ghost c: C) returns (chosen: bool)
    requires Good(other)
    requires other != null ==> other.config.KeyValid(key) && other.config.Class(key) == c
    ensures chosen == IsChosen(c, Keys(other), which)
  {
    if which == All { return true; }
    var inOther := Contains(other, key);
    return inOther == (which == InOther);
  }

  /** The selected keys of the first `i` entries of an operand. */
  ghost function Part<K(!new), C>(es: seq<Entry<K, ()>>, i: nat, config: Config<K, C>, others: set<C>,
                                  which: Selection): set<C>
    requires i <= |es|
  {
    Selected(Rep(es[..i], config).Keys, others, which)
  }

  /** The result may be filled from these operands: it is apart from them and reads keys
      as they do, and its capacity suffices for `target`. */
  ghost predicate CanFill<K(!new), C>(result: HashMap<K, C, ()>, es: seq<Entry<K, ()>>, other: SetHandle<K, C>,
      target: set<C>)
    reads result, if other == null then {} else {other}
  {
    && WellFormed(es, |es|, result.config) && |target| <= result.capacity
    && (other != null ==> result != other && result.buckets != other.buckets && SameKeys(result.config, other.config))
  }

  ghost predicate IsChosen<C>(c: C, others: set<C>, which: Selection) {
    which == All || (c in others) == (which == InOther)
  }

  ghost function OneChosen<C>(c: C, others: set<C>, which: Selection): set<C> {
    if IsChosen(c, others, which) then {c} else {}
  }

  /** The result's keys after the first `i` keys of an operand were considered. */
  ghost function Passed<K(!new), C>(es: seq<Entry<K, ()>>, i: nat, config: Config<K, C>, others: set<C>,
                                    which: Selection, before: set<C>): set<C>
    requires i <= |es|
    decreases i
  {
    if i == 0 then before
    else
      var c := config.Class(es[i - 1].key);
      Passed(es, i - 1, config, others, which, before) + OneChosen(c, others, which)
  }

  lemma PrefixStep<K(!new), C>(es: seq<Entry<K, ()>>, config: Config<K, C>, i: nat)
    requires 0 < i <= |es|
    ensures Rep(es[..i], config).Keys == Rep(es[..i - 1], config).Keys + {config.Class(es[i - 1].key)}
  {
    PrefixGrows(es, config, i - 1);
  }

  lemma {:induction false} PassedIs<K(!new), C>(es: seq<Entry<K, ()>>, i: nat, config: Config<K, C>, others: set<C>,
                                                which: Selection, before: set<C>)
    requires Distinct(es, config) && i <= |es|
    ensures Passed(es, i, config, others, which, before) == before + Part(es, i, config, others, which)
    decreases i
  {
    if i == 0 {
      assert es[..0] == [];
    } else {
      PassedIs(es, i - 1, config, others, which, before);
      var keys, all, c := Rep(es[..i - 1], config).Keys, Rep(es[..i], config).Keys, config.Class(es[i - 1].key);
      PrefixStep(es, config, i);
      SelectedStep(keys, all, c, others, which, before);
    }
  }

  lemma {:induction false} PassedGrows<K(!new), C>(es: seq<Entry<K, ()>>, i: nat, n: nat, config: Config<K, C>,
                                                   others: set<C>, which: Selection, before: set<C>)
    requires i <= n <= |es|
    ensures Passed(es, i, config, others, which, before) <= Passed(es, n, config, others, which, before)
    decreases n
  {
    if i < n { PassedGrows(es, i, n - 1, config, others, which, before); }
  }

  lemma PassedStep<K(!new), C>(es: seq<Entry<K, ()>>, i: nat, next: nat, config: Config<K, C>, others: set<C>,
                               which: Selection, before: set<C>, target: set<C>)
    requires i < |es| && next == i + 1 && Passed(es, |es|, config, others, which, before) <= target
    ensures Passed(es, i, config, others, which, before) <= target
    ensures var c := config.Class(es[i].key);
            && Passed(es, next, config, others, which, before)
                 == Passed(es, i, config, others, which, before) + (if IsChosen(c, others, which) then {c} else {})
            && (IsChosen(c, others, which) ==> c in target)
  {
    PassedGrows(es, i, |es|, config, others, which, before);
    PassedGrows(es, next, |es|, config, others, which, before);
  }

  /** Considers key `i` of an operand. */
  method AddNext<K(!new), C>(result: HashMap<K, C, ()>, es: seq<Entry<K, ()>>, i: nat, ghost next: nat,
      other: SetHandle<K, C>, which: Selection, ok: bool,
      ghost others: set<C>, ghost before: set<C>, ghost target: set<C>)
      returns (status: Status)
    requires result.Valid() && Good(other) && CanFill(result, es, other, target)
    requires i < |es| && next == i + 1 && others == Keys(other)
    requires Keys(result) == Passed(es, i, result.config, others, which, before)
    requires Passed(es, |es|, result.config, others, which, before) <= target
    modifies result, result.buckets
    ensures result.Valid() && (result.buckets == old(result.buckets) || fresh(result.buckets))
    ensures status.Ok? ==> Keys(result) == Passed(es, next, result.config, others, which, before)
    ensures ok ==> status.Ok?
    ensures status.Ok? || status == OutOfMemory
    ensures CanFill(result, es, other, target) && Good(other) && Keys(other) == others
    ensures result.capacity >= old(result.capacity)
  {
    var key := es[i].key;
    ghost var c := result.config.Class(key);
    var chosen := IsSelected(other, key, which, c);
    PassedStep(es, i, next, result.config, others, which, before, target);
    status := AddChosen(result, key, chosen, ok, target);
  }

  /** One pass over the keys `es` of an operand, adding the selected ones. The first
      `budget` additions find the memory they need. */
  method AddSelected<K(!new), C>(result: HashMap<K, C, ()>, es: seq<Entry<K, ()>>, other: SetHandle<K, C>,
      which: Selection, budget: nat, ghost others: set<C>, ghost before: set<C>, ghost target: set<C>)
      returns (status: Status)
    requires result.Valid() && Good(other) && CanFill(result, es, other, target)
    requires others == Keys(other) && before == Keys(result)
    requires Passed(es, |es|, result.config, others, which, before) <= target
    modifies result, result.buckets
    ensures result.Valid() && (result.buckets == old(result.buckets) || fresh(result.buckets))
    ensures status.Ok? ==> Keys(result) == Passed(es, |es|, result.config, others, which, before)
    ensures |es| <= budget ==> status.Ok?
    ensures status.Ok? || status == OutOfMemory
    ensures result.capacity >= old(result.capacity)
  {
    var i: nat := 0;
    while i < |es|
      invariant i <= |es| && result.Valid() && (result.buckets == old(result.buckets) || fresh(result.buckets))
      invariant CanFill(result, es, other, target) && Good(other) && Keys(other) == others
      invariant result.capacity >= old(result.capacity)
      invariant Keys(result) == Passed(es, i, result.config, others, which, before)
    {
      var ok, next: nat := i < budget, i + 1;
      status := AddNext(result, es, i, next, other, which, ok, others, before, target);
      if !status.Ok? { return; }
      i := next;
    }
    assert i == |es|;
    return Ok;
  }

  lemma SelectedStep<C>(keys: set<C>, all: set<C>, c: C, others: set<C>, which: Selection, before: set<C>)
    requires all == keys + {c}
    ensures before + Selected(all, others, which)
         == before + Selected(keys, others, which) + OneChosen(c, others, which)
  {
  }

  lemma RoomForOne<K(!new), C>(result: HashMap<K, C, ()>, target: set<C>, c: C)
    requires result.Valid() && Keys(result) <= target && c in target && |target| <= result.capacity
    ensures c in Keys(result) || |result.entries| < result.capacity
  {
    SizeIsCount(result);
    if c !in Keys(result) { Subset(Keys(result) + {c}, target); }
  }

  lemma {:induction false} RepSameKeys<K(!new), C, V>(es: seq<Entry<K, V>>, a: Config<K, C>, b: Config<K, C>)
    requires SameKeys(a, b)
    ensures Rep(es, a) == Rep(es, b)
  {
    if |es| > 0 {
      RepSameKeys(es[..|es| - 1], a, b);
      assert a.Class(es[|es| - 1].key) == b.Class(es[|es| - 1].key);
    }
  }

  function EntriesOf<K(!new), C>(s: SetHandle<K, C>): seq<Entry<K, ()>>
    reads s
  {
    if s == null then [] else s.entries
  }

  /** The capacity reserved before the result is built. */
  function NeededCapacity(a: nat, b: nat, operation: Operation): nat {
    match operation
    case Union => a + b
    case SymmetricDifference => a + b
    case Intersection => if a < b then a else b
    case Difference => a
  }

  lemma CombinedFits<C>(a: set<C>, b: set<C>, operation: Operation)
    ensures var n := |Combined(a, b, operation)|;
            && n <= |a| + |b|
            && (operation == Intersection ==> n <= |a| && n <= |b|)
            && (operation == Difference ==> n <= |a|)
  {
    Subset(a * b, a);
    Subset(a * b, b);
    Subset(a - b, a);
    Subset(b - a, b);
    assert |a + b| == |a| + |b - a| by { assert a + b == a + (b - a); }
    assert |(a - b) + (b - a)| == |a - b| + |b - a|;
  }

  function Range(lo: int, n: nat): (r: set<int>)
    ensures |r| == n && forall i :: i in r <==> lo <= i < lo + n
  {
    if n == 0 then {} else Range(lo, n - 1) + {lo + n - 1}
  }

  /** No smaller capacity would do for all operands of these sizes. */
  lemma {:induction false} NeededIsReached(a: nat, b: nat, operation: Operation) returns (x: set<int>, y: set<int>)
    ensures |x| == a && |y| == b && |Combined(x, y, operation)| == NeededCapacity(a, b, operation)
  {
    x, y := Range(0, a), Range(if operation == Intersection then 0 else a, b);
    if operation == Intersection {
      assert x * y == if a < b then x else y;
    } else {
      assert x !! y && |x + y| == a + b;
      assert x - y == x && y - x == y;
    }
  }

  /** `built` is a set of its own that reads keys as the operand `s` does. */
  ghost predicate Apart<K(!new), C>(built: HashMap<K, C, ()>, s: SetHandle<K, C>)
    reads built, if s == null then {} else {s}
  {
    s != null ==> built != s && built.buckets != s.buckets && SameKeys(s.config, built.config)
  }

  lemma ResultReadsKeys<K(!new), C>(a: SetHandle<K, C>, b: SetHandle<K, C>, bytes: Config<K, C>)
    requires Good(a) && Good(b) && Compatible(a, b) && bytes.Lawful()
    ensures ResultConfig(a, b, bytes).Lawful()
    ensures a != null ==> SameKeys(a.config, ResultConfig(a, b, bytes))
    ensures b != null ==> SameKeys(b.config, ResultConfig(a, b, bytes))
    ensures a != null || b != null ==>
              (ResultConfig(a, b, bytes).owning <==> (a != null && a.config.owning) || (b != null && b.config.owning))
    ensures a == b == null ==> ResultConfig(a, b, bytes) == bytes
  {
  }

  lemma ReservedSuffices<K(!new), C>(a: SetHandle<K, C>, b: SetHandle<K, C>, operation: Operation, capacity: nat)
    requires Good(a) && Good(b) && capacity == NeededCapacity(Size(a), Size(b), operation)
    ensures |Combined(Keys(a), Keys(b), operation)| <= capacity
  {
    SizeIsCount(a);
    SizeIsCount(b);
    CombinedFits(Keys(a), Keys(b), operation);
  }

  /** What preparing a result answers: the system may refuse the new set, or its capacity. */
  function PrepareStatus(needed: nat, elementSize: nat, initOk: bool, reserveOk: bool): Status
    requires elementSize != 0
  {
    if initOk then ReserveStatus(0, needed, elementSize, reserveOk) else OutOfMemory
  }

  /** Results whose operands have fewer than about 2^58 keys together, storable twice over, are
      prepared whenever there is memory: no size overflows. */
  lemma {:induction false} SmallResultsArePrepared(a: nat, b: nat, elementSize: nat, operation: Operation)
    requires elementSize != 0 && 8 + 2 * (a + b) <= SIZE_MAX / 32
    requires (8 + 2 * (a + b)) * elementSize <= SIZE_MAX - HEADER_SIZE
    ensures PrepareStatus(NeededCapacity(a, b, operation), elementSize, true, true).Ok?
  {
    var needed := NeededCapacity(a, b, operation);
    MulMono(8 + 2 * needed, 8 + 2 * (a + b), elementSize);
    if needed > 0 { PlainBoundsFit(0, needed, elementSize); }
  }

  /** The new set an operation starts from, with its capacity reserved. */
  method Prepare<K(!new), C>(a: SetHandle<K, C>, b: SetHandle<K, C>, elementSize: nat, operation: Operation,
      bytes: Config<K, C>, initOk: bool, reserveOk: bool) returns (status: Status, result: HashMap<K, C, ()>)
    requires Good(a) && Good(b) && Compatible(a, b) && bytes.Lawful() && elementSize != 0
    ensures fresh(result) && fresh(result.buckets) && result.Valid() && Keys(result) == {}
    ensures Apart(result, a) && Apart(result, b)
    ensures status.Ok? ==> NeededCapacity(Size(a), Size(b), operation) <= result.capacity
    ensures result.config == ResultConfig(a, b, bytes) && result.entrySize == elementSize
    ensures status == PrepareStatus(NeededCapacity(Size(a), Size(b), operation), elementSize, initOk, reserveOk)
  {
    ResultReadsKeys(a, b, bytes);
    result := new HashMap(ResultConfig(a, b, bytes), elementSize);
    status := if initOk then Ok else OutOfMemory;
    if initOk { status := ReserveResult(result, NeededCapacity(Size(a), Size(b), operation), reserveOk); }
  }

  /** Room in an empty result for `needed` keys. */
  method ReserveResult<K(!new), C>(result: HashMap<K, C, ()>, needed: nat, reserveOk: bool) returns (status: Status)
    requires result.Valid() && result.entries == [] && result.capacity == 0
    modifies result`capacity, result`buckets
    ensures result.Valid() && (result.buckets == old(result.buckets) || fresh(result.buckets))
    ensures status == ReserveStatus(0, needed, result.entrySize, reserveOk)
    ensures status.Ok? ==> needed <= result.capacity
  {
    if needed > SIZE_MAX { return Overflow; }
    if needed == 0 { return Ok; }
    status := result.Reserve(needed, reserveOk);
  }

  /** Each operation is a pass over `a` and, if symmetric, the same pass over `b`. */
  function SelectionOf(operation: Operation): Selection {
    match operation
    case Union => All
    case Intersection => InOther
    case Difference => NotInOther
    case SymmetricDifference => NotInOther
  }

  predicate IsSymmetric(operation: Operation) {
    operation == Union || operation == SymmetricDifference
  }

  lemma TwoPasses<C>(a: set<C>, b: set<C>, operation: Operation, k0: set<C>, k1: set<C>)
    requires k0 == {} && k1 == k0 + Selected(a, b, SelectionOf(operation))
    ensures k1 <= Combined(a, b, operation)
    ensures !IsSymmetric(operation) ==> k1 == Combined(a, b, operation)
    ensures IsSymmetric(operation) ==> k1 + Selected(b, a, SelectionOf(operation)) == Combined(a, b, operation)
  {
  }

  lemma OperandKeys<K(!new), C>(s: SetHandle<K, C>, config: Config<K, C>)
    requires Good(s) && (s != null ==> SameKeys(s.config, config))
    ensures WellFormed(EntriesOf(s), |EntriesOf(s)|, config)
    ensures EntriesOf(s)[..|EntriesOf(s)|] == EntriesOf(s) && Rep(EntriesOf(s), config).Keys == Keys(s)
  {
    assert EntriesOf(s)[..|EntriesOf(s)|] == EntriesOf(s);
    if s != null {
      RepSameKeys(s.entries, s.config, config);
      assert forall i :: 0 <= i < |s.entries| ==> config.KeyValid(s.entries[i].key) by {
        assert forall i :: 0 <= i < |s.entries| ==> s.config.KeyValid(s.entries[i].key);
      }
    }
  }

  /** A result that cannot be prepared is not built; one that can is, if the additions find
      the memory they need. */
  predicate BuildAnswers(status: Status, prepared: Status, enough: bool) {
    if !prepared.Ok? then status == prepared
    else (status.Ok? || status == OutOfMemory) && (enough ==> status.Ok?)
  }

  /** Union, intersection, difference and symmetric difference: the result holds exactly
      the mathematical set, each key once, and the operands are not touched. */
  method Operate<K(!new), C(==)>(a: SetHandle<K, C>, b: SetHandle<K, C>, elementSize: nat, operation: Operation,
      bytes: Config<K, C>, clonesAgree: bool, initOk: bool, reserveOk: bool, budget: nat)
      returns (status: Status, result: SetHandle<K, C>)
    requires Good(a) && Good(b) && Compatible(a, b) && bytes.Lawful()
    ensures status.Ok? <==> result != null
    ensures result != null ==> fresh(result) && result.Valid() && Keys(result) == Combined(Keys(a), Keys(b), operation)
    ensures result != null ==> |result.entries| == |Combined(Keys(a), Keys(b), operation)|
    ensures result != null ==> result.config == ResultConfig(a, b, bytes) && result.entrySize == elementSize
    ensures status == InvalidArgument <==> !MayCombine(a, b, elementSize, clonesAgree)
    ensures MayCombine(a, b, elementSize, clonesAgree) ==>
              BuildAnswers(status,
                           PrepareStatus(NeededCapacity(Size(a), Size(b), operation), elementSize, initOk, reserveOk),
                           Size(a) <= budget && Size(b) <= budget)
  {
    if !MayCombine(a, b, elementSize, clonesAgree) { return InvalidArgument, null; }
    var built: HashMap<K, C, ()>;
    status, built := Build(a, b, elementSize, operation, bytes, initOk, reserveOk, budget);
    result := if status.Ok? then built else null;
  }

  method Build<K(!new), C(==)>(a: SetHandle<K, C>, b: SetHandle<K, C>, elementSize: nat, operation: Operation,
      bytes: Config<K, C>, initOk: bool, reserveOk: bool, budget: nat)
      returns (status: Status, built: HashMap<K, C, ()>)
    requires Good(a) && Good(b) && Compatible(a, b) && bytes.Lawful() && elementSize != 0
    ensures fresh(built) && built.Valid()
    ensures built.config == ResultConfig(a, b, bytes) && built.entrySize == elementSize
    ensures status.Ok? ==> Keys(built) == Combined(Keys(a), Keys(b), operation)
    ensures |built.entries| == |Keys(built)|
    ensures BuildAnswers(status,
                           PrepareStatus(NeededCapacity(Size(a), Size(b), operation), elementSize, initOk, reserveOk),
                           Size(a) <= budget && Size(b) <= budget)
  {
    status, built := Prepare(a, b, elementSize, operation, bytes, initOk, reserveOk);
    if status.Ok? {
      status := FillReserved(a, b, built, operation, budget);
    }
  }

  /** Fills a result whose capacity was reserved for the operation. */
  method FillReserved<K(!new), C(==)>(a: SetHandle<K, C>, b: SetHandle<K, C>, built: HashMap<K, C, ()>,
      operation: Operation, budget: nat) returns (status: Status)
    requires Good(a) && Good(b) && built.Valid() && Apart(built, a) && Apart(built, b)
    requires Keys(built) == {} && NeededCapacity(Size(a), Size(b), operation) <= built.capacity
    modifies built, built.buckets
    ensures built.Valid() && |built.entries| == |Keys(built)|
    ensures status.Ok? ==> Keys(built) == old(Combined(Keys(a), Keys(b), operation))
    ensures status.Ok? || status == OutOfMemory
    ensures old(Size(a) <= budget && Size(b) <= budget) ==> status.Ok?
  {
    ReservedSuffices(a, b, operation, NeededCapacity(Size(a), Size(b), operation));
    status := Fill(a, b, built, operation, budget);
    SizeIsCount(built);
  }

  method Pass<K(!new), C(==)>(s: SetHandle<K, C>, other: SetHandle<K, C>, built: HashMap<K, C, ()>, which: Selection,
      budget: nat, ghost target: set<C>) returns (status: Status)
    requires Good(s) && Good(other) && built.Valid() && Apart(built, s) && Apart(built, other)
    requires Keys(built) + Selected(Keys(s), Keys(other), which) <= target && |target| <= built.capacity
    modifies built, built.buckets
    ensures built.Valid() && (built.buckets == old(built.buckets) || fresh(built.buckets))
    ensures status.Ok? ==> Keys(built) == old(Keys(built)) + Selected(Keys(s), Keys(other), which)
    ensures Size(s) <= budget ==> status.Ok?
    ensures status.Ok? || status == OutOfMemory
    ensures built.capacity >= old(built.capacity)
    ensures Good(s) && Good(other) && Apart(built, s) && Apart(built, other)
    ensures Keys(s) == old(Keys(s)) && Keys(other) == old(Keys(other))
  {
    OperandKeys(s, built.config);
    ghost var es, others, before := EntriesOf(s), Keys(other), Keys(built);
    PassedIs(es, |es|, built.config, others, which, before);
    status := AddSelected(built, EntriesOf(s), other, which, budget, others, before, target);
  }

  method Fill<K(!new), C(==)>(a: SetHandle<K, C>, b: SetHandle<K, C>, built: HashMap<K, C, ()>, operation: Operation,
      budget: nat) returns (status: Status)
    requires Good(a) && Good(b) && built.Valid() && Apart(built, a) && Apart(built, b)
    requires Keys(built) == {} && |Combined(Keys(a), Keys(b), operation)| <= built.capacity
    modifies built, built.buckets
    ensures built.Valid()
    ensures status.Ok? ==> Keys(built) == Combined(Keys(a), Keys(b), operation)
    ensures Size(a) <= budget && Size(b) <= budget ==> status.Ok?
    ensures status.Ok? || status == OutOfMemory
  {
    ghost var ka, kb, k0 := Keys(a), Keys(b), Keys(built);
    ghost var target, k1 := Combined(ka, kb, operation), k0 + Selected(ka, kb, SelectionOf(operation));
    TwoPasses(ka, kb, operation, k0, k1);
    status := Pass(a, b, built, SelectionOf(operation), budget, target);
    if status.Ok? { status := SecondPass(a, b, built, operation, budget, k1); }
  }

  /** The other operand's turn, if the operation has one. */
  method SecondPass<K(!new), C(==)>(a: SetHandle<K, C>, b: SetHandle<K, C>, built: HashMap<K, C, ()>,
      operation: Operation, budget: nat, ghost k1: set<C>) returns (status: Status)
    requires Good(a) && Good(b) && built.Valid() && Apart(built, a) && Apart(built, b)
    requires Keys(built) == k1 && |Combined(Keys(a), Keys(b), operation)| <= built.capacity
    requires var all := Combined(Keys(a), Keys(b), operation);
             if IsSymmetric(operation) then k1 + Selected(Keys(b), Keys(a), SelectionOf(operation)) == all
             else k1 == all
    modifies built, built.buckets
    ensures built.Valid()
    ensures status.Ok? ==> Keys(built) == Combined(Keys(a), Keys(b), operation)
    ensures Size(b) <= budget ==> status.Ok?
    ensures status.Ok? || status == OutOfMemory
  {
    if !IsSymmetric(operation) { return Ok; }
    status := Pass(b, a, built, SelectionOf(operation), budget, Combined(Keys(a), Keys(b), operation));
  }
}
