// The dynamic array of src/array.c as bytes: growth, and append and insert from sources
// that may lie in the array itself.

module DynArrays {
  import opened Common
  import opened Bits
  import opened Growth

  const HEADER: nat := 32     // sizeof(LorArrayHeader)

  datatype Status = Ok | InvalidArgument | Overflow | OutOfMemory

  /** Where the source begins. `outside` is the memory there when that is not this array. */
  datatype Source = Null | At(address: nat, outside: seq<Byte>)

  datatype Alias = Apart | Inside(offset: nat) | Straddles

  /** What realloc answers: the address of the larger block, or nothing. */
  datatype Memory = NoMemory | Moved(base: nat)

  /** lor_array__growth_capacity: doubling until it suffices. */
  method GrowthCapacity(current: nat, required: nat) returns (capacity: nat)
    requires current <= SIZE_MAX && required <= SIZE_MAX
    ensures capacity == NextCapacity(current, required)
  {
    capacity := if current < 8 then 8 else current;
    while capacity < required
      invariant 0 < capacity <= SIZE_MAX && Doubled(capacity, required) == NextCapacity(current, required)
      decreases required - capacity
    {
      if capacity > SIZE_MAX / 2 {
        capacity := required;
        break;
      }
      capacity := 2 * capacity;
    }
  }

  method CopyAll(from: array<Byte>, to: array<Byte>)
    requires from.Length <= to.Length && from != to
    modifies to
    ensures to[..from.Length] == from[..]
  {
    for i := 0 to from.Length
      invariant to[..i] == from[..i]
    {
      to[i] := from[i];
    }
  }

  /** What realloc offers is enough for a doubled capacity. */
  predicate HasRoom(memory: Memory, es: nat, wanted: nat) {
    memory.Moved? && memory.base >= HEADER && memory.base + (8 + 2 * wanted) * es <= SIZE_MAX
  }

  /** First the tail moves up, then the gap is filled. */
  lemma {:induction false} SplicedIs(before: seq<Byte>, moved: seq<Byte>, after: seq<Byte>, at: nat, used: nat,
                                     s: seq<Byte>)
    requires at <= used && used + |s| <= |before| == |moved| == |after|
    requires moved[..at] == before[..at] && moved[at + |s|..used + |s|] == before[at..used]
    requires after[..at] == moved[..at] && after[at..at + |s|] == s && after[at + |s|..] == moved[at + |s|..]
    ensures after[..used + |s|] == before[..at] + s + before[at..used]
  {
    var to, end := at + |s|, used + |s|;
    assert after[..end] == after[..at] + after[at..to] + after[to..end];
    assert after[to..end] == after[to..][..end - to] == moved[to..][..end - to] == moved[to..end];
  }

  class DynArray {
    var base: nat            // the address of the first element; 0 while nothing is allocated
    var size: nat
    var capacity: nat
    var elementSize: nat
    var data: array<Byte>
    ghost var bytes: seq<Byte>

    /** `bytes` are the initialized elements. */
    ghost predicate Valid()
      reads this, data
    {
      && size <= capacity <= SIZE_MAX && data.Length == capacity * elementSize <= SIZE_MAX
      && |bytes| == size * elementSize <= data.Length && data[..|bytes|] == bytes
      && (base == 0 ==> capacity == 0) && (base > 0 ==> elementSize > 0 && base + data.Length <= SIZE_MAX)
    }

    constructor ()
      ensures Valid() && fresh(data) && base == 0 && bytes == []
    {
      base, size, capacity, elementSize, bytes := 0, 0, 0, 0, [];
      data := new Byte[0];
    }

    predicate ValidElementSize(es: nat)
      reads this
    {
      es > 0 && (base == 0 || elementSize == es)
    }

    /** lor_array__source_offset */
    function SourceAlias(source: nat, count: nat): Alias
      reads this
    {
      if base == 0 || source < base || source > base + capacity * elementSize then Apart
      else if source - base > size * elementSize || count > size * elementSize - (source - base) then Straddles
      else Inside(source - base)
    }

    /** The bytes a caller passes: its own, or a range of the initialized elements. */
    ghost function SourceBytes(source: Source, count: nat): (s: seq<Byte>)
      requires Valid() && source.At?
      requires SourceAlias(source.address, count).Apart? ==> |source.outside| == count
      requires !SourceAlias(source.address, count).Straddles?
      ensures |s| == count
      reads this, data
    {
      match SourceAlias(source.address, count)
      case Apart => source.outside
      case Inside(offset) => bytes[offset..offset + count]
    }

    /** realloc gives a block of `count` bytes inside the address space. */
    predicate Offers(memory: Memory, count: nat) {
      memory.Moved? && memory.base > 0 && memory.base + count <= SIZE_MAX
    }

    /** What asking for room for `wanted` elements answers. */
    function ReserveStatus(es: nat, wanted: nat, memory: Memory): Status
      requires capacity <= SIZE_MAX && wanted <= SIZE_MAX
      reads this
    {
      if !ValidElementSize(es) then InvalidArgument
      else if wanted <= capacity then Ok
      else if NextCapacity(capacity, wanted) > (SIZE_MAX - HEADER) / es then Overflow
      else if Offers(memory, NextCapacity(capacity, wanted) * es) then Ok
      else OutOfMemory
    }

    /** lor_array_reserve_raw: all or nothing, and the elements stay. */
    method Reserve(es: nat, wanted: nat, memory: Memory) returns (status: Status)
      requires Valid() && es <= SIZE_MAX && wanted <= SIZE_MAX
      modifies this
      ensures Valid() && bytes == old(bytes) && size == old(size) && (data == old(data) || fresh(data))
      ensures status.InvalidArgument? <==> !old(ValidElementSize(es))
      ensures status == old(ReserveStatus(es, wanted, memory))
      ensures status.Ok? ==> wanted <= capacity && (wanted > 0 ==> elementSize == es && base > 0)
      ensures status.Ok? ==>
                capacity == if wanted <= old(capacity) then old(capacity) else NextCapacity(old(capacity), wanted)
      ensures !status.Ok? ==> data == old(data) && base == old(base)
      ensures !status.Ok? ==> capacity == old(capacity) && elementSize == old(elementSize)
      ensures old(ValidElementSize(es) && (wanted <= capacity || HasRoom(memory, es, wanted))) ==> status.Ok?
    {
      if !ValidElementSize(es) { return InvalidArgument; }
      if wanted <= capacity { return Ok; }
      var larger := GrowthCapacity(capacity, wanted);
      if HasRoom(memory, es, wanted) { RoomIsGiven(es, wanted, memory); }
      if larger > (SIZE_MAX - HEADER) / es { return Overflow; }
      if memory.NoMemory? || memory.base == 0 || memory.base + larger * es > SIZE_MAX { return OutOfMemory; }
      MulMono(capacity, larger, es);
      Relocate(es, larger, memory.base);
      return Ok;
    }

    /** realloc: the old bytes are found at the new place. */
    method Relocate(es: nat, larger: nat, place: nat)
      requires Valid() && ValidElementSize(es) && capacity < larger <= SIZE_MAX && capacity * es <= larger * es
      requires place > 0 && place + larger * es <= SIZE_MAX
      modifies this
      ensures Valid() && bytes == old(bytes) && size == old(size) && fresh(data)
      ensures base == place && capacity == larger && elementSize == es
    {
      var block := new Byte[larger * es];
      CopyAll(data, block);
      assert block[..|bytes|] == data[..][..|bytes|];
      base, capacity, elementSize, data := place, larger, es, block;
    }

    /** memcpy and memmove from bytes read beforehand. */
    method CopyIn(at: nat, s: seq<Byte>)
      requires at + |s| <= data.Length
      modifies data
      ensures data[at..at + |s|] == s
      ensures data[..at] == old(data[..at]) && data[at + |s|..] == old(data[at + |s|..])
    {
      for i := 0 to |s|
        invariant data[at..at + i] == s[..i]
        invariant data[..at] == old(data[..at]) && data[at + |s|..] == old(data[at + |s|..])
      {
        data[at + i] := s[i];
      }
    }

    /** The checks that append and insert share, before anything changes. */
    predicate MayRead(source: Source, es: nat, count: nat)
      reads this
    {
      source.At? && !SourceAlias(source.address, count * es).Straddles?
    }

    /** The caller's memory is readable: a source outside the array has the bytes it says. */
    ghost predicate Readable(source: Source, es: nat, count: nat)
      reads this
    {
      source.At? && SourceAlias(source.address, count * es).Apart? ==> |source.outside| == count * es
    }

    predicate IsRefused(es: nat, source: Source, count: nat)
      reads this
    {
      || (source.Null? && count > 0)
      || !ValidElementSize(es)
      || (source.At? && 0 < count && count * es <= SIZE_MAX && size + count <= SIZE_MAX && !MayRead(source, es, count))
    }

    /** Nothing stands in the way of `count` more elements. */
    predicate MayGrow(es: nat, source: Source, count: nat, memory: Memory)
      reads this
    {
      && !IsRefused(es, source, count) && count * es <= SIZE_MAX && size + count <= SIZE_MAX
      && (size + count <= capacity || HasRoom(memory, es, size + count))
    }

    /** Nothing else stands in the way: what the caller may count on is what is answered. */
    lemma {:induction false} RoomIsGiven(es: nat, wanted: nat, memory: Memory)
      requires Valid() && ValidElementSize(es) && wanted <= SIZE_MAX
      requires wanted <= capacity || HasRoom(memory, es, wanted)
      ensures ReserveStatus(es, wanted, memory).Ok?
    {
      if wanted > capacity {
        var larger := NextCapacity(capacity, wanted);
        MulMono(larger, 8 + 2 * wanted, es);
        QuotientTest(larger, es, SIZE_MAX - HEADER);
      }
    }

    /** The source is part of the array and would move under the insertion. */
    predicate NeedsCopy(es: nat, source: Source, count: nat)
      reads this
    {
      && source.At? && count * es <= SIZE_MAX && size + count <= SIZE_MAX
      && SourceAlias(source.address, count * es).Inside?
    }

    /** What adding `count` elements that may be read answers. */
    function AddStatus(es: nat, count: nat, memory: Memory): Status
      requires capacity <= SIZE_MAX
      reads this
    {
      if count * es > SIZE_MAX || size + count > SIZE_MAX then Overflow else ReserveStatus(es, size + count, memory)
    }

    /** lor_array_append_raw: the elements followed by the source as it was at the call,
        also when the source is part of the array and the array moves. */
    method Append(es: nat, source: Source, count: nat, memory: Memory) returns (status: Status)
      requires Valid() && es <= SIZE_MAX && count <= SIZE_MAX && Readable(source, es, count)
      modifies this, data
      ensures Valid() && (data == old(data) || fresh(data))
      ensures status.InvalidArgument? <==> old(IsRefused(es, source, count))
      ensures old(MayGrow(es, source, count, memory)) ==> status.Ok?
      ensures !old(IsRefused(es, source, count)) ==>
                status == if count == 0 then Ok else old(AddStatus(es, count, memory))
      ensures !status.Ok? || count == 0 ==> bytes == old(bytes) && size == old(size)
      ensures status.Ok? && count > 0 ==>
                && old(MayRead(source, es, count)) && size == old(size) + count
                && bytes == old(bytes + SourceBytes(source, count * es))
    {
      if source.Null? && count != 0 { return InvalidArgument; }
      if !ValidElementSize(es) { return InvalidArgument; }
      if count == 0 { return Ok; }
      QuotientTest(count, es, SIZE_MAX);
      if count > SIZE_MAX / es { return Overflow; }
      if count > SIZE_MAX - size { return Overflow; }
      var alias := SourceAlias(source.address, count * es);
      if alias.Straddles? { return InvalidArgument; }
      status := AppendFrom(es, source, alias, count, memory);
    }

    /** Makes room if need be and appends the source, which may have moved with the array. */
    method AppendFrom(es: nat, source: Source, alias: Alias, count: nat, memory: Memory) returns (status: Status)
      requires Valid() && ValidElementSize(es) && es <= SIZE_MAX && size + count <= SIZE_MAX && 0 < count && source.At?
      requires alias == SourceAlias(source.address, count * es) && !alias.Straddles?
      requires alias.Apart? ==> |source.outside| == count * es
      modifies this, data
      ensures Valid() && (data == old(data) || fresh(data))
      ensures status == old(ReserveStatus(es, size + count, memory)) && !status.InvalidArgument?
      ensures old(size + count <= capacity || HasRoom(memory, es, size + count)) ==> status.Ok?
      ensures !status.Ok? ==> bytes == old(bytes) && size == old(size)
      ensures status.Ok? ==> size == old(size) + count && bytes == old(bytes + SourceBytes(source, count * es))
    {
      status := Reserve(es, size + count, memory);
      if !status.Ok? { return; }
      var elements := Elements(source, alias, count * es);
      AddLast(count, elements);
    }

    /** Where the source is now: an alias has moved with the array. */
    method Elements(source: Source, alias: Alias, n: nat) returns (elements: seq<Byte>)
      requires Valid() && source.At?
      requires alias.Apart? ==> |source.outside| == n
      requires alias.Inside? ==> alias.offset + n <= |bytes|
      requires !alias.Straddles?
      ensures elements == if alias.Inside? then bytes[alias.offset..alias.offset + n] else source.outside
    {
      elements := source.outside;
      if alias.Inside? {
        elements := data[alias.offset..alias.offset + n];
        assert elements == data[..|bytes|][alias.offset..alias.offset + n];
      }
    }

    method AddLast(count: nat, elements: seq<Byte>)
      requires Valid() && base > 0 && size + count <= capacity && |elements| == count * elementSize
      modifies `size, `bytes, data
      ensures Valid() && bytes == old(bytes) + elements && size == old(size) + count
    {
      MulAdds(size, count, elementSize);
      MulMono(size + count, capacity, elementSize);
      CopyIn(size * elementSize, elements);
      size := size + count;
      assert data[..|bytes| + |elements|] == data[..|bytes|] + data[|bytes|..|bytes| + |elements|];
      bytes := bytes + elements;
    }

    /** memmove to a higher place: the bytes arrive as they were, also where the two ranges
        overlap. */
    method MoveUp(from: nat, to: nat, n: nat)
      requires from <= to && to + n <= data.Length
      modifies data
      ensures data[to..to + n] == old(data[from..from + n])
      ensures data[..to] == old(data[..to]) && data[to + n..] == old(data[to + n..])
    {
      var i: nat := n;
      while i > 0
        invariant i <= n
        invariant data[to + i..to + n] == old(data[from + i..from + n])
        invariant data[..to + i] == old(data[..to + i]) && data[to + n..] == old(data[to + n..])
      {
        i := i - 1;
        assert data[from + i] == old(data[from + i]);
        data[to + i] := data[from + i];
      }
      assert to + i == to && from + i == from;
    }

    /** Opens a gap of `count` elements at `index` and fills it. */
    method AddAt(index: nat, count: nat, elements: seq<Byte>)
      requires Valid() && base > 0 && index <= size && size + count <= capacity && |elements| == count * elementSize
      modifies `size, `bytes, data
      ensures Valid() && size == old(size) + count && index * elementSize <= |old(bytes)|
      ensures bytes == old(bytes)[..index * elementSize] + elements + old(bytes)[index * elementSize..]
    {
      MulAdds(size, count, elementSize);
      MulMono(size + count, capacity, elementSize);
      MulMono(index, size, elementSize);
      var at, used := index * elementSize, size * elementSize;
      assert data[..at] == data[..used][..at] && data[at..used] == data[..used][at..];
      Splice(at, used, elements);
      size := size + count;
      bytes := bytes[..at] + elements + bytes[at..];
    }

    /** The same on bytes. */
    method Splice(at: nat, used: nat, s: seq<Byte>)
      requires at <= used && used + |s| <= data.Length
      modifies data
      ensures data[..used + |s|] == old(data[..at]) + s + old(data[at..used])
    {
      ghost var before := data[..];
      MoveUp(at, at + |s|, used - at);
      ghost var moved := data[..];
      CopyIn(at, s);
      SplicedIs(before, moved, data[..], at, used, s);
    }

    /** lor_array_insert_raw: the source as it was at the call stands between the elements
        before `index` and those from it on, also when it straddles that point. */
    method Insert(es: nat, index: nat, source: Source, count: nat, copyOk: bool, memory: Memory)
        returns (status: Status)
      requires Valid() && es <= SIZE_MAX && count <= SIZE_MAX && Readable(source, es, count)
      modifies this, data
      ensures Valid() && (data == old(data) || fresh(data))
      ensures status.InvalidArgument? <==> old(IsRefused(es, source, count) || index > size)
      ensures old(MayGrow(es, source, count, memory) && index <= size) && copyOk ==> status.Ok?
      ensures !old(IsRefused(es, source, count) || index > size) ==>
                status == if count == 0 then Ok
                          else if !copyOk && old(NeedsCopy(es, source, count)) then OutOfMemory
                          else old(AddStatus(es, count, memory))
      ensures !status.Ok? || count == 0 ==> bytes == old(bytes) && size == old(size)
      ensures status.Ok? && count > 0 ==>
                && old(MayRead(source, es, count)) && size == old(size) + count && index * es <= |old(bytes)|
                && bytes == old(bytes[..index * es] + SourceBytes(source, count * es) + bytes[index * es..])
    {
      if source.Null? && count != 0 { return InvalidArgument; }
      if !ValidElementSize(es) { return InvalidArgument; }
      if index > size { return InvalidArgument; }
      if count == 0 { return Ok; }
      QuotientTest(count, es, SIZE_MAX);
      if count > SIZE_MAX / es { return Overflow; }
      if count > SIZE_MAX - size { return Overflow; }
      var alias := SourceAlias(source.address, count * es);
      if alias.Straddles? { return InvalidArgument; }
      if alias.Inside? && !copyOk { return OutOfMemory; }
      status := InsertFrom(es, index, source, alias, count, memory);
    }

    /** Takes the source as it is now and puts it in its place. */
    method InsertFrom(es: nat, index: nat, source: Source, alias: Alias, count: nat, memory: Memory)
        returns (status: Status)
      requires Valid() && ValidElementSize(es) && es <= SIZE_MAX && index <= size && size + count <= SIZE_MAX
      requires 0 < count && source.At? && alias == SourceAlias(source.address, count * es) && !alias.Straddles?
      requires alias.Apart? ==> |source.outside| == count * es
      modifies this, data
      ensures Valid() && (data == old(data) || fresh(data))
      ensures status == old(ReserveStatus(es, size + count, memory)) && !status.InvalidArgument?
      ensures old(size + count <= capacity || HasRoom(memory, es, size + count)) ==> status.Ok?
      ensures !status.Ok? ==> bytes == old(bytes) && size == old(size)
      ensures status.Ok? ==>
                && size == old(size) + count && index * es <= |old(bytes)|
                && bytes == old(bytes[..index * es] + SourceBytes(source, count * es) + bytes[index * es..])
    {
      ghost var n, src := count * es, SourceBytes(source, count * es);
      var elements := Elements(source, alias, count * es);
      assert elements == src && |elements| == n;
      status := Place(es, index, count, elements, memory);
    }

    /** Makes room if need be and inserts. */
    method Place(es: nat, index: nat, count: nat, elements: seq<Byte>, memory: Memory) returns (status: Status)
      requires Valid() && ValidElementSize(es) && es <= SIZE_MAX && index <= size && size + count <= SIZE_MAX
      requires 0 < count && |elements| == count * es
      modifies this, data
      ensures Valid() && (data == old(data) || fresh(data)) && !status.InvalidArgument?
      ensures status == old(ReserveStatus(es, size + count, memory))
      ensures old(size + count <= capacity || HasRoom(memory, es, size + count)) ==> status.Ok?
      ensures !status.Ok? ==> bytes == old(bytes) && size == old(size)
      ensures status.Ok? ==>
                && size == old(size) + count && index * es <= |old(bytes)|
                && bytes == old(bytes)[..index * es] + elements + old(bytes)[index * es..]
    {
      status := Reserve(es, size + count, memory);
      if !status.Ok? { return; }
      MulMono(index, size, es);
      AddAt(index, count, elements);
    }
  }

  /** Not every source apart from the elements is accepted. Of those whose bytes are all before
      or behind the elements, exactly those are refused that begin in the unused capacity or
      right behind the storage. (Append and Insert answer InvalidArgument to refused sources.) */
  lemma {:induction false} ApartYetRefused(a: DynArray, source: Source, es: nat, count: nat)
    requires a.Valid() && a.base > 0 && a.ValidElementSize(es) && source.At?
    requires 0 < count && count * es <= SIZE_MAX && a.size + count <= SIZE_MAX
    requires source.address + count * es <= a.base || a.base + a.size * es <= source.address
    ensures a.IsRefused(es, source, count) <==> a.base <= source.address <= a.base + a.capacity * es
  {
    MulMono(1, count, es);
    MulMono(a.size, a.capacity, es);
  }

  /** One byte is stored, and the next is offered from the address right behind the storage. */
  method AppendFromBehindStorage(first: Byte, next: Byte) returns (stored: Status, refused: Status)
    ensures stored.Ok? && refused.InvalidArgument?
  {
    var a := new DynArray();
    stored := a.Append(1, At(5000, [first]), 1, Moved(1000));
    var behind := At(a.base + a.capacity, [next]);
    ApartYetRefused(a, behind, 1, 1);
    refused := a.Append(1, behind, 1, NoMemory);
  }
}
