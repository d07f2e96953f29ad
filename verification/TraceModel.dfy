// The trace recorder of src/trace.c as a state machine on values: one thread records
// zones, instants and counters into a bounded buffer that keeps room for the end
// record of every zone it has recorded the beginning of.

module TraceModel {
  import opened Common
  import opened Bits

  /** The size of a record header, and so of an end record. (Products with it are written
      with the number itself: they are linear.) */
  const HEADER: nat := 24
  const UINT32_MAX: nat := 0xFFFF_FFFF
  const UINT64_MAX: nat := 0xFFFF_FFFF_FFFF_FFFF

  datatype Kind = BeginRecord | EndRecord | InstantRecord | CounterRecord | AutoBeginRecord

  datatype Record = Record(timestamp: nat, value: nat, kind: Kind, name: seq<Byte>) {
    predicate Opens() { kind.BeginRecord? || kind.AutoBeginRecord? }
    function Size(): nat { HEADER + |name| }
  }

  datatype Mode = FlushWhenFull | DropWhenFull

  /** The recorder fields. `pending` are the records in the buffer, `flushed` those handed
      to the file by successful flushes; `failed` is the sticky flag of the shared file. */
  datatype State = State(
    capacity: nat, mode: Mode,
    pending: seq<Record>, flushed: seq<Record>, failed: bool,
    depth: nat, suppressed: nat, reserved: nat,
    recorded: nat, dropped: nat)
  {
    ghost function History(): seq<Record> { flushed + pending }
    function Used(): nat { TotalSize(pending) }
  }

  function TotalSize(rs: seq<Record>): nat {
    if rs == [] then 0 else TotalSize(rs[..|rs| - 1]) + rs[|rs| - 1].Size()
  }

  /** A call by the owning thread, with the records it would write and whether a flush it
      needs succeeds; or another thread breaking the shared file. */
  datatype Call =
    | BeginZone(record: Record, flushOk: bool)
    | EndZone(timestamp: nat, flushOk: bool)
    | Mark(record: Record, flushOk: bool)
    | FlushCall(flushOk: bool)
    | FileBreaks

  ghost predicate ValidCall(c: Call) {
    && (c.BeginZone? ==> c.record.Opens())
    && (c.Mark? ==> c.record.kind.InstantRecord? || c.record.kind.CounterRecord?)
  }

  /** Instants, counters, begins and ends count as events; flushes do not. */
  ghost predicate IsEvent(c: Call) {
    c.BeginZone? || c.EndZone? || c.Mark?
  }

  predicate SpaceAvailable(s: State, size: nat, reservedAfter: nat) {
    && size <= SIZE_MAX && reservedAfter <= (SIZE_MAX - size) / 24
    && s.Used() <= s.capacity && size + 24 * reservedAfter <= s.capacity - s.Used()
  }

  /** A flush when the buffer is full: nothing to do if it is empty, refused once the file
      has failed; a failed write leaves the buffer as it is. */
  function Flush(s: State, ok: bool): (bool, State) {
    if s.pending == [] then (true, s)
    else if s.failed || !ok then (false, s.(failed := true))
    else (true, s.(pending := [], flushed := s.flushed + s.pending))
  }

  /** A flush by request also flushes the file, even when the buffer is empty. */
  function FlushThrough(s: State, ok: bool): (bool, State) {
    if s.failed || !ok then (false, s.(failed := true))
    else (true, s.(pending := [], flushed := s.flushed + s.pending))
  }

  function EnsureSpace(s: State, size: nat, reservedAfter: nat, flushOk: bool): (bool, State) {
    if SpaceAvailable(s, size, reservedAfter) then (true, s)
    else if s.mode != FlushWhenFull then (false, s)
    else
      var (ok, s') := Flush(s, flushOk);
      (ok && SpaceAvailable(s', size, reservedAfter), s')
  }

  function Append(s: State, r: Record, reservedAfter: nat, flushOk: bool): (bool, State) {
    if |r.name| > UINT32_MAX then (false, s)
    else
      var (ok, s') := EnsureSpace(s, r.Size(), reservedAfter, flushOk);
      if ok then (true, s'.(pending := s'.pending + [r], recorded := s'.recorded + 1))
      else (false, s')
  }

  function End(timestamp: nat): Record {
    Record(timestamp, 0, EndRecord, [])
  }

  /** After a beginning was appended or not. */
  function Opened(s: State, ok: bool): (bool, State) {
    if ok then (true, s.(reserved := s.reserved + 1)) else Suppress(s)
  }

  /** The zone just begun is not recorded, nor is anything inside it. */
  function Suppress(s: State): (bool, State) {
    (false, s.(suppressed := 1, dropped := s.dropped + 1))
  }

  /** Appends unless the count of reserved ends rules it out. */
  function AppendUnless(s: State, refused: bool, r: Record, reservedAfter: nat, flushOk: bool): (bool, State) {
    if refused then (false, s) else Append(s, r, reservedAfter, flushOk)
  }

  /** The room of an end record is no longer reserved, whether or not it was used. */
  function GiveBack(s: State, recordedNow: bool): State {
    s.(dropped := if recordedNow then s.dropped else s.dropped + 1,
       reserved := if s.reserved != 0 then s.reserved - 1 else 0)
  }

  /** One call: whether it was recorded, and the next state. */
  function Step(s: State, c: Call): (bool, State) {
    match c
    case BeginZone(r, flushOk) =>
      var s1 := s.(depth := s.depth + 1);
      if s.suppressed != 0 then (false, s1.(suppressed := s.suppressed + 1, dropped := s.dropped + 1))
      else
        var (ok, s2) := AppendUnless(s1, s.reserved == SIZE_MAX, r, s.reserved + 1, flushOk);
        Opened(s2, ok)
    case EndZone(timestamp, flushOk) =>
      if s.depth == 0 then (false, s.(dropped := s.dropped + 1))
      else
        var s1 := s.(depth := s.depth - 1);
        if s.suppressed != 0 then (false, s1.(suppressed := s.suppressed - 1, dropped := s.dropped + 1))
        else
          var after := if s.reserved == 0 then 0 else s.reserved - 1;
          var (ok, s2) := AppendUnless(s1, s.reserved == 0, End(timestamp), after, flushOk);
          (ok, GiveBack(s2, ok))
    case Mark(r, flushOk) =>
      if s.suppressed != 0 then (false, s.(dropped := s.dropped + 1))
      else
        var (ok, s') := Append(s, r, s.reserved, flushOk);
        (ok, if ok then s' else s'.(dropped := s'.dropped + 1))
    case FlushCall(flushOk) => (false, FlushThrough(s, flushOk).1)
    case FileBreaks => (false, s.(failed := true))
  }

  /** A new recorder; the library refuses buffers below 1024 bytes. */
  ghost predicate Init(s: State) {
    && 1024 <= s.capacity <= SIZE_MAX
    && s.pending == s.flushed == []
    && s.depth == s.suppressed == s.reserved == s.recorded == s.dropped == 0
  }

  /** The end of every recorded open zone has its room, and the depth splits into the
      recorded outer zones and the suppressed inner ones. */
  ghost predicate Inv(s: State) {
    Buffered(s) && s.depth == s.reserved + s.suppressed
  }

  ghost predicate Buffered(s: State) {
    && s.capacity <= SIZE_MAX
    && s.Used() + 24 * s.reserved <= s.capacity
    && s.recorded == |s.History()|
  }

  lemma Room(s: State, size: nat, reservedAfter: nat)
    requires s.capacity <= SIZE_MAX && s.Used() <= s.capacity
    ensures SpaceAvailable(s, size, reservedAfter) <==> s.Used() + size + 24 * reservedAfter <= s.capacity
  {
  }

  /** What an append does, whether or not it had to flush. */
  ghost predicate Appended(s: State, r: Record, reservedAfter: nat, ok: bool, s': State) {
    && s'.recorded == |s'.History()|
    && s'.Used() + 24 * (if ok then reservedAfter else s.reserved) <= s.capacity
    && s'.History() == s.History() + (if ok then [r] else [])
    && s' == s.(pending := s'.pending, flushed := s'.flushed, failed := s'.failed,
                recorded := if ok then s.recorded + 1 else s.recorded)
  }

  lemma EnsureKeeps(s: State, size: nat, reservedAfter: nat, flushOk: bool)
    requires Buffered(s)
    ensures var (ok, s') := EnsureSpace(s, size, reservedAfter, flushOk);
            && s'.History() == s.History() && s'.Used() <= s.Used()
            && s' == s.(pending := s'.pending, flushed := s'.flushed, failed := s'.failed)
            && (ok ==> s'.Used() + size + 24 * reservedAfter <= s.capacity)
  {
    var (_, flushed) := Flush(s, flushOk);
    Room(s, size, reservedAfter);
    Room(flushed, size, reservedAfter);
  }

  lemma StoredOne(s: State, r: Record)
    ensures var s' := s.(pending := s.pending + [r]);
            s'.Used() == s.Used() + r.Size() && s'.History() == s.History() + [r]
  {
    assert (s.pending + [r])[..|s.pending|] == s.pending;
    assert s.flushed + (s.pending + [r]) == s.History() + [r];
  }

  lemma AppendKeeps(s: State, r: Record, reservedAfter: nat, flushOk: bool)
    requires Buffered(s)
    ensures var (ok, s') := Append(s, r, reservedAfter, flushOk); Appended(s, r, reservedAfter, ok, s')
  {
    var size := r.Size();
    EnsureKeeps(s, size, reservedAfter, flushOk);
    StoredOne(EnsureSpace(s, size, reservedAfter, flushOk).1, r);
    assert s.History() + [] == s.History();
  }
}
