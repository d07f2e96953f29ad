// The recorder object of src/trace.c: a byte buffer and counters, proved to act as the
// state machine of TraceModel.

module TraceThreads {
  import opened Common
  import opened Bits
  import opened TraceModel
  import opened TraceTheorems
  import opened TraceCodec
  import opened TraceFiles
  import opened TraceWriters

  function Tracing(thread: nat, rs: seq<Record>): (es: seq<Event>)
    ensures |es| == |rs| && forall i :: 0 <= i < |rs| ==> es[i] == Traced(thread, rs[i])
  {
    seq(|rs|, i requires 0 <= i < |rs| => Traced(thread, rs[i]))
  }

  /** Whether the file takes these records after what it already holds. */
  ghost predicate Fits(file: TraceFile, thread: nat, rs: seq<Record>)
    reads file`closed, file`events
  {
    !file.closed && |Head(file.process, file.events + Tracing(thread, rs))| <= file.limit
  }

  /** The first of the events to be added have been. */
  ghost predicate Partly(start: seq<Event>, more: seq<Event>, now: seq<Event>) {
    exists k :: 0 <= k <= |more| && now == start + more[..k]
  }

  /** The bytes in use are exactly the encodings of the pending records. */
  ghost predicate Holds(bytes: seq<Byte>, used: nat, pending: seq<Record>, capacity: nat) {
    && |bytes| == capacity && used == TotalSize(pending) <= capacity
    && bytes[..used] == EncodeAll(pending)
    && forall i :: 0 <= i < |pending| ==> Encodable(pending[i])
  }

  /** lor_trace_thread_init: a recorder for a thread that the file admits. */
  method StartThread(file: TraceFile, capacity: nat, mode: Mode, named: bool, name: string)
      returns (ok: bool, recorder: TraceThread?)
    requires 1024 <= capacity <= SIZE_MAX && file.Valid()
    modifies file
    ensures file.Valid() && file.closed == old(file.closed) && (ok <==> recorder != null)
    ensures old(file.closed || file.failed) ==> !ok && file.Out() == old(file.Out())
    ensures !old(file.closed || file.failed) ==>
              var e := Metadata("thread_name", old(file.nextThread), name);
              ok <==> !named || |Head(file.process, old(file.events) + [e])| <= file.limit
    ensures file.activeThreads == old(file.activeThreads) + if ok then 1 else 0
    ensures ok ==> recorder.capacity == capacity && recorder.mode == mode
    ensures ok ==>
              && fresh(recorder) && fresh(recorder.buffer) && recorder.Valid()
              && TraceModel.Init(recorder.View()) && recorder.file == file
              && recorder.thread == old(file.nextThread) && file.nextThread == recorder.thread + 1
              && var e := Metadata("thread_name", recorder.thread, name);
                 file.events == old(file.events) + if named then [e] else []
  {
    var thread;
    ok, thread := file.Attach(named, name);
    recorder := null;
    if ok { recorder := new TraceThread(file, thread, capacity, mode); }
  }

  class TraceThread {
    const file: TraceFile
    const thread: nat
    const capacity: nat
    const mode: Mode
    const buffer: array<Byte>
    var used: nat
    var depth: nat
    var suppressed: nat
    var reserved: nat
    var recorded: nat
    var dropped: nat
    ghost var pending: seq<Record>
    ghost var flushed: seq<Record>

    ghost predicate Valid()
      reads `used, `pending, buffer, file`text, file`failed, file`closed, file`firstEvent, file`events
    {
      exists bytes: seq<Byte> :: bytes == buffer[..] && Holds(bytes, used, pending, capacity) && file.Valid()
    }

    ghost function View(): State
      reads this, file`failed
    {
      State(capacity, mode, pending, flushed, file.failed, depth, suppressed, reserved, recorded, dropped)
    }

    /** Whether a flush meets no failure. */
    ghost predicate Works()
      reads `pending, file
    {
      Fits(file, thread, pending)
    }

    /** Unless a write failed, the file has gained exactly the records flushed since it held
        `events` and `before` had been flushed. */
    ghost predicate Gained(events: seq<Event>, before: seq<Record>)
      reads `flushed, file`failed, file`events
    {
      !file.failed ==> before <= flushed && file.events == events + Tracing(thread, flushed[|before|..])
    }

    lemma GainedNothing()
      ensures Gained(file.events, flushed)
    {
      assert flushed[|flushed|..] == [];
      assert file.events + Tracing(thread, []) == file.events;
    }

    lemma GainedAll(events: seq<Event>, before: seq<Record>, rs: seq<Record>)
      requires flushed == before + rs && file.events == events + Tracing(thread, rs)
      ensures Gained(events, before)
    {
      assert flushed[|before|..] == rs;
    }

    constructor (file: TraceFile, thread: nat, capacity: nat, mode: Mode)
      requires 1024 <= capacity <= SIZE_MAX && file.Valid()
      ensures Valid() && TraceModel.Init(View()) && fresh(buffer)
      ensures this.file == file && this.thread == thread && this.capacity == capacity && this.mode == mode
    {
      this.file, this.thread, this.capacity, this.mode := file, thread, capacity, mode;
      buffer := new Byte[capacity](_ => 0);
      used, depth, suppressed, reserved, recorded, dropped := 0, 0, 0, 0, 0, 0;
      pending, flushed := [], [];
      new;
      assert Holds(buffer[..], used, pending, capacity);
    }

    /** Writes the buffered records to the file, decoding them one by one. When a write
        fails, the file holds whole events up to it and the buffer keeps all records. */
    method FlushInternal(stream: bool, streamOk: bool) returns (ok: bool)
      requires Valid()
      modifies `used, `pending, `flushed, file`text, file`failed, file`firstEvent, file`events
      ensures Valid() && file.closed == old(file.closed)
      ensures Gained(old(file.events), old(flushed))
      ensures (ok, View()) == if stream then FlushThrough(old(View()), old(Works()) && streamOk)
                              else Flush(old(View()), old(Works()))
      ensures Partly(old(file.events), Tracing(thread, old(pending)), file.events)
      ensures ok ==> file.events == old(file.events) + Tracing(thread, old(pending))
      ensures file.events != old(file.events) ==> flushed != old(flushed) || file.failed != old(file.failed)
    {
      PartlyNone(file.events, Tracing(thread, pending));
      ghost var events, before, rs := file.events, flushed, pending;
      GainedNothing();
      if used == 0 {
        NothingPending(pending);
        if !stream { return true; }
        assert file.events + Tracing(thread, pending) == file.events;
        ok := !file.closed && !file.failed && streamOk;
        if ok {
          flushed := flushed + pending;
          GainedAll(events, before, rs);
        } else {
          file.failed := true;
        }
        return;
      }
      if file.closed || file.failed {
        file.failed := true;
        return false;
      }
      ok := WriteRecords();
      if ok && stream && !streamOk {
        file.failed := true;
        ok := false;
      }
      if ok {
        flushed, pending, used := flushed + pending, [], 0;
        GainedAll(events, before, rs);
        assert Holds(buffer[..], used, pending, capacity);
      }
    }

    /** Reads record `k` of the buffer; the buffer is never malformed. */
    method ReadRecord(offset: nat, ghost k: nat) returns (decoded: Decoded)
      requires Valid() && k <= |pending| && offset == TotalSize(pending[..k]) < used
      ensures k < |pending| && decoded == Complete(pending[k], pending[k].Size())
      ensures offset + pending[k].Size() == TotalSize(pending[..k + 1]) <= used
    {
      OffsetBelow(pending, k);
      DecodeAt(pending, k);
      assert buffer[offset..used] == buffer[..used][offset..];
      decoded := Decode(buffer[offset..used]);
    }

    /** A flush that began with `start` in the file has written the records before `offset`. */
    ghost predicate Reached(offset: nat, start: seq<Event>)
      reads `used, `pending, buffer, file
    {
      exists k: nat :: k <= |pending| && offset == TotalSize(pending[..k])
        && file.events == start + Tracing(thread, pending)[..k] && Valid() && !file.failed && !file.closed
    }

    method WriteNext(offset: nat, ghost start: seq<Event>) returns (ok: bool, next: nat)
      requires Reached(offset, start) && offset < used
      modifies file`text, file`failed, file`firstEvent, file`events
      ensures ok ==> Reached(next, start) && next > offset
      ensures !ok ==> Valid() && !file.closed && file.failed && Partly(start, Tracing(thread, pending), file.events)
      ensures !ok ==> |Head(file.process, start + Tracing(thread, pending))| > file.limit
    {
      ghost var all := Tracing(thread, pending);
      ghost var k: nat :| k <= |pending| && offset == TotalSize(pending[..k]) && file.events == start + all[..k];
      ok, next := WriteAt(offset, k, start);
      assert file.events == start + all[..if ok then k + 1 else k];
    }

    /** Reads record `k` and writes it. */
    method WriteAt(offset: nat, ghost k: nat, ghost start: seq<Event>) returns (ok: bool, next: nat)
      requires Valid() && !file.failed && !file.closed
      requires k <= |pending| && offset == TotalSize(pending[..k]) < used
      requires file.events == start + Tracing(thread, pending)[..k]
      modifies file`text, file`failed, file`firstEvent, file`events
      ensures Valid() && !file.closed && file.failed == !ok && k < |pending|
      ensures file.events == start + Tracing(thread, pending)[..if ok then k + 1 else k]
      ensures if ok then offset < next == TotalSize(pending[..k + 1])
              else |Head(file.process, start + Tracing(thread, pending))| > file.limit
    {
      ok, next := false, offset;
      var decoded := ReadRecord(offset, k);
      if decoded.Complete? {
        ok := WritePending(decoded.record, k, start);
        next := offset + decoded.size;
      }
      if !ok { file.failed := true; }
    }

    method WritePending(r: Record, ghost k: nat, ghost start: seq<Event>) returns (ok: bool)
      requires Valid() && !file.failed && !file.closed && k < |pending| && r == pending[k]
      requires file.events == start + Tracing(thread, pending)[..k]
      modifies file`text, file`failed, file`firstEvent, file`events
      ensures Valid() && !file.closed && file.failed == !ok
      ensures file.events == start + Tracing(thread, pending)[..if ok then k + 1 else k]
      ensures !ok ==> |Head(file.process, start + Tracing(thread, pending))| > file.limit
    {
      NextEvent(file.process, start, Tracing(thread, pending), k);
      ok := file.WriteRecord(thread, r);
    }

    /** The loop of a flush. */
    method WriteRecords() returns (ok: bool)
      requires Valid() && !file.failed && !file.closed
      modifies file`text, file`failed, file`firstEvent, file`events
      ensures Valid() && !file.closed && file.failed == !ok
      ensures ok <==> old(Works())
      ensures Partly(old(file.events), Tracing(thread, pending), file.events)
      ensures ok ==> file.events == old(file.events) + Tracing(thread, pending)
    {
      ghost var start := file.events;
      var offset: nat := 0;
      assert pending[..0] == [] && start == start + Tracing(thread, pending)[..0];
      while offset < used
        invariant Reached(offset, start)
        decreases used - offset
      {
        ok, offset := WriteNext(offset, start);
        if !ok { return; }
      }
      AllReached(offset, start);
      return true;
    }

    lemma AllReached(offset: nat, start: seq<Event>)
      requires Reached(offset, start) && offset >= used
      ensures Valid() && !file.failed && !file.closed && file.events == start + Tracing(thread, pending)
      ensures Partly(start, Tracing(thread, pending), file.events)
      ensures |Head(file.process, file.events)| <= file.limit
    {
      var all := Tracing(thread, pending);
      var k: nat :| k <= |pending| && offset == TotalSize(pending[..k]) && file.events == start + all[..k];
      OffsetAtEnd(pending, k);
      assert all[..k] == all;
    }

    method EnsureSpace(size: nat, reservedAfter: nat) returns (ok: bool)
      requires Valid()
      modifies `used, `pending, `flushed, file`text, file`failed, file`firstEvent, file`events
      ensures Valid() && file.closed == old(file.closed)
      ensures Gained(old(file.events), old(flushed))
      ensures (ok, View()) == TraceModel.EnsureSpace(old(View()), size, reservedAfter, old(Works()))
      ensures file.events != old(file.events) ==> flushed != old(flushed) || file.failed != old(file.failed)
      ensures ok ==> used + size <= capacity
    {
      GainedNothing();
      if HasSpace(size, reservedAfter) { return true; }
      if mode != FlushWhenFull { return false; }
      var flushedOk := FlushInternal(false, true);
      if !flushedOk { return false; }
      ok := HasSpace(size, reservedAfter);
    }

    predicate HasSpace(size: nat, reservedAfter: nat)
      requires used <= capacity
      reads `used
      ensures HasSpace(size, reservedAfter) ==> used + size <= capacity
    {
      && size <= SIZE_MAX && reservedAfter <= (SIZE_MAX - size) / 24
      && size + 24 * reservedAfter <= capacity - used
    }

    method Append(r: Record, reservedAfter: nat) returns (ok: bool)
      requires Valid() && Encodable(r.(name := []))
      modifies `used, `pending, `flushed, `recorded, buffer, file`text, file`failed, file`firstEvent, file`events
      ensures Valid() && file.closed == old(file.closed)
      ensures Gained(old(file.events), old(flushed))
      ensures (ok, View()) == TraceModel.Append(old(View()), r, reservedAfter, old(Works()))
      ensures file.events != old(file.events) ==> flushed != old(flushed) || file.failed != old(file.failed)
    {
      GainedNothing();
      if |r.name| > UINT32_MAX { return false; }
      ok := AppendSized(r, reservedAfter);
    }

    /** Append of a record whose name fits its length field. */
    method AppendSized(r: Record, reservedAfter: nat) returns (ok: bool)
      requires Valid() && Encodable(r)
      modifies `used, `pending, `flushed, `recorded, buffer, file`text, file`failed, file`firstEvent, file`events
      ensures Valid() && file.closed == old(file.closed)
      ensures Gained(old(file.events), old(flushed))
      ensures (ok, View()) == TraceModel.Append(old(View()), r, reservedAfter, old(Works()))
      ensures file.events != old(file.events) ==> flushed != old(flushed) || file.failed != old(file.failed)
    {
      ghost var s, works := View(), Works();
      ok := EnsureSpace(r.Size(), reservedAfter);
      ghost var s1 := View();
      AppendUnfolds(s, r, reservedAfter, works, ok, s1);
      if ok {
        Store(r);
        assert View() == s1.(pending := s1.pending + [r], recorded := s1.recorded + 1);
      }
    }

    method Store(r: Record)
      requires Valid() && Encodable(r) && used + r.Size() <= capacity
      modifies `used, `pending, `recorded, buffer
      ensures Valid()
      ensures View() == old(View().(pending := pending + [r], recorded := recorded + 1))
    {
      ghost var s, before, was := View(), buffer[..], used;
      CopyIn(Encode(r));
      StoreHolds(before, was, pending, capacity, r, buffer[..], used);
      pending := pending + [r];
      recorded := recorded + 1;
      assert Holds(buffer[..], used, pending, capacity);
      assert View() == s.(pending := s.pending + [r], recorded := s.recorded + 1);
    }

    /** Copies the header and, if there is one, the name. */
    method CopyIn(bytes: seq<Byte>)
      requires used + |bytes| <= buffer.Length
      modifies `used, buffer
      ensures used == old(used) + |bytes|
      ensures buffer[..used] == old(buffer[..used]) + bytes
    {
      ghost var before := buffer[..used];
      for i := 0 to |bytes|
        invariant used == old(used) + i <= buffer.Length
        invariant buffer[..used] == before + bytes[..i]
      {
        buffer[used] := bytes[i];
        used := used + 1;
      }
    }

    /** A manual or an automatic beginning. */
    method BeginValue(r: Record)
      requires Valid() && r.Opens() && Encodable(r.(name := []))
      modifies this, buffer, file`text, file`failed, file`firstEvent, file`events
      ensures Valid()
      ensures Gained(old(file.events), old(flushed))
      ensures View() == Step(old(View()), BeginZone(r, old(Works()))).1
    {
      ghost var s, works := View(), Works();
      GainedNothing();
      depth := depth + 1;
      if suppressed != 0 {
        suppressed := suppressed + 1;
        dropped := dropped + 1;
        assert View() == s.(depth := s.depth + 1, suppressed := s.suppressed + 1, dropped := s.dropped + 1);
        return;
      }
      RecordBegin(r, s, works);
    }

    /** Records a beginning or suppresses its zone; the depth already counts it. */
    method RecordBegin(r: Record, ghost s: State, ghost works: bool)
      requires Valid() && r.Opens() && Encodable(r.(name := []))
      requires View() == s.(depth := s.depth + 1) && s.suppressed == 0 && works == Works()
      modifies this, buffer, file`text, file`failed, file`firstEvent, file`events
      ensures Valid()
      ensures Gained(old(file.events), old(flushed))
      ensures View() == Step(s, BeginZone(r, works)).1
    {
      var refused, after := reserved == SIZE_MAX, reserved + 1;
      ghost var s1 := View();
      var ok := AppendUnless(refused, r, after);
      ghost var s2 := View();
      BeginUnfolds(s, s1, r, works, refused, after, ok, s2);
      ReserveOrSuppress(ok);
    }

    /** Room for the end of a recorded zone is reserved; what is inside another is suppressed. */
    method ReserveOrSuppress(ok: bool)
      requires Valid()
      modifies `reserved, `suppressed, `dropped
      ensures Valid() && View() == Opened(old(View()), ok).1
    {
      if ok {
        reserved := reserved + 1;
      } else {
        suppressed := 1;
        dropped := dropped + 1;
      }
    }

    method AppendUnless(refused: bool, r: Record, reservedAfter: nat) returns (ok: bool)
      requires Valid() && Encodable(r.(name := []))
      modifies `used, `pending, `flushed, `recorded, buffer, file`text, file`failed, file`firstEvent, file`events
      ensures Valid()
      ensures Gained(old(file.events), old(flushed))
      ensures (ok, View()) == TraceModel.AppendUnless(old(View()), refused, r, reservedAfter, old(Works()))
    {
      GainedNothing();
      if refused { return false; }
      ok := Append(r, reservedAfter);
    }

    method EndImpl(timestamp: nat)
      requires Valid() && timestamp <= UINT64_MAX
      modifies this, buffer, file`text, file`failed, file`firstEvent, file`events
      ensures Valid()
      ensures Gained(old(file.events), old(flushed))
      ensures View() == Step(old(View()), EndZone(timestamp, old(Works()))).1
    {
      ghost var s, works := View(), Works();
      GainedNothing();
      if depth == 0 {
        dropped := dropped + 1;
        assert View() == s.(dropped := s.dropped + 1);
        return;
      }
      depth := depth - 1;
      if suppressed != 0 {
        suppressed := suppressed - 1;
        dropped := dropped + 1;
        assert View() == s.(depth := s.depth - 1, suppressed := s.suppressed - 1, dropped := s.dropped + 1);
        return;
      }
      RecordEnd(timestamp, s, works);
    }

    /** Records the end of a recorded zone; the depth already excludes it. */
    method RecordEnd(timestamp: nat, ghost s: State, ghost works: bool)
      requires Valid() && timestamp <= UINT64_MAX
      requires s.depth > 0 && View() == s.(depth := s.depth - 1) && s.suppressed == 0 && works == Works()
      modifies this, buffer, file`text, file`failed, file`firstEvent, file`events
      ensures Valid()
      ensures Gained(old(file.events), old(flushed))
      ensures View() == Step(s, EndZone(timestamp, works)).1
    {
      var refused, after: nat := reserved == 0, if reserved == 0 then 0 else reserved - 1;
      ghost var s1 := View();
      var ok := AppendUnless(refused, End(timestamp), after);
      EndUnfolds(s, s1, timestamp, works, refused, after, ok, View());
      GiveBack(ok);
    }

    /** The room of an end record is no longer reserved, whether or not it was used. */
    method GiveBack(recordedNow: bool)
      requires Valid()
      modifies `dropped, `reserved
      ensures Valid()
      ensures View() == TraceModel.GiveBack(old(View()), recordedNow)
    {
      if !recordedNow { dropped := dropped + 1; }
      if reserved != 0 { reserved := reserved - 1; }
    }

    /** Instants and counters. */
    method MarkEvent(r: Record)
      requires Valid() && !r.Opens() && !r.kind.EndRecord? && Encodable(r.(name := []))
      modifies this, buffer, file`text, file`failed, file`firstEvent, file`events
      ensures Valid()
      ensures Gained(old(file.events), old(flushed))
      ensures View() == Step(old(View()), Mark(r, old(Works()))).1
    {
      var ok := false;
      GainedNothing();
      if suppressed == 0 { ok := Append(r, reserved); }
      if !ok { dropped := dropped + 1; }
    }

    /** Closes the innermost open zone. */
    method CloseInnermost(clock: seq<nat>)
      requires Valid() && Inv(View()) && suppressed == 0
      requires 0 < reserved <= |clock| && forall i :: 0 <= i < |clock| ==> clock[i] <= UINT64_MAX
      modifies this, buffer, file`text, file`failed, file`firstEvent, file`events
      ensures Valid() && View() == Closed(old(View()), clock)
      ensures file.closed == old(file.closed) && file.events == old(file.events)
    {
      ghost var s, works := View(), Works();
      var r, after := End(clock[reserved - 1]), reserved - 1;
      var ok := Append(r, after);
      ghost var s1 := View();
      GiveBack(ok);
      ghost var s2 := View();
      ClosesOne(s, clock, r, after, works, ok, s1, s2);
      if depth != 0 { depth := depth - 1; }
      assert View() == s2.(depth := s.depth - 1);
    }

    method CloseOpenZones(clock: seq<nat>)
      requires Valid() && Inv(View()) && suppressed == 0
      requires reserved <= |clock| && forall i :: 0 <= i < |clock| ==> clock[i] <= UINT64_MAX
      modifies this, buffer, file`text, file`failed, file`firstEvent, file`events
      ensures Valid() && View() == AllClosed(old(View()), clock)
      ensures file.closed == old(file.closed) && file.events == old(file.events)
    {
      while reserved != 0
        invariant Valid() && Inv(View()) && suppressed == 0 && reserved <= |clock|
        invariant file.closed == old(file.closed) && file.events == old(file.events)
        invariant AllClosed(View(), clock) == AllClosed(old(View()), clock)
        decreases reserved
      {
        CloseOne(View(), clock, true);
        CloseInnermost(clock);
      }
    }

    /** Closes the recorded zones still open, then flushes. `clock[n]` is the time at which
        the zone of nesting level `n` is closed. */
    method CloseAndFlush(clock: seq<nat>, streamOk: bool) returns (ok: bool, unbalanced: bool)
      requires Valid() && Inv(View())
      requires reserved <= |clock| && forall i :: 0 <= i < |clock| ==> clock[i] <= UINT64_MAX
      modifies this, buffer, file`text, file`failed, file`firstEvent, file`events
      ensures Valid() && unbalanced == (old(depth) != 0)
      ensures var records := CloseZones(ForgetSuppressed(old(View())), clock, true).pending;
              && (ok, View()) == Finish(old(View()), clock, old(Fits(file, thread, records)) && streamOk)
              && (ok ==> file.events == old(file.events) + Tracing(thread, records))
    {
      ghost var s := View();
      unbalanced := depth != 0;
      depth := depth - suppressed;
      suppressed := 0;
      assert View() == ForgetSuppressed(s);
      ForgetKeeps(s);
      CloseOpenZones(clock);
      depth := 0;
      FinishUnfolds(s, clock, Works() && streamOk, View());
      AllClosedIs(ForgetSuppressed(s), clock, true);
      ok := FlushInternal(true, streamOk);
    }

    /** The same, and the file has one thread less. */
    method FinishThread(clock: seq<nat>, streamOk: bool) returns (ok: bool, unbalanced: bool)
      requires Valid() && Inv(View())
      requires reserved <= |clock| && forall i :: 0 <= i < |clock| ==> clock[i] <= UINT64_MAX
      modifies this, buffer, file`text, file`failed, file`firstEvent, file`events, file`activeThreads
      ensures Valid() && unbalanced == (old(depth) != 0)
      ensures file.activeThreads == if old(file.activeThreads) == 0 then 0 else old(file.activeThreads) - 1
      ensures var records := CloseZones(ForgetSuppressed(old(View())), clock, true).pending;
              && (ok, View()) == Finish(old(View()), clock, old(Fits(file, thread, records)) && streamOk)
              && (ok ==> file.events == old(file.events) + Tracing(thread, records))
    {
      ok, unbalanced := CloseAndFlush(clock, streamOk);
      file.Detach();
    }
  }

  lemma FinishUnfolds(s: State, clock: seq<nat>, works: bool, closed: State)
    requires Inv(s) && s.reserved <= |clock| && Inv(ForgetSuppressed(s))
    requires closed == AllClosed(ForgetSuppressed(s), clock).(depth := 0)
    ensures Finish(s, clock, works) == FlushThrough(closed, works)
  {
    AllClosedIs(ForgetSuppressed(s), clock, works);
  }

  lemma StoreHolds(before: seq<Byte>, used: nat, rs: seq<Record>, capacity: nat, r: Record, after: seq<Byte>,
      used': nat)
    requires Holds(before, used, rs, capacity) && Encodable(r)
    requires |after| == capacity && used' == used + r.Size() <= capacity && after[..used'] == before[..used] + Encode(r)
    ensures Holds(after, used', rs + [r], capacity)
  {
  }

  lemma AppendUnfolds(s: State, r: Record, reservedAfter: nat, works: bool, ok: bool, s1: State)
    requires |r.name| <= UINT32_MAX && (ok, s1) == TraceModel.EnsureSpace(s, r.Size(), reservedAfter, works)
    ensures TraceModel.Append(s, r, reservedAfter, works) ==
              (ok, if ok then s1.(pending := s1.pending + [r], recorded := s1.recorded + 1) else s1)
  {
  }

  lemma BeginUnfolds(s: State, s1: State, r: Record, works: bool, refused: bool, after: nat, ok: bool, s2: State)
    requires s.suppressed == 0 && refused == (s.reserved == SIZE_MAX) && after == s.reserved + 1
        && s1 == s.(depth := s.depth + 1)
    requires (ok, s2) == TraceModel.AppendUnless(s1, refused, r, after, works)
    ensures Step(s, BeginZone(r, works)) == Opened(s2, ok)
  {
  }

  lemma EndUnfolds(s: State, s1: State, timestamp: nat, works: bool, refused: bool, after: nat, ok: bool, s2: State)
    requires s.suppressed == 0 && s.depth > 0 && s1 == s.(depth := s.depth - 1)
    requires refused == (s.reserved == 0) && after == if s.reserved == 0 then 0 else s.reserved - 1
    requires (ok, s2) == TraceModel.AppendUnless(s1, refused, End(timestamp), after, works)
    ensures Step(s, EndZone(timestamp, works)).1 == TraceModel.GiveBack(s2, ok)
  {
  }

  ghost function AllClosed(s: State, clock: seq<nat>): State
    requires Inv(s) && s.suppressed == 0 && s.reserved <= |clock|
    decreases s.reserved
  {
    if s.reserved == 0 then s
    else
      CloseOne(s, clock, true);
      AllClosed(Closed(s, clock), clock)
  }

  lemma {:induction false} AllClosedIs(s: State, clock: seq<nat>, flushOk: bool)
    requires Inv(s) && s.suppressed == 0 && s.reserved <= |clock|
    ensures AllClosed(s, clock) == CloseZones(s, clock, flushOk)
    decreases s.reserved
  {
    if s.reserved > 0 {
      CloseOne(s, clock, flushOk);
      AllClosedIs(Closed(s, clock), clock, flushOk);
    }
  }

  lemma PartlyNone(start: seq<Event>, more: seq<Event>)
    ensures Partly(start, more, start)
  {
    assert start == start + more[..0];
  }

  lemma {:induction false} HeadGrows(process: nat, es: seq<Event>, more: seq<Event>)
    ensures |Head(process, es)| <= |Head(process, es + more)|
    decreases |more|
  {
    if more == [] {
      assert es + more == es;
    } else {
      var init, last := more[..|more| - 1], more[|more| - 1];
      HeadGrows(process, es, init);
      HeadAppends(process, es + init, last);
      Snoc(es, more);
    }
  }

  lemma {:induction false} Snoc<T>(a: seq<T>, b: seq<T>)
    requires b != []
    ensures a + b[..|b| - 1] + [b[|b| - 1]] == a + b
  {
  }

  lemma {:induction false} NextOf<T>(a: seq<T>, b: seq<T>, k: nat)
    requires k < |b|
    ensures a + b[..k + 1] == a + b[..k] + [b[k]]
    ensures a + b[..k] + [b[k]] + b[k + 1..] == a + b
  {
  }

  lemma {:induction false} NextEvent(process: nat, start: seq<Event>, more: seq<Event>, k: nat)
    requires k < |more|
    ensures start + more[..k + 1] == start + more[..k] + [more[k]]
    ensures |Head(process, start + more[..k] + [more[k]])| <= |Head(process, start + more)|
  {
    NextOf(start, more, k);
    HeadGrows(process, start + more[..k] + [more[k]], more[k + 1..]);
  }

  lemma NothingPending(rs: seq<Record>)
    requires TotalSize(rs) == 0
    ensures rs == []
  {
  }

  lemma {:induction false} SizeGrows(rs: seq<Record>, k: nat)
    requires k <= |rs|
    ensures TotalSize(rs[..k]) + 24 * (|rs| - k) <= TotalSize(rs)
  {
    if k == |rs| {
      assert rs[..k] == rs;
    } else {
      var n := |rs| - 1;
      SizeGrows(rs[..n], k);
      assert rs[..n][..k] == rs[..k];
    }
  }

  lemma OffsetBelow(rs: seq<Record>, k: nat)
    requires k <= |rs| && TotalSize(rs[..k]) < TotalSize(rs)
    ensures k < |rs|
  {
    assert rs[..|rs|] == rs;
  }

  lemma OffsetAtEnd(rs: seq<Record>, k: nat)
    requires k <= |rs| && TotalSize(rs[..k]) >= TotalSize(rs)
    ensures k == |rs|
  {
    SizeGrows(rs, k);
  }
}
