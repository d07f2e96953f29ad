// What the recorder of src/trace.c guarantees over every sequence of calls.

module TraceTheorems {
  import opened Bits
  import opened TraceModel

  ghost predicate Run(states: seq<State>, calls: seq<Call>, flags: seq<bool>) {
    && |states| == |calls| + 1 && |flags| == |calls|
    && Init(states[0])
    && forall i :: 0 <= i < |calls| ==> IsStep(states[i], calls[i], flags[i], states[i + 1])
  }

  /** `flag` says whether the call was recorded. */
  ghost predicate IsStep(s: State, c: Call, flag: bool, s': State) {
    ValidCall(c) && Step(s, c) == (flag, s')
  }

  /** The begin calls open after the first `n` calls, outermost first: how the caller nests
      zones, whatever the recorder does. An end without a begin closes nothing. */
  ghost function OpenBegins(calls: seq<Call>, n: nat): (open: seq<nat>)
    requires n <= |calls|
    ensures forall k :: 0 <= k < |open| ==> open[k] < n && calls[open[k]].BeginZone?
  {
    if n == 0 then []
    else
      var before := OpenBegins(calls, n - 1);
      if calls[n - 1].BeginZone? then before + [n - 1]
      else if calls[n - 1].EndZone? && before != [] then before[..|before| - 1]
      else before
  }

  ghost function RecordOf(c: Call): Record
    requires IsEvent(c)
  {
    match c
    case BeginZone(r, _) => r
    case EndZone(timestamp, _) => End(timestamp)
    case Mark(r, _) => r
  }

  /** The records of the calls that were recorded, in call order. */
  ghost function RecordedCalls(calls: seq<Call>, flags: seq<bool>, n: nat): seq<Record>
    requires n <= |calls| && n <= |flags|
    requires OnlyEvents(calls, flags, n)
  {
    if n == 0 then []
    else RecordedCalls(calls, flags, n - 1) + if flags[n - 1] then [RecordOf(calls[n - 1])] else []
  }

  ghost function Events(calls: seq<Call>, n: nat): nat
    requires n <= |calls|
  {
    if n == 0 then 0 else Events(calls, n - 1) + if IsEvent(calls[n - 1]) then 1 else 0
  }

  /** The number of zones a record sequence leaves open, or -1 if some end closes nothing. */
  ghost function Nesting(rs: seq<Record>): int {
    if rs == [] then 0
    else
      var before, last := Nesting(rs[..|rs| - 1]), rs[|rs| - 1];
      if before < 0 then before
      else if last.Opens() then before + 1
      else if last.kind.EndRecord? then before - 1
      else before
  }

  lemma NestingAppends(rs: seq<Record>, r: Record)
    ensures Nesting(rs + [r]) == if Nesting(rs) < 0 then Nesting(rs)
                                 else if r.Opens() then Nesting(rs) + 1
                                 else if r.kind.EndRecord? then Nesting(rs) - 1 else Nesting(rs)
  {
  }

  /** Recording the end of a recorded zone never fails and never needs a flush: the room
      was reserved at the beginning, in both buffer modes and after failed flushes. */
  lemma EndHasRoom(s: State, timestamp: nat, flushOk: bool)
    requires Inv(s) && s.suppressed == 0 && s.depth > 0
    ensures Step(s, EndZone(timestamp, flushOk)) ==
              (true, s.(pending := s.pending + [End(timestamp)], depth := s.depth - 1,
                        reserved := s.reserved - 1, recorded := s.recorded + 1))
    ensures Inv(Step(s, EndZone(timestamp, flushOk)).1)
    ensures Step(s, EndZone(timestamp, flushOk)).1.History() == s.History() + [End(timestamp)]
  {
    var s1 := s.(depth := s.depth - 1);
    Room(s1, HEADER, s.reserved - 1);
    assert s1.Used() == s.Used();
    assert (s.pending + [End(timestamp)])[..|s.pending|] == s.pending;
    assert s.flushed + (s.pending + [End(timestamp)]) == s.History() + [End(timestamp)];
  }

  /** What one call does to the counters and the history. */
  ghost predicate Tallies(s: State, c: Call, flag: bool, s': State) {
    && Inv(s')
    && (flag ==> IsEvent(c))
    && s'.History() == s.History() + (if flag then [RecordOf(c)] else [])
    && s'.recorded + s'.dropped == s.recorded + s.dropped + (if IsEvent(c) then 1 else 0)
    && (flag && !c.EndZone? ==> s.suppressed == 0)
    && (c.EndZone? ==> (flag <==> s.depth > 0 && s.suppressed == 0))
    && s'.depth == (if c.BeginZone? then s.depth + 1 else if c.EndZone? && s.depth > 0 then s.depth - 1 else s.depth)
    && s'.reserved == (if !flag then s.reserved else if c.BeginZone? then s.reserved + 1
                       else if c.EndZone? then s.reserved - 1 else s.reserved)
  }

  lemma BeginTallies(s: State, r: Record, flushOk: bool)
    requires Inv(s)
    ensures var (flag, s') := Step(s, BeginZone(r, flushOk)); Tallies(s, BeginZone(r, flushOk), flag, s')
  {
    if s.suppressed == 0 && s.reserved != SIZE_MAX {
      var s1 := s.(depth := s.depth + 1);
      var (ok, s2) := Append(s1, r, s.reserved + 1, flushOk);
      assert s1.History() == s.History();
      AppendKeeps(s1, r, s.reserved + 1, flushOk);
      BeginAppended(s, r, flushOk, s1, ok, s2);
    } else {
      BeginRefused(s, r, flushOk);
    }
  }

  lemma BeginRefused(s: State, r: Record, flushOk: bool)
    requires Inv(s) && (s.suppressed != 0 || s.reserved == SIZE_MAX)
    ensures var (flag, s') := Step(s, BeginZone(r, flushOk)); Tallies(s, BeginZone(r, flushOk), flag, s')
  {
  }

  lemma BeginAppended(s: State, r: Record, flushOk: bool, s1: State, ok: bool, s2: State)
    requires Inv(s) && s.suppressed == 0 && s.reserved != SIZE_MAX && s1 == s.(depth := s.depth + 1)
    requires Appended(s1, r, s.reserved + 1, ok, s2)
    ensures var (flag, s') := if ok then (true, s2.(reserved := s2.reserved + 1)) else Suppress(s2);
            Tallies(s, BeginZone(r, flushOk), flag, s')
  {
  }

  lemma EndTallies(s: State, timestamp: nat, flushOk: bool)
    requires Inv(s)
    ensures var (flag, s') := Step(s, EndZone(timestamp, flushOk)); Tallies(s, EndZone(timestamp, flushOk), flag, s')
  {
    assert s.History() + [] == s.History();
    if s.suppressed == 0 && s.depth > 0 { EndHasRoom(s, timestamp, flushOk); }
  }

  lemma StepTallies(s: State, c: Call)
    requires Inv(s) && ValidCall(c)
    ensures var (flag, s') := Step(s, c); Tallies(s, c, flag, s')
  {
    assert s.History() + [] == s.History();
    match c
    case BeginZone(r, flushOk) => BeginTallies(s, r, flushOk);
    case EndZone(timestamp, flushOk) => EndTallies(s, timestamp, flushOk);
    case Mark(r, flushOk) => AppendKeeps(s, r, s.reserved, flushOk);
    case FlushCall(flushOk) => assert Step(s, c).1.History() == s.History();
    case FileBreaks =>
  }

  lemma NestingFollows(s: State, c: Call)
    requires Inv(s) && ValidCall(c) && Nesting(s.History()) == s.reserved
    ensures var s' := Step(s, c).1; Nesting(s'.History()) == s'.reserved
  {
    StepTallies(s, c);
    var (flag, s') := Step(s, c);
    if flag { NestingAppends(s.History(), RecordOf(c)); } else { assert s.History() + [] == s.History(); }
  }

  /** The open zones of the caller: the outer ones were recorded, the inner ones not. */
  ghost predicate ZonesAre(calls: seq<Call>, flags: seq<bool>, n: nat, s: State)
    requires n <= |calls| && n <= |flags|
  {
    && |OpenBegins(calls, n)| == s.depth
    && forall k :: 0 <= k < s.depth ==> (flags[OpenBegins(calls, n)[k]] <==> k < s.reserved)
  }

  /** Everything a run keeps; the later results are its consequences. */
  ghost predicate Kept(calls: seq<Call>, flags: seq<bool>, n: nat, s: State)
    requires n <= |calls| && n <= |flags|
  {
    && Inv(s) && Nesting(s.History()) == s.reserved
    && ZonesAre(calls, flags, n, s)
    && OnlyEvents(calls, flags, n)
    && s.History() == RecordedCalls(calls, flags, n)
    && s.recorded + s.dropped == Events(calls, n)
  }

  ghost predicate OnlyEvents(calls: seq<Call>, flags: seq<bool>, n: nat)
    requires n <= |calls| && n <= |flags|
  {
    forall i :: 0 <= i < n && flags[i] ==> IsEvent(calls[i])
  }

  lemma {:induction false} RunKeeps(states: seq<State>, calls: seq<Call>, flags: seq<bool>, n: nat)
    requires Run(states, calls, flags) && n <= |calls|
    ensures Kept(calls, flags, n, states[n])
  {
    if n == 0 {
      InitKept(calls, flags, states[0]);
    } else {
      var k := n - 1;
      RunKeeps(states, calls, flags, k);
      assert IsStep(states[k], calls[k], flags[k], states[k + 1]);
      KeptStep(calls, flags, k, states[k], states[k + 1]);
    }
  }

  lemma InitKept(calls: seq<Call>, flags: seq<bool>, s: State)
    requires Init(s) && |calls| == |flags|
    ensures Kept(calls, flags, 0, s)
  {
  }

  lemma KeptStep(calls: seq<Call>, flags: seq<bool>, n: nat, s: State, s': State)
    requires n < |calls| && n < |flags| && Kept(calls, flags, n, s) && IsStep(s, calls[n], flags[n], s')
    ensures Kept(calls, flags, n + 1, s')
  {
    StepTallies(s, calls[n]);
    NestingFollows(s, calls[n]);
    ZonesStep(calls, flags, n, s, s');
  }

  lemma ZonesStep(calls: seq<Call>, flags: seq<bool>, n: nat, s: State, s': State)
    requires n < |calls| && n < |flags| && Inv(s) && Inv(s')
    requires ZonesAre(calls, flags, n, s) && IsStep(s, calls[n], flags[n], s')
    ensures ZonesAre(calls, flags, n + 1, s')
  {
    StepTallies(s, calls[n]);
    var open, open' := OpenBegins(calls, n), OpenBegins(calls, n + 1);
    assert |open'| == s'.depth;
    forall k | 0 <= k < s'.depth ensures flags[open'[k]] <==> k < s'.reserved {
      if k < s.depth { assert open'[k] == open[k]; }
    }
  }

  // ---------- The promises ----------

  /** An end is recorded exactly when it closes a zone whose beginning was recorded. */
  lemma EndMatchesBegin(states: seq<State>, calls: seq<Call>, flags: seq<bool>, i: nat)
    requires Run(states, calls, flags) && i < |calls| && calls[i].EndZone?
    ensures var open := OpenBegins(calls, i);
            flags[i] <==> open != [] && flags[open[|open| - 1]]
  {
    RunKeeps(states, calls, flags, i);
    assert IsStep(states[i], calls[i], flags[i], states[i + 1]);
    StepTallies(states[i], calls[i]);
  }

  /** Inside a zone that was not recorded nothing is recorded: zones go as a whole. */
  lemma SuppressedZoneIsSilent(states: seq<State>, calls: seq<Call>, flags: seq<bool>, i: nat, k: nat)
    requires Run(states, calls, flags) && i < |calls|
    requires k < |OpenBegins(calls, i)| && !flags[OpenBegins(calls, i)[k]]
    ensures !flags[i]
  {
    RunKeeps(states, calls, flags, i);
    assert IsStep(states[i], calls[i], flags[i], states[i + 1]);
    StepTallies(states[i], calls[i]);
  }

  /** Flushed and buffered records together are the records of the recorded calls, in
      order, properly nested; every event is either recorded or counted as dropped. */
  lemma HistoryIsFaithful(states: seq<State>, calls: seq<Call>, flags: seq<bool>, n: nat)
    requires Run(states, calls, flags) && n <= |calls|
    ensures OnlyEvents(calls, flags, n)
    ensures states[n].flushed + states[n].pending == RecordedCalls(calls, flags, n)
    ensures 0 <= Nesting(states[n].flushed + states[n].pending) <= states[n].depth
    ensures |states[n].History()| + states[n].dropped == Events(calls, n)
    ensures states[n].Used() + 24 * states[n].reserved <= states[n].capacity
  {
    RunKeeps(states, calls, flags, n);
  }

  /** When a zone is recorded: exactly when no enclosing zone was suppressed, its name
      fits a record, and its begin plus all open ends fit the buffer, possibly after a
      flush that works. */
  lemma BeginRecordedExactly(s: State, r: Record, flushOk: bool)
    requires Inv(s)
    ensures Step(s, BeginZone(r, flushOk)).0 <==>
              && s.suppressed == 0 && |r.name| <= UINT32_MAX
              && (|| s.Used() + r.Size() + 24 * (s.reserved + 1) <= s.capacity
                  || (&& s.mode.FlushWhenFull? && s.pending != [] && !s.failed && flushOk
                      && r.Size() + 24 * (s.reserved + 1) <= s.capacity))
  {
  }

  /** When an instant or a counter is recorded: exactly when no enclosing zone was suppressed,
      its name fits a record, and it fits the buffer beside the reserved ends, possibly after
      a flush that works. */
  lemma MarkRecordedExactly(s: State, r: Record, flushOk: bool)
    requires Inv(s)
    ensures Step(s, Mark(r, flushOk)).0 <==>
              && s.suppressed == 0 && |r.name| <= UINT32_MAX
              && (|| s.Used() + r.Size() + 24 * s.reserved <= s.capacity
                  || (&& s.mode.FlushWhenFull? && s.pending != [] && !s.failed && flushOk
                      && r.Size() + 24 * s.reserved <= s.capacity))
  {
  }

  /** The call is for a record that does not fit behind those in the buffer. */
  ghost predicate NeedsFlush(s: State, c: Call) {
    && s.suppressed == 0 && s.mode.FlushWhenFull? && s.pending != []
    && (c.BeginZone? || c.Mark?) && |c.record.name| <= UINT32_MAX
    && s.Used() + c.record.Size() + 24 * (s.reserved + if c.BeginZone? then 1 else 0) > s.capacity
  }

  /** What has been handed to the file, and that it failed. */
  ghost predicate Wrote(s: State, ok: bool, s': State) {
    if s.failed || !ok then s'.failed && s'.flushed == s.flushed
    else !s'.failed && s'.flushed == s.History()
  }

  /** Every call flushes exactly when it is a flush, or the buffer is full and may be flushed. */
  lemma FlushesExactly(s: State, c: Call)
    requires Inv(s) && ValidCall(c)
    ensures var s' := Step(s, c).1;
            if c.FlushCall? then Wrote(s, c.flushOk, s') && s'.History() == s.History()
            else if NeedsFlush(s, c) then Wrote(s, c.flushOk, s')
            else s'.flushed == s.flushed && s'.failed == (s.failed || c.FileBreaks?)
  {
    match c
    case BeginZone(r, flushOk) => if s.suppressed == 0 { AppendFlushesExactly(s, r, s.reserved + 1, flushOk); }
    case EndZone(timestamp, flushOk) => if s.suppressed == 0 && s.depth > 0 { EndHasRoom(s, timestamp, flushOk); }
    case Mark(r, flushOk) => if s.suppressed == 0 { AppendFlushesExactly(s, r, s.reserved, flushOk); }
    case FlushCall(flushOk) => assert s.flushed + s.pending + [] == s.History();
    case FileBreaks =>
  }

  lemma AppendFlushesExactly(s: State, r: Record, reservedAfter: nat, flushOk: bool)
    requires Buffered(s)
    ensures var s' := Append(s, r, reservedAfter, flushOk).1;
            if |r.name| <= UINT32_MAX && s.mode.FlushWhenFull? && s.pending != []
               && s.Used() + r.Size() + 24 * reservedAfter > s.capacity
            then Wrote(s, flushOk, s')
            else s'.flushed == s.flushed && s'.failed == s.failed
  {
    Room(s, r.Size(), reservedAfter);
  }

  // ---------- Finishing ----------

  /** Closes the recorded zones still open; suppressed ones are forgotten. `clock` gives
      the time of each closing record. */
  function CloseZones(s: State, clock: seq<nat>, flushOk: bool): State
    requires s.reserved <= |clock|
    decreases s.reserved
  {
    if s.reserved == 0 then s
    else
      var (ok, s') := Append(s, End(clock[s.reserved - 1]), s.reserved - 1, flushOk);
      CloseZones(s'.(reserved := s.reserved - 1, depth := if s.depth != 0 then s.depth - 1 else 0,
                     dropped := if ok then s'.dropped else s'.dropped + 1), clock, flushOk)
  }

  /** (The suppressed depth never exceeds the depth; the guard makes the definition total.) */
  function ForgetSuppressed(s: State): State {
    s.(depth := if s.suppressed <= s.depth then s.depth - s.suppressed else 0, suppressed := 0)
  }

  function Finish(s: State, clock: seq<nat>, flushOk: bool): (bool, State)
    requires s.reserved <= |clock|
  {
    FlushThrough(CloseZones(ForgetSuppressed(s), clock, flushOk).(depth := 0), flushOk)
  }

  /** The state after the innermost open zone was closed. */
  ghost function Closed(s: State, clock: seq<nat>): State
    requires 0 < s.reserved <= |clock| && s.depth > 0
  {
    s.(pending := s.pending + [End(clock[s.reserved - 1])], depth := s.depth - 1,
       reserved := s.reserved - 1, recorded := s.recorded + 1)
  }

  lemma CloseOne(s: State, clock: seq<nat>, flushOk: bool)
    requires Inv(s) && s.suppressed == 0 && 0 < s.reserved <= |clock|
    ensures Inv(Closed(s, clock)) && Closed(s, clock).History() == s.History() + [End(clock[s.reserved - 1])]
    ensures CloseZones(s, clock, flushOk) == CloseZones(Closed(s, clock), clock, flushOk)
    ensures var (ok, s1) := Append(s, End(clock[s.reserved - 1]), s.reserved - 1, flushOk);
            GiveBack(s1, ok).depth == s.depth && Closed(s, clock) == GiveBack(s1, ok).(depth := s.depth - 1)
  {
  }

  /** The same, for a recorder that appends `r` and gives its room back. */
  lemma ClosesOne(s: State, clock: seq<nat>, r: Record, after: nat, flushOk: bool, ok: bool, s1: State, s2: State)
    requires Inv(s) && s.suppressed == 0 && 0 < s.reserved <= |clock|
    requires r == End(clock[s.reserved - 1]) && after == s.reserved - 1
    requires (ok, s1) == Append(s, r, after, flushOk) && s2 == GiveBack(s1, ok)
    ensures s2.depth == s.depth > 0 && Closed(s, clock) == s2.(depth := s.depth - 1)
    ensures s1.flushed == s.flushed && s1.failed == s.failed
  {
    CloseOne(s, clock, flushOk);
  }

  lemma {:induction false} CloseZonesBalances(s: State, clock: seq<nat>, flushOk: bool)
    requires Inv(s) && s.suppressed == 0 && s.reserved <= |clock| && Nesting(s.History()) == s.reserved
    ensures var s' := CloseZones(s, clock, flushOk);
            && Inv(s') && s'.reserved == 0 && s'.dropped == s.dropped && s'.failed == s.failed
            && s.History() <= s'.History() && |s'.History()| == |s.History()| + s.reserved
            && s'.flushed == s.flushed
            && Nesting(s'.History()) == 0
    decreases s.reserved
  {
    if s.reserved > 0 {
      CloseOne(s, clock, flushOk);
      NestingAppends(s.History(), End(clock[s.reserved - 1]));
      CloseZonesBalances(Closed(s, clock), clock, flushOk);
    }
  }

  /** After finishing, begins and ends balance exactly and nothing recorded is lost; when
      the file works, everything recorded has been handed to it. */
  lemma FinishBalances(states: seq<State>, calls: seq<Call>, flags: seq<bool>, clock: seq<nat>, flushOk: bool)
    requires Run(states, calls, flags) && states[|calls|].reserved <= |clock|
    ensures var s, (ok, s') := states[|calls|], Finish(states[|calls|], clock, flushOk);
            && Nesting(s'.History()) == 0 && s'.dropped == s.dropped
            && s.History() <= s'.History() && |s'.History()| == |s.History()| + s.reserved
            && (ok <==> !s.failed && flushOk)
            && (ok ==> s'.pending == [])
  {
    var s := states[|calls|];
    RunKeeps(states, calls, flags, |calls|);
    ForgetKeeps(s);
    CloseZonesBalances(ForgetSuppressed(s), clock, flushOk);
    FlushKeeps(CloseZones(ForgetSuppressed(s), clock, flushOk).(depth := 0), flushOk);
  }

  lemma ForgetKeeps(s: State)
    requires Inv(s)
    ensures var s' := ForgetSuppressed(s);
            Inv(s') && s'.suppressed == 0 && s'.reserved == s.reserved && s'.History() == s.History()
  {
  }

  lemma FlushKeeps(s: State, flushOk: bool)
    ensures var (ok, s') := FlushThrough(s, flushOk);
            && s'.History() == s.flushed + s.pending && s'.dropped == s.dropped
            && (ok <==> !s.failed && flushOk) && (ok ==> s'.pending == [])
  {
  }
}
