// From the calls of a thread to the text of the finished file: what src/trace.c promises to
// a program that starts a recorder, records, and finishes the thread and the file.

module TraceSessions {
  import opened Common
  import opened Bits
  import opened TraceModel
  import opened TraceTheorems
  import opened TraceCodec
  import opened Json
  import opened TraceFiles
  import opened TraceWriters
  import opened TraceThreads

  /** What the program asks for. Whether a flush inside a call succeeds is up to the file. */
  datatype Request =
    | Opening(record: Record)
    | Closing(timestamp: nat)
    | Point(record: Record)
    | Flushing(streamOk: bool)

  predicate ValidRequest(q: Request) {
    match q
    case Opening(r) => r.Opens() && Encodable(r.(name := []))
    case Closing(timestamp) => timestamp <= UINT64_MAX
    case Point(r) => (r.kind.InstantRecord? || r.kind.CounterRecord?) && Encodable(r.(name := []))
    case Flushing(_) => true
  }

  function CallOf(q: Request, works: bool): Call {
    match q
    case Opening(r) => BeginZone(r, works)
    case Closing(timestamp) => EndZone(timestamp, works)
    case Point(r) => Mark(r, works)
    case Flushing(streamOk) => FlushCall(works && streamOk)
  }

  ghost predicate Answers(requests: seq<Request>, calls: seq<Call>) {
    |calls| <= |requests| && forall i :: 0 <= i < |calls| ==> IsAnswer(requests[i], calls[i])
  }

  ghost predicate IsAnswer(q: Request, c: Call) {
    c == CallOf(q, false) || c == CallOf(q, true)
  }

  method Perform(recorder: TraceThread, q: Request)
    requires recorder.Valid() && ValidRequest(q)
    modifies recorder, recorder.buffer
    modifies recorder.file`text, recorder.file`failed, recorder.file`firstEvent, recorder.file`events
    ensures recorder.Valid()
    ensures recorder.View() == Step(old(recorder.View()), CallOf(q, old(recorder.Works()))).1
    ensures recorder.Gained(old(recorder.file.events), old(recorder.flushed))
  {
    match q
    case Opening(r) => recorder.BeginValue(r);
    case Closing(timestamp) => recorder.EndImpl(timestamp);
    case Point(r) => recorder.MarkEvent(r);
    case Flushing(streamOk) => var ok := recorder.FlushInternal(true, streamOk);
  }

  // ---------- Runs grow call by call ----------

  lemma RunGrows(states: seq<State>, calls: seq<Call>, flags: seq<bool>, c: Call, s: State)
    requires Run(states, calls, flags) && ValidCall(c) && s == Step(states[|calls|], c).1
    ensures Run(states + [s], calls + [c], flags + [Step(states[|calls|], c).0])
  {
    var flag := Step(states[|calls|], c).0;
    var states', calls', flags' := states + [s], calls + [c], flags + [flag];
    forall i | 0 <= i < |calls'| ensures IsStep(states'[i], calls'[i], flags'[i], states'[i + 1]) {
      var j := i + 1;
      if i < |calls| {
        assert IsStep(states[i], calls[i], flags[i], states[i + 1]);
        assert states'[i] == states[i] && states'[j] == states[j] && calls'[i] == calls[i] && flags'[i] == flags[i];
      } else {
        assert states'[i] == states[|calls|] && states'[j] == s && calls'[i] == c && flags'[i] == flag;
      }
    }
  }

  lemma FailureStays(s: State, c: Call)
    requires ValidCall(c) && s.failed
    ensures Step(s, c).1.failed
  {
  }

  lemma FewOpen(calls: seq<Call>, n: nat)
    requires n <= |calls|
    ensures |OpenBegins(calls, n)| <= n
  {
    if n > 0 { FewOpen(calls, n - 1); }
  }

  // ---------- The file and the flushed records ----------

  /** Unless it failed, the file holds what it held at the start and the flushed records. */
  ghost predicate InStep(start: seq<Event>, thread: nat, failed: bool, events: seq<Event>, flushed: seq<Record>) {
    !failed ==> events == start + Tracing(thread, flushed)
  }

  lemma TracingAppends(thread: nat, rs: seq<Record>, more: seq<Record>)
    ensures Tracing(thread, rs + more) == Tracing(thread, rs) + Tracing(thread, more)
  {
  }

  lemma StaysInStep(start: seq<Event>, thread: nat, before: seq<Record>, rest: seq<Record>, now: seq<Record>,
                    events: seq<Event>, events': seq<Event>)
    requires events == start + Tracing(thread, before) && now == before + rest
    requires events' == events + Tracing(thread, rest)
    ensures events' == start + Tracing(thread, now)
  {
    TracingAppends(thread, before, rest);
    var old', new' := Tracing(thread, before), Tracing(thread, rest);
    assert start + old' + new' == start + (old' + new');
  }

  // ---------- Closing the open zones ----------

  /** The ends written for zones still open at the end, innermost first. */
  ghost function ClosingEnds(open: nat, clock: seq<nat>): seq<Record>
    requires open <= |clock|
  {
    if open == 0 then [] else [End(clock[open - 1])] + ClosingEnds(open - 1, clock)
  }

  lemma {:induction false} CloseZonesAdds(s: State, clock: seq<nat>, flushOk: bool)
    requires Inv(s) && s.suppressed == 0 && s.reserved <= |clock|
    ensures var s' := CloseZones(s, clock, flushOk);
            s'.flushed == s.flushed && s'.History() == s.History() + ClosingEnds(s.reserved, clock)
    decreases s.reserved
  {
    if s.reserved == 0 {
      assert s.History() + [] == s.History();
    } else {
      CloseOne(s, clock, flushOk);
      CloseZonesAdds(Closed(s, clock), clock, flushOk);
      var first, rest := [End(clock[s.reserved - 1])], ClosingEnds(s.reserved - 1, clock);
      assert s.History() + first + rest == s.History() + (first + rest);
    }
  }

  // ---------- A whole session ----------

  /** A recorder after the calls of a run. */
  ghost predicate Ongoing(recorder: TraceThread, start: seq<Event>, states: seq<State>, calls: seq<Call>,
                          flags: seq<bool>)
    reads recorder, recorder.buffer, recorder.file
  {
    && recorder.Valid() && Run(states, calls, flags) && states[|calls|] == recorder.View()
    && InStep(start, recorder.thread, recorder.file.failed, recorder.file.events, recorder.flushed)
  }

  method Next(recorder: TraceThread, q: Request, ghost start: seq<Event>,
      ghost states: seq<State>, ghost calls: seq<Call>, ghost flags: seq<bool>)
      returns (ghost c: Call, ghost states': seq<State>, ghost flags': seq<bool>)
    requires Ongoing(recorder, start, states, calls, flags) && ValidRequest(q)
    modifies recorder, recorder.buffer
    modifies recorder.file`text, recorder.file`failed, recorder.file`firstEvent, recorder.file`events
    ensures Ongoing(recorder, start, states', calls + [c], flags') && IsAnswer(q, c)
  {
    ghost var s, events, before := recorder.View(), recorder.file.events, recorder.flushed;
    c := CallOf(q, recorder.Works());
    Perform(recorder, q);
    ghost var s' := recorder.View();
    states', flags' := states + [s'], flags + [Step(s, c).0];
    RunGrows(states, calls, flags, c, s');
    if s.failed { FailureStays(s, c); }
    if !recorder.file.failed {
      ghost var rest := recorder.flushed[|before|..];
      assert recorder.flushed == before + rest;
      StaysInStep(start, recorder.thread, before, rest, recorder.flushed, events, recorder.file.events);
    }
  }

  method RecordAll(recorder: TraceThread, requests: seq<Request>, ghost start: seq<Event>)
      returns (ghost states: seq<State>, ghost calls: seq<Call>, ghost flags: seq<bool>)
    requires recorder.Valid() && TraceModel.Init(recorder.View()) && recorder.file.events == start
    requires forall i :: 0 <= i < |requests| ==> ValidRequest(requests[i])
    modifies recorder, recorder.buffer
    modifies recorder.file`text, recorder.file`failed, recorder.file`firstEvent, recorder.file`events
    ensures Ongoing(recorder, start, states, calls, flags)
    ensures |calls| == |requests| && Answers(requests, calls)
  {
    states, calls, flags := [recorder.View()], [], [];
    assert start + Tracing(recorder.thread, []) == start;
    for i := 0 to |requests|
      invariant Ongoing(recorder, start, states, calls, flags)
      invariant |calls| == i && Answers(requests, calls)
    {
      ghost var c, states', flags' := Next(recorder, requests[i], start, states, calls, flags);
      states, calls, flags := states', calls + [c], flags';
    }
  }

  /** What the file holds in the end, after `start`. */
  ghost function Recorded(states: seq<State>, calls: seq<Call>, flags: seq<bool>, clock: seq<nat>): seq<Record>
    requires Run(states, calls, flags) && |calls| <= |clock|
  {
    RunKeeps(states, calls, flags, |calls|);
    FewOpen(calls, |calls|);
    RecordedCalls(calls, flags, |calls|) + ClosingEnds(states[|calls|].reserved, clock)
  }

  /** The records of the calls and of the finish, flushed or pending until then. */
  lemma FinishRecords(states: seq<State>, calls: seq<Call>, flags: seq<bool>, clock: seq<nat>)
    requires Run(states, calls, flags) && |calls| <= |clock|
    ensures Inv(states[|calls|]) && states[|calls|].reserved <= |clock|
    ensures var s := states[|calls|];
            s.flushed + CloseZones(ForgetSuppressed(s), clock, true).pending == Recorded(states, calls, flags, clock)
  {
    var s := states[|calls|];
    RunKeeps(states, calls, flags, |calls|);
    FewOpen(calls, |calls|);
    ForgetKeeps(s);
    CloseZonesAdds(ForgetSuppressed(s), clock, true);
  }

  lemma FinishNeedsFile(states: seq<State>, calls: seq<Call>, flags: seq<bool>, clock: seq<nat>, works: bool)
    requires Run(states, calls, flags) && states[|calls|].reserved <= |clock|
    ensures Finish(states[|calls|], clock, works).0 ==> !states[|calls|].failed
  {
    FinishBalances(states, calls, flags, clock, works);
  }

  method FinishRecorder(recorder: TraceThread, clock: seq<nat>, streamOk: bool, ghost start: seq<Event>,
      ghost states: seq<State>, ghost calls: seq<Call>, ghost flags: seq<bool>) returns (ok: bool)
    requires Ongoing(recorder, start, states, calls, flags) && |calls| <= |clock|
    requires forall i :: 0 <= i < |clock| ==> clock[i] <= UINT64_MAX
    modifies recorder, recorder.buffer, recorder.file
    ensures recorder.file.Valid() && recorder.file.closed == old(recorder.file.closed)
    ensures ok ==> recorder.file.events == start + Tracing(recorder.thread, Recorded(states, calls, flags, clock))
  {
    ghost var s, events := recorder.View(), recorder.file.events;
    FinishRecords(states, calls, flags, clock);
    ghost var rs, all := CloseZones(ForgetSuppressed(s), clock, true).pending, Recorded(states, calls, flags, clock);
    ghost var works := Fits(recorder.file, recorder.thread, rs) && streamOk;
    FinishNeedsFile(states, calls, flags, clock, works);
    var unbalanced;
    ok, unbalanced := recorder.FinishThread(clock, streamOk);
    if ok { StaysInStep(start, recorder.thread, s.flushed, rs, all, events, recorder.file.events); }
  }

  /** A program that starts a recorder on a file, makes any calls, and finishes the thread and
      the file. When both finishes succeed, a JSON reader of the file gets what it held before,
      the thread's name, the records of the recorded calls, in order, and the ends of the zones
      left open. */
  method Session(file: TraceFile, capacity: nat, mode: Mode, named: bool, name: string, requests: seq<Request>,
      clock: seq<nat>, streamOk: bool, endOk: bool)
      returns (finished: bool, ghost states: seq<State>, ghost calls: seq<Call>, ghost flags: seq<bool>)
    requires file.Valid() && !file.closed && 1024 <= capacity <= SIZE_MAX
    requires forall i :: 0 <= i < |requests| ==> ValidRequest(requests[i])
    requires |requests| <= |clock| && forall i :: 0 <= i < |clock| ==> clock[i] <= UINT64_MAX
    modifies file
    ensures finished ==>
              && Run(states, calls, flags) && |calls| == |requests| && Answers(requests, calls)
              && var thread := old(file.nextThread);
                 var start := old(file.events) + if named then [Metadata("thread_name", thread, name)] else [];
                 ReadDocument(file.text)
                 == Got(Trees(file.process, start + Tracing(thread, Recorded(states, calls, flags, clock))), "")
  {
    var ok, recorder := StartThread(file, capacity, mode, named, name);
    finished, states, calls, flags := false, [], [], [];
    if ok {
      ghost var start := file.events;
      states, calls, flags := RecordAll(recorder, requests, start);
      var threadOk := FinishRecorder(recorder, clock, streamOk, start, states, calls, flags);
      if threadOk {
        var status := file.Finish(endOk);
        finished := status.Finished?;
      }
    }
  }
}
