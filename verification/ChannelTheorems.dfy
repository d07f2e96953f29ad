// What the channel of src/concurrency.c guarantees over whole runs.

module ChannelTheorems {
  import opened ChannelMonitor
  import opened ChannelSystem

  /** `states` and `replies` are what the actions `acts` produce from a new channel. */
  ghost predicate Run<V>(states: seq<System<V>>, acts: seq<Action<V>>, replies: seq<Reply<V>>) {
    && |states| == |acts| + 1 && |replies| == |acts|
    && Init(states[0])
    && (forall i :: 0 <= i < |acts| ==> IsStep(states[i], acts[i], states[i + 1], replies[i]))
  }

  ghost predicate IsStep<V>(s: System<V>, a: Action<V>, s': System<V>, r: Reply<V>) {
    Safe(s) && Enabled(s, a) && Apply(s, a) == (s', r)
  }

  ghost function SentValues<V>(replies: seq<Reply<V>>): seq<V> {
    if replies == [] then []
    else
      var last := replies[|replies| - 1];
      SentValues(replies[..|replies| - 1]) + if last.SentOk? then [last.v] else []
  }

  ghost function ReceivedValues<V>(replies: seq<Reply<V>>): seq<V> {
    if replies == [] then []
    else
      var last := replies[|replies| - 1];
      ReceivedValues(replies[..|replies| - 1]) + if last.ReceivedOk? then [last.v] else []
  }

  // ---------- Safety: a bounded FIFO queue, whatever the waits do ----------

  /** The simple form: a closable FIFO queue and what each reply says about it. */
  datatype Queue<V> = Queue(items: seq<V>, bound: nat, closed: bool)

  ghost function Abstract<V>(s: System<V>): Queue<V>
    requires s.m.Valid()
  {
    Queue(s.m.Contents(), s.m.Bound(), s.m.closed)
  }

  /** A send is refused exactly on a closed queue; otherwise it appends, or waits. */
  ghost predicate QueueSend<V>(q: Queue<V>, r: Reply<V>, q': Queue<V>) {
    if q.closed then r == SentClosed && q' == q
    else if r.SentOk? then |q.items| < q.bound && q' == q.(items := q.items + [r.v])
    else r == StillWaiting && q' == q
  }

  /** A receive takes the oldest value, if there is one. */
  ghost predicate QueueReceive<V>(q: Queue<V>, r: Reply<V>, q': Queue<V>) {
    if q.items != [] then r == ReceivedOk(q.items[0]) && q' == q.(items := q.items[1..])
    else r == (if q.closed then ReceivedClosed else StillWaiting) && q' == q
  }

  ghost predicate QueueStep<V>(q: Queue<V>, a: Action<V>, r: Reply<V>, q': Queue<V>) {
    match a
    case SendCall(t, v, wake) => QueueSend(q, r, q') && (r.SentOk? ==> r.v == v)
    case SendResume(t, wake) => QueueSend(q, r, q')
    case ReceiveCall(t, wakeFirst, wake) => QueueReceive(q, r, q')
    case ReceiveResume(t, wake) => QueueReceive(q, r, q')
    case SpuriousWake(t) => r == NoReply && q' == q
    case WaitFails(t) => r == WaitError && q' == q
    case Close => r == NoReply && q' == q.(closed := true)
  }

  ghost predicate Records<V>(s: System<V>, r: Reply<V>, s': System<V>) {
    && s'.accepted == s.accepted + (if r.SentOk? then [r.v] else [])
    && s'.received == s.received + (if r.ReceivedOk? then [r.v] else [])
  }

  /** `s'` follows `s` by the queue's step for `a` with reply `r`, and its histories record `r`. */
  ghost predicate Refines<V>(s: System<V>, a: Action<V>, r: Reply<V>, s': System<V>)
    requires s.m.Valid() && s'.m.Valid()
  {
    && QueueStep(Abstract(s), a, r, Abstract(s'))
    && Records(s, r, s')
  }

  lemma SendTryRefines<V>(s: System<V>, t: Tid, v: V, wake: Tid)
    requires s.m.Valid()
    ensures var (s', r) := SendTry(s, t, v, wake);
            && s'.m.Valid() && QueueSend(Abstract(s), r, Abstract(s')) && Records(s, r, s')
            && (r.SentOk? ==> r.v == v)
  {
  }

  lemma ReceiveTryRefines<V>(s: System<V>, t: Tid, wake: Tid)
    requires s.m.Valid() && (s.m.capacity == 0 ==> s.m.waitingReceivers > 0)
    ensures var (s', r) := ReceiveTry(s, t, wake);
            s'.m.Valid() && QueueReceive(Abstract(s), r, Abstract(s')) && Records(s, r, s')
  {
  }

  /** Every step of the concurrent system is the queue's one step for its action, and the
      history fields record exactly the values of the successful replies. */
  lemma StepRefinesQueue<V>(s: System<V>, a: Action<V>)
    requires Safe(s) && Enabled(s, a)
    ensures Safe(Apply(s, a).0)
    ensures Refines(s, a, Apply(s, a).1, Apply(s, a).0)
  {
    StepIsSafe(s, a);
    match a
    case SendCall(t, v, wake) => SendTryRefines(s, t, v, wake);
    case SendResume(t, wake) => SendTryRefines(s.(sendSignalled := s.sendSignalled - {t}), t, s.value[t], wake);
    case ReceiveCall(t, wakeFirst, wake) => ReceiveCallRefines(s, t, wakeFirst, wake);
    case ReceiveResume(t, wake) =>
      InsideReceiverIsCounted(s, t);
      ReceiveTryRefines(s.(recvSignalled := s.recvSignalled - {t}), t, wake);
    case SpuriousWake(t) =>
    case WaitFails(t) => WaitFailureRefines(s, t);
    case Close => CloseRefines(s);
  }

  lemma ReceiveCallRefines<V>(s: System<V>, t: Tid, wakeFirst: Tid, wake: Tid)
    requires Safe(s) && Enabled(s, ReceiveCall(t, wakeFirst, wake)) && Safe(Apply(s, ReceiveCall(t, wakeFirst, wake)).0)
    ensures var (s', r) := Apply(s, ReceiveCall(t, wakeFirst, wake)); Refines(s, ReceiveCall(t, wakeFirst, wake), r, s')
  {
    var entered := s.(m := ReceiveEnter(s.m));
    ReceiveTryRefines(if s.m.capacity == 0 then WakeSender(entered, wakeFirst) else entered, t, wake);
  }

  lemma WaitFailureRefines<V>(s: System<V>, t: Tid)
    requires Safe(s) && t in s.Inside() && Safe(Apply(s, WaitFails(t)).0)
    ensures var (s', r) := Apply(s, WaitFails(t)); Refines(s, WaitFails(t), r, s')
  {
    if t !in s.sendParked + s.sendSignalled {
      InsideReceiverIsCounted(s, t);
      assert ReceiveAbandon(s.m).Contents() == s.m.Contents();
    }
  }

  lemma CloseRefines<V>(s: System<V>)
    requires Safe(s) && Safe(Apply(s, Close).0)
    ensures var (s', r) := Apply(s, Close); Refines(s, Close, r, s')
  {
    assert Apply(s, Close).0.m.Contents() == s.m.Contents();
  }

  lemma StepIsRecorded<V>(s: System<V>, a: Action<V>, s': System<V>, r: Reply<V>)
    requires IsStep(s, a, s', r)
    ensures Safe(s')
    ensures s'.accepted == s.accepted + (if r.SentOk? then [r.v] else [])
    ensures s'.received == s.received + (if r.ReceivedOk? then [r.v] else [])
  {
    StepIsSafe(s, a);
    StepRefinesQueue(s, a);
  }

  lemma HistoryGrows<V>(replies: seq<Reply<V>>, n: nat)
    requires 0 < n <= |replies|
    ensures var r := replies[n - 1];
            && SentValues(replies[..n]) == SentValues(replies[..n - 1]) + (if r.SentOk? then [r.v] else [])
            && ReceivedValues(replies[..n]) == ReceivedValues(replies[..n - 1]) + (if r.ReceivedOk? then [r.v] else [])
  {
    assert replies[..n][..n - 1] == replies[..n - 1];
  }

  lemma {:induction false} RunIsSafe<V>(states: seq<System<V>>, acts: seq<Action<V>>, replies: seq<Reply<V>>, n: nat)
    requires Run(states, acts, replies) && n <= |acts|
    ensures Safe(states[n])
    ensures states[n].accepted == SentValues(replies[..n])
    ensures states[n].received == ReceivedValues(replies[..n])
  {
    if n > 0 {
      RunIsSafe(states, acts, replies, n - 1);
      assert IsStep(states[n - 1], acts[n - 1], states[n - 1 + 1], replies[n - 1]);
      StepIsRecorded(states[n - 1], acts[n - 1], states[n], replies[n - 1]);
      HistoryGrows(replies, n);
    }
  }

  /** A receiver is told CLOSED only when every accepted value has been received, and
      then no later send succeeds. */
  lemma {:induction false} ClosedMeansDrained<V>(
      states: seq<System<V>>, acts: seq<Action<V>>, replies: seq<Reply<V>>, i: nat, n: nat)
    requires Run(states, acts, replies) && i < n <= |acts|
    requires replies[i].ReceivedClosed?
    ensures states[n].m.closed
    ensures SentValues(replies[..n]) == ReceivedValues(replies[..n]) == SentValues(replies[..i])
  {
    var k := n - 1;
    RunIsSafe(states, acts, replies, k);
    RunIsSafe(states, acts, replies, n);
    assert IsStep(states[k], acts[k], states[k + 1], replies[k]);
    StepRefinesQueue(states[k], acts[k]);
    if k > i { ClosedMeansDrained(states, acts, replies, i, k); }
  }

  // ---------- No lost wakeup ----------

  /** A parked thread could proceed, yet nobody on its side has been signalled. */
  ghost predicate Stranded<V>(s: System<V>) {
    || (s.recvParked != {} && s.recvSignalled == {} && !s.m.ReceiveMustWait())
    || (s.sendParked != {} && s.sendSignalled == {} && !s.m.SendMustWait())
  }

  /** A rendezvous value was deposited and no signalled receiver is inside to take it. */
  ghost predicate SlotOrphaned<V>(s: System<V>) {
    s.m.slotFull && s.recvSignalled == {}
  }

  /** Every value (free cell) that a parked receiver (sender) could use has a signal of its own. */
  ghost predicate Signalled<V>(s: System<V>) {
    if s.m.capacity > 0 then
      && (s.recvParked != {} ==> s.m.count <= |s.recvSignalled|)
      && (s.sendParked != {} ==> s.m.capacity - s.m.count <= |s.sendSignalled|)
    else
      && (s.m.slotFull ==> s.recvSignalled != {})
      && (s.sendParked != {} && s.m.waitingReceivers > 0 && !s.m.slotFull ==> s.sendSignalled != {})
  }

  /** A thread that was signalled (or woken) nevertheless leaves with an error. */
  ghost predicate LosesSignal<V>(s: System<V>, a: Action<V>) {
    a.WaitFails? && a.t in s.sendSignalled + s.recvSignalled
  }

  lemma SignalledIsNotStranded<V>(s: System<V>)
    requires Safe(s) && Signalled(s)
    ensures !Stranded(s) && !SlotOrphaned(s)
  {
  }

  lemma SendResumeKeepsSignals<V>(s: System<V>, t: Tid, wake: Tid)
    requires Safe(s) && Signalled(s) && Enabled(s, SendResume(t, wake))
    ensures Signalled(Apply(s, SendResume(t, wake)).0)
  {
  }

  lemma SendCallKeepsSignals<V>(s: System<V>, t: Tid, v: V, wake: Tid)
    requires Safe(s) && Signalled(s) && Enabled(s, SendCall(t, v, wake))
    ensures Signalled(Apply(s, SendCall(t, v, wake)).0)
  {
    var (outcome, m') := SendAttempt(s.m, v);
    if outcome.SendOk? && wake in s.recvParked {
      assert |s.recvSignalled + {wake}| == |s.recvSignalled| + 1;
    } else if outcome.SendOk? && s.m.capacity == 0 {
      assert s.recvSignalled != {};
    }
  }

  lemma ReceiveResumeKeepsSignals<V>(s: System<V>, t: Tid, wake: Tid)
    requires Safe(s) && Signalled(s) && Enabled(s, ReceiveResume(t, wake))
    ensures Signalled(Apply(s, ReceiveResume(t, wake)).0)
  {
    InsideReceiverIsCounted(s, t);
    var rest := s.(recvSignalled := s.recvSignalled - {t});
    if s.m.capacity > 0 {
      BufferedTakeKeepsSignals(s, rest, t, wake);
    } else {
      SlotTakeKeepsSignals(s, rest, t, wake);
    }
  }

  lemma BufferedTakeKeepsSignals<V>(s: System<V>, rest: System<V>, t: Tid, wake: Tid)
    requires Safe(s) && Signalled(s) && t in s.recvSignalled && Picks(s.sendParked, wake) && s.m.capacity > 0
    requires rest == s.(recvSignalled := s.recvSignalled - {t})
    ensures Signalled(ReceiveTry(rest, t, wake).0)
  {
    assert |rest.recvSignalled| == |s.recvSignalled| - 1;
    if wake in s.sendParked { assert |s.sendSignalled + {wake}| == |s.sendSignalled| + 1; }
  }

  lemma SlotTakeKeepsSignals<V>(s: System<V>, rest: System<V>, t: Tid, wake: Tid)
    requires Safe(s) && Signalled(s) && t in s.recvSignalled && Picks(s.sendParked, wake)
    requires s.m.capacity == 0 && s.m.waitingReceivers > 0 && rest == s.(recvSignalled := s.recvSignalled - {t})
    ensures Signalled(ReceiveTry(rest, t, wake).0)
  {
  }

  lemma WakeSenderKeepsSignals<V>(s: System<V>, pick: Tid)
    requires Signalled(s) && s.sendParked !! s.sendSignalled
    ensures Signalled(WakeSender(s, pick))
  {
  }

  lemma WakeReceiverKeepsSignals<V>(s: System<V>, pick: Tid)
    requires Signalled(s) && s.recvParked !! s.recvSignalled
    ensures Signalled(WakeReceiver(s, pick))
  {
  }

  lemma ReceiveTryKeepsSignals<V>(s: System<V>, t: Tid, wake: Tid)
    requires Consistent(s, 1) && Signalled(s) && Picks(s.sendParked, wake)
    ensures Signalled(ReceiveTry(s, t, wake).0)
  {
    if wake in s.sendParked { assert |s.sendSignalled + {wake}| == |s.sendSignalled| + 1; }
  }

  lemma ReceiveCallKeepsSignals<V>(s: System<V>, t: Tid, wakeFirst: Tid, wake: Tid)
    requires Safe(s) && Signalled(s) && Enabled(s, ReceiveCall(t, wakeFirst, wake))
    ensures Signalled(Apply(s, ReceiveCall(t, wakeFirst, wake)).0)
  {
    var entered := s.(m := ReceiveEnter(s.m));
    WakeSenderIsConsistent(entered, wakeFirst, 1);
    if s.m.capacity == 0 {
      ReceiveTryKeepsSignals(WakeSender(entered, wakeFirst), t, wake);
    } else {
      ReceiveTryKeepsSignals(s, t, wake);
    }
  }

  lemma ParkedTimeoutKeepsSignals<V>(s: System<V>, t: Tid)
    requires Safe(s) && Signalled(s) && t in s.sendParked + s.recvParked
    ensures Signalled(Apply(s, WaitFails(t)).0)
  {
  }

  /** Everything but the failure of a signalled wait keeps the signals: new calls,
      resumed waiters, spurious wakeups, close, and timeouts of parked threads. */
  lemma StepKeepsSignals<V>(s: System<V>, a: Action<V>)
    requires Safe(s) && Signalled(s) && Enabled(s, a) && !LosesSignal(s, a)
    ensures Signalled(Apply(s, a).0)
  {
    match a
    case SendCall(t, v, wake) => SendCallKeepsSignals(s, t, v, wake);
    case SendResume(t, wake) => SendResumeKeepsSignals(s, t, wake);
    case ReceiveCall(t, wakeFirst, wake) => ReceiveCallKeepsSignals(s, t, wakeFirst, wake);
    case ReceiveResume(t, wake) => ReceiveResumeKeepsSignals(s, t, wake);
    case SpuriousWake(t) =>
      WakeSenderKeepsSignals(s, t);
      WakeReceiverKeepsSignals(WakeSender(s, t), t);
    case WaitFails(t) => ParkedTimeoutKeepsSignals(s, t);
    case Close =>
  }

  lemma {:induction false} RunKeepsSignals<V>(states: seq<System<V>>, acts: seq<Action<V>>, replies: seq<Reply<V>>,
      n: nat)
    requires Run(states, acts, replies) && n <= |acts|
    requires forall i :: 0 <= i < n ==> !LosesSignal(states[i], acts[i])
    ensures Safe(states[n]) && Signalled(states[n])
  {
    RunIsSafe(states, acts, replies, n);
    if n > 0 {
      var k := n - 1;
      RunKeepsSignals(states, acts, replies, k);
      assert IsStep(states[k], acts[k], states[k + 1], replies[k]);
      StepKeepsSignals(states[k], acts[k]);
    }
  }

  /** No run on which every signalled wait returns normally strands a parked thread or
      orphans a rendezvous value; after close nobody is parked. */
  lemma {:induction false} NoLostWakeup<V>(states: seq<System<V>>, acts: seq<Action<V>>, replies: seq<Reply<V>>, n: nat)
    requires Run(states, acts, replies) && n <= |acts|
    requires forall i :: 0 <= i < n ==> !LosesSignal(states[i], acts[i])
    ensures Signalled(states[n]) && !Stranded(states[n]) && !SlotOrphaned(states[n])
    ensures states[n].m.closed ==> states[n].sendParked == states[n].recvParked == {}
  {
    RunKeepsSignals(states, acts, replies, n);
    SignalledIsNotStranded(states[n]);
  }

  // ---------- Progress: the signalled threads settle the channel ----------

  ghost predicate Resumes<V>(a: Action<V>) {
    a.SendResume? || a.ReceiveResume?
  }

  ghost predicate Quiet<V>(s: System<V>) {
    s.sendSignalled == {} && s.recvSignalled == {}
  }

  ghost function Work<V>(s: System<V>): nat {
    |s.sendParked| + 2 * |s.sendSignalled| + |s.recvParked| + 2 * |s.recvSignalled|
  }

  lemma SendResumeShrinksWork<V>(s: System<V>, t: Tid, wake: Tid)
    requires Safe(s) && Enabled(s, SendResume(t, wake))
    ensures Work(Apply(s, SendResume(t, wake)).0) < Work(s)
  {
    assert |s.sendSignalled - {t}| == |s.sendSignalled| - 1;
    if wake in s.recvParked { MovedCounts(s.recvParked, s.recvSignalled, wake); }
  }

  lemma ReceiveResumeShrinksWork<V>(s: System<V>, t: Tid, wake: Tid)
    requires Safe(s) && Enabled(s, ReceiveResume(t, wake))
    ensures Work(Apply(s, ReceiveResume(t, wake)).0) < Work(s)
  {
    InsideReceiverIsCounted(s, t);
    assert |s.recvSignalled - {t}| == |s.recvSignalled| - 1;
    if wake in s.sendParked { MovedCounts(s.sendParked, s.sendSignalled, wake); }
  }

  /** A resumed thread leaves or parks again, and wakes at most one other. */
  lemma ResumeShrinksWork<V>(s: System<V>, a: Action<V>)
    requires Safe(s) && Enabled(s, a) && Resumes(a)
    ensures Work(Apply(s, a).0) < Work(s)
  {
    match a
    case SendResume(t, wake) => SendResumeShrinksWork(s, t, wake);
    case ReceiveResume(t, wake) => ReceiveResumeShrinksWork(s, t, wake);
  }

  /** With no new calls every schedule of the signalled threads ends. */
  lemma {:induction false} ResumingEnds<V>(states: seq<System<V>>, acts: seq<Action<V>>, replies: seq<Reply<V>>)
    requires ResumeRun(states, acts, replies)
    ensures |acts| + Work(states[|acts|]) <= Work(states[0])
  {
    if |acts| > 0 {
      var k := |acts| - 1;
      assert IsStep(states[k], acts[k], states[k + 1], replies[k]);
      ResumeShrinksWork(states[k], acts[k]);
      ResumingEnds(states[..k + 1], acts[..k], replies[..k]);
    }
  }

  /** It ends quiet, and only when no transfer is possible: the two sides are never
      both blocked, nobody waits on a closed channel, and a rendezvous channel has
      handed over everything it accepted. */
  lemma QuietMeansSettled<V>(s: System<V>)
    requires Safe(s) && Signalled(s) && Quiet(s)
    ensures s.sendParked == {} || s.recvParked == {}
    ensures s.recvParked != {} ==> s.m.Contents() == []
    ensures s.sendParked != {} && s.m.capacity > 0 ==> |s.m.Contents()| == s.m.capacity
    ensures s.m.closed ==> s.Inside() == {}
    ensures s.m.capacity == 0 ==> s.accepted == s.received
  {
  }

  lemma NotQuietHasResume<V>(s: System<V>) returns (a: Action<V>)
    requires Safe(s) && !Quiet(s)
    ensures Enabled(s, a) && Resumes(a)
  {
    if s.sendSignalled != {} {
      var t :| t in s.sendSignalled;
      var wake: Tid := 0;
      if s.recvParked != {} { wake :| wake in s.recvParked; }
      a := SendResume(t, wake);
    } else {
      var t :| t in s.recvSignalled;
      var wake: Tid := 0;
      if s.sendParked != {} { wake :| wake in s.sendParked; }
      a := ReceiveResume(t, wake);
    }
  }

  /** `states` follow from `states[0]` by resuming signalled threads only. */
  ghost predicate ResumeRun<V>(states: seq<System<V>>, acts: seq<Action<V>>, replies: seq<Reply<V>>) {
    && |states| == |acts| + 1 && |replies| == |acts|
    && forall i :: 0 <= i < |acts| ==> Resumes(acts[i]) && IsStep(states[i], acts[i], states[i + 1], replies[i])
  }

  lemma ResumeRunPrepends<V>(s: System<V>, a: Action<V>, r: Reply<V>,
                             states: seq<System<V>>, acts: seq<Action<V>>, replies: seq<Reply<V>>)
    requires ResumeRun(states, acts, replies)
    requires Resumes(a) && IsStep(s, a, states[0], r)
    ensures ResumeRun([s] + states, [a] + acts, [r] + replies)
  {
  }

  /** From every reachable state the signalled threads alone bring the channel to rest, and
      no signal is lost on the way. */
  lemma {:induction false} Settle<V>(s: System<V>)
      returns (states: seq<System<V>>, acts: seq<Action<V>>, replies: seq<Reply<V>>)
    requires Safe(s)
    ensures ResumeRun(states, acts, replies) && states[0] == s
    ensures Safe(states[|acts|]) && Quiet(states[|acts|])
    ensures Signalled(s) ==> Signalled(states[|acts|])
    decreases Work(s)
  {
    if Quiet(s) {
      states, acts, replies := [s], [], [];
    } else {
      var a := NotQuietHasResume(s);
      StepIsSafe(s, a);
      if Signalled(s) { StepKeepsSignals(s, a); }
      ResumeShrinksWork(s, a);
      var (s', r) := Apply(s, a);
      assert IsStep(s, a, s', r);
      states, acts, replies := Settle(s');
      ResumeRunPrepends(s, a, r, states, acts, replies);
      states, acts, replies := [s] + states, [a] + acts, [r] + replies;
    }
  }
}
