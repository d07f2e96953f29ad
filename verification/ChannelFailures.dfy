// What a failing wait does to a channel of src/concurrency.c: a thread that was signalled
// and leaves with an error takes its signal with it. This file says when that matters.

module ChannelFailures {
  import opened ChannelMonitor
  import opened ChannelSystem
  import opened ChannelTheorems

  lemma SignalledReceiverFails<V>(s: System<V>, t: Tid)
    requires Safe(s) && t in s.recvSignalled
    ensures s.m.capacity == 0 ==> s.m.waitingReceivers > 0
    ensures Apply(s, WaitFails(t)).0 == s.(m := ReceiveAbandon(s.m), recvSignalled := s.recvSignalled - {t})
  {
  }

  lemma SignalledSenderFails<V>(s: System<V>, t: Tid)
    requires Safe(s) && t in s.sendSignalled
    ensures Apply(s, WaitFails(t)).0 == s.(sendSignalled := s.sendSignalled - {t})
  {
  }

  // ---------- Right after the failure ----------

  /** A failing receiver breaks the balance of signals unless there is one to spare. */
  lemma FailedReceiverLosesSignalExactly<V>(s: System<V>, t: Tid)
    requires Safe(s) && Signalled(s) && t in s.recvSignalled
    ensures Signalled(Apply(s, WaitFails(t)).0) <==>
              if s.m.capacity > 0 then s.recvParked == {} || s.m.count < |s.recvSignalled|
              else !(s.m.slotFull && s.recvSignalled == {t})
  {
    SignalledReceiverFails(s, t);
    assert s.recvSignalled - {t} == {} <==> s.recvSignalled == {t};
  }

  lemma FailedSenderLosesSignalExactly<V>(s: System<V>, t: Tid)
    requires Safe(s) && Signalled(s) && t in s.sendSignalled
    ensures Signalled(Apply(s, WaitFails(t)).0) <==>
              if s.m.capacity > 0 then s.sendParked == {} || s.m.capacity - s.m.count < |s.sendSignalled|
              else !(s.sendParked != {} && s.m.waitingReceivers > 0 && !s.m.slotFull && s.sendSignalled == {t})
  {
    SignalledSenderFails(s, t);
    assert s.sendSignalled - {t} == {} <==> s.sendSignalled == {t};
  }

  /** With nobody else signalled on its side, a failing receiver strands at once. */
  lemma FailedReceiverStrandsAtOnce<V>(s: System<V>, t: Tid)
    requires Safe(s) && Signalled(s) && t in s.recvSignalled
    ensures var s' := Apply(s, WaitFails(t)).0;
            Stranded(s') || SlotOrphaned(s') <==>
            s.recvSignalled == {t} && (s.m.slotFull || (s.recvParked != {} && s.m.count > 0))
  {
    SignalledReceiverFails(s, t);
    SignalledIsNotStranded(s);
    assert s.recvSignalled - {t} == {} <==> s.recvSignalled == {t};
  }

  lemma FailedSenderStrandsAtOnce<V>(s: System<V>, t: Tid)
    requires Safe(s) && Signalled(s) && t in s.sendSignalled
    ensures var s' := Apply(s, WaitFails(t)).0;
            Stranded(s') <==> s.sendSignalled == {t} && s.sendParked != {} && !s.m.SendMustWait()
  {
  }

  // ---------- When the threads still signalled have run ----------

  /** What decides who is stranded in the end: how much the channel holds, and how many
      receivers and senders are parked (`rp`, `sp`) and signalled (`rs`, `ss`). */
  datatype Tally = Tally(capacity: nat, held: nat, closed: bool, rp: nat, rs: nat, sp: nat, ss: nat) {
    ghost predicate Valid() {
      && held <= (if capacity == 0 then 1 else capacity)
      && (closed ==> rp == 0 && sp == 0)
    }

    /** Every value (every free cell) that a parked receiver (sender) could use is signalled. */
    ghost predicate ReceiversServed() { rp > 0 ==> held <= rs }
    ghost predicate SendersServed() { sp > 0 ==> capacity - held <= ss }

    /** More receivers parked than senders inside could ever wake, or no sender can move. */
    ghost predicate ReceiversDoomed() {
      !ReceiversServed() && (rp > sp + ss || (rs == 0 && held == capacity))
    }

    ghost predicate SendersDoomed() {
      !SendersServed() && (sp > rp + rs || (ss == 0 && held == 0))
    }

    /** A signal has been lost and nobody can make up for it. */
    ghost predicate Ruined() {
      if capacity > 0 then ReceiversDoomed() || SendersDoomed() || (rs == 0 && ss == 0 && !Served())
      else (held == 1 && rs == 0) || (held == 0 && ss == 0 && sp > 0 && rp + rs > 0)
    }

    /** The failure of one signalled receiver ruins the channel: it had to take the rendezvous
        value, or each signalled receiver had its value and too few senders can help. */
    ghost predicate RuinedByReceiver() {
      if capacity == 0 then held == 1 && rs == 1
      else rp > 0 && held == rs && (rp > sp + ss || (rs == 1 && held == capacity))
    }

    ghost predicate RuinedBySender() {
      if capacity == 0 then held == 0 && ss == 1 && sp > 0 && rp + rs > 0
      else sp > 0 && capacity - held == ss && (sp > rp + rs || (ss == 1 && held == 0))
    }

    /** No signal has been lost. */
    ghost predicate Served() {
      if capacity > 0 then ReceiversServed() && SendersServed()
      else (held == 1 ==> rs > 0) && (held == 0 && sp > 0 && rp + rs > 0 ==> ss > 0)
    }
  }

  ghost function TallyOf<V>(s: System<V>): Tally {
    Tally(s.m.capacity, Held(s.m), s.m.closed,
          |s.recvParked|, |s.recvSignalled|, |s.sendParked|, |s.sendSignalled|)
  }

  ghost function Held<V>(m: Monitor<V>): nat {
    if m.capacity > 0 then m.count else if m.slotFull then 1 else 0
  }

  /** The signalled thread takes the mutex again and tries. */
  ghost function SenderRuns(t: Tally): Tally
    requires t.ss > 0
  {
    SenderTries(t.(ss := t.ss - 1))
  }

  ghost function ReceiverRuns(t: Tally): Tally
    requires t.rs > 0
  {
    ReceiverTries(t.(rs := t.rs - 1))
  }

  ghost function SenderTries(t: Tally): Tally {
    if t.closed then t
    else if (if t.capacity == 0 then t.rp + t.rs == 0 || t.held == 1 else t.held == t.capacity) then t.(sp := t.sp + 1)
    else if t.rp > 0 then t.(held := t.held + 1, rp := t.rp - 1, rs := t.rs + 1)
    else t.(held := t.held + 1)
  }

  ghost function ReceiverTries(t: Tally): Tally {
    if t.held == 0 then (if t.closed then t else t.(rp := t.rp + 1))
    else if t.sp > 0 then t.(held := t.held - 1, sp := t.sp - 1, ss := t.ss + 1)
    else t.(held := t.held - 1)
  }

  lemma SenderRunKeepsFate(t: Tally)
    requires t.Valid() && t.ss > 0
    ensures SenderRuns(t).Ruined() <==> t.Ruined()
  {
  }

  lemma ReceiverRunKeepsFate(t: Tally)
    requires t.Valid() && t.rs > 0
    ensures ReceiverRuns(t).Ruined() <==> t.Ruined()
  {
  }

  lemma TallyIsValid<V>(s: System<V>)
    requires Safe(s)
    ensures TallyOf(s).Valid()
  {
  }

  lemma FewerSignalled(signalled: set<Tid>, t: Tid)
    requires t in signalled
    ensures |signalled - {t}| == |signalled| - 1
    ensures signalled == {t} <==> |signalled| == 1
  {
    if |signalled| == 1 { assert signalled - {t} == {}; }
  }

  lemma ParkedSender<V>(s: System<V>, t: Tid, v: V)
    requires t !in s.sendParked
    ensures TallyOf(s.(sendParked := s.sendParked + {t}, value := s.value[t := v]))
         == TallyOf(s).(sp := |s.sendParked| + 1)
  {
  }

  lemma WokenReceiver<V>(s: System<V>, pick: Tid)
    requires Picks(s.recvParked, pick) && s.recvParked !! s.recvSignalled
    ensures var t := TallyOf(s);
            TallyOf(WakeReceiver(s, pick)) == if t.rp > 0 then t.(rp := t.rp - 1, rs := t.rs + 1) else t
  {
    if pick in s.recvParked { MovedCounts(s.recvParked, s.recvSignalled, pick); }
  }

  lemma WokenSender<V>(s: System<V>, pick: Tid)
    requires Picks(s.sendParked, pick) && s.sendParked !! s.sendSignalled
    ensures var t := TallyOf(s);
            TallyOf(WakeSender(s, pick)) == if t.sp > 0 then t.(sp := t.sp - 1, ss := t.ss + 1) else t
  {
    if pick in s.sendParked { MovedCounts(s.sendParked, s.sendSignalled, pick); }
  }

  lemma SendOutcome<V>(m: Monitor<V>, v: V)
    requires m.Valid()
    ensures var (outcome, m') := SendAttempt(m, v);
            && m'.capacity == m.capacity && m'.closed == m.closed
            && (outcome.SendBlocks? <==> m.SendMustWait()) && (outcome.SendClosed? <==> m.closed)
            && Held(m') == Held(m) + if outcome.SendOk? then 1 else 0
  {
  }

  lemma ReceiveOutcomeIs<V>(m: Monitor<V>)
    requires m.Valid() && (m.capacity == 0 ==> m.waitingReceivers > 0)
    ensures var (outcome, m') := ReceiveAttempt(m);
            && m'.capacity == m.capacity && m'.closed == m.closed
            && (outcome.Took? <==> Held(m) > 0) && (outcome.ReceiveClosed? <==> m.closed && Held(m) == 0)
            && Held(m') == Held(m) - if outcome.Took? then 1 else 0
  {
  }

  lemma SendTryTallies<V>(s: System<V>, t: Tid, v: V, wake: Tid)
    requires s.m.Valid() && t !in s.sendParked && Picks(s.recvParked, wake) && s.recvParked !! s.recvSignalled
    requires s.m.capacity == 0 ==> s.m.waitingReceivers == |s.recvParked| + |s.recvSignalled|
    ensures TallyOf(SendTry(s, t, v, wake).0) == SenderTries(TallyOf(s))
  {
    SendOutcome(s.m, v);
    var (outcome, m') := SendAttempt(s.m, v);
    match outcome
    case SendBlocks => ParkedSender(s, t, v);
    case SendClosed =>
    case SendOk => WokenReceiver(s.(m := m', accepted := s.accepted + [v]), wake);
  }

  lemma ReceiveTryTallies<V>(s: System<V>, t: Tid, wake: Tid)
    requires s.m.Valid() && (s.m.capacity == 0 ==> s.m.waitingReceivers > 0)
    requires t !in s.recvParked && Picks(s.sendParked, wake) && s.sendParked !! s.sendSignalled
    ensures TallyOf(ReceiveTry(s, t, wake).0) == ReceiverTries(TallyOf(s))
  {
    ReceiveOutcomeIs(s.m);
    var (outcome, m') := ReceiveAttempt(s.m);
    match outcome
    case ReceiveBlocks => assert |s.recvParked + {t}| == |s.recvParked| + 1;
    case ReceiveClosed =>
    case Took(v) => WokenSender(s.(m := m', received := s.received + [v]), wake);
  }

  lemma SendResumeTallies<V>(s: System<V>, t: Tid, wake: Tid)
    requires Safe(s) && Enabled(s, SendResume(t, wake))
    ensures |s.sendSignalled| > 0
    ensures TallyOf(Apply(s, SendResume(t, wake)).0) == SenderRuns(TallyOf(s))
  {
    FewerSignalled(s.sendSignalled, t);
    var rest := s.(sendSignalled := s.sendSignalled - {t});
    SendTryTallies(rest, t, s.value[t], wake);
  }

  lemma ReceiveResumeTallies<V>(s: System<V>, t: Tid, wake: Tid)
    requires Safe(s) && Enabled(s, ReceiveResume(t, wake))
    ensures |s.recvSignalled| > 0
    ensures TallyOf(Apply(s, ReceiveResume(t, wake)).0) == ReceiverRuns(TallyOf(s))
  {
    InsideReceiverIsCounted(s, t);
    FewerSignalled(s.recvSignalled, t);
    var rest := s.(recvSignalled := s.recvSignalled - {t});
    ReceiveTryTallies(rest, t, wake);
  }

  lemma ResumeKeepsFate<V>(s: System<V>, a: Action<V>)
    requires Safe(s) && Enabled(s, a) && Resumes(a)
    ensures Safe(Apply(s, a).0)
    ensures TallyOf(Apply(s, a).0).Ruined() <==> TallyOf(s).Ruined()
  {
    StepIsSafe(s, a);
    TallyIsValid(s);
    match a
    case SendResume(t, wake) =>
      SendResumeTallies(s, t, wake);
      SenderRunKeepsFate(TallyOf(s));
    case ReceiveResume(t, wake) =>
      ReceiveResumeTallies(s, t, wake);
      ReceiverRunKeepsFate(TallyOf(s));
  }

  lemma QuietFate<V>(s: System<V>)
    requires Safe(s) && Quiet(s)
    ensures Stranded(s) || SlotOrphaned(s) <==> TallyOf(s).Ruined()
  {
    TallyIsValid(s);
  }

  /** Whoever runs first, the signalled threads come to rest with somebody stranded, or a
      value nobody takes, exactly if the counts at the start say so. */
  lemma {:induction false} FateIsDecided<V>(states: seq<System<V>>, acts: seq<Action<V>>, replies: seq<Reply<V>>)
    requires ResumeRun(states, acts, replies) && Safe(states[0]) && Quiet(states[|acts|])
    ensures Stranded(states[|acts|]) || SlotOrphaned(states[|acts|]) <==> TallyOf(states[0]).Ruined()
    decreases |acts|
  {
    if |acts| == 0 {
      QuietFate(states[0]);
    } else {
      assert IsStep(states[0], acts[0], states[1], replies[0]);
      ResumeKeepsFate(states[0], acts[0]);
      RestIsResumeRun(states, acts, replies);
      FateIsDecided(states[1..], acts[1..], replies[1..]);
    }
  }

  lemma RestIsResumeRun<V>(states: seq<System<V>>, acts: seq<Action<V>>, replies: seq<Reply<V>>)
    requires ResumeRun(states, acts, replies) && |acts| > 0
    ensures ResumeRun(states[1..], acts[1..], replies[1..])
  {
    var states', acts', replies' := states[1..], acts[1..], replies[1..];
    forall i | 0 <= i < |acts'|
      ensures Resumes(acts'[i]) && IsStep(states'[i], acts'[i], states'[i + 1], replies'[i])
    {
      assert IsStep(states[i + 1], acts[i + 1], states[i + 1 + 1], replies[i + 1]);
    }
  }

  /** A lost signal always tells when nobody on the other side is inside. (Otherwise it need
      not: see ParkedSenderRescues.) */
  lemma LostSignalTellsAlone<V>(s: System<V>)
    requires Safe(s) && !Signalled(s)
    requires s.m.capacity > 0 ==>
               s.sendParked == s.sendSignalled == {} || s.recvParked == s.recvSignalled == {}
    ensures TallyOf(s).Ruined()
  {
    TallyIsValid(s);
  }

  lemma SignalledTally<V>(s: System<V>)
    requires Safe(s)
    ensures TallyOf(s).Valid() && (Signalled(s) <==> TallyOf(s).Served())
  {
  }

  lemma ReceiverLoss(t: Tally)
    requires t.Valid() && t.Served() && t.rs > 0
    ensures t.(rs := t.rs - 1).Ruined() <==> t.RuinedByReceiver()
  {
  }

  lemma SenderLoss(t: Tally)
    requires t.Valid() && t.Served() && t.ss > 0
    ensures t.(ss := t.ss - 1).Ruined() <==> t.RuinedBySender()
  {
  }

  lemma FailureTallies<V>(s: System<V>, t: Tid)
    requires Safe(s) && Signalled(s) && t in s.sendSignalled + s.recvSignalled
    ensures var s' := Apply(s, WaitFails(t)).0;
            TallyOf(s').Ruined() <==> FailureStrands(s, t)
  {
    SignalledTally(s);
    if t in s.recvSignalled {
      SignalledReceiverFails(s, t);
      FewerSignalled(s.recvSignalled, t);
      ReceiverLoss(TallyOf(s));
    } else {
      SignalledSenderFails(s, t);
      FewerSignalled(s.sendSignalled, t);
      SenderLoss(TallyOf(s));
    }
  }

  /** What the failure of the signalled thread `t` costs, read off the state before it. */
  ghost predicate FailureStrands<V>(s: System<V>, t: Tid) {
    if t in s.recvSignalled then TallyOf(s).RuinedByReceiver() else TallyOf(s).RuinedBySender()
  }

  /** When the wait of a signalled thread fails and the threads still signalled have run, in
      any order, work is left behind exactly in the states named above. */
  lemma FailureStrandsExactly<V>(s: System<V>, t: Tid,
      states: seq<System<V>>, acts: seq<Action<V>>, replies: seq<Reply<V>>)
    requires Safe(s) && Signalled(s) && t in s.sendSignalled + s.recvSignalled
    requires ResumeRun(states, acts, replies) && states[0] == Apply(s, WaitFails(t)).0 && Quiet(states[|acts|])
    ensures Stranded(states[|acts|]) || SlotOrphaned(states[|acts|]) <==> FailureStrands(s, t)
  {
    WaitFailureIsSafe(s, t);
    FailureTallies(s, t);
    FateIsDecided(states, acts, replies);
  }

  // ---------- Four runs that strand somebody ----------

  ghost function Empty(capacity: nat, unset: int): System<int> {
    System(Monitor(capacity, seq(if capacity == 0 then 1 else capacity, i => unset), 0, 0, 0, false, false),
           {}, {}, {}, {}, map[], [], [])
  }

  /** Some run from a new channel leads here. */
  ghost predicate Reached<V(!new)>(s: System<V>) {
    exists states, acts, replies :: RunTo(states, acts, replies, s)
  }

  ghost predicate RunTo<V>(states: seq<System<V>>, acts: seq<Action<V>>, replies: seq<Reply<V>>, s: System<V>) {
    Run(states, acts, replies) && states[|acts|] == s
  }

  lemma NewIsReached(capacity: nat, unset: int)
    ensures Reached(Empty(capacity, unset)) && Safe(Empty(capacity, unset))
  {
    assert RunTo([Empty(capacity, unset)], [], [], Empty(capacity, unset));
  }

  ghost predicate Chain<S, A, R>(step: (S, A, S, R) -> bool, states: seq<S>, acts: seq<A>, replies: seq<R>) {
    && |states| == |acts| + 1 && |replies| == |acts|
    && forall i :: 0 <= i < |acts| ==> step(states[i], acts[i], states[i + 1], replies[i])
  }

  lemma ChainGrows<S, A, R>(step: (S, A, S, R) -> bool, states: seq<S>, acts: seq<A>, replies: seq<R>,
                            a: A, s': S, r: R)
    requires Chain(step, states, acts, replies) && step(states[|acts|], a, s', r)
    ensures Chain(step, states + [s'], acts + [a], replies + [r])
  {
  }

  lemma RunGrows<V>(states: seq<System<V>>, acts: seq<Action<V>>, replies: seq<Reply<V>>,
                    a: Action<V>, s': System<V>, r: Reply<V>)
    requires Run(states, acts, replies) && IsStep(states[|acts|], a, s', r)
    ensures RunTo(states + [s'], acts + [a], replies + [r], s')
  {
    var step := (x, b, y, q) => IsStep<V>(x, b, y, q);
    var states', acts', replies' := states + [s'], acts + [a], replies + [r];
    ChainGrows(step, states, acts, replies, a, s', r);
    assert Run(states', acts', replies');
  }

  lemma Go<V(!new)>(s: System<V>, a: Action<V>) returns (s': System<V>)
    requires Reached(s) && Safe(s) && Enabled(s, a)
    ensures Reached(s') && Safe(s') && Apply(s, a).0 == s'
  {
    StepIsSafe(s, a);
    s' := Apply(s, a).0;
    ReachesNext(s, a, s', Apply(s, a).1);
  }

  lemma ReachesNext<V(!new)>(s: System<V>, a: Action<V>, s': System<V>, r: Reply<V>)
    requires Reached(s) && IsStep(s, a, s', r)
    ensures Reached(s')
  {
    var states, acts, replies :| RunTo(states, acts, replies, s);
    RunGrows(states, acts, replies, a, s', r);
  }

  /** An open buffered channel holding `n` values, with these threads inside. */
  ghost predicate At(s: System<int>, capacity: nat, n: nat, rp: set<Tid>, rs: set<Tid>, sp: set<Tid>, ss: set<Tid>) {
    && Reached(s) && Safe(s) && s.m.capacity == capacity > 0 && s.m.count == n && !s.m.closed
    && s.recvParked == rp && s.recvSignalled == rs && s.sendParked == sp && s.sendSignalled == ss
  }

  lemma ReceiverParks(s: System<int>, t: Tid, capacity: nat, rp: set<Tid>) returns (s': System<int>)
    requires At(s, capacity, 0, rp, {}, {}, {}) && t !in rp
    ensures At(s', capacity, 0, rp + {t}, {}, {}, {})
  {
    s' := Go(s, ReceiveCall(t, 0, 0));
  }

  lemma SendWakes(s: System<int>, t: Tid, v: int, wake: Tid, capacity: nat, n: nat, rp: set<Tid>, rs: set<Tid>)
      returns (s': System<int>)
    requires At(s, capacity, n, rp, rs, {}, {}) && n < capacity && t !in rp + rs && wake in rp
    ensures At(s', capacity, n + 1, rp - {wake}, rs + {wake}, {}, {})
  {
    s' := Go(s, SendCall(t, v, wake));
  }

  lemma SendFills(s: System<int>, t: Tid, v: int, capacity: nat, n: nat) returns (s': System<int>)
    requires At(s, capacity, n, {}, {}, {}, {}) && n < capacity
    ensures At(s', capacity, n + 1, {}, {}, {}, {})
  {
    s' := Go(s, SendCall(t, v, 0));
  }

  lemma SenderParks(s: System<int>, t: Tid, v: int, wake: Tid, capacity: nat,
                    rp: set<Tid>, rs: set<Tid>, sp: set<Tid>) returns (s': System<int>)
    requires At(s, capacity, capacity, rp, rs, sp, {}) && t !in rp + rs + sp && Picks(rp, wake)
    ensures At(s', capacity, capacity, rp, rs, sp + {t}, {})
  {
    s' := Go(s, SendCall(t, v, wake));
  }

  lemma ReceiveWakes(s: System<int>, t: Tid, wake: Tid, capacity: nat, n: nat, sp: set<Tid>) returns (s': System<int>)
    requires At(s, capacity, n, {}, {}, sp, {}) && n > 0 && t !in sp && wake in sp
    ensures At(s', capacity, n - 1, {}, {}, sp - {wake}, {wake})
  {
    s' := Go(s, ReceiveCall(t, 0, wake));
  }

  lemma ReceiverTakes(s: System<int>, t: Tid, capacity: nat, n: nat, rp: set<Tid>, rs: set<Tid>)
    requires At(s, capacity, n, rp, rs, {}, {}) && n > 0 && t in rs
    ensures At(Apply(s, ReceiveResume(t, 0)).0, capacity, n - 1, rp, rs - {t}, {}, {})
  {
    var s' := Go(s, ReceiveResume(t, 0));
  }

  lemma SignalledFails(s: System<int>, t: Tid, capacity: nat, n: nat,
                       rp: set<Tid>, rs: set<Tid>, sp: set<Tid>, ss: set<Tid>)
    requires At(s, capacity, n, rp, rs, sp, ss) && t in rs + ss
    ensures At(Apply(s, WaitFails(t)).0, capacity, n, rp, rs - {t}, sp, ss - {t})
  {
    if t in rs { SignalledReceiverFails(s, t); } else { SignalledSenderFails(s, t); }
    var s' := Go(s, WaitFails(t));
  }

  /** Two receivers wait; the signalled one times out, and the other sleeps beside a value. */
  lemma TimeoutCanStrand(v: int) returns (s: System<int>)
    ensures Reached(s) && Safe(s) && Signalled(s) && 1 in s.recvSignalled
    ensures var s' := Apply(s, WaitFails(1)).0;
            Quiet(s') && Stranded(s') && s'.recvParked == {2} && s'.m.count == 1
  {
    NewIsReached(1, v);
    s := ReceiverParks(Empty(1, v), 1, 1, {});
    s := ReceiverParks(s, 2, 1, {1});
    assert {1} + {2} == {1, 2} && {1, 2} - {1} == {2};
    s := SendWakes(s, 3, v, 1, 1, 0, {1, 2}, {});
    SignalledFails(s, 1, 1, 1, {2}, {1}, {}, {});
  }

  lemma TwoSendersPark(v: int) returns (s: System<int>)
    ensures At(s, 1, 1, {}, {}, {2, 3}, {})
  {
    NewIsReached(1, v);
    s := SendFills(Empty(1, v), 1, v, 1, 0);
    s := SenderParks(s, 2, v, 0, 1, {}, {}, {});
    s := SenderParks(s, 3, v, 0, 1, {}, {}, {2});
    assert {2} + {3} == {2, 3};
  }

  /** Two senders wait for room; the signalled one times out, and the other sleeps beside it. */
  lemma SenderTimeoutCanStrand(v: int) returns (s: System<int>)
    ensures Reached(s) && Safe(s) && Signalled(s) && 2 in s.sendSignalled
    ensures var s' := Apply(s, WaitFails(2)).0;
            Quiet(s') && Stranded(s') && s'.sendParked == {3} && s'.m.count == 0
  {
    s := TwoSendersPark(v);
    s := ReceiveWakes(s, 4, 2, 1, 1, {2, 3});
    assert {2, 3} - {2} == {3};
    SignalledFails(s, 2, 1, 0, {}, {}, {3}, {2});
  }

  lemma ThreeReceiversPark(v: int) returns (s: System<int>)
    ensures At(s, 2, 0, {1, 2, 3}, {}, {}, {})
  {
    NewIsReached(2, v);
    s := ReceiverParks(Empty(2, v), 1, 2, {});
    s := ReceiverParks(s, 2, 2, {1});
    assert {1} + {2} == {1, 2} && {1, 2} + {3} == {1, 2, 3};
    s := ReceiverParks(s, 3, 2, {1, 2});
  }

  lemma TwoAreSignalled(v: int) returns (s: System<int>)
    ensures At(s, 2, 2, {3}, {1, 2}, {}, {})
  {
    s := ThreeReceiversPark(v);
    assert {1, 2, 3} - {1} == {2, 3} && {2, 3} - {2} == {3} && {1} + {2} == {1, 2};
    s := SendWakes(s, 4, v, 1, 2, 0, {1, 2, 3}, {});
    s := SendWakes(s, 4, v, 2, 2, 1, {2, 3}, {1});
  }

  /** The failure shows only later: nobody is stranded while receiver 2 is signalled, but it
      takes one of two values and receiver 3 sleeps beside the other. */
  lemma TimeoutCanStrandLater(v: int) returns (s: System<int>)
    ensures Reached(s) && Safe(s) && Signalled(s) && 1 in s.recvSignalled
    ensures var s' := Apply(s, WaitFails(1)).0;
            && !Stranded(s') && Safe(s') && Enabled(s', ReceiveResume(2, 0))
            && var s'' := Apply(s', ReceiveResume(2, 0)).0;
               Quiet(s'') && Stranded(s'') && s''.recvParked == {3} && s''.m.count == 1
  {
    s := TwoAreSignalled(v);
    assert {1, 2} - {1} == {2} && |{1, 2}| == 2;
    SignalledFails(s, 1, 2, 2, {3}, {1, 2}, {}, {});
    ReceiverTakes(Apply(s, WaitFails(1)).0, 2, 2, 2, {3}, {2});
  }

  lemma OneSenderParks(v: int) returns (s: System<int>)
    ensures At(s, 2, 2, {3}, {1, 2}, {5}, {})
  {
    s := TwoAreSignalled(v);
    s := SenderParks(s, 5, v, 3, 2, {3}, {1, 2}, {});
    assert {} + {5} == {5};
  }

  lemma OneReceiverFails(v: int) returns (s: System<int>)
    ensures At(s, 2, 2, {3}, {1}, {5}, {})
  {
    var before := OneSenderParks(v);
    SignalledFails(before, 2, 2, 2, {3}, {1, 2}, {5}, {});
    assert {1, 2} - {2} == {1} && {} - {2} == {};
    s := Apply(before, WaitFails(2)).0;
  }

  /** A parked sender can make up for a lost signal. Receiver 2 has failed beside receiver 1,
      with receiver 3 and sender 5 parked; then 1 takes a value and wakes 5, which deposits one
      and so wakes 3. */
  lemma ParkedSenderRescues(v: int) returns (s: System<int>)
    ensures Reached(s) && Safe(s) && !Signalled(s) && s.recvParked == {3} && s.sendSignalled == {}
    ensures !TallyOf(s).Ruined()
  {
    s := OneReceiverFails(v);
    assert TallyOf(s) == Tally(2, 2, false, 1, 1, 1, 0);
  }

  /** An open rendezvous channel with these receivers inside and no sender. */
  ghost predicate AtSlot(s: System<int>, full: bool, rp: set<Tid>, rs: set<Tid>, accepted: seq<int>) {
    && Reached(s) && Safe(s) && s.m.capacity == 0 && s.m.slotFull == full && !s.m.closed
    && s.m.waitingReceivers == |rp| + |rs| && s.accepted == accepted && s.received == []
    && s.recvParked == rp && s.recvSignalled == rs && s.sendParked == s.sendSignalled == {}
  }

  lemma RendezvousReceiverParks(v: int) returns (s: System<int>)
    ensures AtSlot(s, false, {1}, {}, [])
  {
    NewIsReached(0, v);
    s := Go(Empty(0, v), ReceiveCall(1, 0, 0));
  }

  /** A rendezvous receiver waits, and a sender deposits its value and returns OK. */
  lemma SlotIsFilled(v: int) returns (s: System<int>)
    ensures AtSlot(s, true, {}, {1}, [v])
  {
    s := RendezvousReceiverParks(v);
    s := Go(s, SendCall(2, v, 1));
  }

  /** Then the only receiver times out: the value stays in the slot with nobody inside. */
  lemma TimeoutCanOrphanSlot(v: int) returns (s: System<int>)
    ensures Reached(s) && Safe(s) && Signalled(s) && s.accepted == [v] && 1 in s.recvSignalled
    ensures var s' := Apply(s, WaitFails(1)).0;
            SlotOrphaned(s') && s'.Inside() == {} && s'.accepted == [v] && s'.received == []
  {
    s := SlotIsFilled(v);
    SignalledReceiverFails(s, 1);
  }
}
