// What the callers of the channel of src/concurrency.c see over whole runs: which calls are
// unanswered, whose values the successful sends deposit, and that closing closes.

module ChannelCalls {
  import opened Common
  import opened ChannelMonitor
  import opened ChannelSystem
  import opened ChannelTheorems

  // ---------- Calls without an answer ----------

  /** What a thread is in the middle of, read off its calls and their answers alone. */
  datatype Unanswered<V> = Outside | Sending(v: V) | Receiving

  ghost predicate By<V>(a: Action<V>, t: Tid) {
    !a.Close? && a.t == t
  }

  ghost function Answered<V>(r: Reply<V>, w: Unanswered<V>): Unanswered<V> {
    if r.StillWaiting? then w else Outside
  }

  /** What a thread is in the middle of after an action with a reply, if it was `w` before. */
  ghost function Moved<V>(a: Action<V>, r: Reply<V>, t: Tid, w: Unanswered<V>): Unanswered<V> {
    if !By(a, t) || a.SpuriousWake? then w
    else if a.SendCall? then Answered(r, Sending(a.v))
    else if a.ReceiveCall? then Answered(r, Receiving)
    else Answered(r, w)
  }

  ghost function Waiting<V>(acts: seq<Action<V>>, replies: seq<Reply<V>>, t: Tid, n: nat): Unanswered<V>
    requires n <= |acts| && |replies| == |acts|
  {
    if n == 0 then Outside
    else Moved(acts[n - 1], replies[n - 1], t, Waiting(acts, replies, t, n - 1))
  }

  /** Thread `t` is in the waiting sets what `w` says. */
  ghost predicate Within<V>(s: System<V>, t: Tid, w: Unanswered<V>) {
    match w
    case Sending(v) => (t in s.sendParked || t in s.sendSignalled) && t in s.value && s.value[t] == v
    case Receiving => t in s.recvParked || t in s.recvSignalled
    case Outside => t !in s.sendParked && t !in s.sendSignalled && t !in s.recvParked && t !in s.recvSignalled
  }

  lemma WakeReceiverKeepsWithin<V>(s: System<V>, pick: Tid, t: Tid, w: Unanswered<V>)
    requires Within(s, t, w)
    ensures Within(WakeReceiver(s, pick), t, w)
  {
  }

  lemma WakeSenderKeepsWithin<V>(s: System<V>, pick: Tid, t: Tid, w: Unanswered<V>)
    requires Within(s, t, w)
    ensures Within(WakeSender(s, pick), t, w)
  {
  }

  lemma SendTryMoves<V>(s: System<V>, t: Tid, v: V, wake: Tid, u: Tid, w: Unanswered<V>)
    requires s.m.Valid() && Within(s, t, Outside) && Within(s, u, w)
    ensures var (s', r) := SendTry(s, t, v, wake);
            Within(s', u, if u == t then Answered(r, Sending(v)) else w)
  {
    var (outcome, m') := SendAttempt(s.m, v);
    if outcome.SendOk? { WakeReceiverKeepsWithin(s.(m := m', accepted := s.accepted + [v]), wake, u, w); }
  }

  lemma ReceiveTryMoves<V>(s: System<V>, t: Tid, wake: Tid, u: Tid, w: Unanswered<V>)
    requires s.m.Valid() && (s.m.capacity == 0 ==> s.m.waitingReceivers > 0)
    requires Within(s, t, Outside) && Within(s, u, w)
    ensures var (s', r) := ReceiveTry(s, t, wake);
            Within(s', u, if u == t then Answered(r, Receiving) else w)
  {
    var (outcome, m') := ReceiveAttempt(s.m);
    if outcome.Took? { WakeSenderKeepsWithin(s.(m := m', received := s.received + [outcome.value]), wake, u, w); }
  }

  ghost predicate Moves<V>(s: System<V>, a: Action<V>, u: Tid, w: Unanswered<V>)
    requires Safe(s) && Enabled(s, a)
  {
    var (s', r) := Apply(s, a);
    Within(s', u, Moved(a, r, u, w))
  }

  lemma StepMoves<V>(s: System<V>, a: Action<V>, u: Tid, w: Unanswered<V>)
    requires Safe(s) && Enabled(s, a) && Within(s, u, w)
    ensures Moves(s, a, u, w)
  {
    match a
    case SendCall(t, v, wake) => SendCallMoves(s, t, v, wake, u, w);
    case SendResume(t, wake) => SendResumeMoves(s, t, wake, u, w);
    case ReceiveCall(t, wakeFirst, wake) => ReceiveCallMoves(s, t, wakeFirst, wake, u, w);
    case ReceiveResume(t, wake) => ReceiveResumeMoves(s, t, wake, u, w);
    case SpuriousWake(t) => SpuriousMoves(s, t, u, w);
    case WaitFails(t) => FailureMoves(s, t, u, w);
    case Close => CloseMoves(s, u, w);
  }

  lemma SpuriousMoves<V>(s: System<V>, t: Tid, u: Tid, w: Unanswered<V>)
    requires Safe(s) && Enabled(s, SpuriousWake(t)) && Within(s, u, w)
    ensures Moves(s, SpuriousWake(t), u, w)
  {
    WakeSenderKeepsWithin(s, t, u, w);
    WakeReceiverKeepsWithin(WakeSender(s, t), t, u, w);
  }

  lemma FailureMoves<V>(s: System<V>, t: Tid, u: Tid, w: Unanswered<V>)
    requires Safe(s) && Enabled(s, WaitFails(t)) && Within(s, u, w)
    ensures Moves(s, WaitFails(t), u, w)
  {
    if u == t { FailureLeaves(s, t); } else { FailureKeeps(s, t, u, w); }
  }

  lemma FailureLeaves<V>(s: System<V>, t: Tid)
    requires Safe(s) && Enabled(s, WaitFails(t))
    ensures Within(Apply(s, WaitFails(t)).0, t, Outside) && Apply(s, WaitFails(t)).1 == WaitError
  {
    if t !in s.sendParked + s.sendSignalled { InsideReceiverIsCounted(s, t); }
  }

  lemma FailureKeeps<V>(s: System<V>, t: Tid, u: Tid, w: Unanswered<V>)
    requires Safe(s) && Enabled(s, WaitFails(t)) && Within(s, u, w) && u != t
    ensures Within(Apply(s, WaitFails(t)).0, u, w)
  {
    if t !in s.sendParked + s.sendSignalled { InsideReceiverIsCounted(s, t); }
  }

  lemma CloseMoves<V>(s: System<V>, u: Tid, w: Unanswered<V>)
    requires Safe(s) && Within(s, u, w)
    ensures Moves(s, Close, u, w)
  {
  }

  lemma SendCallMoves<V>(s: System<V>, t: Tid, v: V, wake: Tid, u: Tid, w: Unanswered<V>)
    requires Safe(s) && Enabled(s, SendCall(t, v, wake)) && Within(s, u, w)
    ensures Moves(s, SendCall(t, v, wake), u, w)
  {
    SendTryMoves(s, t, v, wake, u, w);
  }

  lemma SendResumeMoves<V>(s: System<V>, t: Tid, wake: Tid, u: Tid, w: Unanswered<V>)
    requires Safe(s) && Enabled(s, SendResume(t, wake)) && Within(s, u, w)
    ensures Moves(s, SendResume(t, wake), u, w)
  {
    var rest := s.(sendSignalled := s.sendSignalled - {t});
    SendTryMoves(rest, t, s.value[t], wake, u, if u == t then Outside else w);
  }

  lemma ReceiveCallMoves<V>(s: System<V>, t: Tid, wakeFirst: Tid, wake: Tid, u: Tid, w: Unanswered<V>)
    requires Safe(s) && Enabled(s, ReceiveCall(t, wakeFirst, wake)) && Within(s, u, w)
    ensures Moves(s, ReceiveCall(t, wakeFirst, wake), u, w)
  {
    var a := ReceiveCall(t, wakeFirst, wake);
    var (s', r) := Apply(s, a);
    EnteredMoves(s, t, wakeFirst, wake, u, w);
    assert Moved(a, r, u, w) == if u == t then Answered(r, Receiving) else w;
    assert Within(s', u, Moved(a, r, u, w));
  }

  lemma EnteredMoves<V>(s: System<V>, t: Tid, wakeFirst: Tid, wake: Tid, u: Tid, w: Unanswered<V>)
    requires Safe(s) && Enabled(s, ReceiveCall(t, wakeFirst, wake)) && Within(s, u, w)
    ensures var (s', r) := Apply(s, ReceiveCall(t, wakeFirst, wake));
            Within(s', u, if u == t then Answered(r, Receiving) else w)
  {
    var entered := s.(m := ReceiveEnter(s.m));
    WakeSenderKeepsWithin(entered, wakeFirst, u, w);
    ReceiveTryMoves(if s.m.capacity == 0 then WakeSender(entered, wakeFirst) else entered, t, wake, u, w);
  }

  lemma ReceiveResumeMoves<V>(s: System<V>, t: Tid, wake: Tid, u: Tid, w: Unanswered<V>)
    requires Safe(s) && Enabled(s, ReceiveResume(t, wake)) && Within(s, u, w)
    ensures Moves(s, ReceiveResume(t, wake), u, w)
  {
    InsideReceiverIsCounted(s, t);
    var rest := s.(recvSignalled := s.recvSignalled - {t});
    ReceiveTryMoves(rest, t, wake, u, if u == t then Outside else w);
  }

  /** On every step `t` moves as its calls and their answers say. */
  ghost predicate MovesAlong<V>(states: seq<System<V>>, acts: seq<Action<V>>, replies: seq<Reply<V>>, t: Tid) {
    && |states| == |acts| + 1 && |replies| == |acts| && Within(states[0], t, Outside)
    && forall k: nat :: k < |acts| && Within(states[k], t, Waiting(acts, replies, t, k)) ==>
         Within(states[k + 1], t, Waiting(acts, replies, t, k + 1))
  }

  lemma RunMovesAlong<V>(states: seq<System<V>>, acts: seq<Action<V>>, replies: seq<Reply<V>>, t: Tid)
    requires Run(states, acts, replies)
    ensures MovesAlong(states, acts, replies, t)
  {
    assert t !in states[0].Inside();
    forall k: nat | k < |acts| && Within(states[k], t, Waiting(acts, replies, t, k))
      ensures Within(states[k + 1], t, Waiting(acts, replies, t, k + 1))
    {
      assert IsStep(states[k], acts[k], states[k + 1], replies[k]);
      StepMoves(states[k], acts[k], t, Waiting(acts, replies, t, k));
    }
  }

  lemma {:induction false} WithinIsWaiting<V>(states: seq<System<V>>, acts: seq<Action<V>>, replies: seq<Reply<V>>,
      t: Tid, n: nat)
    requires MovesAlong(states, acts, replies, t) && n <= |acts|
    ensures Within(states[n], t, Waiting(acts, replies, t, n))
  {
    if n > 0 {
      WithinIsWaiting(states, acts, replies, t, n - 1);
      assert states[n - 1 + 1] == states[n];
    }
  }

  /** Over every run a thread is inside the channel exactly while its latest call has no
      answer, on the side of that call, and with the value it passed. */
  lemma {:induction false} InsideIsUnanswered<V>(states: seq<System<V>>, acts: seq<Action<V>>, replies: seq<Reply<V>>,
      t: Tid, n: nat)
    requires Run(states, acts, replies) && n <= |acts|
    ensures Within(states[n], t, Waiting(acts, replies, t, n))
    ensures t in states[n].Inside() <==> !Waiting(acts, replies, t, n).Outside?
  {
    RunMovesAlong(states, acts, replies, t);
    WithinIsWaiting(states, acts, replies, t, n);
  }

  // ---------- Conservation in the values of the calls ----------

  /** The value of the latest send call of `t` among the first `n` actions. */
  ghost function LatestSent<V>(acts: seq<Action<V>>, t: Tid, n: nat): Maybe<V>
    requires n <= |acts|
  {
    if n == 0 then Nothing
    else if acts[n - 1].SendCall? && acts[n - 1].t == t then Just(acts[n - 1].v)
    else LatestSent(acts, t, n - 1)
  }

  lemma {:induction false} SendingIsLatest<V>(acts: seq<Action<V>>, replies: seq<Reply<V>>, t: Tid, n: nat)
    requires n <= |acts| && |replies| == |acts| && Waiting(acts, replies, t, n).Sending?
    ensures LatestSent(acts, t, n) == Just(Waiting(acts, replies, t, n).v)
  {
    if !(acts[n - 1].SendCall? && acts[n - 1].t == t) { SendingIsLatest(acts, replies, t, n - 1); }
  }

  /** A send that succeeds is a thread's own step, and deposits what that thread passed to
      its latest send call. */
  lemma {:induction false} SentIsCalled<V>(states: seq<System<V>>, acts: seq<Action<V>>, replies: seq<Reply<V>>,
      i: nat)
    requires Run(states, acts, replies) && i < |acts| && replies[i].SentOk?
    ensures acts[i].SendCall? || acts[i].SendResume?
    ensures LatestSent(acts, acts[i].t, i + 1) == Just(replies[i].v)
  {
    var s, a := states[i], acts[i];
    assert IsStep(s, a, states[i + 1], replies[i]);
    StepRefinesQueue(s, a);
    if a.SendResume? {
      InsideIsUnanswered(states, acts, replies, a.t, i);
      SendTryRefines(s.(sendSignalled := s.sendSignalled - {a.t}), a.t, s.value[a.t], a.wake);
      SendingIsLatest(acts, replies, a.t, i);
    }
  }

  /** What the callers whose sends succeeded had passed, in the order of the answers. */
  ghost function CalledValues<V>(acts: seq<Action<V>>, replies: seq<Reply<V>>, n: nat): seq<V>
    requires n <= |acts| && |replies| == |acts|
  {
    if n == 0 then []
    else
      var a, before := acts[n - 1], CalledValues(acts, replies, n - 1);
      if replies[n - 1].SentOk? && (a.SendCall? || a.SendResume?) && LatestSent(acts, a.t, n).Just?
      then before + [LatestSent(acts, a.t, n).value] else before
  }

  lemma {:induction false} SentAreCalled<V>(states: seq<System<V>>, acts: seq<Action<V>>, replies: seq<Reply<V>>,
      n: nat)
    requires Run(states, acts, replies) && n <= |acts|
    ensures CalledValues(acts, replies, n) == SentValues(replies[..n])
  {
    if n > 0 {
      SentAreCalled(states, acts, replies, n - 1);
      HistoryGrows(replies, n);
      if replies[n - 1].SentOk? { SentIsCalled(states, acts, replies, n - 1); }
    }
  }

  /** Conservation and order on every run, with timeouts, spurious wakeups and close: the
      values passed to the sends that succeeded are the values received followed by those
      still held. */
  lemma ConservationAndFifo<V>(states: seq<System<V>>, acts: seq<Action<V>>, replies: seq<Reply<V>>, n: nat)
    requires Run(states, acts, replies) && n <= |acts|
    ensures states[n].m.Valid()
    ensures CalledValues(acts, replies, n) == ReceivedValues(replies[..n]) + states[n].m.Contents()
    ensures |states[n].m.Contents()| <= states[n].m.Bound() == states[0].m.Bound()
  {
    RunIsSafe(states, acts, replies, n);
    SentAreCalled(states, acts, replies, n);
    BoundStays(states, acts, replies, n);
  }

  lemma {:induction false} BoundStays<V>(states: seq<System<V>>, acts: seq<Action<V>>, replies: seq<Reply<V>>, n: nat)
    requires Run(states, acts, replies) && n <= |acts|
    ensures states[n].m.Bound() == states[0].m.Bound()
  {
    if n > 0 {
      var k := n - 1;
      BoundStays(states, acts, replies, k);
      assert IsStep(states[k], acts[k], states[k + 1], replies[k]);
      StepRefinesQueue(states[k], acts[k]);
    }
  }

  // ---------- Closing ----------

  lemma {:induction false} StaysClosed<V>(states: seq<System<V>>, acts: seq<Action<V>>, replies: seq<Reply<V>>,
      i: nat, n: nat)
    requires Run(states, acts, replies) && i < n <= |acts| && acts[i].Close?
    ensures states[n].m.closed
  {
    var k := n - 1;
    assert IsStep(states[k], acts[k], states[k + 1], replies[k]);
    StepRefinesQueue(states[k], acts[k]);
    if k > i { StaysClosed(states, acts, replies, i, k); }
  }

  /** What a step on a closed channel is answered. */
  ghost predicate ClosedAnswer<V>(a: Action<V>, r: Reply<V>, held: seq<V>) {
    && (a.SendCall? || a.SendResume? ==> r == SentClosed)
    && (a.ReceiveCall? || a.ReceiveResume? ==> r == if held != [] then ReceivedOk(held[0]) else ReceivedClosed)
    && !r.SentOk? && !r.StillWaiting?
  }

  /** Closing closes, for good: every later send is refused, every later receive takes the
      oldest value still held or is refused, and nobody waits any more. */
  lemma ClosingIsFinal<V>(states: seq<System<V>>, acts: seq<Action<V>>, replies: seq<Reply<V>>, i: nat, n: nat)
    requires Run(states, acts, replies) && i < n <= |acts| && acts[i].Close?
    ensures Safe(states[n]) && states[n].m.closed && states[n].sendParked == states[n].recvParked == {}
    ensures n < |acts| ==> ClosedAnswer(acts[n], replies[n], states[n].m.Contents())
  {
    StaysClosed(states, acts, replies, i, n);
    RunIsSafe(states, acts, replies, n);
    if n < |acts| {
      assert IsStep(states[n], acts[n], states[n + 1], replies[n]);
      StepRefinesQueue(states[n], acts[n]);
    }
  }

  /** Only closing closes: on a run without it every state is open. */
  lemma {:induction false} OpenUntilClosed<V>(states: seq<System<V>>, acts: seq<Action<V>>, replies: seq<Reply<V>>,
      n: nat)
    requires Run(states, acts, replies) && n <= |acts|
    requires forall i :: 0 <= i < n ==> !acts[i].Close?
    ensures !states[n].m.closed
  {
    if n > 0 {
      var k := n - 1;
      OpenUntilClosed(states, acts, replies, k);
      assert IsStep(states[k], acts[k], states[k + 1], replies[k]);
      StepRefinesQueue(states[k], acts[k]);
    }
  }

  // ---------- Waiting and waking ----------

  /** A send waits exactly while the channel is open and full, or is a rendezvous without
      a receiver inside. */
  lemma SendWaitsExactly<V>(s: System<V>, a: Action<V>)
    requires Safe(s) && Enabled(s, a) && (a.SendCall? || a.SendResume?)
    ensures Apply(s, a).1.StillWaiting? <==>
              !s.m.closed && (|s.m.Contents()| == s.m.Bound()
                              || (s.m.capacity == 0 && s.recvParked == s.recvSignalled == {}))
  {
    var v := if a.SendCall? then a.v else s.value[a.t];
    var rest := if a.SendCall? then s else s.(sendSignalled := s.sendSignalled - {a.t});
    SendTryRefines(rest, a.t, v, a.wake);
  }

  /** A thread outside may call at any time, one inside may fail at any time, and anyone may
      close. */
  lemma CallsArePossible<V>(s: System<V>, t: Tid, v: V) returns (wake: Tid, wakeFirst: Tid, next: Tid)
    requires Safe(s)
    ensures t !in s.Inside() ==> Enabled(s, SendCall(t, v, wake)) && Enabled(s, ReceiveCall(t, wakeFirst, next))
    ensures t in s.Inside() ==> Enabled(s, WaitFails(t))
    ensures Enabled(s, Close)
  {
    wake, wakeFirst, next := 0, 0, 0;
    if s.recvParked != {} { wake :| wake in s.recvParked; }
    if s.sendParked != {} { wakeFirst :| wakeFirst in s.sendParked; }
    var left := if s.m.capacity == 0 then s.sendParked - {wakeFirst} else s.sendParked;
    if left != {} { next :| next in left; }
  }

  /** Whoever is inside can be woken, by the system or by closing, and then tries again. */
  lemma WokenTriesAgain<V>(s: System<V>, t: Tid, wake: Tid)
    requires Safe(s) && t in s.sendParked + s.recvParked
    requires Picks(s.recvParked - {t}, wake) && Picks(s.sendParked - {t}, wake)
    ensures Enabled(s, SpuriousWake(t))
    ensures var s' := Apply(s, SpuriousWake(t)).0;
            Enabled(s', if t in s.sendParked then SendResume(t, wake) else ReceiveResume(t, wake))
    ensures var s' := Apply(s, Close).0;
            Enabled(s', if t in s.sendParked then SendResume(t, wake) else ReceiveResume(t, wake))
  {
  }
}
