// Any number of threads on one channel of src/concurrency.c. A step is one critical
// section: from taking the mutex (or being woken with it) to waiting or unlocking.
// A thread inside an operation is parked on a condition variable, or signalled: it has
// been woken and waits for the mutex. Waits may wake spuriously, time out or fail.

module ChannelSystem {
  import opened ChannelMonitor

  type Tid = nat

  /** `value` keeps what each sender is sending; `accepted` and `received` are the
      values of the successful sends and receives so far, in the order of their steps. */
  datatype System<V> = System(
    m: Monitor<V>,
    sendParked: set<Tid>,
    sendSignalled: set<Tid>,
    recvParked: set<Tid>,
    recvSignalled: set<Tid>,
    value: map<Tid, V>,
    accepted: seq<V>,
    received: seq<V>)
  {
    ghost function Inside(): set<Tid> {
      sendParked + sendSignalled + recvParked + recvSignalled
    }
  }

  /** `wake` and `wakeFirst` say which parked thread a condition signal picks. */
  datatype Action<V> =
    | SendCall(t: Tid, v: V, wake: Tid)
    | SendResume(t: Tid, wake: Tid)
    | ReceiveCall(t: Tid, wakeFirst: Tid, wake: Tid)
    | ReceiveResume(t: Tid, wake: Tid)
    | SpuriousWake(t: Tid)
    | WaitFails(t: Tid)
    | Close

  datatype Reply<V> =
    | StillWaiting | SentOk(v: V) | SentClosed | ReceivedOk(v: V) | ReceivedClosed | WaitError | NoReply

  ghost predicate Init<V>(s: System<V>) {
    && IsFresh(s.m)
    && s.Inside() == {} && s.accepted == s.received == []
  }

  ghost function WakeReceiver<V>(s: System<V>, pick: Tid): System<V> {
    if pick in s.recvParked
    then s.(recvParked := s.recvParked - {pick}, recvSignalled := s.recvSignalled + {pick})
    else s
  }

  ghost function WakeSender<V>(s: System<V>, pick: Tid): System<V> {
    if pick in s.sendParked
    then s.(sendParked := s.sendParked - {pick}, sendSignalled := s.sendSignalled + {pick})
    else s
  }

  /** A condition signal wakes a parked thread when there is one. */
  ghost predicate Picks(parked: set<Tid>, pick: Tid) {
    parked == {} || pick in parked
  }

  /** A thread inside the channel is in exactly one of the four waiting sets. */
  ghost predicate Apart<V>(s: System<V>) {
    && s.sendParked !! s.sendSignalled && s.recvParked !! s.recvSignalled
    && s.sendParked !! s.recvParked && s.sendParked !! s.recvSignalled
    && s.sendSignalled !! s.recvParked && s.sendSignalled !! s.recvSignalled
  }

  /** What holds inside a critical section run by `running` receivers (0 or 1). */
  ghost predicate Consistent<V>(s: System<V>, running: nat) {
    && s.m.Valid()
    && Apart(s)
    && s.sendParked + s.sendSignalled <= s.value.Keys
    && (s.m.capacity == 0 ==> s.m.waitingReceivers == |s.recvParked| + |s.recvSignalled| + running)
    && (s.m.closed ==> s.sendParked == {} && s.recvParked == {})
    && s.accepted == s.received + s.m.Contents()
  }

  /** What every reachable state satisfies, whatever the waits do. */
  ghost predicate Safe<V>(s: System<V>) {
    Consistent(s, 0)
  }

  ghost predicate Enabled<V>(s: System<V>, a: Action<V>) {
    match a
    case SendCall(t, v, wake) => t !in s.Inside() && Picks(s.recvParked, wake)
    case SendResume(t, wake) => t in s.sendSignalled && Picks(s.recvParked, wake)
    case ReceiveCall(t, wakeFirst, wake) =>
      && t !in s.Inside()
      && (s.m.capacity == 0 ==> Picks(s.sendParked, wakeFirst))
      && Picks(if s.m.capacity == 0 then s.sendParked - {wakeFirst} else s.sendParked, wake)
    case ReceiveResume(t, wake) => t in s.recvSignalled && Picks(s.sendParked, wake)
    case SpuriousWake(t) => t in s.sendParked + s.recvParked
    case WaitFails(t) => t in s.Inside()
    case Close => true
  }

  /** A running sender `t`: it parks, is refused, or deposits and signals a receiver. */
  ghost function SendTry<V>(s: System<V>, t: Tid, v: V, wake: Tid): (System<V>, Reply<V>)
    requires s.m.Valid()
  {
    var (outcome, m') := SendAttempt(s.m, v);
    match outcome
    case SendBlocks => (s.(sendParked := s.sendParked + {t}, value := s.value[t := v]), StillWaiting)
    case SendClosed => (s, SentClosed)
    case SendOk => (WakeReceiver(s.(m := m', accepted := s.accepted + [v]), wake), SentOk(v))
  }

  /** A running receiver `t`: it parks, is refused, or takes a value and signals a sender. */
  ghost function ReceiveTry<V>(s: System<V>, t: Tid, wake: Tid): (System<V>, Reply<V>)
    requires s.m.Valid() && (s.m.capacity == 0 ==> s.m.waitingReceivers > 0)
  {
    var (outcome, m') := ReceiveAttempt(s.m);
    match outcome
    case ReceiveBlocks => (s.(recvParked := s.recvParked + {t}), StillWaiting)
    case ReceiveClosed => (s.(m := m'), ReceivedClosed)
    case Took(v) => (WakeSender(s.(m := m', received := s.received + [v]), wake), ReceivedOk(v))
  }

  ghost function Apply<V>(s: System<V>, a: Action<V>): (System<V>, Reply<V>)
    requires Safe(s) && Enabled(s, a)
  {
    match a
    case SendCall(t, v, wake) => SendTry(s, t, v, wake)
    case SendResume(t, wake) => SendTry(s.(sendSignalled := s.sendSignalled - {t}), t, s.value[t], wake)
    case ReceiveCall(t, wakeFirst, wake) =>
      var entered := s.(m := ReceiveEnter(s.m));
      ReceiveTry(if s.m.capacity == 0 then WakeSender(entered, wakeFirst) else entered, t, wake)
    case ReceiveResume(t, wake) =>
      InsideReceiverIsCounted(s, t);
      ReceiveTry(s.(recvSignalled := s.recvSignalled - {t}), t, wake)
    case SpuriousWake(t) => (WakeReceiver(WakeSender(s, t), t), NoReply)
    case WaitFails(t) =>
      if t in s.sendParked + s.sendSignalled
      then (s.(sendParked := s.sendParked - {t}, sendSignalled := s.sendSignalled - {t}), WaitError)
      else
        InsideReceiverIsCounted(s, t);
        (s.(m := ReceiveAbandon(s.m), recvParked := s.recvParked - {t}, recvSignalled := s.recvSignalled - {t}),
         WaitError)
    case Close =>
      (s.(m := s.m.(closed := true),
          sendParked := {}, sendSignalled := s.sendSignalled + s.sendParked,
          recvParked := {}, recvSignalled := s.recvSignalled + s.recvParked), NoReply)
  }

  lemma InsideReceiverIsCounted<V>(s: System<V>, t: Tid)
    requires Safe(s) && t in s.recvParked + s.recvSignalled
    ensures s.m.capacity == 0 ==> s.m.waitingReceivers > 0
  {
  }

  lemma MovedCounts(a: set<Tid>, b: set<Tid>, x: Tid)
    requires x in a && a !! b
    ensures |a - {x}| + |b + {x}| == |a| + |b|
  {
  }

  lemma WakeReceiverIsConsistent<V>(s: System<V>, pick: Tid, running: nat)
    requires Consistent(s, running)
    ensures Consistent(WakeReceiver(s, pick), running)
  {
  }

  lemma WakeSenderIsConsistent<V>(s: System<V>, pick: Tid, running: nat)
    requires Consistent(s, running)
    ensures Consistent(WakeSender(s, pick), running)
  {
  }

  lemma SenderFailureIsSafe<V>(s: System<V>, t: Tid)
    requires Safe(s)
    ensures Safe(s.(sendParked := s.sendParked - {t}, sendSignalled := s.sendSignalled - {t}))
  {
  }

  lemma ReceiverFailureIsSafe<V>(s: System<V>, t: Tid)
    requires Safe(s) && t in s.recvParked + s.recvSignalled && (s.m.capacity == 0 ==> s.m.waitingReceivers > 0)
    ensures Safe(s.(m := ReceiveAbandon(s.m), recvParked := s.recvParked - {t}, recvSignalled := s.recvSignalled - {t}))
  {
  }

  lemma WaitFailureIsSafe<V>(s: System<V>, t: Tid)
    requires Safe(s) && t in s.Inside()
    ensures Safe(Apply(s, WaitFails(t)).0)
  {
    if t in s.sendParked + s.sendSignalled {
      SenderFailureIsSafe(s, t);
    } else {
      InsideReceiverIsCounted(s, t);
      ReceiverFailureIsSafe(s, t);
    }
  }

  lemma CloseIsSafe<V>(s: System<V>)
    requires Safe(s)
    ensures Safe(Apply(s, Close).0)
  {
  }

  lemma SendTryIsSafe<V>(s: System<V>, t: Tid, v: V, wake: Tid)
    requires Safe(s) && t !in s.Inside()
    ensures Safe(SendTry(s, t, v, wake).0)
  {
    var (outcome, m') := SendAttempt(s.m, v);
    if outcome.SendOk? {
      assert s.accepted + [v] == s.received + (s.m.Contents() + [v]);
      WakeReceiverIsConsistent(s.(m := m', accepted := s.accepted + [v]), wake, 0);
    }
  }

  lemma ReceiveTryIsSafe<V>(s: System<V>, t: Tid, wake: Tid)
    requires Consistent(s, 1) && t !in s.Inside()
    ensures Safe(ReceiveTry(s, t, wake).0)
  {
    var (outcome, m') := ReceiveAttempt(s.m);
    match outcome
    case ReceiveBlocks =>
    case ReceiveClosed =>
    case Took(v) =>
      assert s.received + ([v] + m'.Contents()) == (s.received + [v]) + m'.Contents();
      WakeSenderIsConsistent(s.(m := m', received := s.received + [v]), wake, 0);
  }

  lemma StepIsSafe<V>(s: System<V>, a: Action<V>)
    requires Safe(s) && Enabled(s, a)
    ensures Safe(Apply(s, a).0)
  {
    match a
    case SendCall(t, v, wake) => SendTryIsSafe(s, t, v, wake);
    case SendResume(t, wake) => SendTryIsSafe(s.(sendSignalled := s.sendSignalled - {t}), t, s.value[t], wake);
    case ReceiveCall(t, wakeFirst, wake) =>
      var entered := s.(m := ReceiveEnter(s.m));
      WakeSenderIsConsistent(entered, wakeFirst, 1);
      ReceiveTryIsSafe(if s.m.capacity == 0 then WakeSender(entered, wakeFirst) else entered, t, wake);
    case ReceiveResume(t, wake) =>
      ReceiveTryIsSafe(s.(recvSignalled := s.recvSignalled - {t}), t, wake);
    case SpuriousWake(t) =>
      WakeSenderIsConsistent(s, t, 0);
      WakeReceiverIsConsistent(WakeSender(s, t), t, 0);
    case WaitFails(t) => WaitFailureIsSafe(s, t);
    case Close => CloseIsSafe(s);
  }
}
