// The channel of src/concurrency.c: one mutex, two condition variables, a ring
// buffer when the capacity is positive and a one-value rendezvous slot when it is
// zero. This file holds what one thread does while it owns the mutex; the file
// ChannelSystem.dfy composes these critical sections into runs of many threads.

module ChannelMonitor {
  import opened Bits

  /** The fields the mutex protects. `buffer` has one cell for a rendezvous channel. */
  datatype Monitor<V> = Monitor(
    capacity: nat,
    buffer: seq<V>,
    count: nat,
    first: nat,
    waitingReceivers: nat,
    slotFull: bool,
    closed: bool)
  {
    ghost predicate Valid() {
      && |buffer| == (if capacity == 0 then 1 else capacity)
      && count <= capacity
      && (capacity == 0 ==> first == 0)
      && (capacity > 0 ==> first < capacity && !slotFull && waitingReceivers == 0)
    }

    /** The values accepted and not yet taken, oldest first. */
    ghost function Contents(): (q: seq<V>)
      requires Valid()
    {
      if capacity == 0 then (if slotFull then [buffer[0]] else [])
      else seq(count, i requires 0 <= i < count => buffer[Cell(first, i, capacity)])
    }

    /** How many values the channel holds at most: a rendezvous slot holds one. */
    ghost function Bound(): nat {
      if capacity == 0 then 1 else capacity
    }

    /** The test of the sender's wait loop. */
    predicate SendMustWait() {
      !closed && if capacity == 0 then waitingReceivers == 0 || slotFull else count == capacity
    }

    /** The test of the receiver's wait loop. */
    predicate ReceiveMustWait() {
      !closed && if capacity == 0 then !slotFull else count == 0
    }
  }

  datatype SendOutcome = SendBlocks | SendClosed | SendOk

  datatype ReceiveOutcome<V> = ReceiveBlocks | ReceiveClosed | Took(value: V)

  /** A new channel; the cells of `buffer` are uninitialised storage. */
  ghost predicate IsFresh<V>(m: Monitor<V>) {
    && m.Valid()
    && m.count == m.first == m.waitingReceivers == 0
    && !m.slotFull && !m.closed
  }

  /** One evaluation of the sender's loop test and, unless it must wait, what follows. */
  ghost function SendAttempt<V>(m: Monitor<V>, v: V): (r: (SendOutcome, Monitor<V>))
    requires m.Valid()
    ensures r.1.Valid()
    ensures r.0.SendOk? ==> !m.closed && |m.Contents()| < m.Bound()
    ensures r.1.Contents() == if r.0.SendOk? then m.Contents() + [v] else m.Contents()
    ensures r.0.SendClosed? <==> m.closed
    ensures m.capacity > 0 ==> (r.0.SendBlocks? <==> !m.closed && |m.Contents()| == m.Bound())
    ensures !r.0.SendOk? ==> r.1 == m
    ensures r.1 == m.(buffer := r.1.buffer, count := r.1.count, slotFull := r.1.slotFull)
  {
    if m.SendMustWait() then (SendBlocks, m)
    else if m.closed then (SendClosed, m)
    else if m.capacity == 0 then (SendOk, m.(buffer := m.buffer[0 := v], slotFull := true))
    else
      var position := Cell(m.first, m.count, m.capacity);
      var m' := m.(buffer := m.buffer[position := v], count := m.count + 1);
      RingPush(m, v, m');
      (SendOk, m')
  }

  /** A rendezvous receiver announces itself before it looks at the slot. */
  ghost function ReceiveEnter<V>(m: Monitor<V>): (m': Monitor<V>)
    requires m.Valid()
    ensures m'.Valid() && m'.Contents() == m.Contents()
  {
    if m.capacity == 0 then m.(waitingReceivers := m.waitingReceivers + 1) else m
  }

  /** A receiver leaves without looking at the slot: its wait failed. */
  ghost function ReceiveAbandon<V>(m: Monitor<V>): (m': Monitor<V>)
    requires m.Valid() && (m.capacity == 0 ==> m.waitingReceivers > 0)
    ensures m'.Valid() && m'.Contents() == m.Contents()
  {
    if m.capacity == 0 then m.(waitingReceivers := m.waitingReceivers - 1) else m
  }

  /** One evaluation of the receiver's loop test and, unless it must wait, what follows. */
  ghost function ReceiveAttempt<V>(m: Monitor<V>): (r: (ReceiveOutcome<V>, Monitor<V>))
    requires m.Valid() && (m.capacity == 0 ==> m.waitingReceivers > 0)
    ensures r.1.Valid()
    ensures r.0.Took? ==> m.Contents() == [r.0.value] + r.1.Contents()
    ensures !r.0.Took? ==> m.Contents() == r.1.Contents() == []
    ensures r.0.ReceiveClosed? <==> m.closed && m.Contents() == []
    ensures r.0.ReceiveBlocks? <==> !m.closed && m.Contents() == []
    ensures r.0.ReceiveBlocks? ==> r.1 == m
    ensures r.1 == ReceiveAbandon(m).(first := r.1.first, count := r.1.count, slotFull := r.1.slotFull)
         || r.0.ReceiveBlocks?
  {
    if m.ReceiveMustWait() then (ReceiveBlocks, m)
    else if m.capacity == 0 then
      var left := m.(waitingReceivers := m.waitingReceivers - 1);
      if m.slotFull then (Took(m.buffer[0]), left.(slotFull := false)) else (ReceiveClosed, left)
    else if m.count == 0 then (ReceiveClosed, m)
    else
      var m' := m.(first := Cell(m.first, 1, m.capacity), count := m.count - 1);
      RingPop(m, m');
      (Took(m.buffer[m.first]), m')
  }

  /** The ring cell that is `i` places after `first`. */
  function Cell(first: nat, i: nat, capacity: nat): (cell: nat)
    requires first < capacity && i <= capacity
    ensures cell < capacity
    ensures cell == if first + i < capacity then first + i else first + i - capacity
  {
    var n := first + i;
    ModUnique(n, if n < capacity then 0 else 1, if n < capacity then n else n - capacity, capacity);
    n % capacity
  }

  lemma RingPush<V>(m: Monitor<V>, v: V, m': Monitor<V>)
    requires m.Valid() && m.capacity > 0 && m.count < m.capacity
    requires m' == m.(buffer := m.buffer[Cell(m.first, m.count, m.capacity) := v], count := m.count + 1)
    ensures m'.Valid() && m'.Contents() == m.Contents() + [v]
  {
  }

  lemma RingPop<V>(m: Monitor<V>, m': Monitor<V>)
    requires m.Valid() && m.capacity > 0 && m.count > 0
    requires m' == m.(first := Cell(m.first, 1, m.capacity), count := m.count - 1)
    ensures m'.Valid() && m.Contents() == [m.buffer[m.first]] + m'.Contents()
  {
  }

  /** The channel object. The methods below run with the mutex held. */
  class Channel<V(0)> {
    const capacity: nat
    const buffer: array<V>
    var count: nat
    var first: nat
    var waitingReceivers: nat
    var slotFull: bool
    var closed: bool

    ghost function View(): Monitor<V>
      reads this, buffer
    {
      Monitor(capacity, buffer[..], count, first, waitingReceivers, slotFull, closed)
    }

    constructor (capacity: nat)
      ensures IsFresh(View()) && this.capacity == capacity
      ensures fresh(buffer)
    {
      this.capacity := capacity;
      this.buffer := new V[if capacity == 0 then 1 else capacity];
      count, first, waitingReceivers := 0, 0, 0;
      slotFull, closed := false, false;
    }

    method TrySend(v: V) returns (outcome: SendOutcome)
      requires View().Valid()
      modifies this, buffer
      ensures (outcome, View()) == SendAttempt(old(View()), v)
    {
      if capacity == 0 {
        if !closed && (waitingReceivers == 0 || slotFull) { return SendBlocks; }
        if closed { return SendClosed; }
        buffer[0] := v;
        slotFull := true;
        return SendOk;
      }
      if !closed && count == capacity { return SendBlocks; }
      if closed { return SendClosed; }
      var position := Cell(first, count, capacity);
      buffer[position] := v;
      count := count + 1;
      return SendOk;
    }

    method EnterReceive()
      requires View().Valid()
      modifies this
      ensures View() == ReceiveEnter(old(View()))
    {
      if capacity == 0 { waitingReceivers := waitingReceivers + 1; }
    }

    method TryReceive() returns (outcome: ReceiveOutcome<V>)
      requires View().Valid() && (capacity == 0 ==> waitingReceivers > 0)
      modifies this
      ensures (outcome, View()) == ReceiveAttempt(old(View()))
    {
      if capacity == 0 {
        if !slotFull && !closed { return ReceiveBlocks; }
        waitingReceivers := waitingReceivers - 1;
        if !slotFull { return ReceiveClosed; }
        slotFull := false;
        return Took(buffer[0]);
      }
      if count == 0 && !closed { return ReceiveBlocks; }
      if count == 0 { return ReceiveClosed; }
      var value := buffer[first];
      first := Cell(first, 1, capacity);
      count := count - 1;
      return Took(value);
    }

    method AbandonReceive()
      requires View().Valid() && (capacity == 0 ==> waitingReceivers > 0)
      modifies this
      ensures View() == ReceiveAbandon(old(View()))
    {
      if capacity == 0 { waitingReceivers := waitingReceivers - 1; }
    }

    method Close()
      requires View().Valid()
      modifies this
      ensures View() == old(View()).(closed := true)
    {
      closed := true;
    }
  }
}
