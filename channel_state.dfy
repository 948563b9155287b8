/**
 * The bounded blocking queue `Channel[G]` (channel/examples/custom_channel) as a
 * state machine over its lock-guarded state.
 *
 * Every critical section of the Go code runs under the condition variable's
 * mutex, so each one is one atomic step here. The two methods that wait on the
 * condition variable are split at their wait loop: `Send` becomes `SendBegin`
 * (the closed check) and `SendFinish` (the push, enabled once the loop
 * `for len == capacity` would exit); `Receive` becomes `ReceiveBegin` (the
 * closed check and the widening `capacity++`) and `ReceiveFinish` (enabled once
 * `for len == 0` would exit; the narrowing `capacity--` and the dequeue).
 */
module ChannelState {
  import opened Wrappers

  /** The two errors the channel reports. */
  datatype Error =
    | AlreadyClosed   // `Close` on a closed channel
    | SendOnClosed    // `Send` on a closed channel

  /**
   * `store`, `capacity` and `closed` are the fields of the Go struct.
   * `initial`, `senders` and `receivers` are bookkeeping the Go code does not
   * keep: the capacity passed to the constructor, and the number of senders and
   * receivers that have passed their closed check but not yet completed.
   */
  datatype Chan<G> = Chan(store: seq<G>, capacity: int, closed: bool,
                          initial: int, senders: nat, receivers: nat)

  /** `NewChannel(capacity)`: an empty, open channel. */
  function NewChannel<G>(capacity: int): Chan<G>
  {
    Chan([], capacity, false, capacity, 0, 0)
  }

  /** `Send` up to its wait loop: the closed check, made once at entry. */
  function SendBegin<G>(s: Chan<G>): (Chan<G>, Outcome<Error>)
  {
    if s.closed then (s, Fail(SendOnClosed))
    else (s.(senders := s.senders + 1), Pass)
  }

  /** A sender past its closed check may leave the loop `for len == capacity`. */
  predicate SendReady<G>(s: Chan<G>)
  {
    s.senders > 0 && |s.store| != s.capacity
  }

  /** `Send` after its wait loop: push the message at the tail. */
  function SendFinish<G>(s: Chan<G>, message: G): Chan<G>
    requires SendReady(s)
  {
    s.(store := s.store + [message], senders := s.senders - 1)
  }

  /** `Receive` up to its wait loop: the closed check, then `capacity++`. */
  function ReceiveBegin<G>(s: Chan<G>): (Chan<G>, bool)
  {
    if s.closed then (s, false)
    else (s.(capacity := s.capacity + 1, receivers := s.receivers + 1), true)
  }

  /** A receiver past its closed check may leave the loop `for len == 0`. */
  predicate ReceiveReady<G>(s: Chan<G>)
  {
    s.receivers > 0 && |s.store| != 0
  }

  /** `Receive` after its wait loop: `capacity--`, then remove and return the front. */
  function ReceiveFinish<G>(s: Chan<G>): (Chan<G>, G)
    requires ReceiveReady(s)
  {
    (s.(capacity := s.capacity - 1, store := s.store[1..], receivers := s.receivers - 1),
     s.store[0])
  }

  /** `Close`: one-shot. */
  function Close<G>(s: Chan<G>): (Chan<G>, Outcome<Error>)
  {
    if s.closed then (s, Fail(AlreadyClosed))
    else (s.(closed := true), Pass)
  }

  /**
   * A `Send` that does not have to wait (the queue is closed, or not full):
   * both halves in one step.
   */
  function Send<G>(s: Chan<G>, message: G): (Chan<G>, Outcome<Error>)
    requires s.closed || |s.store| != s.capacity
  {
    var (s1, r) := SendBegin(s);
    if r.Fail? then (s1, r) else (SendFinish(s1, message), Pass)
  }

  /**
   * A `Receive` that does not have to wait (the queue is closed, or holds an
   * item): both halves in one step; `None` is Go's `ok == false`.
   */
  function Receive<G>(s: Chan<G>): (Chan<G>, Option<G>)
    requires s.closed || |s.store| != 0
  {
    var (s1, ok) := ReceiveBegin(s);
    if !ok then (s1, None)
    else var (s2, m) := ReceiveFinish(s1); (s2, Some(m))
  }

  /**
   * The queue invariant: the capacity is the constructor's capacity widened by
   * one for each receiver between its widen and its narrow, and the store
   * never holds more items than the current capacity.
   */
  predicate Inv<G>(s: Chan<G>)
  {
    s.capacity == s.initial + s.receivers && |s.store| <= s.capacity
  }

  // ---------------------------------------------------------------------------
  // Construction

  /** A fresh channel is empty and open, with the given capacity and no caller in flight. */
  lemma NewChannelIsEmpty<G>(capacity: int)
    ensures NewChannel<G>(capacity).store == []
    ensures NewChannel<G>(capacity).capacity == capacity
    ensures !NewChannel<G>(capacity).closed
    ensures NewChannel<G>(capacity).senders == 0 && NewChannel<G>(capacity).receivers == 0
  {
  }

  /** The queue invariant holds of a fresh channel exactly when its capacity is not negative. */
  lemma NewChannelInv<G>(capacity: int)
    ensures Inv(NewChannel<G>(capacity)) <==> capacity >= 0
  {
  }

  /** On a fresh channel neither `Send` nor `Close` takes its error branch. */
  lemma FreshChannelAcceptsSendAndClose<G>(capacity: int)
    ensures SendBegin(NewChannel<G>(capacity)).1 == Pass
    ensures Close(NewChannel<G>(capacity)).1 == Pass
  {
  }

  // ---------------------------------------------------------------------------
  // Send

  /** `Send` on a closed channel fails and changes nothing; on an open one it passes and only registers the sender. */
  lemma SendBeginOutcome<G>(s: Chan<G>)
    ensures s.closed ==> SendBegin(s) == (s, Fail(SendOnClosed))
    ensures !s.closed ==>
              SendBegin(s).1 == Pass && SendBegin(s).0.store == s.store &&
              SendBegin(s).0.capacity == s.capacity && SendBegin(s).0.receivers == s.receivers
  {
  }

  /** Under the invariant, a sender leaves its wait loop only when there is room. */
  lemma SendReadyMeansRoom<G>(s: Chan<G>)
    requires Inv(s)
    ensures SendReady(s) <==> s.senders > 0 && |s.store| < s.capacity
  {
  }

  /**
   * A completed send appends the message at the tail, grows the store by one,
   * leaves capacity and the closed flag alone, and keeps the invariant.
   */
  lemma SendFinishAppends<G>(s: Chan<G>, message: G)
    requires SendReady(s)
    ensures SendFinish(s, message).store == s.store + [message]
    ensures |SendFinish(s, message).store| == |s.store| + 1
    ensures SendFinish(s, message).capacity == s.capacity
    ensures SendFinish(s, message).closed == s.closed
    ensures Inv(s) ==> Inv(SendFinish(s, message))
  {
  }

  /** After a successful `Close`, `Send` fails. */
  lemma SendAfterCloseFails<G>(s: Chan<G>)
    ensures Close(s).0.closed
    ensures SendBegin(Close(s).0).1 == Fail(SendOnClosed)
  {
  }

  // ---------------------------------------------------------------------------
  // Receive

  /**
   * `Receive` on a closed channel reports `ok == false` and changes nothing,
   * even when items are still buffered.
   */
  lemma ReceiveOnClosedDropsBuffered<G>(s: Chan<G>)
    requires s.closed
    ensures ReceiveBegin(s) == (s, false)
    ensures Receive(s) == (s, None)
  {
  }

  /** Entering `Receive` on an open channel widens the capacity by exactly one and keeps the invariant. */
  lemma ReceiveBeginWidens<G>(s: Chan<G>)
    requires !s.closed
    ensures ReceiveBegin(s).1
    ensures ReceiveBegin(s).0.capacity == s.capacity + 1
    ensures ReceiveBegin(s).0.store == s.store && ReceiveBegin(s).0.receivers == s.receivers + 1
    ensures Inv(s) ==> Inv(ReceiveBegin(s).0)
  {
  }

  /**
   * Completing `Receive` narrows the capacity by one, removes and returns the
   * oldest item, and keeps the invariant.
   */
  lemma ReceiveFinishTakesFront<G>(s: Chan<G>)
    requires ReceiveReady(s)
    ensures ReceiveFinish(s).1 == s.store[0]
    ensures ReceiveFinish(s).0.store == s.store[1..]
    ensures [ReceiveFinish(s).1] + ReceiveFinish(s).0.store == s.store
    ensures ReceiveFinish(s).0.capacity == s.capacity - 1
    ensures ReceiveFinish(s).0.closed == s.closed
    ensures Inv(s) ==> Inv(ReceiveFinish(s).0)
  {
  }

  /** A `Receive` that finds an item at entry leaves the capacity where it found it. */
  lemma ReceiveRestoresCapacity<G>(s: Chan<G>)
    requires !s.closed && |s.store| != 0
    ensures ReceiveReady(ReceiveBegin(s).0)
    ensures ReceiveFinish(ReceiveBegin(s).0).0.capacity == s.capacity
    ensures ReceiveFinish(ReceiveBegin(s).0).0.receivers == s.receivers
  {
  }

  // ---------------------------------------------------------------------------
  // Close

  /**
   * `Close` on an open channel sets the flag and passes; on a closed one it
   * fails and changes nothing. Store and capacity are never touched.
   */
  lemma CloseOutcome<G>(s: Chan<G>)
    ensures !s.closed ==> Close(s) == (s.(closed := true), Pass)
    ensures s.closed ==> Close(s) == (s, Fail(AlreadyClosed))
    ensures Close(s).0.store == s.store && Close(s).0.capacity == s.capacity
    ensures Close(s).0.closed
    ensures Inv(s) ==> Inv(Close(s).0)
  {
  }

  /** A second `Close` always fails. */
  lemma SecondCloseFails<G>(s: Chan<G>)
    ensures Close(Close(s).0).1 == Fail(AlreadyClosed)
    ensures Close(Close(s).0).0 == Close(s).0
  {
  }

  /**
   * The closed check is made only at entry: a sender or receiver already past
   * it is as able to complete after `Close` as before.
   */
  lemma InFlightCallersSurviveClose<G>(s: Chan<G>)
    ensures SendReady(Close(s).0) <==> SendReady(s)
    ensures ReceiveReady(Close(s).0) <==> ReceiveReady(s)
  {
  }

  // ---------------------------------------------------------------------------
  // Arbitrary interleavings

  /** One critical section of one caller. */
  datatype Step<G> =
    | BeginSend
    | FinishSend(message: G)
    | BeginReceive
    | FinishReceive
    | CloseChannel

  /**
   * Runs one critical section. A caller whose wait condition still holds stays
   * asleep: its step leaves the state as it is.
   */
  function Apply<G>(s: Chan<G>, step: Step<G>): Chan<G>
  {
    match step
    case BeginSend => SendBegin(s).0
    case FinishSend(m) => if SendReady(s) then SendFinish(s, m) else s
    case BeginReceive => ReceiveBegin(s).0
    case FinishReceive => if ReceiveReady(s) then ReceiveFinish(s).0 else s
    case CloseChannel => Close(s).0
  }

  /** Runs an interleaving of critical sections in order. */
  function Run<G>(s: Chan<G>, steps: seq<Step<G>>): Chan<G>
    decreases |steps|
  {
    if steps == [] then s else Run(Apply(s, steps[0]), steps[1..])
  }

  /** Every critical section keeps the queue invariant. */
  lemma ApplyPreservesInv<G>(s: Chan<G>, step: Step<G>)
    requires Inv(s)
    ensures Inv(Apply(s, step))
  {
  }

  /** The queue invariant holds after any interleaving of callers. */
  lemma {:induction false} RunPreservesInv<G>(s: Chan<G>, steps: seq<Step<G>>)
    requires Inv(s)
    ensures Inv(Run(s, steps))
    decreases |steps|
  {
    if steps != [] {
      ApplyPreservesInv(s, steps[0]);
      RunPreservesInv(Apply(s, steps[0]), steps[1..]);
    }
  }

  /** The closed flag never reverts, whatever runs after it is set. */
  lemma {:induction false} RunNeverReopens<G>(s: Chan<G>, steps: seq<Step<G>>)
    requires s.closed
    ensures Run(s, steps).closed
    decreases |steps|
  {
    if steps != [] {
      RunNeverReopens(Apply(s, steps[0]), steps[1..]);
    }
  }

  /**
   * Widening and narrowing balance: after any interleaving the capacity is the
   * constructor's capacity plus the receivers still in flight. From a fresh
   * channel with no receiver in flight the capacity is back where it started.
   */
  lemma {:induction false} RunCapacityAccounting<G>(s: Chan<G>, steps: seq<Step<G>>)
    requires s.capacity == s.initial + s.receivers
    ensures Run(s, steps).initial == s.initial
    ensures Run(s, steps).capacity == s.initial + Run(s, steps).receivers
    ensures Run(s, steps).receivers == 0 ==> Run(s, steps).capacity == s.initial
    decreases |steps|
  {
    if steps != [] {
      RunCapacityAccounting(Apply(s, steps[0]), steps[1..]);
    }
  }

  /** No step of `steps` belongs to another receiver. */
  predicate NoOtherReceiver<G>(steps: seq<Step<G>>)
  {
    forall i :: 0 <= i < |steps| ==> !steps[i].BeginReceive? && !steps[i].FinishReceive?
  }

  /** Senders and `Close` neither widen nor narrow: the capacity and the receiver count stay. */
  lemma {:induction false} RunWithoutReceiversKeepsCapacity<G>(s: Chan<G>, steps: seq<Step<G>>)
    requires NoOtherReceiver(steps)
    ensures Run(s, steps).capacity == s.capacity
    ensures Run(s, steps).receivers == s.receivers
    decreases |steps|
  {
    if steps != [] {
      assert NoOtherReceiver(steps[1..]) by {
        forall i | 0 <= i < |steps[1..]|
          ensures !steps[1..][i].BeginReceive? && !steps[1..][i].FinishReceive?
        {
          assert steps[1..][i] == steps[i + 1];
        }
      }
      assert !steps[0].BeginReceive? && !steps[0].FinishReceive?;
      RunWithoutReceiversKeepsCapacity(Apply(s, steps[0]), steps[1..]);
    }
  }

  /**
   * A `Receive` that has to wait: it widens, senders and `Close` run while it
   * sleeps, and once an item is there it narrows. It completes with the
   * capacity and the receiver count it found at entry.
   */
  lemma WaitingReceiveRestoresCapacity<G>(s: Chan<G>, steps: seq<Step<G>>)
    requires !s.closed && NoOtherReceiver(steps)
    requires ReceiveReady(Run(ReceiveBegin(s).0, steps))
    ensures ReceiveFinish(Run(ReceiveBegin(s).0, steps)).0.capacity == s.capacity
    ensures ReceiveFinish(Run(ReceiveBegin(s).0, steps)).0.receivers == s.receivers
  {
    RunWithoutReceiversKeepsCapacity(ReceiveBegin(s).0, steps);
  }

  /**
   * A negative capacity can deadlock: on `NewChannel(-1)` a receiver that comes
   * first widens the capacity to 0; the next sender then finds
   * `len == capacity` and waits, while the receiver waits for an item. While
   * the capacity stays negative a sender never waits.
   */
  lemma NegativeCapacityDeadlock<G>()
    ensures var s1 := ReceiveBegin(NewChannel<G>(-1)).0;
            var s2 := SendBegin(s1).0;
            s2.capacity == 0 && !SendReady(s2) && !ReceiveReady(s2)
    ensures SendReady(SendBegin(NewChannel<G>(-1)).0)
  {
  }

  // ---------------------------------------------------------------------------
  // FIFO order and rendezvous

  /** Sends every message of `xs` in order, none of them having to wait. */
  function SendAll<G>(s: Chan<G>, xs: seq<G>): (r: Chan<G>)
    requires !s.closed && |s.store| + |xs| <= s.capacity
    ensures r == s.(store := s.store + xs)
    decreases |xs|
  {
    if xs == [] then s
    else
      var s1 := Send(s, xs[0]).0;
      assert s1 == s.(store := s.store + [xs[0]]);
      SendAll(s1, xs[1..])
  }

  /** Receives `n` times, none of them having to wait; returns the items in order. */
  function ReceiveAll<G>(s: Chan<G>, n: nat): (r: (Chan<G>, seq<G>))
    requires !s.closed && n <= |s.store|
    ensures r.0 == s.(store := s.store[n..])
    ensures r.1 == s.store[..n]
    decreases n
  {
    if n == 0 then (s, [])
    else
      var (s1, m) := Receive(s);
      assert s1 == s.(store := s.store[1..]) && m == Some(s.store[0]);
      var (s2, ms) := ReceiveAll(s1, n - 1);
      (s2, [m.value] + ms)
  }

  /**
   * Round trip: sending v1..vn into a fresh channel of capacity at least n,
   * then receiving n times, yields v1..vn in order and leaves the channel as
   * it was when fresh.
   */
  lemma FifoRoundTrip<G>(capacity: nat, xs: seq<G>)
    requires |xs| <= capacity
    ensures ReceiveAll(SendAll(NewChannel(capacity), xs), |xs|) == (NewChannel(capacity), xs)
  {
    var start := NewChannel<G>(capacity);
    var full := SendAll(start, xs);
    assert full.store == xs;
    var (back, got) := ReceiveAll(full, |xs|);
    assert back.store == [];
    assert got == xs;
  }

  /**
   * Rendezvous on a capacity-0 channel: a sender alone cannot push; once a
   * receiver has widened, one sender pushes, the receiver takes that item, and
   * the channel is empty again with capacity 0.
   */
  lemma Rendezvous<G>(v: G)
    ensures !SendReady(SendBegin(NewChannel<G>(0)).0)
    ensures var (s1, ok) := ReceiveBegin(NewChannel<G>(0));
            var s2 := SendBegin(s1).0;
            ok && SendReady(s2) &&
            var s3 := SendFinish(s2, v);
            ReceiveReady(s3) &&
            var (s4, got) := ReceiveFinish(s3);
            got == v && s4.store == [] && s4.capacity == 0 && Inv(s4)
  {
  }
}
