/**
 * The Go type `Channel[G]` (channel/examples/custom_channel) as a class whose
 * fields are updated in place. Each method is one critical section under the
 * channel's mutex and is proved to make exactly the transition of the
 * corresponding function of `ChannelState`; the wait loops of `Send` and
 * `Receive` are where the methods are split, and the loop's exit condition is
 * the `requires` of the second half.
 */
module CustomChannel {
  import opened Wrappers
  import ChannelState

  class Channel<G> {
    var store: seq<G>
    var capacity: int
    var closed: bool
    // Bookkeeping the Go struct does not keep (see ChannelState.Chan).
    ghost var initial: int
    ghost var senders: nat
    ghost var receivers: nat

    /** The channel's state as a value. */
    ghost function Model(): ChannelState.Chan<G>
      reads this
    {
      ChannelState.Chan(store, capacity, closed, initial, senders, receivers)
    }

    /** The queue invariant. */
    ghost predicate Valid()
      reads this
    {
      ChannelState.Inv(Model())
    }

    /** `NewChannel(capacity)`: the state `ChannelState.NewChannel(capacity)`. */
    constructor (capacity: int)
      ensures store == [] && this.capacity == capacity && !closed
      ensures initial == capacity && senders == 0 && receivers == 0
      ensures capacity >= 0 ==> Valid()
    {
      store := [];
      this.capacity := capacity;
      closed := false;
      initial := capacity;
      senders := 0;
      receivers := 0;
    }

    /** `Send` up to its wait loop: fails on a closed channel. */
    method SendBegin() returns (err: Outcome<ChannelState.Error>)
      modifies this
      ensures Model() == ChannelState.SendBegin(old(Model())).0 && err == ChannelState.SendBegin(old(Model())).1
      ensures old(Valid()) ==> Valid()
    {
      if closed {
        return Fail(ChannelState.SendOnClosed);
      }
      senders := senders + 1;
      err := Pass;
    }

    /** `Send` once `len == capacity` no longer holds: push the message at the tail. */
    method SendFinish(message: G)
      requires ChannelState.SendReady(Model())
      modifies this
      ensures Model() == ChannelState.SendFinish(old(Model()), message)
      ensures old(Valid()) ==> Valid()
    {
      store := store + [message];
      senders := senders - 1;
    }

    /** `Receive` up to its wait loop: `ok == false` on a closed channel, else widen. */
    method ReceiveBegin() returns (ok: bool)
      modifies this
      ensures Model() == ChannelState.ReceiveBegin(old(Model())).0 && ok == ChannelState.ReceiveBegin(old(Model())).1
      ensures old(Valid()) ==> Valid()
    {
      if closed {
        return false;
      }
      capacity := capacity + 1;
      receivers := receivers + 1;
      ok := true;
    }

    /** `Receive` once the store is not empty: narrow, then remove and return the front. */
    method ReceiveFinish() returns (message: G)
      requires ChannelState.ReceiveReady(Model())
      modifies this
      ensures Model() == ChannelState.ReceiveFinish(old(Model())).0 && message == ChannelState.ReceiveFinish(old(Model())).1
      ensures old(Valid()) ==> Valid()
    {
      capacity := capacity - 1;
      message := store[0];
      store := store[1..];
      receivers := receivers - 1;
    }

    /** `Close`: sets the flag once; a second call fails. */
    method Close() returns (err: Outcome<ChannelState.Error>)
      modifies this
      ensures Model() == ChannelState.Close(old(Model())).0 && err == ChannelState.Close(old(Model())).1
      ensures old(Valid()) ==> Valid()
    {
      if closed {
        return Fail(ChannelState.AlreadyClosed);
      }
      closed := true;
      err := Pass;
    }
  }

  /** A buffered channel of capacity 3: send 1, 2, 3, then receive them back in order. */
  method BufferedScenario() returns (first: int, second: int, third: int)
    ensures first == 1 && second == 2 && third == 3
  {
    var ch := new Channel<int>(3);
    var err := ch.SendBegin();
    ch.SendFinish(1);
    assert ch.store == [1];
    err := ch.SendBegin();
    ch.SendFinish(2);
    assert ch.store == [1, 2];
    err := ch.SendBegin();
    ch.SendFinish(3);
    assert ch.store == [1, 2, 3];
    var ok := ch.ReceiveBegin();
    first := ch.ReceiveFinish();
    assert ch.store == [2, 3];
    ok := ch.ReceiveBegin();
    second := ch.ReceiveFinish();
    assert ch.store == [3];
    ok := ch.ReceiveBegin();
    third := ch.ReceiveFinish();
  }

  /**
   * A capacity-0 channel: a receiver widens, a sender that was waiting pushes,
   * the receiver takes the item; nothing stays buffered and the capacity is 0.
   */
  method RendezvousScenario(v: string) returns (got: string, sent: Outcome<ChannelState.Error>, left: nat, cap: int)
    ensures got == v && sent == Pass && left == 0 && cap == 0
  {
    var ch := new Channel<string>(0);
    sent := ch.SendBegin();
    assert !ChannelState.SendReady(ch.Model());
    var ok := ch.ReceiveBegin();
    ch.SendFinish(v);
    got := ch.ReceiveFinish();
    left := |ch.store|;
    cap := ch.capacity;
  }

  /**
   * A capacity-2 channel holding two items is closed: a later send fails, a
   * receive reports `ok == false` although items are buffered, and a second
   * close fails.
   */
  method CloseScenario() returns (closeErr: Outcome<ChannelState.Error>, sendErr: Outcome<ChannelState.Error>,
                                  received: bool, buffered: nat, closeAgain: Outcome<ChannelState.Error>)
    ensures closeErr == Pass
    ensures sendErr == Fail(ChannelState.SendOnClosed)
    ensures !received && buffered == 2
    ensures closeAgain == Fail(ChannelState.AlreadyClosed)
  {
    var ch := new Channel<string>(2);
    var err := ch.SendBegin();
    ch.SendFinish("Message 1");
    err := ch.SendBegin();
    ch.SendFinish("Message 2");
    closeErr := ch.Close();
    sendErr := ch.SendBegin();
    received := ch.ReceiveBegin();
    buffered := |ch.store|;
    closeAgain := ch.Close();
  }

  /**
   * A receiver that passed its closed check before `Close` still completes, and
   * so does a sender that was already waiting.
   */
  method InFlightScenario() returns (receiverIn: bool, got: int, closeErr: Outcome<ChannelState.Error>)
    ensures receiverIn && closeErr == Pass && got == 5
  {
    var ch := new Channel<int>(0);
    var err := ch.SendBegin();
    receiverIn := ch.ReceiveBegin();
    closeErr := ch.Close();
    ch.SendFinish(5);
    got := ch.ReceiveFinish();
  }
}
