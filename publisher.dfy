/**
 * The Go type `Publisher` (channel/examples/pubsub) as a class whose registry
 * map and mailbox heap are fields updated in place. Each method runs as one
 * step (for `Publish`, which holds only the shared lock, this is a
 * simplification) and is proved to make exactly the
 * transition of the corresponding function of `BrokerState`, and to keep the
 * registry invariant.
 */
module PubSub {
  import opened Wrappers
  import BrokerState

  type Id = BrokerState.Id

  /**
   * The search loop of `CloseSubscriber`: the position of the first occurrence
   * of `id` in `list`, if there is one.
   */
  method FindSubscriber(list: seq<Id>, id: Id) returns (found: bool, i: nat)
    ensures found ==> i < |list| && list[i] == id && id !in list[..i]
    ensures !found ==> id !in list
  {
    i := 0;
    while i < |list|
      invariant i <= |list|
      invariant id !in list[..i]
    {
      if list[i] == id {
        return true, i;
      }
      assert list[..i + 1] == list[..i] + [list[i]];
      i := i + 1;
    }
    assert list[..i] == list;
    found := false;
  }

  class Publisher {
    var subscribers: map<string, seq<Id>>
    var mailboxes: map<Id, BrokerState.Mailbox>
    var nextId: Id

    /** The registry's state as a value. */
    function Model(): BrokerState.Broker
      reads this
    {
      BrokerState.Broker(subscribers, mailboxes, nextId)
    }

    /** The registry invariant. */
    ghost predicate Valid()
      reads this
    {
      BrokerState.Inv(Model())
    }

    /** `NewPublisher()`: the state `BrokerState.NewPublisher()`, with no topics. */
    constructor ()
      ensures subscribers == map[] && mailboxes == map[] && nextId == 0
      ensures Valid()
    {
      subscribers := map[];
      mailboxes := map[];
      nextId := 0;
    }

    /** `CreateTopic(topic)`. */
    method CreateTopic(topic: string)
      requires Valid()
      modifies this
      ensures Model() == BrokerState.CreateTopic(old(Model()), topic)
      ensures Valid()
    {
      BrokerState.CreateTopicInstallsEmptyList(Model(), topic);
      subscribers := subscribers[topic := []];
    }

    /** `Subscribe(topic)`: the fresh mailbox's id, or "topic not found". */
    method Subscribe(topic: string) returns (r: Result<Id, BrokerState.Error>)
      requires Valid()
      modifies this
      ensures Model() == BrokerState.Subscribe(old(Model()), topic).0
      ensures r == BrokerState.Subscribe(old(Model()), topic).1
      ensures Valid()
    {
      if topic !in subscribers {
        return Failure(BrokerState.TopicNotFound);
      }
      BrokerState.SubscribeAppendsFreshMailbox(Model(), topic);
      var id := nextId;
      nextId := nextId + 1;
      mailboxes := mailboxes[id := BrokerState.Mailbox([], false)];
      subscribers := subscribers[topic := subscribers[topic] + [id]];
      r := Success(id);
    }

    /**
     * `Publish(topic, message)`: sends the message to each listed mailbox in
     * list order. Modelled where no send blocks.
     */
    method Publish(topic: string, message: string) returns (err: Outcome<BrokerState.Error>)
      requires Valid() && BrokerState.CanPublish(Model(), topic, message)
      modifies this
      ensures Model() == BrokerState.Publish(old(Model()), topic, message).0
      ensures err == BrokerState.Publish(old(Model()), topic, message).1
      ensures Valid()
    {
      if topic !in subscribers {
        return Fail(BrokerState.TopicNotFound);
      }
      ghost var before := Model();
      var list := subscribers[topic];
      assert list[0..] == list;
      var i := 0;
      while i < |list|
        invariant i <= |list|
        invariant subscribers == old(subscribers) && nextId == old(nextId)
        invariant BrokerState.Deliverable(mailboxes, list[i..], message)
        invariant BrokerState.Deliver(mailboxes, list[i..], message)
               == BrokerState.Deliver(old(mailboxes), list, message)
      {
        assert list[i..][0] == list[i] && list[i..][1..] == list[i + 1..];
        var id := list[i];
        mailboxes := mailboxes[id := BrokerState.Push(mailboxes[id], message)];
        i := i + 1;
      }
      assert list[i..] == [];
      BrokerState.DeliverableIffRoom(before.boxes, list, message);
      BrokerState.PublishDeliversOnce(before, topic, message);
      err := Pass;
    }

    /** `CloseTopic(topic)`: closes each listed mailbox, then deletes the topic. */
    method CloseTopic(topic: string) returns (err: Outcome<BrokerState.Error>)
      requires Valid()
      modifies this
      ensures Model() == BrokerState.CloseTopic(old(Model()), topic).0
      ensures err == BrokerState.CloseTopic(old(Model()), topic).1
      ensures Valid()
    {
      if topic !in subscribers {
        return Fail(BrokerState.TopicNotFound);
      }
      ghost var before := Model();
      var list := subscribers[topic];
      var i := 0;
      while i < |list|
        invariant i <= |list|
        invariant subscribers == old(subscribers) && nextId == old(nextId)
        invariant mailboxes == BrokerState.CloseAll(old(mailboxes), list[..i])
      {
        var id := list[i];
        assert list[..i + 1] == list[..i] + [id];
        mailboxes := mailboxes[id := BrokerState.CloseBox(mailboxes[id])];
        i := i + 1;
      }
      assert list[..i] == list;
      subscribers := subscribers - {topic};
      BrokerState.CloseTopicClosesAll(before, topic);
      err := Pass;
    }

    /**
     * `CloseSubscriber(topic, ch)`: finds `ch` on the topic's list, closes it
     * and splices it out.
     */
    method CloseSubscriber(topic: string, id: Id) returns (err: Outcome<BrokerState.Error>)
      requires Valid()
      modifies this
      ensures Model() == BrokerState.CloseSubscriber(old(Model()), topic, id).0
      ensures err == BrokerState.CloseSubscriber(old(Model()), topic, id).1
      ensures Valid()
    {
      if topic !in subscribers {
        return Fail(BrokerState.TopicNotFound);
      }
      var list := subscribers[topic];
      var found, i := FindSubscriber(list, id);
      if !found {
        return Fail(BrokerState.SubscriberNotFound);
      }
      ghost var before := Model();
      BrokerState.CloseSubscriberRemovesOne(before, topic, i);
      BrokerState.RemoveFirstSplices(list, id, i);
      mailboxes := mailboxes[id := BrokerState.CloseBox(mailboxes[id])];
      subscribers := subscribers[topic := list[..i] + list[i + 1..]];
      err := Pass;
    }

    /**
     * The subscriber's `msg, ok := <-ch` on its mailbox, where it does not
     * block: the oldest message, or end of stream on a closed, drained mailbox.
     */
    method Receive(id: Id) returns (msg: Option<string>)
      requires Valid() && BrokerState.CanReceive(Model(), id)
      modifies this
      ensures Model() == BrokerState.Receive(old(Model()), id).0
      ensures msg == BrokerState.Receive(old(Model()), id).1
      ensures Valid()
    {
      BrokerState.ReceiveTakesOldest(Model(), id);
      var m := mailboxes[id];
      if m.buffer == [] {
        return None;
      }
      mailboxes := mailboxes[id := m.(buffer := m.buffer[1..])];
      msg := Some(m.buffer[0]);
    }
  }

  /**
   * Topic "news" with three subscribers; one `Publish("news", "hi")`; each
   * subscriber's next receive yields "hi".
   */
  method BroadcastScenario() returns (first: Option<string>, second: Option<string>, third: Option<string>)
    ensures first == Some("hi") && second == Some("hi") && third == Some("hi")
  {
    var p := new Publisher();
    p.CreateTopic("news");
    var r1 := p.Subscribe("news");
    var r2 := p.Subscribe("news");
    var r3 := p.Subscribe("news");
    assert p.subscribers["news"] == [0, 1, 2];
    BrokerState.DeliverableIffRoom(p.mailboxes, [0, 1, 2], "hi");
    var err := p.Publish("news", "hi");
    first := p.Receive(0);
    second := p.Receive(1);
    third := p.Receive(2);
  }

  /**
   * Topic "news" with two subscribers is closed: both subscribers read end of
   * stream, and a later `Publish` or `Subscribe` finds no topic.
   */
  method CloseTopicScenario() returns (first: Option<string>, second: Option<string>,
                                       publishErr: Outcome<BrokerState.Error>,
                                       subscribeErr: Result<Id, BrokerState.Error>)
    ensures first == None && second == None
    ensures publishErr == Fail(BrokerState.TopicNotFound)
    ensures subscribeErr == Failure(BrokerState.TopicNotFound)
  {
    var p := new Publisher();
    p.CreateTopic("news");
    var r1 := p.Subscribe("news");
    var r2 := p.Subscribe("news");
    var err := p.CloseTopic("news");
    first := p.Receive(0);
    second := p.Receive(1);
    publishErr := p.Publish("news", "late");
    subscribeErr := p.Subscribe("news");
  }

  /**
   * A subscriber is closed: its receive reads end of stream and the topic
   * stays, with no subscriber left; closing it again finds no subscriber.
   */
  method CloseSubscriberScenario() returns (got: Option<string>, left: nat, again: Outcome<BrokerState.Error>)
    ensures got == None && left == 0
    ensures again == Fail(BrokerState.SubscriberNotFound)
  {
    var p := new Publisher();
    p.CreateTopic("test-topic");
    var r := p.Subscribe("test-topic");
    var err := p.CloseSubscriber("test-topic", 0);
    got := p.Receive(0);
    left := |p.subscribers["test-topic"]|;
    again := p.CloseSubscriber("test-topic", 0);
  }
}
