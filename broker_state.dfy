/**
 * The topic registry `Publisher` (channel/examples/pubsub) as a state machine
 * over its lock-guarded state.
 *
 * Go's `map[string][]chan string` becomes a map from topic name to a list of
 * mailbox ids, and the channels themselves live in a heap `boxes` from id to
 * `Mailbox`: a buffer of capacity 1 and a closed flag. `make(chan string, 1)`
 * allocates the id `next`, which no mailbox has used before.
 *
 * `CreateTopic`, `Subscribe`, `CloseTopic` and `CloseSubscriber` hold the
 * registry's exclusive lock for their whole body, so each is one step here.
 * `Publish` holds only the shared lock, so in Go other publishes and the
 * subscribers' receives can run between its sends; here it is still one step.
 * It blocks on a full mailbox and is modelled only where every send finds room
 * (`CanPublish`).
 */
module BrokerState {
  import opened Wrappers

  type Id = nat

  /** Every subscriber mailbox is created by `make(chan string, 1)`. */
  const MailboxCapacity: nat := 1

  /** A subscriber's channel: the buffered messages, oldest first, and whether it is closed. */
  datatype Mailbox = Mailbox(buffer: seq<string>, closed: bool)

  /** The registry, the mailbox heap and the next unused mailbox id. */
  datatype Broker = Broker(topics: map<string, seq<Id>>, boxes: map<Id, Mailbox>, next: Id)

  /** The two errors the registry reports. */
  datatype Error = TopicNotFound | SubscriberNotFound

  /** `NewPublisher()`: no topics. */
  function NewPublisher(): Broker
  {
    Broker(map[], map[], 0)
  }

  /** `CreateTopic(topic)`: installs an empty list, replacing any list the topic had. */
  function CreateTopic(b: Broker, topic: string): Broker
  {
    b.(topics := b.topics[topic := []])
  }

  /** `Subscribe(topic)`: a fresh open mailbox appended to the topic's list. */
  function Subscribe(b: Broker, topic: string): (Broker, Result<Id, Error>)
  {
    if topic !in b.topics then (b, Failure(TopicNotFound))
    else
      var id := b.next;
      (Broker(b.topics[topic := b.topics[topic] + [id]],
              b.boxes[id := Mailbox([], false)],
              b.next + 1),
       Success(id))
  }

  /** `ch <- message` on a mailbox that has room. */
  function Push(m: Mailbox, message: string): Mailbox
  {
    m.(buffer := m.buffer + [message])
  }

  /** A send on this mailbox would not block. */
  predicate HasRoom(m: Mailbox)
  {
    |m.buffer| < MailboxCapacity
  }

  /** Sending `message` to `ids` in list order, each send finds its mailbox with room. */
  predicate Deliverable(boxes: map<Id, Mailbox>, ids: seq<Id>, message: string)
    decreases |ids|
  {
    ids == [] ||
    (ids[0] in boxes && HasRoom(boxes[ids[0]]) &&
     Deliverable(boxes[ids[0] := Push(boxes[ids[0]], message)], ids[1..], message))
  }

  /** The loop `for _, ch := range subscriber { ch <- message }`, in list order. */
  function Deliver(boxes: map<Id, Mailbox>, ids: seq<Id>, message: string): map<Id, Mailbox>
    requires Deliverable(boxes, ids, message)
    decreases |ids|
  {
    if ids == [] then boxes
    else Deliver(boxes[ids[0] := Push(boxes[ids[0]], message)], ids[1..], message)
  }

  /**
   * The intended effect of a broadcast: every mailbox on the list gets the
   * message once, every other mailbox is as it was.
   */
  function FanOut(boxes: map<Id, Mailbox>, ids: seq<Id>, message: string): map<Id, Mailbox>
  {
    map id | id in boxes :: if id in ids then Push(boxes[id], message) else boxes[id]
  }

  /** `Publish(topic, message)` completes: the topic is absent, or no send on its list blocks. */
  predicate CanPublish(b: Broker, topic: string, message: string)
  {
    topic in b.topics ==> Deliverable(b.boxes, b.topics[topic], message)
  }

  /** `Publish(topic, message)`. */
  function Publish(b: Broker, topic: string, message: string): (Broker, Outcome<Error>)
    requires CanPublish(b, topic, message)
  {
    if topic !in b.topics then (b, Fail(TopicNotFound))
    else (b.(boxes := Deliver(b.boxes, b.topics[topic], message)), Pass)
  }

  /** `close(ch)`. */
  function CloseBox(m: Mailbox): Mailbox
  {
    m.(closed := true)
  }

  /** Closes every mailbox on `ids`; the others are unchanged. */
  function CloseAll(boxes: map<Id, Mailbox>, ids: seq<Id>): map<Id, Mailbox>
  {
    map id | id in boxes :: if id in ids then CloseBox(boxes[id]) else boxes[id]
  }

  /** `CloseTopic(topic)`: close the topic's mailboxes and delete the topic. */
  function CloseTopic(b: Broker, topic: string): (Broker, Outcome<Error>)
  {
    if topic !in b.topics then (b, Fail(TopicNotFound))
    else (b.(topics := b.topics - {topic}, boxes := CloseAll(b.boxes, b.topics[topic])), Pass)
  }

  /** The list without the first occurrence of `id`. */
  function RemoveFirst(s: seq<Id>, id: Id): seq<Id>
  {
    if s == [] then []
    else if s[0] == id then s[1..]
    else [s[0]] + RemoveFirst(s[1..], id)
  }

  /** `CloseSubscriber(topic, ch)`: close `ch` and take it off the topic's list. */
  function CloseSubscriber(b: Broker, topic: string, id: Id): (Broker, Outcome<Error>)
  {
    if topic !in b.topics then (b, Fail(TopicNotFound))
    else if id !in b.topics[topic] then (b, Fail(SubscriberNotFound))
    else (b.(topics := b.topics[topic := RemoveFirst(b.topics[topic], id)],
             boxes := CloseAll(b.boxes, [id])), Pass)
  }

  /** The subscriber's `<-ch` returns without blocking: a message is buffered or the mailbox is closed. */
  predicate CanReceive(b: Broker, id: Id)
  {
    id in b.boxes && (b.boxes[id].buffer != [] || b.boxes[id].closed)
  }

  /**
   * The subscriber's `msg, ok := <-ch`: the oldest buffered message, or, on a
   * closed and drained mailbox, end of stream (`None`).
   */
  function Receive(b: Broker, id: Id): (Broker, Option<string>)
    requires CanReceive(b, id)
  {
    var m := b.boxes[id];
    if m.buffer != [] then (b.(boxes := b.boxes[id := m.(buffer := m.buffer[1..])]), Some(m.buffer[0]))
    else (b, None)
  }

  /** No id occurs twice in the list. */
  predicate Distinct(s: seq<Id>)
  {
    forall i, j :: 0 <= i < j < |s| ==> s[i] != s[j]
  }

  /** No id occurs in both lists. */
  predicate Disjoint(s: seq<Id>, u: seq<Id>)
  {
    forall id :: id in s ==> id !in u
  }

  /**
   * The registry invariant: every mailbox id was allocated and holds at most
   * one message; no id is listed twice, within a topic or across topics; and
   * every listed mailbox exists and is open.
   */
  predicate Inv(b: Broker)
  {
    && (forall id :: id in b.boxes ==> id < b.next && |b.boxes[id].buffer| <= MailboxCapacity)
    && (forall t :: t in b.topics ==> Distinct(b.topics[t]))
    && (forall t, u :: t in b.topics && u in b.topics && t != u ==> Disjoint(b.topics[t], b.topics[u]))
    && (forall t, id :: t in b.topics && id in b.topics[t] ==> id in b.boxes && !b.boxes[id].closed)
  }

  // ---------------------------------------------------------------------------
  // The invariant

  /** Under the invariant a mailbox id sits at one position of one topic's list at most. */
  lemma IdListedOnce(b: Broker, t: string, u: string, i: nat, j: nat)
    requires Inv(b)
    requires t in b.topics && u in b.topics && i < |b.topics[t]| && j < |b.topics[u]|
    requires b.topics[t][i] == b.topics[u][j]
    ensures t == u && i == j
  {
    var x := b.topics[t][i];
    assert x in b.topics[t] && x in b.topics[u];
  }

  /** Under the invariant every listed mailbox is open: no send or close of the Go code hits a closed channel. */
  lemma ListedMailboxesAreOpen(b: Broker, topic: string, id: Id)
    requires Inv(b) && topic in b.topics && id in b.topics[topic]
    ensures id in b.boxes && !b.boxes[id].closed
  {
  }

  // ---------------------------------------------------------------------------
  // NewPublisher and CreateTopic

  /** A new publisher has no topics, and satisfies the invariant. */
  lemma NewPublisherIsEmpty()
    ensures NewPublisher().topics == map[]
    ensures Inv(NewPublisher())
  {
  }

  /** On a new publisher every operation that names a topic fails with "topic not found" and changes nothing. */
  lemma NewPublisherFindsNoTopic(topic: string, id: Id, message: string)
    ensures Subscribe(NewPublisher(), topic) == (NewPublisher(), Failure(TopicNotFound))
    ensures CanPublish(NewPublisher(), topic, message)
    ensures Publish(NewPublisher(), topic, message) == (NewPublisher(), Fail(TopicNotFound))
    ensures CloseTopic(NewPublisher(), topic) == (NewPublisher(), Fail(TopicNotFound))
    ensures CloseSubscriber(NewPublisher(), topic, id) == (NewPublisher(), Fail(TopicNotFound))
  {
  }

  /**
   * `CreateTopic` leaves the topic present with an empty list, drops (without
   * closing) whatever list it had, touches no other topic and no mailbox, and
   * keeps the invariant.
   */
  lemma CreateTopicInstallsEmptyList(b: Broker, topic: string)
    ensures CreateTopic(b, topic).topics.Keys == b.topics.Keys + {topic}
    ensures CreateTopic(b, topic).topics[topic] == []
    ensures forall t :: t in b.topics && t != topic ==> CreateTopic(b, topic).topics[t] == b.topics[t]
    ensures CreateTopic(b, topic).boxes == b.boxes
    ensures Inv(b) ==> Inv(CreateTopic(b, topic))
  {
    var r := CreateTopic(b, topic);
    if Inv(b) {
      forall t, u | t in r.topics && u in r.topics && t != u
        ensures Disjoint(r.topics[t], r.topics[u])
      {
        if t != topic && u != topic {
          assert Disjoint(b.topics[t], b.topics[u]);
        }
      }
    }
  }

  /**
   * `CreateTopic` on a present topic orphans its mailboxes: they stay open
   * and in the heap, but right after it no topic lists them, so neither `CloseTopic`
   * nor `CloseSubscriber` can reach them.
   */
  lemma RecreatedTopicOrphansMailboxes(b: Broker, topic: string, id: Id)
    requires Inv(b) && topic in b.topics && id in b.topics[topic]
    ensures var r := CreateTopic(b, topic);
            && id in r.boxes && !r.boxes[id].closed
            && (forall t :: t in r.topics ==> id !in r.topics[t])
            && (forall t :: CloseTopic(r, t).0.boxes[id] == r.boxes[id])
            && (forall t :: CloseSubscriber(r, t, id) == (r, Fail(if t in r.topics then SubscriberNotFound else TopicNotFound)))
  {
    var r := CreateTopic(b, topic);
    forall t | t in r.topics ensures id !in r.topics[t] {
      if t != topic {
        assert Disjoint(b.topics[topic], b.topics[t]);
      }
    }
  }

  // ---------------------------------------------------------------------------
  // Subscribe

  /** `Subscribe` to an absent topic fails with "topic not found" and changes nothing. */
  lemma SubscribeToAbsentTopic(b: Broker, topic: string)
    requires topic !in b.topics
    ensures Subscribe(b, topic) == (b, Failure(TopicNotFound))
  {
  }

  /**
   * `Subscribe` to a present topic returns a mailbox no topic lists and the
   * heap did not hold, empty and open, appended at the end of the topic's list;
   * other topics and existing mailboxes are unchanged, and the invariant holds.
   */
  lemma SubscribeAppendsFreshMailbox(b: Broker, topic: string)
    requires Inv(b) && topic in b.topics
    ensures var (r, res) := Subscribe(b, topic);
            && res.Success?
            && res.value !in b.boxes
            && (forall t :: t in b.topics ==> res.value !in b.topics[t])
            && r.topics.Keys == b.topics.Keys
            && r.topics[topic] == b.topics[topic] + [res.value]
            && (forall t :: t in b.topics && t != topic ==> r.topics[t] == b.topics[t])
            && r.boxes.Keys == b.boxes.Keys + {res.value}
            && r.boxes[res.value] == Mailbox([], false)
            && (forall id :: id in b.boxes ==> r.boxes[id] == b.boxes[id])
            && Inv(r)
  {
    var (r, res) := Subscribe(b, topic);
    var id := res.value;
    assert id == b.next;
    assert id !in b.boxes;
    var list := r.topics[topic];
    assert list == b.topics[topic] + [id];
    assert Distinct(list) by {
      assert Distinct(b.topics[topic]);
      forall i, j | 0 <= i < j < |list| ensures list[i] != list[j] {
        if j == |list| - 1 {
          assert list[i] in b.topics[topic];
        } else {
          assert list[i] == b.topics[topic][i] && list[j] == b.topics[topic][j];
        }
      }
    }
    forall t, u | t in r.topics && u in r.topics && t != u
      ensures Disjoint(r.topics[t], r.topics[u])
    {
      assert Disjoint(b.topics[t], b.topics[u]);
      forall x | x in r.topics[t] ensures x !in r.topics[u] {
        if t == topic && x == id {
          assert id !in b.topics[u];
        } else if u == topic {
          assert x in b.topics[t];
          assert x != id;
        }
      }
    }
  }

  // ---------------------------------------------------------------------------
  // Publish

  /**
   * Delivering in list order to distinct mailboxes that all have room never
   * blocks, and appends the message exactly once to each listed mailbox and to
   * no other.
   */
  lemma {:induction false} DeliverFansOut(boxes: map<Id, Mailbox>, ids: seq<Id>, message: string)
    requires Distinct(ids)
    requires forall id :: id in ids ==> id in boxes && HasRoom(boxes[id])
    ensures Deliverable(boxes, ids, message)
    ensures Deliver(boxes, ids, message) == FanOut(boxes, ids, message)
    decreases |ids|
  {
    if ids != [] {
      var head := ids[0];
      var rest := ids[1..];
      var boxes1 := boxes[head := Push(boxes[head], message)];
      assert Distinct(rest) by {
        forall i, j | 0 <= i < j < |rest| ensures rest[i] != rest[j] {
          assert rest[i] == ids[i + 1] && rest[j] == ids[j + 1];
        }
      }
      assert head !in rest by {
        forall k | 0 <= k < |rest| ensures rest[k] != head {
          assert rest[k] == ids[k + 1];
        }
      }
      forall id | id in rest ensures id in boxes1 && HasRoom(boxes1[id]) {
        assert id in ids;
      }
      DeliverFansOut(boxes1, rest, message);
      assert ids == [head] + rest;
      forall id | id in boxes
        ensures id in FanOut(boxes1, rest, message)
        ensures FanOut(boxes1, rest, message)[id] == FanOut(boxes, ids, message)[id]
      {
      }
      assert FanOut(boxes1, rest, message) == FanOut(boxes, ids, message);
    }
  }

  /**
   * With capacity-1 mailboxes, delivering in list order never blocks exactly
   * when the list has no repeats and every listed mailbox has room: a second
   * send to the same mailbox would find it full.
   */
  lemma {:induction false} DeliverableIffRoom(boxes: map<Id, Mailbox>, ids: seq<Id>, message: string)
    ensures Deliverable(boxes, ids, message) <==>
              Distinct(ids) && forall id :: id in ids ==> id in boxes && HasRoom(boxes[id])
    decreases |ids|
  {
    if Distinct(ids) && forall id :: id in ids ==> id in boxes && HasRoom(boxes[id]) {
      DeliverFansOut(boxes, ids, message);
    }
    if Deliverable(boxes, ids, message) && ids != [] {
      var head := ids[0];
      var rest := ids[1..];
      var boxes1 := boxes[head := Push(boxes[head], message)];
      DeliverableIffRoom(boxes1, rest, message);
      assert !HasRoom(boxes1[head]);
      assert head !in rest;
      assert ids == [head] + rest;
      forall i, j | 0 <= i < j < |ids| ensures ids[i] != ids[j] {
        if i == 0 {
          assert ids[j] == rest[j - 1];
        } else {
          assert ids[i] == rest[i - 1] && ids[j] == rest[j - 1];
        }
      }
      forall id | id in ids ensures id in boxes && HasRoom(boxes[id]) {
        if id != head {
          assert id in rest;
        }
      }
    }
  }

  /** `Publish` to an absent topic fails with "topic not found" and touches no mailbox. */
  lemma PublishToAbsentTopic(b: Broker, topic: string, message: string)
    requires topic !in b.topics
    ensures CanPublish(b, topic, message)
    ensures Publish(b, topic, message) == (b, Fail(TopicNotFound))
  {
  }

  /** Every mailbox on the topic's list has room. */
  predicate RoomFor(b: Broker, topic: string)
  {
    topic in b.topics && forall id :: id in b.topics[topic] ==> id in b.boxes && HasRoom(b.boxes[id])
  }

  /**
   * `Publish` to a present topic whose mailboxes all have room completes,
   * appends the message exactly once to every listed mailbox, leaves the
   * registry and every other mailbox unchanged, and keeps the invariant.
   */
  lemma PublishDeliversOnce(b: Broker, topic: string, message: string)
    requires Inv(b) && RoomFor(b, topic)
    ensures CanPublish(b, topic, message)
    ensures var (r, out) := Publish(b, topic, message);
            && out == Pass
            && r.topics == b.topics && r.next == b.next
            && r.boxes == FanOut(b.boxes, b.topics[topic], message)
            && Inv(r)
  {
    DeliverFansOut(b.boxes, b.topics[topic], message);
    var r := Publish(b, topic, message).0;
    assert r.boxes == FanOut(b.boxes, b.topics[topic], message);
    forall id | id in r.boxes ensures id < r.next && |r.boxes[id].buffer| <= MailboxCapacity {
      assert id in b.boxes;
    }
  }

  /** A message published to one topic reaches no mailbox listed under another. */
  lemma PublishReachesOnlyItsTopic(b: Broker, topic: string, other: string, id: Id, message: string)
    requires Inv(b) && RoomFor(b, topic)
    requires other in b.topics && other != topic && id in b.topics[other]
    ensures CanPublish(b, topic, message)
    ensures id in Publish(b, topic, message).0.boxes
    ensures Publish(b, topic, message).0.boxes[id] == b.boxes[id]
  {
    PublishDeliversOnce(b, topic, message);
    assert Disjoint(b.topics[other], b.topics[topic]);
  }

  /** `Publish` to a topic with no subscribers succeeds and changes nothing. */
  lemma PublishToEmptyTopic(b: Broker, topic: string, message: string)
    requires topic in b.topics && b.topics[topic] == []
    ensures CanPublish(b, topic, message)
    ensures Publish(b, topic, message) == (b, Pass)
  {
  }

  // ---------------------------------------------------------------------------
  // CloseTopic

  /** `CloseTopic` on an absent topic fails with "topic not found" and changes nothing. */
  lemma CloseTopicOnAbsentTopic(b: Broker, topic: string)
    requires topic !in b.topics
    ensures CloseTopic(b, topic) == (b, Fail(TopicNotFound))
  {
  }

  /**
   * `CloseTopic` on a present topic closes every listed mailbox, each of which
   * was open (so no `close` panics), keeps their buffered messages, leaves
   * every other mailbox alone, removes the topic, and keeps the invariant.
   */
  lemma CloseTopicClosesAll(b: Broker, topic: string)
    requires Inv(b) && topic in b.topics
    ensures var (r, out) := CloseTopic(b, topic);
            && out == Pass
            && r.topics == b.topics - {topic}
            && r.boxes.Keys == b.boxes.Keys
            && (forall id :: id in b.topics[topic] ==>
                  !b.boxes[id].closed && r.boxes[id] == Mailbox(b.boxes[id].buffer, true))
            && (forall id :: id in b.boxes && id !in b.topics[topic] ==> r.boxes[id] == b.boxes[id])
            && Inv(r)
  {
    var r := CloseTopic(b, topic).0;
    forall t, id | t in r.topics && id in r.topics[t]
      ensures id in r.boxes && !r.boxes[id].closed
    {
      assert Disjoint(b.topics[t], b.topics[topic]);
    }
    forall t, u | t in r.topics && u in r.topics && t != u
      ensures Disjoint(r.topics[t], r.topics[u])
    {
      assert Disjoint(b.topics[t], b.topics[u]);
    }
  }

  /**
   * After `CloseTopic`, a subscriber of the topic first drains what was
   * buffered and then reads end of stream.
   */
  lemma CloseTopicEndsStreams(b: Broker, topic: string, id: Id)
    requires Inv(b) && topic in b.topics && id in b.topics[topic]
    ensures var r := CloseTopic(b, topic).0;
            && CanReceive(r, id)
            && (b.boxes[id].buffer == [] ==> Receive(r, id) == (r, None))
            && (b.boxes[id].buffer != [] ==> Receive(r, id).1 == Some(b.boxes[id].buffer[0]))
            && (b.boxes[id].buffer != [] ==>
                  var r2 := Receive(r, id).0;
                  CanReceive(r2, id) && Receive(r2, id) == (r2, None))
  {
  }

  /** After `CloseTopic`, the name is unknown to every operation. */
  lemma ClosedTopicIsGone(b: Broker, topic: string, id: Id, message: string)
    requires topic in b.topics
    ensures var r := CloseTopic(b, topic).0;
            && CanPublish(r, topic, message)
            && Publish(r, topic, message) == (r, Fail(TopicNotFound))
            && Subscribe(r, topic) == (r, Failure(TopicNotFound))
            && CloseTopic(r, topic) == (r, Fail(TopicNotFound))
            && CloseSubscriber(r, topic, id) == (r, Fail(TopicNotFound))
  {
  }

  // ---------------------------------------------------------------------------
  // CloseSubscriber

  /** Removing the first occurrence at position `i` is splicing the list around `i`. */
  lemma {:induction false} RemoveFirstSplices(s: seq<Id>, id: Id, i: nat)
    requires i < |s| && s[i] == id && id !in s[..i]
    ensures RemoveFirst(s, id) == s[..i] + s[i + 1..]
    decreases i
  {
    if i > 0 {
      assert s[0] in s[..i];
      assert s[1..][..i - 1] == s[1..i];
      assert s[1..][..i - 1] == s[..i][1..];
      RemoveFirstSplices(s[1..], id, i - 1);
      assert s[..i] == [s[0]] + s[1..][..i - 1];
      assert s[i + 1..] == s[1..][i - 1 + 1..];
    }
  }

  /** In a list without repeats, the position of the first occurrence is the only one. */
  lemma DistinctFirstOccurrence(s: seq<Id>, i: nat)
    requires Distinct(s) && i < |s|
    ensures s[i] !in s[..i]
    ensures s[i] !in s[i + 1..]
  {
    forall k | 0 <= k < |s| && k != i ensures s[k] != s[i] {
      if k < i { assert s[k] != s[i]; } else { assert s[i] != s[k]; }
    }
  }

  /** Splicing one position out of a list without repeats leaves a list without repeats, lacking exactly that id. */
  lemma SpliceKeepsDistinct(s: seq<Id>, i: nat)
    requires Distinct(s) && i < |s|
    ensures Distinct(s[..i] + s[i + 1..])
    ensures forall x :: x in s[..i] + s[i + 1..] <==> x in s && x != s[i]
  {
    var r := s[..i] + s[i + 1..];
    assert forall k :: 0 <= k < |r| ==> r[k] == (if k < i then s[k] else s[k + 1]);
    forall x | x in s && x != s[i] ensures x in r {
      var k :| 0 <= k < |s| && s[k] == x;
      if k < i { assert r[k] == x; } else { assert r[k - 1] == x; }
    }
    DistinctFirstOccurrence(s, i);
  }

  /** `CloseSubscriber` on an absent topic, or with a mailbox the topic does not list, fails and changes nothing. */
  lemma CloseSubscriberNotFound(b: Broker, topic: string, id: Id)
    ensures topic !in b.topics ==> CloseSubscriber(b, topic, id) == (b, Fail(TopicNotFound))
    ensures topic in b.topics && id !in b.topics[topic] ==>
              CloseSubscriber(b, topic, id) == (b, Fail(SubscriberNotFound))
  {
  }

  /**
   * `CloseSubscriber` on a listed mailbox closes it (it was open), takes it off
   * the list while the other subscribers keep their order, keeps the topic and
   * every other topic and mailbox, and keeps the invariant.
   */
  lemma CloseSubscriberRemovesOne(b: Broker, topic: string, i: nat)
    requires Inv(b) && topic in b.topics && i < |b.topics[topic]|
    ensures var list := b.topics[topic];
            var id := list[i];
            var (r, out) := CloseSubscriber(b, topic, id);
            && out == Pass
            && id in b.boxes && !b.boxes[id].closed
            && r.topics.Keys == b.topics.Keys
            && r.topics[topic] == list[..i] + list[i + 1..]
            && id !in r.topics[topic]
            && (forall t :: t in b.topics && t != topic ==> r.topics[t] == b.topics[t])
            && r.boxes == b.boxes[id := CloseBox(b.boxes[id])]
            && Inv(r)
  {
    var list := b.topics[topic];
    var id := list[i];
    assert id in list;
    DistinctFirstOccurrence(list, i);
    RemoveFirstSplices(list, id, i);
    SpliceKeepsDistinct(list, i);
    var r := CloseSubscriber(b, topic, id).0;
    assert r.boxes == b.boxes[id := CloseBox(b.boxes[id])];
    forall t, x | t in r.topics && x in r.topics[t]
      ensures x in r.boxes && !r.boxes[x].closed
    {
      if t != topic {
        assert Disjoint(b.topics[t], list);
        assert x != id;
      }
    }
    forall t, u | t in r.topics && u in r.topics && t != u
      ensures Disjoint(r.topics[t], r.topics[u])
    {
      assert Disjoint(b.topics[t], b.topics[u]);
    }
  }

  // ---------------------------------------------------------------------------
  // The subscriber's receive

  /** A receive takes the oldest message, or reports end of stream on a closed, drained mailbox; the invariant holds after it. */
  lemma ReceiveTakesOldest(b: Broker, id: Id)
    requires CanReceive(b, id)
    ensures var (r, got) := Receive(b, id);
            && r.topics == b.topics
            && (b.boxes[id].buffer != [] ==>
                  got == Some(b.boxes[id].buffer[0]) && r.boxes == b.boxes[id := b.boxes[id].(buffer := b.boxes[id].buffer[1..])])
            && (b.boxes[id].buffer == [] ==> got == None && b.boxes[id].closed && r == b)
            && (Inv(b) ==> Inv(r))
  {
  }
}
