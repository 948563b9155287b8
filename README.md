# Lock-guarded queue and topic broker, modelled in Dafny

This project models two small concurrency structures from a Go repository:

- **`Channel[G]`** (`channel/examples/custom_channel`) is a bounded blocking FIFO queue. It is built from a mutex and a condition variable. Its state is a list `store`, an integer `capacity` and a `close` flag. Capacity 0 works as a rendezvous because of a widen/narrow protocol in `Receive`: `capacity++`, wait for an item, `capacity--`, dequeue the front.
- **`Publisher`** (`channel/examples/pubsub`) is a registry under a read/write lock. It maps each topic name to an ordered list of subscriber channels. Each channel is a capacity-1 mailbox. The operations are `CreateTopic`, `Subscribe`, `Publish` (fan-out in list order), `CloseTopic` and `CloseSubscriber`.

Each critical section runs entirely under its lock, so the model treats it as one atomic step. The exception is `Publisher.Publish`, which holds only the shared lock: the model still treats it as one step (see "Left out"). A `Send` or `Receive` that does not wait is one critical section in Go, but the interleaving model (`ChannelState.Apply`, `ChannelState.Run`) lets other steps run between its two halves; this admits more schedules than Go has, so what is proved about every interleaving holds a fortiori for Go's. A method that waits on a condition is split at its wait loop:
- `Send` becomes `SendBegin` (the closed check) and `SendFinish` (the push). `SendFinish` is enabled by `SendReady`: the loop `for len == capacity` would exit.
- `Receive` becomes `ReceiveBegin` (the closed check and the widening) and `ReceiveFinish` (the narrowing and the dequeue). `ReceiveFinish` is enabled by `ReceiveReady`: the loop `for len == 0` would exit.

Each component has two layers:

- `ChannelState` and `BrokerState` (files `channel_state.dfy`, `broker_state.dfy`) are the state as a value. Each operation is a function from state to state and outcome. Each module also defines the invariant and the lemmas about it.
- `CustomChannel` and `PubSub` (files `channel.dfy`, `publisher.dfy`) are the Go types as Dafny classes. Their fields are updated in place. Every method is proved to perform exactly the transition of the matching function. The loops of `Publish`, `CloseTopic` and `CloseSubscriber` are kept, with their invariants.
- `Wrappers` (`wrappers.dfy`) holds `Option`, `Outcome` (Go's `error`) and `Result`.

Go channels in the registry are modelled as ids into a heap `boxes: map<Id, Mailbox>`. A `Mailbox` has a buffer and a closed flag. `make(chan string, 1)` allocates the never-used id `next`. The subscriber's own `<-ch` is Go's built-in receive, not a `Publisher` method. It is modelled as `Receive` so that end-of-stream can be stated.

The Go error strings become constructors:
- `ChannelState.Error`: `AlreadyClosed` for "close is already closed"; `SendOnClosed` for "channel is already closed".
- `BrokerState.Error`: `TopicNotFound` and `SubscriberNotFound`.

The channel state also carries bookkeeping that the Go struct does not have. `initial` is the constructor's capacity. `senders` and `receivers` count the callers that have passed their closed check but not yet completed. These fields make the invariant `capacity == initial + receivers` expressible. In the class they are ghost fields.

## Model

| member | source | states |
|---|---|---|
| `ChannelState.NewChannel` | channel/examples/custom_channel/constructor.go:15-22 | defines the fresh channel; no contract of its own (see `NewChannelIsEmpty`, `NewChannelInv`) |
| `ChannelState.Apply` | channel/examples/custom_channel/send.go:9-17 | defines one critical section of a caller of `Send` (cited), `Receive` (recieve.go:9-24) or `Close` (close.go:5-14), a sleeping waiter leaving the state alone; no contract of its own (see `ApplyPreservesInv`) |
| `ChannelState.Run` | channel/examples/custom_channel/recieve.go:9-24 | defines an interleaving, in the order the mutex imposes, of the critical sections of `Receive` (cited), `Send` (send.go:9-17) and `Close` (close.go:5-14); no contract of its own (see `RunPreservesInv`) |
| `ChannelState.Send` | channel/examples/custom_channel/send.go:9-17 | defines a whole `Send` that does not wait; no contract of its own (see `SendAll`, `SendBeginOutcome`) |
| `ChannelState.Receive` | channel/examples/custom_channel/recieve.go:9-24 | defines a whole `Receive` that does not wait; no contract of its own (see `ReceiveAll`, `ReceiveOnClosedDropsBuffered`) |
| `BrokerState.Push` | channel/examples/pubsub/publish.go:42 | defines `ch <- message` on a mailbox with room; no contract of its own (see `DeliverFansOut`) |
| `BrokerState.CloseBox` | channel/examples/pubsub/close.go:36 | defines `close(ch)`, also used at close.go:74; no contract of its own (see `CloseTopicClosesAll`, `CloseSubscriberRemovesOne`) |
| `BrokerState.NewPublisher` | channel/examples/pubsub/publisher.go:27-31 | defines the empty registry; no contract of its own (see `NewPublisherIsEmpty`) |
| `BrokerState.Deliver` | channel/examples/pubsub/publish.go:41-43 | defines the send loop in list order; no contract of its own (see `DeliverFansOut`) |
| `BrokerState.CloseAll` | channel/examples/pubsub/close.go:35-37 | defines closing every listed mailbox; no contract of its own (see `CloseTopicClosesAll`) |
| `BrokerState.RemoveFirst` | channel/examples/pubsub/close.go:69-77 | defines the search-and-splice; no contract of its own (see `RemoveFirstSplices`) |
| `CustomChannel.Channel.constructor` | channel/examples/custom_channel/constructor.go:15-22 | the new channel has an empty store, the given capacity, `close == false` and no caller in flight; the queue invariant holds when the capacity is not negative |
| `CustomChannel.Channel.SendBegin` | channel/examples/custom_channel/send.go:9-11 | the state change is exactly `ChannelState.SendBegin`: error on a closed channel, else the sender is registered; the invariant is kept |
| `CustomChannel.Channel.SendFinish` | channel/examples/custom_channel/send.go:12-17 | enabled only when `len != capacity` (the wait loop exits); the state change is exactly `ChannelState.SendFinish` (push at the tail); the invariant is kept |
| `CustomChannel.Channel.ReceiveBegin` | channel/examples/custom_channel/recieve.go:9-13 | the state change is exactly `ChannelState.ReceiveBegin`: `ok == false` and no change on a closed channel, else `capacity++`; the invariant is kept |
| `CustomChannel.Channel.ReceiveFinish` | channel/examples/custom_channel/recieve.go:15-24 | enabled only when the store is not empty; the state change is exactly `ChannelState.ReceiveFinish`: `capacity--`, remove and return the front; the invariant is kept |
| `CustomChannel.Channel.Close` | channel/examples/custom_channel/close.go:5-14 | the state change is exactly `ChannelState.Close`: error when already closed, else set the flag; the invariant is kept |
| `ChannelState.NewChannelIsEmpty` | channel/examples/custom_channel/constructor.go:15-22 | a fresh channel has an empty store, `capacity` equal to the argument, `close == false` and zero in-flight callers |
| `ChannelState.NewChannelInv` | channel/examples/custom_channel/constructor.go:17-18 | the queue invariant (`capacity == initial + receivers` and `len <= capacity`) holds of a fresh channel iff its capacity is not negative |
| `ChannelState.FreshChannelAcceptsSendAndClose` | channel/examples/custom_channel/constructor.go:20 | on a fresh channel, neither `Send` nor `Close` takes its error branch |
| `ChannelState.SendBeginOutcome` | channel/examples/custom_channel/send.go:9-11 | `Send` on a closed channel returns the error and changes nothing; on an open channel it passes and leaves store, capacity and receivers alone |
| `ChannelState.SendReadyMeansRoom` | channel/examples/custom_channel/send.go:12-14 | under the invariant, the wait loop of `Send` exits iff there is room (`len < capacity`) |
| `ChannelState.SendFinishAppends` | channel/examples/custom_channel/send.go:15-17 | a completed send appends the message at the tail and grows the store by one; capacity and flag are unchanged; `len <= capacity` is kept |
| `ChannelState.SendAfterCloseFails` | channel/examples/custom_channel/close.go:11 | after `Close` the flag is set and `Send` fails with the closed error |
| `ChannelState.ReceiveOnClosedDropsBuffered` | channel/examples/custom_channel/recieve.go:9-11 | `Receive` on a closed channel reports `ok == false` and changes nothing, even with items still buffered |
| `ChannelState.ReceiveBeginWidens` | channel/examples/custom_channel/recieve.go:12 | entering `Receive` on an open channel raises capacity by exactly one, keeps the store, and keeps the invariant |
| `ChannelState.ReceiveFinishTakesFront` | channel/examples/custom_channel/recieve.go:19-24 | completion returns the oldest item, removes exactly it, lowers capacity by one, leaves the flag, and keeps the invariant |
| `ChannelState.ReceiveRestoresCapacity` | channel/examples/custom_channel/recieve.go:12-19 | a `Receive` that finds an item at entry leaves capacity and the receiver count where they were before the call |
| `ChannelState.RunWithoutReceiversKeepsCapacity` | channel/examples/custom_channel/send.go:9-17 | any interleaving of `Send` and `Close` critical sections leaves capacity and the receiver count unchanged |
| `ChannelState.WaitingReceiveRestoresCapacity` | channel/examples/custom_channel/recieve.go:12-21 | a `Receive` that waits, while senders and `Close` run but no other receiver, completes with the capacity and receiver count it found at entry |
| `ChannelState.NegativeCapacityDeadlock` | channel/examples/custom_channel/send.go:12-14 | on `NewChannel(-1)` a lone sender never waits; a receiver that arrives first widens the capacity to 0, after which the next sender waits and the receiver waits too |
| `ChannelState.CloseOutcome` | channel/examples/custom_channel/close.go:8-13 | `Close` on an open channel sets the flag and passes; on a closed one it fails and changes nothing; store and capacity are never touched |
| `ChannelState.SecondCloseFails` | channel/examples/custom_channel/close.go:8-10 | a second `Close` fails with "already closed" and leaves the state as the first left it |
| `ChannelState.InFlightCallersSurviveClose` | channel/examples/custom_channel/send.go:9-15 | `Close` neither enables nor disables a sender or receiver already past its closed check |
| `ChannelState.ApplyPreservesInv` | channel/examples/custom_channel/recieve.go:12-21 | every critical section of every operation keeps the queue invariant |
| `ChannelState.RunPreservesInv` | channel/examples/custom_channel/send.go:12-15 | the queue invariant holds after any interleaving of critical sections |
| `ChannelState.RunNeverReopens` | channel/examples/custom_channel/close.go:11 | once set, the closed flag stays set under any interleaving |
| `ChannelState.RunCapacityAccounting` | channel/examples/custom_channel/recieve.go:12-19 | after any interleaving, capacity equals the initial capacity plus the receivers between widen and narrow; with none in flight it is the initial capacity |
| `ChannelState.SendAll` | channel/examples/custom_channel/send.go:15 | sending messages one by one, with none of them waiting, appends them to the store in order |
| `ChannelState.ReceiveAll` | channel/examples/custom_channel/recieve.go:20-22 | receiving n times, with none of them waiting, returns the first n items in order and leaves the rest |
| `ChannelState.FifoRoundTrip` | channel/examples/custom_channel/main.go:79-100 | sending v1..vn into a fresh channel with capacity at least n, then receiving n times, yields v1..vn and a fresh channel again |
| `ChannelState.Rendezvous` | channel/examples/custom_channel/main.go:106-138 | capacity 0: a lone sender cannot push; after a receiver widens, one sender pushes; the receiver then gets that item, and the store ends empty with capacity 0 |
| `CustomChannel.BufferedScenario` | channel/examples/custom_channel/main.go:79-100 | capacity 3: sending 1, 2, 3 and then receiving three times yields 1, 2, 3 |
| `CustomChannel.RendezvousScenario` | channel/examples/custom_channel/main.go:106-138 | capacity 0: the send passes, the receiver gets the value, and nothing remains buffered with capacity 0 |
| `CustomChannel.CloseScenario` | channel/examples/custom_channel/main.go:205-238 | after `Close`, `Send` fails and `Receive` reports `ok == false` while two items stay buffered; a second `Close` fails |
| `CustomChannel.InFlightScenario` | channel/examples/custom_channel/recieve.go:9-24 | a receiver past its closed check, and a sender already waiting, both complete after a later `Close` |
| `PubSub.Publisher.constructor` | channel/examples/pubsub/publisher.go:27-31 | a new publisher has no topics and no mailboxes, and satisfies the registry invariant |
| `PubSub.Publisher.CreateTopic` | channel/examples/pubsub/topic.go:3-7 | the state change is exactly `BrokerState.CreateTopic`; the invariant is kept |
| `PubSub.Publisher.Subscribe` | channel/examples/pubsub/subscribe.go:34-50 | the state change and result are exactly `BrokerState.Subscribe`; the invariant is kept |
| `PubSub.Publisher.Publish` | channel/examples/pubsub/publish.go:29-45 | the send loop, run in list order where no send blocks, has exactly the effect of `BrokerState.Publish`; the invariant is kept |
| `PubSub.Publisher.CloseTopic` | channel/examples/pubsub/close.go:25-42 | the close loop followed by the delete has exactly the effect of `BrokerState.CloseTopic`; the invariant is kept |
| `PubSub.Publisher.CloseSubscriber` | channel/examples/pubsub/close.go:60-82 | the search, close and splice have exactly the effect of `BrokerState.CloseSubscriber`; the invariant is kept |
| `PubSub.Publisher.Receive` | channel/examples/pubsub/main_test.go:171-176 | the subscriber's receive has exactly the effect of `BrokerState.Receive`; the invariant is kept |
| `PubSub.FindSubscriber` | channel/examples/pubsub/close.go:69-81 | the search loop finds the first position holding the mailbox, or reports that the list does not hold it |
| `BrokerState.IdListedOnce` | channel/examples/pubsub/publisher.go:20 | under the invariant a mailbox id occupies at most one position of one topic's list |
| `BrokerState.ListedMailboxesAreOpen` | channel/examples/pubsub/publisher.go:20 | under the invariant every listed mailbox exists and is open, so no send or close in the Go code hits a closed channel |
| `BrokerState.NewPublisherIsEmpty` | channel/examples/pubsub/publisher.go:27-31 | a new publisher has no topics and satisfies the invariant |
| `BrokerState.NewPublisherFindsNoTopic` | channel/examples/pubsub/main_test.go:63-73 | on a new publisher, `Subscribe`, `Publish`, `CloseTopic` and `CloseSubscriber` all fail with "topic not found" and change nothing |
| `BrokerState.CreateTopicInstallsEmptyList` | channel/examples/pubsub/topic.go:6 | the topic is present with an empty list; other topics and all mailboxes are unchanged; the invariant is kept |
| `BrokerState.RecreatedTopicOrphansMailboxes` | channel/examples/pubsub/topic.go:6 | re-creating a topic drops its mailboxes without closing them; right after the re-creation, neither `CloseTopic` nor `CloseSubscriber` can reach them |
| `BrokerState.SubscribeToAbsentTopic` | channel/examples/pubsub/subscribe.go:43-45 | `Subscribe` to an absent topic fails with "topic not found" and changes nothing |
| `BrokerState.SubscribeAppendsFreshMailbox` | channel/examples/pubsub/subscribe.go:40-49 | a new empty open mailbox, distinct from every existing one, is appended at the end of the topic's list; nothing else changes; the invariant is kept |
| `BrokerState.DeliverFansOut` | channel/examples/pubsub/publish.go:41-43 | sending in list order to distinct mailboxes with room never blocks, and appends the message exactly once to each listed mailbox and to no other |
| `BrokerState.DeliverableIffRoom` | channel/examples/pubsub/publish.go:27-43 | with capacity-1 mailboxes, no send of the loop blocks iff the list has no repeats and every listed mailbox has room |
| `BrokerState.PublishToAbsentTopic` | channel/examples/pubsub/publish.go:34-37 | `Publish` to an absent topic fails with "topic not found" and touches no mailbox |
| `BrokerState.PublishDeliversOnce` | channel/examples/pubsub/publish.go:41-44 | `Publish` to a present topic whose mailboxes have room passes; each listed mailbox gets the message once at its tail; the registry and the other mailboxes are unchanged; the invariant is kept |
| `BrokerState.PublishReachesOnlyItsTopic` | channel/examples/pubsub/main_test.go:357-397 | a message published to one topic leaves every mailbox of another topic unchanged |
| `BrokerState.PublishToEmptyTopic` | channel/examples/pubsub/publish.go:41-44 | `Publish` to a present topic with no subscribers passes and changes nothing |
| `BrokerState.CloseTopicOnAbsentTopic` | channel/examples/pubsub/close.go:29-31 | `CloseTopic` on an absent topic fails with "topic not found" and changes nothing |
| `BrokerState.CloseTopicClosesAll` | channel/examples/pubsub/close.go:35-41 | every listed mailbox was open and is now closed with its buffer kept; other mailboxes are unchanged; the topic is deleted; the invariant is kept |
| `BrokerState.CloseTopicEndsStreams` | channel/examples/pubsub/main_test.go:152-185 | after `CloseTopic` a subscriber first gets any buffered message, then end of stream |
| `BrokerState.ClosedTopicIsGone` | channel/examples/pubsub/main_test.go:400-438 | after `CloseTopic`, `Publish`, `Subscribe`, `CloseTopic` and `CloseSubscriber` on that name all fail with "topic not found" |
| `BrokerState.RemoveFirstSplices` | channel/examples/pubsub/close.go:77 | removing the first occurrence at position i equals `list[:i] ++ list[i+1:]`, so the other subscribers keep their order |
| `BrokerState.CloseSubscriberNotFound` | channel/examples/pubsub/close.go:64-81 | an absent topic gives "topic not found" and an unlisted mailbox gives "subscriber not found"; neither changes anything |
| `BrokerState.CloseSubscriberRemovesOne` | channel/examples/pubsub/close.go:69-78 | the listed mailbox was open and is now closed; it is spliced out with the others in order; the topic, other topics and other mailboxes stay; the invariant is kept |
| `BrokerState.ReceiveTakesOldest` | channel/examples/pubsub/main_test.go:216-222 | a receive returns the oldest buffered message, or end of stream on a closed empty mailbox; the invariant is kept |
| `PubSub.BroadcastScenario` | channel/examples/pubsub/main_test.go:106-139 | with three subscribers, one `Publish("news", "hi")` makes each subscriber's next receive yield "hi" |
| `PubSub.CloseTopicScenario` | channel/examples/pubsub/main_test.go:152-185 | after `CloseTopic` with two subscribers, both read end of stream, and `Publish` and `Subscribe` then fail with "topic not found" |
| `PubSub.CloseSubscriberScenario` | channel/examples/pubsub/main_test.go:198-231 | a closed subscriber reads end of stream and the topic keeps no subscribers; closing it again gives "subscriber not found" |

## Left out

- Locking and wake-ups are not modelled: the mutex, `sync.Cond` `Wait`/`Broadcast`, the `RWMutex` shared/exclusive split, and which waiter runs first. A blocked caller is an operation whose guard (`SendReady`, `ReceiveReady`, `CanPublish`, `CanReceive`) does not hold yet. In `ChannelState.Apply` such a step leaves the state unchanged.
- `PubSub.Publisher.Publish`: modelled as one atomic step, although Go's `Publish` holds only the shared lock (publish.go:30). Concurrent publishes and the subscribers' receives can interleave with its send loop, so two concurrent publishes to the same topic can reach different subscribers in different orders. That per-subscriber order across concurrent publishes is not modelled.
- A `Publish` that blocks on a full mailbox is modelled only in the states where it completes (`CanPublish`). A publish blocked while holding the read lock, and its effect on writers, are concurrency and are not modelled.
- Go panics are not outcomes of the model: a send on a closed channel, and `close` of a closed channel. `ListedMailboxesAreOpen`, `CloseTopicClosesAll` and `CloseSubscriberRemovesOne` prove that under the registry invariant neither happens.
- `CustomChannel.Channel.ReceiveBegin`: returns only `ok`. On a closed channel, Go's `Receive` also returns the zero value of `G`; that zero value is not modelled.
- `PubSub.Publisher.Subscribe`: Go allocates the mailbox before the existence check and drops it on failure. The model allocates only on success. The dropped channel is unreachable, so nothing observable differs.
- The model's `int` is unbounded; Go's `int` is 64-bit, so a wrap-around of `capacity++` at the largest value is not modelled. A negative capacity is accepted, as in Go, but the queue invariant holds only for capacity >= 0 (`ChannelState.NewChannelInv`). While the capacity stays negative the wait loop of `Send` never runs. Receivers widen it, though: with capacity -1 a receiver that arrives before any sender raises it to 0, and it then deadlocks with the next sender (`ChannelState.NegativeCapacityDeadlock`).
- A sender already blocked in its wait loop when `Close` runs is not failed: `close` is checked only at entry (send.go:9-11), so it stays blocked until there is room and then enqueues (`ChannelState.InFlightCallersSurviveClose`).
- The demo at custom_channel/main.go:222-229 expects buffered items to be receivable after `Close`. The code returns `ok == false` (recieve.go:9-11), and the model follows the code (`ChannelState.ReceiveOnClosedDropsBuffered`, `CustomChannel.CloseScenario`).
- The following are not part of this model: the channel-based monitor (sync/mutex/custom_mutex and channel/examples/custom_mutex/get.go), the tutorial programs, the demo drivers, and timeouts and sleeps.
