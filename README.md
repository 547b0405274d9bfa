# eventbus in Dafny

A model of `eventbus`, a small in-process publish/subscribe bus written in Go.
A caller subscribes to a named topic and gets back a new channel. Publishing an
event on a topic delivers it to every channel subscribed to that topic.
Unsubscribing removes a channel from its topic, closes it, and drops the topic
entry once the topic has no subscribers left. A subscriber whose consumer has
closed its channel is pruned lazily, by the next publish that tries to send
into it.

The model has three modules:

- `Registry` (`registry.dfy`) is the value-level view. A registry is a map
  from topic to the set of endpoints subscribed to it. The functions
  `Removed`, `Subscribed`, `Unsubscribed` and `PrunedAt` state what each
  operation does to that map, including its error cases. The lemmas state
  the properties of these functions: what each operation does, the
  invariants it preserves, and how operations combine.
- `Bus` (`eventbus.dfy`) is the imperative model, mirroring the Go types:
  - `Channel` is a subscriber endpoint. It has a `closed` flag and the log
    of events placed into it.
  - `Subscriptions` is one topic's set of endpoints. Its `Publish` is a loop
    over a snapshot of the set.
  - `EventBus` holds the topic map.

  `EventBus.Subscribe`, `Unsubscribe` and `Publish` are proved against
  `Subscribed`, `Unsubscribed` and `PrunedAt` through the ghost field
  `EventBus.Members`. `EventBus.Valid` ties that field to the objects and
  keeps the sets of different topics disjoint. `Subscriptions.Delete` is
  proved against `Removed` directly. The other methods (`Channel.Send`,
  `Channel.Close`, `Subscriptions.Add`, `Len`, `RecoverClosedChannel` and
  `Publish`, and `EventBus.Get`, `Set` and `Delete`) state their effect on
  their own fields outright.
- `Scenarios` (`scenarios.dfy`) holds clients that replay or extend the
  repository's tests. Each one proves, from the contracts alone, the values
  it observes. `UnsubscribeStranger` has no counterpart among the tests, and
  `PublishDelivers` also checks a subscriber of another topic, which its
  test does not.

Errors, which are Go `error` values, become `Outcome`/`Result` values with a
`BusError` case.

## Model

| member | source | states |
|---|---|---|
| Registry.RemovedMeaning | eventbus.go:94-102 | Delete fails with UnknownSubscriber exactly when `c` is not a member; on success it removes `c`, keeps every other member, and the size drops by one |
| Registry.SubscribedMeaning | eventbus.go:23-34 | After Subscribe the topic has an entry that holds `c`, and its other members are unchanged; a new endpoint grows the set by exactly one; every other topic keeps its set |
| Registry.UnsubscribedMeaning | eventbus.go:36-49 | Unsubscribe fails with UnknownTopic exactly when the topic has no entry, fails with UnknownSubscriber exactly when `c` is not in the set, and succeeds otherwise; on success it removes exactly `c`, removes the entry exactly when `c` was its only member, and leaves other topics alone |
| Registry.PrunedAtMeaning | eventbus.go:110-132 | Publish keeps every topic entry; the topic's set keeps exactly its members that are not closed; other topics are unchanged |
| Registry.PublishShrinksByClosed | eventbus.go:110-132 | A publish shrinks the topic's set by exactly the number of its members that were closed |
| Registry.RemoveAfterAdd | eventbus.go:88-102 | Deleting a member that was just added gives back the original set |
| Registry.SubscribeTwiceSameEndpoint | eventbus.go:88-92 | Adding is idempotent: registering the same endpoint twice is the same as registering it once |
| Registry.UnsubscribeAfterSubscribe | eventbus.go:23-49 | Subscribing a new endpoint and then unsubscribing it succeeds and restores the registry, provided the registry had no empty entry |
| Registry.SubscribePreservesDisjoint | eventbus.go:23-34 | Subscribe keeps every endpoint under at most one topic |
| Registry.UnsubscribePreservesDisjoint | eventbus.go:36-49 | A successful Unsubscribe keeps every endpoint under at most one topic |
| Registry.NoEmptyEntryPreserved | eventbus.go:36-49 | Neither Subscribe nor a successful Unsubscribe ever leaves a topic entry with no endpoints |
| Registry.PrunePreservesDisjoint | eventbus.go:110-132 | Pruning closed endpoints keeps every endpoint under at most one topic |
| Registry.PruneKeepsEmptiedEntry | eventbus.go:51-56 | A publish that finds every member of the topic closed keeps the topic's entry, with an empty set |
| Registry.PruneMayLeaveEmptyEntry | eventbus.go:51-56 | An example registry, one topic whose single member is closed, satisfies "every entry is non-empty" before a publish and violates it afterwards |
| Bus.Channel.constructor | eventbus.go:24 | A new endpoint is open and has received nothing |
| Bus.Channel.Send | eventbus.go:117 | Sending into an open channel appends the event; sending into a closed channel appends nothing and reports it as closed (the panic in Go) |
| Bus.Channel.Close | eventbus.go:45 | Afterwards the channel is closed and its log is unchanged; it reports whether the channel was already closed (the close-of-closed panic in Go) |
| Bus.Subscriptions.constructor | eventbus.go:84-86 | A new set has no subscribers |
| Bus.Subscriptions.Add | eventbus.go:88-92 | The set gains `c`, with set semantics |
| Bus.Subscriptions.Delete | eventbus.go:94-102 | Behaves as `Removed`: removes `c` and passes, or fails with UnknownSubscriber and changes nothing |
| Bus.Subscriptions.Len | eventbus.go:104-108 | Returns the number of subscribers |
| Bus.Subscriptions.RecoverClosedChannel | eventbus.go:124-132 | When the send found `c` closed, `c` is removed from the set; otherwise the set is unchanged |
| Bus.Subscriptions.Publish | eventbus.go:110-122 | Every member at the start of the call that is open receives the event exactly once; every closed member receives nothing and is removed from the set; no member is opened or closed |
| Bus.EventBus.constructor | eventbus.go:19-21 | A new bus has no topics |
| Bus.EventBus.Get | eventbus.go:58-65 | Returns the topic's set, or null when the topic has no entry |
| Bus.EventBus.Set | eventbus.go:67-71 | Registers the set under the topic, replacing any earlier entry |
| Bus.EventBus.Delete | eventbus.go:73-77 | Removes the topic's entry, if there is one |
| Bus.EventBus.Subscribe | eventbus.go:23-34 | Returns a new open endpoint that was registered nowhere before; the registry becomes `Subscribed` of the old one; the topic's entry is created only when it was missing; the bus stays valid |
| Bus.EventBus.Unsubscribe | eventbus.go:36-49 | An error from `Unsubscribed` changes nothing and is returned; on success the registry becomes its result, the channel is closed, the entry is removed only when it was emptied, and closing an already-closed channel is reported as CloseOfClosedChannel |
| Bus.EventBus.Publish | eventbus.go:51-56 | A topic with no entry is a no-op; otherwise open members of the topic receive the event, closed ones are pruned (`PrunedAt`), the topic map keeps its keys, and endpoints of other topics are untouched |
| Scenarios.TwoTopicsRegistry | eventbus_test.go:31-43 | Two subscriptions to "foo" and one to "bar" give a registry with two topics, whose sets have sizes 2 and 1 |
| Scenarios.SubscribeTwoTopics | eventbus_test.go:31-43 | On the bus, the same subscriptions give two topic entries with 2 and 1 subscribers |
| Scenarios.UnsubscribeLast | eventbus_test.go:45-57 | One subscriber gives one entry holding one subscriber; unsubscribing it passes and leaves no entry; a second unsubscribe fails with UnknownTopic |
| Scenarios.UnsubscribeStranger | eventbus.go:39-41 | Unsubscribing an endpoint that is not subscribed to an existing topic fails with UnknownSubscriber and keeps the subscriber |
| Scenarios.PublishDelivers | eventbus_test.go:59-79 | A subscriber receives exactly the published event; a subscriber of another topic receives nothing |
| Scenarios.SubscribeOneMore | eventbus_test.go:90-93 | Subscribing one more new endpoint to "foo" gives the registry of the longer endpoint list |
| Scenarios.SubscribeMany | eventbus_test.go:90-103 | After `n` subscriptions to "foo" the bus is valid and holds exactly the `n` distinct, open, empty endpoints |
| Scenarios.ClosedChannel | eventbus_test.go:114-144 | When one of `n` subscribers is closed before a publish, every other subscriber receives the event, the closed one receives nothing, and the set has `n - 1` members |
| Scenarios.UnsubscribeFirst | eventbus_test.go:107-111 | Unsubscribing the first of the registered endpoints leaves exactly the rest registered, and drops the entry after the last one |
| Scenarios.PublishToAll | eventbus_test.go:81-105 | All `n` subscribers receive the published event once, and the registry is unchanged |
| Scenarios.UnsubscribeNext | eventbus_test.go:109 | One unsubscribe of the remaining endpoints passes, closes the endpoint, and leaves the rest registered |
| Scenarios.PublishToAllThenUnsubscribeAll | eventbus_test.go:81-112 | Every subscriber receives the event; every later unsubscribe passes and closes its channel; no topic entry is left |

## Left out

- Locks: the `sync.RWMutex` of the bus and of each subscription set are not modelled. Each operation runs to completion before the next one starts.
- Goroutines and the `sync.WaitGroup` in `Subscriptions.Publish` are not modelled. The sends run one after another in the loop, in an unspecified order. Interleavings with concurrent Subscribe or Unsubscribe calls are not modelled.
- The race between `get` and `set` in `Subscribe` is not modelled. In Go, two concurrent first subscribers to a topic can each install a new set, and one subscription is lost. The sequential model cannot express this.
- Channel capacity and blocking are not modelled. A Go channel has a buffer of one, and a second undrained event blocks the publishing goroutine. Here a send into an open channel always succeeds and appends to `received`. Consumers reading from their channels are outside the model.
- Bus.Subscriptions.RecoverClosedChannel: the log lines and the ignored `Delete` error are left out.
- Bus.EventBus.Unsubscribe: the error message texts are abstracted to `BusError` cases.
- Bus.EventBus.Unsubscribe: Go panics when closing a channel that is already closed, and Unsubscribe does not recover from that panic. The model does not stop the program. It returns CloseOfClosedChannel after the removal, which has already happened by that point in Go too.
- Bus.EventBus.Valid does not include "every entry is non-empty". Publish can leave an entry with an empty set, as `Registry.PruneKeepsEmptiedEntry` and `Registry.PruneMayLeaveEmptyEntry` show. `Registry.UnsubscribeAfterSubscribe` therefore assumes that property of its registry.
- The benchmark file `eventbus_benchmark_test.go` is not part of this model. It measures speed and states no behaviour.
- The `Event` interface and the test event type: events are a type parameter `E`.
