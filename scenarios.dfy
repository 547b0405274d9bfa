/**
 Clients of the event bus that replay or extend the scenarios of the
 repository's test suite. Each method returns what it observes (sizes,
 outcomes, what a subscriber received), and its ensures clauses state the
 expected values; they are proved from the contracts of the bus.
 */
module Scenarios {
  import opened Registry
  import opened Bus

  /** The registry after two subscriptions to "foo" and one to "bar". */
  lemma TwoTopicsRegistry<T>(c1: T, c2: T, c3: T)
    requires c1 != c2
    ensures var m := Subscribed(Subscribed(Subscribed(map[], "foo", c1), "foo", c2), "bar", c3);
      && m.Keys == {"foo", "bar"} && |m.Keys| == 2
      && |m["foo"]| == 2 && |m["bar"]| == 1
  {
    var m1 := Subscribed(map[], "foo", c1);
    assert m1.Keys == {"foo"} && m1["foo"] == {c1};
    var m2 := Subscribed(m1, "foo", c2);
    assert m2.Keys == {"foo"} && m2["foo"] == {c1, c2};
    var m3 := Subscribed(m2, "bar", c3);
    assert "foo" != "bar";
    assert m3.Keys == {"foo", "bar"} && m3["foo"] == {c1, c2} && m3["bar"] == {c3};
  }

  /** Two subscriptions to "foo" and one to "bar" give two topic entries,
      with sets of size two and one. */
  method SubscribeTwoTopics<E>() returns (topicCount: nat, fooSize: nat, barSize: nat)
    ensures topicCount == 2 && fooSize == 2 && barSize == 1
  {
    var bus := new EventBus<E>();
    var c1 := bus.Subscribe("foo");
    var c2 := bus.Subscribe("foo");
    var c3 := bus.Subscribe("bar");
    TwoTopicsRegistry(c1, c2, c3);
    topicCount := |bus.topics|;
    fooSize := bus.topics["foo"].Len();
    barSize := bus.topics["bar"].Len();
  }

  /** One subscriber gives one topic entry holding one endpoint; unsubscribing
      it removes the topic entry; afterwards the topic is unknown to
      Unsubscribe. */
  method UnsubscribeLast<E>() returns (before: nat, fooSize: nat, r: Outcome, after: nat, again: Outcome)
    ensures before == 1 && fooSize == 1 && r == Pass && after == 0
    ensures again == Fail(UnknownTopic)
  {
    var bus := new EventBus<E>();
    var c := bus.Subscribe("foo");
    assert bus.Members.Keys == {"foo"};
    before := |bus.topics|;
    fooSize := bus.topics["foo"].Len();
    UnsubscribeAfterSubscribe(map[], "foo", c);
    r := bus.Unsubscribe("foo", c);
    after := |bus.topics|;
    again := bus.Unsubscribe("foo", c);
  }

  /** Unsubscribing an endpoint that was never subscribed to an existing topic
      fails and leaves the subscriber in place. */
  method UnsubscribeStranger<E>() returns (r: Outcome, size: nat)
    ensures r == Fail(UnknownSubscriber) && size == 1
  {
    var bus := new EventBus<E>();
    var c := bus.Subscribe("foo");
    var stranger := new Channel<E>();
    r := bus.Unsubscribe("foo", stranger);
    size := bus.topics["foo"].Len();
  }

  /** A subscriber receives exactly the published event; a subscriber of
      another topic receives nothing. */
  method PublishDelivers<E>(e: E) returns (got: seq<E>, elsewhere: seq<E>)
    ensures got == [e] && elsewhere == []
  {
    var bus := new EventBus<E>();
    var c := bus.Subscribe("foo");
    var d := bus.Subscribe("bar");
    bus.Publish("foo", e);
    got := c.received;
    elsewhere := d.received;
  }

  /** The registry after subscribing each endpoint of `chans` to "foo". */
  ghost function FooRegistry<T>(chans: seq<T>): map<Topic, set<T>>
  {
    if chans == [] then map[] else map["foo" := set c | c in chans]
  }

  /** No endpoint occurs twice in `chans`. */
  ghost predicate Distinct<T>(chans: seq<T>)
  {
    forall i, j :: 0 <= i < j < |chans| ==> chans[i] != chans[j]
  }

  /** Subscribing one more new endpoint to "foo" extends the registry. */
  lemma SubscribeOneMore<T>(chans: seq<T>, c: T)
    requires c !in chans
    ensures Subscribed(FooRegistry(chans), "foo", c) == FooRegistry(chans + [c])
  {
    assert MembersOf(FooRegistry(chans), "foo") + {c} == set x | x in chans + [c];
  }

  /** A sequence without repetitions has as many elements as its set. */
  lemma {:induction false} DistinctCard<T>(chans: seq<T>)
    requires Distinct(chans)
    ensures |set c | c in chans| == |chans|
  {
    if chans != [] {
      var init := chans[..|chans| - 1];
      var last := chans[|chans| - 1];
      assert Distinct(init);
      DistinctCard(init);
      assert last !in init;
      assert (set c | c in chans) == (set c | c in init) + {last};
    }
  }

  /** A new bus with `n` new endpoints subscribed to "foo", in order. */
  method SubscribeMany<E>(n: nat) returns (bus: EventBus<E>, chans: seq<Channel<E>>)
    ensures fresh(bus) && bus.Valid()
    ensures forall t :: t in bus.topics ==> fresh(bus.topics[t])
    ensures |chans| == n && Distinct(chans) && bus.Members == FooRegistry(chans)
    ensures forall i :: 0 <= i < n ==> fresh(chans[i]) && !chans[i].closed && chans[i].received == []
  {
    bus := new EventBus<E>();
    chans := [];
    while |chans| < n
      invariant |chans| <= n
      invariant fresh(bus) && bus.Valid()
      invariant forall t :: t in bus.topics ==> fresh(bus.topics[t])
      invariant bus.Members == FooRegistry(chans)
      invariant Distinct(chans)
      invariant forall i :: 0 <= i < |chans| ==> fresh(chans[i]) && !chans[i].closed && chans[i].received == []
    {
      ghost var before := bus.Members;
      var c := bus.Subscribe("foo");
      assert c !in chans by {
        if chans != [] {
          assert "foo" in before;
        }
      }
      SubscribeOneMore(chans, c);
      chans := chans + [c];
    }
  }

  /** Ten subscribers in the test, any number here: the consumer of endpoint
      `k` closes it, then an event is published. Every other endpoint receives
      the event, the closed one receives nothing, and the topic's set has
      shrunk by exactly one. */
  method ClosedChannel<E>(n: nat, k: nat, e: E) returns (size: nat, chans: seq<Channel<E>>)
    requires k < n
    ensures |chans| == n && size == n - 1
    ensures forall i :: 0 <= i < n && i != k ==> chans[i].received == [e]
    ensures chans[k].closed && chans[k].received == []
  {
    var bus;
    bus, chans := SubscribeMany(n);
    var _ := chans[k].Close();
    ghost var members := set c | c in chans;
    ghost var dead := ClosedAmong(members);
    assert dead == {chans[k]};
    bus.Publish("foo", e);
    DistinctCard(chans);
    PublishShrinksByClosed(FooRegistry(chans), "foo", dead);
    size := bus.topics["foo"].Len();
  }

  /** Unsubscribing the first of the endpoints leaves the rest registered,
      and unsubscribing the last one removes the entry. */
  lemma {:induction false} UnsubscribeFirst<T>(chans: seq<T>)
    requires chans != [] && Distinct(chans)
    ensures Unsubscribed(FooRegistry(chans), "foo", chans[0]) == Ok(FooRegistry(chans[1..]))
  {
    var s := set c | c in chans;
    var rest := set c | c in chans[1..];
    assert s - {chans[0]} == rest by {
      forall c | c in rest ensures c != chans[0] {
        var j :| 0 <= j < |chans[1..]| && chans[1..][j] == c;
        assert chans[j + 1] == c;
      }
    }
    assert chans[0] in s;
    assert Removed(s, chans[0]) == Ok(rest);
    if |chans| == 1 {
      assert rest == {};
      assert map["foo" := s] - {"foo"} == map[];
    } else {
      assert chans[1] in rest;
      assert map["foo" := s]["foo" := rest] == map["foo" := rest];
    }
  }

  /** `n` new subscribers of "foo" each receive one published event, and
      the registry is unchanged because none of them was closed. */
  method PublishToAll<E>(n: nat, e: E) returns (bus: EventBus<E>, chans: seq<Channel<E>>)
    ensures fresh(bus) && bus.Valid()
    ensures forall t :: t in bus.topics ==> fresh(bus.topics[t])
    ensures |chans| == n && Distinct(chans) && bus.Members == FooRegistry(chans)
    ensures forall i :: 0 <= i < n ==> fresh(chans[i]) && !chans[i].closed && chans[i].received == [e]
  {
    bus, chans := SubscribeMany(n);
    ghost var members := MembersOf(bus.Members, "foo");
    assert ClosedAmong(members) == {};
    bus.Publish("foo", e);
    assert bus.Members == FooRegistry(chans) by {
      if n > 0 {
        assert FooRegistry(chans)["foo"] - {} == FooRegistry(chans)["foo"];
      }
    }
  }

  /** One step of unsubscribing everybody: the `j`-th endpoint, the first
      still registered, unsubscribes without error and is closed. */
  method UnsubscribeNext<E>(bus: EventBus<E>, chans: seq<Channel<E>>, j: nat) returns (r: Outcome)
    requires j < |chans| && Distinct(chans) && !chans[j].closed
    requires bus.Valid() && bus.Members == FooRegistry(chans[j..])
    modifies bus, chans[j], bus.topics.Values
    ensures bus.Valid() && bus.Members == FooRegistry(chans[j + 1..])
    ensures forall t :: t in bus.topics ==> t in old(bus.topics) && bus.topics[t] == old(bus.topics[t])
    ensures r == Pass && chans[j].closed && chans[j].received == old(chans[j].received)
  {
    assert Distinct(chans[j..]);
    UnsubscribeFirst(chans[j..]);
    assert chans[j..][1..] == chans[j + 1..];
    r := bus.Unsubscribe("foo", chans[j]);
  }

  /** Every one of `n` subscribers receives the published event; then each of
      them unsubscribes without error and is closed, and no topic entry is
      left. */
  method PublishToAllThenUnsubscribeAll<E>(n: nat, e: E) returns (outcomes: seq<Outcome>, topicCount: nat, chans: seq<Channel<E>>)
    ensures |chans| == n && |outcomes| == n && topicCount == 0
    ensures forall i :: 0 <= i < n ==> outcomes[i] == Pass
    ensures forall i :: 0 <= i < n ==> chans[i].received == [e] && chans[i].closed
  {
    var bus;
    bus, chans := PublishToAll(n, e);
    outcomes := [];
    while |outcomes| < n
      invariant |outcomes| <= n && bus.Valid()
      invariant forall t :: t in bus.topics ==> fresh(bus.topics[t])
      invariant bus.Members == FooRegistry(chans[|outcomes|..])
      invariant forall i :: 0 <= i < |outcomes| ==> outcomes[i] == Pass
      invariant forall i :: 0 <= i < n ==> fresh(chans[i]) && chans[i].received == [e]
      invariant forall i :: 0 <= i < n ==> (chans[i].closed <==> i < |outcomes|)
    {
      var r := UnsubscribeNext(bus, chans, |outcomes|);
      outcomes := outcomes + [r];
    }
    topicCount := |bus.topics|;
  }
}
