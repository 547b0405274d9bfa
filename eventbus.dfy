/**
 The event bus itself, as objects updated in place: a `Channel` per subscriber
 endpoint, a `Subscriptions` object per topic holding the set of its
 endpoints, and the `EventBus` holding the map from topic to `Subscriptions`.

 The Go implementation guards both maps with reader-writer locks and fans a
 publish out to one goroutine per subscriber; this model runs every operation
 to completion, one after another, and keeps the bookkeeping.
 */
module Bus {
  import opened Registry

  /** What a send into a channel does: the event is buffered, or the channel
      turns out to be closed (in Go, a panic that the bus recovers from). */
  datatype SendResult = Delivered | ChannelClosed

  /** A subscriber endpoint (a Go `chan Event` of capacity 1). Its identity is
      the object; `received` is every event placed into it so far, in order;
      `closed` says whether it has been closed, by Unsubscribe or by its
      consumer. */
  class Channel<E> {
    var closed: bool
    var received: seq<E>

    /** `make(chan Event, 1)`: a new, open, empty endpoint. */
    constructor ()
      ensures !closed && received == []
    {
      closed := false;
      received := [];
    }

    /** `ch <- e`: an open channel takes the event; a closed one takes nothing
        and reports that it is closed. */
    method Send(e: E) returns (r: SendResult)
      modifies this
      ensures closed == old(closed)
      ensures r == ChannelClosed <==> closed
      ensures received == if closed then old(received) else old(received) + [e]
    {
      if closed {
        r := ChannelClosed;
      } else {
        received := received + [e];
        r := Delivered;
      }
    }

    /** `close(ch)`: afterwards the channel is closed. Closing a channel that is
        already closed is a run-time panic in Go; it is reported here as
        `alreadyClosed`. */
    method Close() returns (alreadyClosed: bool)
      modifies this
      ensures alreadyClosed == old(closed)
      ensures closed && received == old(received)
    {
      alreadyClosed := closed;
      closed := true;
    }
  }

  /** The closed endpoints among `s`. */
  ghost function ClosedAmong<E>(s: set<Channel<E>>): set<Channel<E>>
    reads s
  {
    set c | c in s && c.closed
  }

  /** The set of endpoints subscribed to one topic. */
  class Subscriptions<E> {
    var subscribers: set<Channel<E>>

    /** `NewSubscriptions`: no subscribers yet. */
    constructor ()
      ensures subscribers == {}
    {
      subscribers := {};
    }

    /** Adds `c` with set semantics: adding a member again changes nothing. */
    method Add(c: Channel<E>)
      modifies this
      ensures subscribers == old(subscribers) + {c}
    {
      subscribers := subscribers + {c};
    }

    /** Removes `c`, failing (and removing nothing) when it is not a member. */
    method Delete(c: Channel<E>) returns (r: Outcome)
      modifies this
      ensures var d := Removed(old(subscribers), c);
        if d.Ok? then r == Pass && subscribers == d.value
        else r == Fail(d.error) && subscribers == old(subscribers)
    {
      if c !in subscribers {
        return Fail(UnknownSubscriber);
      }
      subscribers := subscribers - {c};
      r := Pass;
    }

    /** The number of subscribers. */
    method Len() returns (n: nat)
      ensures n == |subscribers|
    {
      n := |subscribers|;
    }

    /** The deferred handler of one delivery: when the send found `c` closed,
        `c` is removed from the set; a failed removal is only logged in Go and
        is ignored here. */
    method RecoverClosedChannel(c: Channel<E>, sent: SendResult)
      modifies this
      ensures subscribers == if sent == ChannelClosed then old(subscribers) - {c} else old(subscribers)
    {
      if sent == ChannelClosed {
        var _ := Delete(c);
      }
    }

    /** Delivers `e` to every member at the start of the call: each open member
        has `e` appended to what it received; each closed member is removed
        from the set and is otherwise untouched. */
    method Publish(e: E)
      modifies this, subscribers
      ensures subscribers == old(subscribers) - old(ClosedAmong(subscribers))
      ensures forall c :: c in old(subscribers) ==>
        c.closed == old(c.closed) &&
        c.received == if c.closed then old(c.received) else old(c.received) + [e]
    {
      var snapshot := subscribers;
      ghost var dead := ClosedAmong(snapshot);
      var pending := snapshot;
      while pending != {}
        invariant pending <= snapshot
        invariant subscribers == pending + (snapshot - pending - dead)
        invariant forall c :: c in snapshot ==> c.closed == old(c.closed) && (c.closed <==> c in dead)
        invariant forall c :: c in pending ==> c.received == old(c.received)
        invariant forall c :: c in snapshot - pending ==>
          c.received == if c.closed then old(c.received) else old(c.received) + [e]
        decreases pending
      {
        var c :| c in pending;
        var sent := c.Send(e);
        RecoverClosedChannel(c, sent);
        pending := pending - {c};
      }
      assert dead == old(ClosedAmong(subscribers));
    }
  }

  /** The topic registry. */
  class EventBus<E> {
    var topics: map<Topic, Subscriptions<E>>

    /** The abstract registry: each topic with the members of its set. */
    ghost var Members: map<Topic, set<Channel<E>>>

    /** `Members` mirrors the sets held in `topics`; distinct topics own
        distinct sets; no endpoint is registered under two topics. */
    ghost predicate Valid()
      reads this, topics.Values
    {
      && Members.Keys == topics.Keys
      && (forall t :: t in topics ==> topics[t].subscribers == Members[t])
      && (forall t, u :: t in topics && u in topics && t != u ==> topics[t] != topics[u])
      && Disjoint(Members)
    }

    /** `NewEventBus`: no topics. */
    constructor ()
      ensures Valid() && Members == map[]
    {
      topics := map[];
      Members := map[];
    }

    /** The set registered under `topic`, or null when there is none. */
    method Get(topic: Topic) returns (sub: Subscriptions?<E>)
      ensures topic in topics ==> sub == topics[topic]
      ensures topic !in topics ==> sub == null
    {
      if topic in topics {
        sub := topics[topic];
      } else {
        sub := null;
      }
    }

    /** Registers `sub` under `topic`, replacing any earlier entry. */
    method Set(topic: Topic, sub: Subscriptions<E>)
      modifies this`topics
      ensures topics == old(topics)[topic := sub]
    {
      topics := topics[topic := sub];
    }

    /** Removes the entry for `topic`, if any. */
    method Delete(topic: Topic)
      modifies this`topics
      ensures topics == old(topics) - {topic}
    {
      topics := topics - {topic};
    }

    /** Returns a new open endpoint registered under `topic`; the topic's set is
        created when it is missing; no other topic's set changes. */
    method Subscribe(topic: Topic) returns (c: Channel<E>)
      requires Valid()
      modifies this, if topic in topics then {topics[topic]} else {}
      ensures Valid()
      ensures fresh(c) && !c.closed && c.received == []
      ensures Unregistered(old(Members), c)
      ensures Members == Subscribed(old(Members), topic, c)
      ensures topic in old(topics) ==> topics == old(topics)
      ensures topic !in old(topics) ==> fresh(topics[topic]) && topics == old(topics)[topic := topics[topic]]
    {
      c := new Channel();
      assert Unregistered(Members, c);
      var sub := Get(topic);
      if sub != null {
        sub.Add(c);
      } else {
        sub := new Subscriptions();
        sub.Add(c);
        Set(topic, sub);
      }
      SubscribePreservesDisjoint(Members, topic, c);
      Members := Subscribed(Members, topic, c);
      forall u | u in topics && u != topic
        ensures topics[u].subscribers == Members[u]
      {
        assert topics[u] == old(topics[u]) != sub;
      }
    }

    /** Removes `c` from `topic`'s set and closes it. An unknown topic or a
        non-member endpoint is an error that changes nothing. On success the
        topic entry is deleted exactly when its set has become empty; when the
        consumer had already closed `c`, the final close is Go's
        close-of-closed-channel panic, reported after the removal. */
    method Unsubscribe(topic: Topic, c: Channel<E>) returns (r: Outcome)
      requires Valid()
      modifies this, c, if topic in topics then {topics[topic]} else {}
      ensures Valid()
      ensures c.received == old(c.received)
      ensures topics == old(topics) || topics == old(topics) - {topic}
      ensures var u := Unsubscribed(old(Members), topic, c);
        if u.Err? then r == Fail(u.error) && Members == old(Members) && c.closed == old(c.closed)
        else Members == u.value && c.closed && r == if old(c.closed) then Fail(CloseOfClosedChannel) else Pass
    {
      var sub := Get(topic);
      if sub == null {
        return Fail(UnknownTopic);
      }
      r := sub.Delete(c);
      if r.Fail? {
        return;
      }
      var n := sub.Len();
      if n == 0 {
        Delete(topic);
      }
      UnsubscribePreservesDisjoint(Members, topic, c);
      Members := Unsubscribed(Members, topic, c).value;
      forall u | u in topics && u != topic
        ensures topics[u].subscribers == Members[u]
      {
        assert topics[u] == old(topics[u]) != sub;
      }
      var alreadyClosed := c.Close();
      r := if alreadyClosed then Fail(CloseOfClosedChannel) else Pass;
    }

    /** Publishes `e` on `topic`: nothing happens for a topic with no entry;
        otherwise every open member receives `e`, every closed member is
        pruned from the set, the entry stays (even when emptied), and no
        endpoint of another topic is touched. */
    method Publish(topic: Topic, e: E)
      requires Valid()
      modifies this, if topic in topics then {topics[topic]} else {}
      modifies if topic in topics then topics[topic].subscribers else {}
      ensures Valid()
      ensures topics == old(topics)
      ensures Members == PrunedAt(old(Members), topic, old(ClosedAmong(MembersOf(Members, topic))))
      ensures forall c :: c in MembersOf(old(Members), topic) ==>
        c.closed == old(c.closed) &&
        c.received == if c.closed then old(c.received) else old(c.received) + [e]
      ensures forall u, c :: u in old(Members) && u != topic && c in old(Members)[u] ==>
        c.closed == old(c.closed) && c.received == old(c.received)
    {
      var sub := Get(topic);
      if sub != null {
        ghost var dead := ClosedAmong(sub.subscribers);
        sub.Publish(e);
        PrunePreservesDisjoint(Members, topic, dead);
        Members := PrunedAt(Members, topic, dead);
        forall u | u in topics && u != topic
          ensures topics[u].subscribers == Members[u]
        {
          assert topics[u] != sub;
        }
      }
    }
  }
}
