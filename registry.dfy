/**
 The value-level view of the event bus: a registry is a map from topic to the
 set of subscriber endpoints registered under it. The endpoint type `T` is a
 type parameter (the imperative model instantiates it with channel objects),
 so endpoints are compared by identity only.

 The functions here are the specifications that the methods of the classes in
 module `Bus` are proved against; the lemmas state what the source promises
 about them.
 */
module Registry {

  type Topic = string

  /** The failures the bus reports to its callers. */
  datatype BusError =
    | UnknownTopic          // Unsubscribe on a topic with no entry
    | UnknownSubscriber     // Delete/Unsubscribe of an endpoint that is not a member
    | CloseOfClosedChannel  // closing an endpoint that its consumer already closed

  datatype Outcome = Pass | Fail(error: BusError)

  datatype Result<T> = Ok(value: T) | Err(error: BusError)

  /** The members registered under `t`; a missing entry has none. */
  function MembersOf<T>(m: map<Topic, set<T>>, t: Topic): set<T>
  {
    if t in m then m[t] else {}
  }

  /** `c` is not registered under any topic. */
  predicate Unregistered<T>(m: map<Topic, set<T>>, c: T)
  {
    forall t :: t in m ==> c !in m[t]
  }

  /** No endpoint is registered under two topics. */
  predicate Disjoint<T>(m: map<Topic, set<T>>)
  {
    forall t, u :: t in m && u in m && t != u ==> m[t] !! m[u]
  }

  /** Every topic entry holds at least one endpoint. */
  predicate NoEmptyEntry<T>(m: map<Topic, set<T>>)
  {
    forall t :: t in m ==> m[t] != {}
  }

  // ---------------------------------------------------------------------
  // The operations, on values. Their meaning is stated by the lemmas below
  // rather than by ensures clauses, so that the methods proved against them
  // do not carry every consequence into each proof.
  // ---------------------------------------------------------------------

  /** Removing `c` from one topic's subscription set. */
  function Removed<T>(s: set<T>, c: T): Result<set<T>>
  {
    if c in s then Ok(s - {c}) else Err(UnknownSubscriber)
  }

  /** Subscribe registers `c` under `t`, creating the entry if it is missing. */
  function Subscribed<T>(m: map<Topic, set<T>>, t: Topic, c: T): map<Topic, set<T>>
  {
    m[t := MembersOf(m, t) + {c}]
  }

  /** Unsubscribe: look the topic up, remove `c` from its set, and drop the
      entry when the set has become empty. */
  function Unsubscribed<T>(m: map<Topic, set<T>>, t: Topic, c: T): Result<map<Topic, set<T>>>
  {
    if t !in m then Err(UnknownTopic)
    else
      match Removed(m[t], c)
      case Err(e) => Err(e)
      case Ok(s) => if |s| == 0 then Ok(m - {t}) else Ok(m[t := s])
  }

  /** Publish on `t` prunes the closed endpoints `dead` from the topic's set. */
  function PrunedAt<T>(m: map<Topic, set<T>>, t: Topic, dead: set<T>): map<Topic, set<T>>
  {
    if t in m then m[t := m[t] - dead] else m
  }

  // ---------------------------------------------------------------------
  // What each operation does
  // ---------------------------------------------------------------------

  /** Delete fails exactly when `c` is not a member; on success it removes
      exactly `c` and keeps every other member. */
  lemma RemovedMeaning<T>(s: set<T>, c: T)
    ensures Removed(s, c).Err? <==> c !in s
    ensures Removed(s, c).Err? ==> Removed(s, c).error == UnknownSubscriber
    ensures Removed(s, c).Ok? ==>
      var r := Removed(s, c).value;
      c !in r && r + {c} == s && |r| == |s| - 1
  {
  }

  /** Subscribe: the topic's entry exists afterwards and holds `c`; a new
      endpoint grows the set by exactly one; every other topic keeps its set. */
  lemma SubscribedMeaning<T>(m: map<Topic, set<T>>, t: Topic, c: T)
    ensures var r := Subscribed(m, t, c);
      && r.Keys == m.Keys + {t}
      && c in r[t] && r[t] - {c} == MembersOf(m, t) - {c}
      && (c !in MembersOf(m, t) ==> |r[t]| == |MembersOf(m, t)| + 1)
      && forall u :: u in m && u != t ==> r[u] == m[u]
  {
  }

  /** Unsubscribe fails with UnknownTopic exactly when the topic has no entry
      and with UnknownSubscriber exactly when `c` is not in its set. On success
      it removes exactly `c`, deletes the entry exactly when the set had `c` as
      its only member, and leaves every other topic alone. */
  lemma UnsubscribedMeaning<T>(m: map<Topic, set<T>>, t: Topic, c: T)
    ensures Unsubscribed(m, t, c) == Err(UnknownTopic) <==> t !in m
    ensures Unsubscribed(m, t, c) == Err(UnknownSubscriber) <==> t in m && c !in m[t]
    ensures Unsubscribed(m, t, c).Ok? <==> t in m && c in m[t]
    ensures Unsubscribed(m, t, c).Ok? ==>
      var r := Unsubscribed(m, t, c).value;
      && (t in r <==> |m[t]| > 1)
      && (t in r ==> r[t] + {c} == m[t] && c !in r[t])
      && r.Keys <= m.Keys
      && forall u :: u in m && u != t ==> u in r && r[u] == m[u]
  {
    if t in m && c in m[t] {
      RemovedMeaning(m[t], c);
    }
  }

  /** Publish keeps every topic entry, even one whose set it empties; the
      topic's set loses exactly its closed members; other topics are alone. */
  lemma PrunedAtMeaning<T>(m: map<Topic, set<T>>, t: Topic, dead: set<T>)
    ensures PrunedAt(m, t, dead).Keys == m.Keys
    ensures t in m ==> forall c :: c in PrunedAt(m, t, dead)[t] <==> c in m[t] && c !in dead
    ensures forall u :: u in m && u != t ==> PrunedAt(m, t, dead)[u] == m[u]
  {
  }

  /** A publish shrinks the topic's set by exactly the number of its members
      that were found closed. */
  lemma {:induction false} PublishShrinksByClosed<T>(m: map<Topic, set<T>>, t: Topic, dead: set<T>)
    requires t in m
    ensures |PrunedAt(m, t, dead)[t]| == |m[t]| - |m[t] * dead|
  {
    var kept := PrunedAt(m, t, dead)[t];
    assert m[t] == kept + m[t] * dead;
    assert kept !! m[t] * dead;
  }

  // ---------------------------------------------------------------------
  // Properties relating several operations
  // ---------------------------------------------------------------------

  /** Deleting a member just added restores the set. */
  lemma {:induction false} RemoveAfterAdd<T>(s: set<T>, c: T)
    requires c !in s
    ensures Removed(s + {c}, c) == Ok(s)
  {
    assert (s + {c}) - {c} == s;
  }

  /** Adding is idempotent: a second add of the same endpoint changes nothing. */
  lemma {:induction false} SubscribeTwiceSameEndpoint<T>(m: map<Topic, set<T>>, t: Topic, c: T)
    ensures Subscribed(Subscribed(m, t, c), t, c) == Subscribed(m, t, c)
  {
    var once := Subscribed(m, t, c);
    assert once[t] + {c} == once[t];
    assert once[t := once[t] + {c}] == once;
  }

  /** Subscribing a fresh endpoint and then unsubscribing it gives back the
      registry, provided the registry keeps no empty entry. */
  lemma {:induction false} UnsubscribeAfterSubscribe<T>(m: map<Topic, set<T>>, t: Topic, c: T)
    requires NoEmptyEntry(m)
    requires Unregistered(m, c)
    ensures Unsubscribed(Subscribed(m, t, c), t, c) == Ok(m)
  {
    var m' := Subscribed(m, t, c);
    assert m'[t] - {c} == MembersOf(m, t);
    if t in m {
      assert c !in m[t] && |m[t]| > 0;
      RemoveAfterAdd(m[t], c);
      assert m'[t := m[t]] == m;
    } else {
      assert m' - {t} == m;
    }
  }

  /** A fresh endpoint keeps endpoint sets disjoint. */
  lemma {:induction false} SubscribePreservesDisjoint<T>(m: map<Topic, set<T>>, t: Topic, c: T)
    requires Disjoint(m)
    requires Unregistered(m, c)
    ensures Disjoint(Subscribed(m, t, c))
  {
    var r := Subscribed(m, t, c);
    forall u, v | u in r && v in r && u != v
      ensures r[u] !! r[v]
    {
      if u == t {
        assert r[u] == MembersOf(m, t) + {c};
        assert c !in r[v];
      } else if v == t {
        assert r[v] == MembersOf(m, t) + {c};
        assert c !in r[u];
      }
    }
  }

  /** A successful unsubscribe keeps endpoint sets disjoint. */
  lemma {:induction false} UnsubscribePreservesDisjoint<T>(m: map<Topic, set<T>>, t: Topic, c: T)
    requires Disjoint(m)
    ensures Unsubscribed(m, t, c).Ok? ==> Disjoint(Unsubscribed(m, t, c).value)
  {
    var r := Unsubscribed(m, t, c);
    if r.Ok? {
      var m' := r.value;
      forall u, v | u in m' && v in m' && u != v
        ensures m'[u] !! m'[v]
      {
        assert m'[u] <= m[u] && m'[v] <= m[v];
      }
    }
  }

  /** Subscribe and a successful Unsubscribe never leave an entry without
      endpoints: the last unsubscribe of a topic removes its entry. */
  lemma {:induction false} NoEmptyEntryPreserved<T>(m: map<Topic, set<T>>, t: Topic, c: T)
    requires NoEmptyEntry(m)
    ensures NoEmptyEntry(Subscribed(m, t, c))
    ensures Unsubscribed(m, t, c).Ok? ==> NoEmptyEntry(Unsubscribed(m, t, c).value)
  {
    var r := Unsubscribed(m, t, c);
    if r.Ok? {
      var m' := r.value;
      forall u | u in m' ensures m'[u] != {} {
        if u == t {
          assert |m'[t]| == |m[t]| - 1 > 0;
        }
      }
    }
  }

  /** Pruning keeps endpoint sets disjoint. */
  lemma {:induction false} PrunePreservesDisjoint<T>(m: map<Topic, set<T>>, t: Topic, dead: set<T>)
    requires Disjoint(m)
    ensures Disjoint(PrunedAt(m, t, dead))
  {
    var r := PrunedAt(m, t, dead);
    forall u, v | u in r && v in r && u != v
      ensures r[u] !! r[v]
    {
      assert r[u] <= m[u] && r[v] <= m[v];
    }
  }

  /** A publish that finds every member of a topic closed keeps the topic's
      entry, with an empty set. */
  lemma PruneKeepsEmptiedEntry<T>(m: map<Topic, set<T>>, t: Topic, dead: set<T>)
    requires t in m && m[t] <= dead
    ensures t in PrunedAt(m, t, dead) && PrunedAt(m, t, dead)[t] == {}
  {
  }

  /** Pruning is lazy about entries: a publish that finds every member of a
      topic closed leaves an entry with no endpoints, so the registry no longer
      satisfies "an entry exists iff its set is non-empty". */
  lemma {:induction false} PruneMayLeaveEmptyEntry<T>(t: Topic, c: T)
    ensures NoEmptyEntry(map[t := {c}])
    ensures !NoEmptyEntry(PrunedAt(map[t := {c}], t, {c}))
  {
    var r := PrunedAt(map[t := {c}], t, {c});
    assert r[t] == {};
  }
}
