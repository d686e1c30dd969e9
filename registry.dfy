/** The subscription registry: the records of `mTopicSubscriptionList`
    (a topic and the callback that receives its messages), and the pure
    meaning of the operations the client performs on them: removal of the
    first record of a topic, exact-topic dispatch of an inbound message, and
    the replay of every subscription after a fresh broker connection.
    Subscribing twice to one topic stores two records; nothing here merges
    or rejects them. */
module Registry {
  import opened Effects

  const MaxTopicSubscriptionListSize: nat := 10

  datatype TopicSubscription = TopicSubscription(topic: Topic, callback: MessageCallback)

  /** Index of the first record whose topic equals `topic` exactly. */
  function FirstIndex(subs: seq<TopicSubscription>, topic: Topic): (r: Option<nat>)
    ensures r.Some? ==> r.value < |subs| && subs[r.value].topic == topic
    ensures r.Some? ==> forall j :: 0 <= j < r.value ==> subs[j].topic != topic
    ensures r.None? ==> forall j :: 0 <= j < |subs| ==> subs[j].topic != topic
  {
    if subs == [] then None
    else if subs[0].topic == topic then Some(0)
    else match FirstIndex(subs[1..], topic)
      case None => None
      case Some(i) => Some(i + 1)
  }

  /** The registry after unsubscribing `topic`: its first record is dropped. */
  function RemoveFirst(subs: seq<TopicSubscription>, topic: Topic): seq<TopicSubscription>
  {
    if subs == [] then []
    else if subs[0].topic == topic then subs[1..]
    else [subs[0]] + RemoveFirst(subs[1..], topic)
  }

  /** Unsubscribing splices out exactly the first record of the topic and
      keeps every other record in its original relative order; a topic that
      is not registered leaves the registry as it was. */
  lemma {:induction false} RemoveFirstSplices(subs: seq<TopicSubscription>, topic: Topic)
    ensures FirstIndex(subs, topic).None? ==> RemoveFirst(subs, topic) == subs
    ensures FirstIndex(subs, topic).Some? ==>
      var i := FirstIndex(subs, topic).value;
      RemoveFirst(subs, topic) == subs[..i] + subs[i + 1..]
  {
    if subs != [] && subs[0].topic != topic {
      RemoveFirstSplices(subs[1..], topic);
      match FirstIndex(subs[1..], topic)
      case None =>
      case Some(i) =>
        assert [subs[0]] + (subs[1..][..i] + subs[1..][i + 1..]) == subs[..i + 1] + subs[i + 2..];
    }
  }

  /** The callbacks invoked for an inbound message on `topic`: every record
      whose topic matches exactly, in stored order. */
  function Deliveries(subs: seq<TopicSubscription>, topic: Topic, payload: Payload): seq<Event>
  {
    if subs == [] then []
    else
      (if subs[0].topic == topic then [MessageDelivered(subs[0].callback, payload)] else [])
      + Deliveries(subs[1..], topic, payload)
  }

  lemma {:induction false} DeliveriesAppend(a: seq<TopicSubscription>, b: seq<TopicSubscription>, topic: Topic, payload: Payload)
    ensures Deliveries(a + b, topic, payload) == Deliveries(a, topic, payload) + Deliveries(b, topic, payload)
  {
    if a != [] {
      assert (a + b)[1..] == a[1..] + b;
      DeliveriesAppend(a[1..], b, topic, payload);
    } else {
      assert a + b == b;
    }
  }

  /** Dispatch only ever hands the payload to a callback registered for
      exactly the message's topic. */
  lemma {:induction false} DeliveriesOnlyMatching(subs: seq<TopicSubscription>, topic: Topic, payload: Payload)
    ensures forall e :: e in Deliveries(subs, topic, payload) ==>
      exists s :: s in subs && s.topic == topic && e == MessageDelivered(s.callback, payload)
  {
    if subs != [] {
      DeliveriesOnlyMatching(subs[1..], topic, payload);
      forall e | e in Deliveries(subs, topic, payload)
        ensures exists s :: s in subs && s.topic == topic && e == MessageDelivered(s.callback, payload)
      {
        if e !in Deliveries(subs[1..], topic, payload) {
          assert subs[0] in subs;
        } else {
          var s :| s in subs[1..] && s.topic == topic && e == MessageDelivered(s.callback, payload);
          assert s in subs;
        }
      }
    }
  }

  /** A message whose topic no record matches invokes nothing; one that some
      record matches invokes at least one callback. */
  lemma {:induction false} DeliveriesEmptyIffUnmatched(subs: seq<TopicSubscription>, topic: Topic, payload: Payload)
    ensures Deliveries(subs, topic, payload) == [] <==> FirstIndex(subs, topic).None?
  {
    if subs != [] {
      DeliveriesEmptyIffUnmatched(subs[1..], topic, payload);
    }
  }

  /** When exactly one record carries the topic, the message reaches exactly
      that record's callback, once. */
  lemma {:induction false} DeliveriesToSoleSubscriber(subs: seq<TopicSubscription>, topic: Topic, payload: Payload, i: nat)
    requires i < |subs| && subs[i].topic == topic
    requires forall j :: 0 <= j < |subs| && j != i ==> subs[j].topic != topic
    ensures Deliveries(subs, topic, payload) == [MessageDelivered(subs[i].callback, payload)]
  {
    if i == 0 {
      DeliveriesEmptyIffUnmatched(subs[1..], topic, payload);
    } else {
      DeliveriesToSoleSubscriber(subs[1..], topic, payload, i - 1);
    }
  }

  /** The callbacks invoked while the MQTT library hands over the inbound
      messages of one poll, message by message. */
  function DispatchAll(subs: seq<TopicSubscription>, inbound: seq<Message>): seq<Event>
  {
    if inbound == [] then []
    else Deliveries(subs, inbound[0].topic, inbound[0].payload) + DispatchAll(subs, inbound[1..])
  }

  lemma {:induction false} DispatchAllAppend(subs: seq<TopicSubscription>, a: seq<Message>, b: seq<Message>)
    ensures DispatchAll(subs, a + b) == DispatchAll(subs, a) + DispatchAll(subs, b)
  {
    if a != [] {
      assert (a + b)[1..] == a[1..] + b;
      DispatchAllAppend(subs, a[1..], b);
    } else {
      assert a + b == b;
    }
  }

  /** The protocol-level subscribes issued after a fresh broker connection:
      one per stored record, in stored order. */
  function ReplayEvents(subs: seq<TopicSubscription>): seq<Event>
  {
    seq(|subs|, k requires 0 <= k < |subs| => SubscribeIssued(subs[k].topic))
  }

  /** Replaying two stretches of the registry one after the other is
      replaying them together. */
  lemma ReplayEventsAppend(a: seq<TopicSubscription>, b: seq<TopicSubscription>)
    ensures ReplayEvents(a + b) == ReplayEvents(a) + ReplayEvents(b)
  {
  }

  /** Unsubscribing a topic and then replaying re-subscribes exactly the
      remaining records, in their original relative order. */
  lemma ReplayAfterUnsubscribe(subs: seq<TopicSubscription>, topic: Topic, i: nat)
    requires FirstIndex(subs, topic) == Some(i)
    ensures ReplayEvents(RemoveFirst(subs, topic)) == ReplayEvents(subs)[..i] + ReplayEvents(subs)[i + 1..]
  {
    RemoveFirstSplices(subs, topic);
  }
}
