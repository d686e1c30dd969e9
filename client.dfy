/** The `EspMQTTClient` class: the connection flags and timestamps, the
    fixed subscription array and the fixed delayed-execution array, updated
    in place by `loop()`, `subscribe`, `unsubscribe` and `executeDelayed`.
    What the client does towards the radio, the MQTT library and the
    application's callbacks is appended to `trace`. */
module Client {
  import opened Effects
  import opened Millis
  import opened Registry
  import opened DelayQueue
  import opened Supervisor
  import Compaction

  /** The events of the action a tick of the supervisor takes: a Wi-Fi
      attempt; an MQTT attempt, which on success re-subscribes every stored
      topic in stored order and then calls the connection-established
      callback; or a poll, which dispatches each inbound message. */
  function ActionEvents(action: Action, subs: seq<TopicSubscription>,
                        established: ConnectionCallback, inbound: seq<Message>): seq<Event>
  {
    match action
    case Idle => []
    case WifiAttempt(_) => [WifiConnectIssued]
    case MqttAttempt(ok) =>
      [MqttConnectIssued] + if ok then ReplayEvents(subs) + [ConnectionEstablishedCalled(established)] else []
    case Poll => DispatchAll(subs, inbound)
  }

  /** After a successful MQTT attempt the connection-established callback is
      called exactly once, as the last event, after a subscribe for every
      stored record in stored order; a failed attempt calls it not at all. */
  lemma EstablishedCallbackOnceAfterReplay(subs: seq<TopicSubscription>, established: ConnectionCallback, inbound: seq<Message>)
    ensures var events := ActionEvents(MqttAttempt(true), subs, established, inbound);
      && |events| == |subs| + 2
      && events[0] == MqttConnectIssued
      && (forall k :: 0 <= k < |subs| ==> events[k + 1] == SubscribeIssued(subs[k].topic))
      && events[|subs| + 1] == ConnectionEstablishedCalled(established)
      && (forall k :: 0 <= k < |subs| + 1 ==> !events[k].ConnectionEstablishedCalled?)
    ensures forall e :: e in ActionEvents(MqttAttempt(false), subs, established, inbound) ==> !e.ConnectionEstablishedCalled?
  {
    var replay := ReplayEvents(subs);
    var events := ActionEvents(MqttAttempt(true), subs, established, inbound);
    assert |replay| == |subs|;
    assert events == [MqttConnectIssued] + replay + [ConnectionEstablishedCalled(established)];
    forall k | 0 <= k < |subs|
      ensures events[k + 1] == replay[k] == SubscribeIssued(subs[k].topic)
    {
    }
    forall k | 0 <= k < |subs| + 1
      ensures !events[k].ConnectionEstablishedCalled?
    {
      if k > 0 {
        assert events[k] == SubscribeIssued(subs[k - 1].topic);
      }
    }
  }

  class EspMqttClient {
    var wifiConnected: bool
    var lastWifiConnectionAttemptMillis: Millis
    var lastWifiConnectionSuccessMillis: Millis
    var mqttConnected: bool
    var lastMqttConnectionMillis: Millis

    const connectionEstablishedCallback: ConnectionCallback

    const topicSubscriptionList: array<TopicSubscription>
    var topicSubscriptionListSize: nat

    const delayedExecutionList: array<DelayedTask>
    var delayedExecutionListSize: nat

    /** What the client has done so far, towards its collaborators and the
        application's callbacks. */
    var trace: seq<Event>

    ghost predicate Valid()
      reads this
    {
      && topicSubscriptionList.Length == MaxTopicSubscriptionListSize
      && topicSubscriptionListSize <= MaxTopicSubscriptionListSize
      && delayedExecutionList.Length == MaxDelayedExecutionListSize
      && delayedExecutionListSize <= MaxDelayedExecutionListSize
      && ConnectionState().Layered()
    }

    ghost function ConnectionState(): Connection
      reads this
    {
      Connection(wifiConnected, lastWifiConnectionAttemptMillis, lastWifiConnectionSuccessMillis,
                 mqttConnected, lastMqttConnectionMillis)
    }

    /** The occupied prefix of the subscription array. */
    ghost function Subscriptions(): seq<TopicSubscription>
      reads this, topicSubscriptionList
      requires Valid()
    {
      topicSubscriptionList[..topicSubscriptionListSize]
    }

    /** The occupied prefix of the delayed-execution array. */
    ghost function DelayedTasks(): seq<DelayedTask>
      reads this, delayedExecutionList
      requires Valid()
    {
      delayedExecutionList[..delayedExecutionListSize]
    }

    constructor (connectionEstablishedCallback: ConnectionCallback)
      ensures Valid()
      ensures ConnectionState() == Connection(false, 0, 0, false, 0)
      ensures Subscriptions() == [] && DelayedTasks() == [] && trace == []
      ensures this.connectionEstablishedCallback == connectionEstablishedCallback
      ensures fresh(topicSubscriptionList) && fresh(delayedExecutionList)
    {
      wifiConnected, mqttConnected := false, false;
      lastWifiConnectionAttemptMillis, lastWifiConnectionSuccessMillis, lastMqttConnectionMillis := 0, 0, 0;
      this.connectionEstablishedCallback := connectionEstablishedCallback;
      topicSubscriptionList := new TopicSubscription[MaxTopicSubscriptionListSize];
      topicSubscriptionListSize := 0;
      delayedExecutionList := new DelayedTask[MaxDelayedExecutionListSize];
      delayedExecutionListSize := 0;
      trace := [];
    }

    /** `isConnected()`: both layers are up; since MQTT is only ever up over
        Wi-Fi, that is the same as MQTT being up. */
    function IsConnected(): (r: bool)
      reads this
      ensures r <==> ConnectionState().IsConnected()
      ensures Valid() ==> (r <==> mqttConnected)
    {
      wifiConnected && mqttConnected
    }

    /** `subscribe`: appends a record when there is room (and subscribes at
        the broker if connected); on a full list nothing changes. */
    method Subscribe(topic: Topic, callback: MessageCallback)
      requires Valid()
      modifies this`topicSubscriptionListSize, this`trace, topicSubscriptionList
      ensures Valid()
      ensures old(topicSubscriptionListSize) < MaxTopicSubscriptionListSize ==>
        && Subscriptions() == old(Subscriptions()) + [TopicSubscription(topic, callback)]
        && trace == old(trace) + if mqttConnected then [SubscribeIssued(topic)] else []
      ensures old(topicSubscriptionListSize) == MaxTopicSubscriptionListSize ==>
        && topicSubscriptionList[..] == old(topicSubscriptionList[..])
        && topicSubscriptionListSize == old(topicSubscriptionListSize)
        && trace == old(trace)
    {
      if topicSubscriptionListSize < MaxTopicSubscriptionListSize {
        topicSubscriptionList[topicSubscriptionListSize] := TopicSubscription(topic, callback);
        topicSubscriptionListSize := topicSubscriptionListSize + 1;
        if mqttConnected {
          trace := trace + [SubscribeIssued(topic)];
        }
      }
    }

    /** The position of the first record of `topic`, if any. */
    method FindTopic(topic: Topic) returns (index: Option<nat>)
      requires Valid()
      ensures index == FirstIndex(Subscriptions(), topic)
    {
      var i := 0;
      while i < topicSubscriptionListSize
        invariant i <= topicSubscriptionListSize
        invariant forall j :: 0 <= j < i ==> Subscriptions()[j].topic != topic
      {
        if topicSubscriptionList[i].topic == topic {
          assert Subscriptions()[i].topic == topic;
          return Some(i);
        }
        i := i + 1;
      }
      return None;
    }

    /** `unsubscribe`: removes the first record of `topic`, compacting the
        list, and unsubscribes at the broker; an absent topic changes
        nothing. */
    method Unsubscribe(topic: Topic)
      requires Valid()
      modifies this`topicSubscriptionListSize, this`trace, topicSubscriptionList
      ensures Valid()
      ensures Subscriptions() == RemoveFirst(old(Subscriptions()), topic)
      ensures trace == old(trace) +
        if FirstIndex(old(Subscriptions()), topic).Some? then [UnsubscribeIssued(topic)] else []
    {
      RemoveFirstSplices(Subscriptions(), topic);
      var index := FindTopic(topic);
      if index.Some? {
        trace := trace + [UnsubscribeIssued(topic)];
        Compaction.ShiftDown(topicSubscriptionList, index.value, topicSubscriptionListSize);
        topicSubscriptionListSize := topicSubscriptionListSize - 1;
      }
    }

    /** `executeDelayed`: when there is room, appends a record due `delay`
        milliseconds from `now` on the wrapping clock; on a full list
        nothing changes. Nothing fires here, not even for a delay of 0. */
    method ExecuteDelayed(now: Millis, delay: Long, callback: DelayedCallback)
      requires Valid()
      modifies this`delayedExecutionListSize, delayedExecutionList
      ensures Valid()
      ensures DelayedTasks() ==
        if old(delayedExecutionListSize) < MaxDelayedExecutionListSize
        then old(DelayedTasks()) + [DelayedTask(Add(now, delay), callback)]
        else old(DelayedTasks())
      ensures old(delayedExecutionListSize) == MaxDelayedExecutionListSize ==>
        delayedExecutionList[..] == old(delayedExecutionList[..])
      ensures trace == old(trace)
    {
      if delayedExecutionListSize < MaxDelayedExecutionListSize {
        delayedExecutionList[delayedExecutionListSize] := DelayedTask(Add(now, delay), callback);
        delayedExecutionListSize := delayedExecutionListSize + 1;
      }
    }

    /** `connectToWifi`: one Wi-Fi attempt at `now`. */
    method ConnectToWifi(now: Millis, succeeds: bool)
      requires Valid() && !wifiConnected
      modifies this`wifiConnected, this`lastWifiConnectionAttemptMillis,
               this`lastWifiConnectionSuccessMillis, this`trace
      ensures Valid()
      ensures wifiConnected == succeeds && lastWifiConnectionAttemptMillis == now
      ensures lastWifiConnectionSuccessMillis == if succeeds then now else old(lastWifiConnectionSuccessMillis)
      ensures trace == old(trace) + [WifiConnectIssued]
    {
      trace := trace + [WifiConnectIssued];
      lastWifiConnectionAttemptMillis := now;
      if succeeds {
        wifiConnected := true;
        lastWifiConnectionSuccessMillis := now;
      }
    }

    /** `connectToMqttBroker`: one MQTT attempt at `now`; on success every
        stored topic is subscribed again and the connection-established
        callback is called once. */
    method ConnectToMqttBroker(now: Millis, succeeds: bool)
      requires Valid() && wifiConnected && !mqttConnected
      modifies this`mqttConnected, this`lastMqttConnectionMillis, this`trace
      ensures Valid()
      ensures mqttConnected == succeeds && lastMqttConnectionMillis == now
      ensures trace == old(trace) + ActionEvents(MqttAttempt(succeeds), Subscriptions(), connectionEstablishedCallback, [])
    {
      ghost var subs, before := Subscriptions(), trace;
      trace := trace + [MqttConnectIssued];
      lastMqttConnectionMillis := now;
      if succeeds {
        mqttConnected := true;
        ResubscribeAll();
        assert Subscriptions() == subs;
        trace := trace + [ConnectionEstablishedCalled(connectionEstablishedCallback)];
        assert trace == before + ([MqttConnectIssued] + (ReplayEvents(subs) + [ConnectionEstablishedCalled(connectionEstablishedCallback)]));
      }
    }

    /** Subscribes at the broker to every stored topic, in stored order. */
    method ResubscribeAll()
      requires Valid()
      modifies this`trace
      ensures trace == old(trace) + ReplayEvents(Subscriptions())
    {
      var i := 0;
      while i < topicSubscriptionListSize
        invariant i <= topicSubscriptionListSize
        invariant trace == old(trace) + ReplayEvents(Subscriptions()[..i])
      {
        assert Subscriptions()[..i + 1] == Subscriptions()[..i] + [Subscriptions()[i]];
        ReplayEventsAppend(Subscriptions()[..i], [Subscriptions()[i]]);
        trace := trace + [SubscribeIssued(topicSubscriptionList[i].topic)];
        i := i + 1;
      }
      assert Subscriptions()[..i] == Subscriptions();
    }

    /** `mqttMessageReceivedCallback`: hands the payload to the callback of
        every record whose topic equals the message's topic. */
    method MqttMessageReceivedCallback(topic: Topic, payload: Payload)
      requires Valid()
      modifies this`trace
      ensures trace == old(trace) + Deliveries(Subscriptions(), topic, payload)
    {
      ghost var subs := Subscriptions();
      var i := 0;
      while i < topicSubscriptionListSize
        invariant i <= topicSubscriptionListSize
        invariant trace == old(trace) + Deliveries(subs[..i], topic, payload)
      {
        assert subs[..i + 1] == subs[..i] + [subs[i]];
        DeliveriesAppend(subs[..i], [subs[i]], topic, payload);
        if topicSubscriptionList[i].topic == topic {
          trace := trace + [MessageDelivered(topicSubscriptionList[i].callback, payload)];
        }
        i := i + 1;
      }
      assert subs[..i] == subs;
    }

    /** The broker poll of a fully connected tick: the MQTT library hands
        over the inbound messages one by one. */
    method PollBroker(inbound: seq<Message>)
      requires Valid()
      modifies this`trace
      ensures trace == old(trace) + DispatchAll(Subscriptions(), inbound)
    {
      var k := 0;
      while k < |inbound|
        invariant k <= |inbound|
        invariant trace == old(trace) + DispatchAll(Subscriptions(), inbound[..k])
      {
        assert inbound[..k + 1] == inbound[..k] + [inbound[k]];
        DispatchAllAppend(Subscriptions(), inbound[..k], [inbound[k]]);
        MqttMessageReceivedCallback(inbound[k].topic, inbound[k].payload);
        k := k + 1;
      }
      assert inbound[..k] == inbound;
    }

    /** Removes the delayed record at `i`, compacting the list. */
    method RemoveDelayedAt(i: nat)
      requires i < delayedExecutionListSize <= delayedExecutionList.Length
      modifies this`delayedExecutionListSize, delayedExecutionList
      ensures delayedExecutionListSize == old(delayedExecutionListSize) - 1
      ensures delayedExecutionList[..delayedExecutionListSize] ==
        old(delayedExecutionList[..delayedExecutionListSize])[..i] +
        old(delayedExecutionList[..delayedExecutionListSize])[i + 1..]
    {
      Compaction.ShiftDown(delayedExecutionList, i, delayedExecutionListSize);
      delayedExecutionListSize := delayedExecutionListSize - 1;
    }

    /** Fires the delayed record at `i` and then removes it. */
    method FireDelayedAt(i: nat)
      requires i < delayedExecutionListSize <= delayedExecutionList.Length
      modifies this`delayedExecutionListSize, this`trace, delayedExecutionList
      ensures trace == old(trace) + [DelayedCallbackCalled(old(delayedExecutionList[i]).callback)]
      ensures delayedExecutionListSize == old(delayedExecutionListSize) - 1
      ensures delayedExecutionList[..delayedExecutionListSize] ==
        old(delayedExecutionList[..delayedExecutionListSize])[..i] +
        old(delayedExecutionList[..delayedExecutionListSize])[i + 1..]
    {
      trace := trace + [DelayedCallbackCalled(delayedExecutionList[i].callback)];
      RemoveDelayedAt(i);
    }

    /** The delayed-execution pass of `loop()`: one pass over the records,
        firing each due record and removing it with compaction. */
    method HandleDelayedExecutions(now: Millis)
      requires Valid()
      modifies this`delayedExecutionListSize, this`trace, delayedExecutionList
      ensures Valid()
      ensures DelayedTasks() == Pending(old(DelayedTasks()), now)
      ensures trace == old(trace) + FireEvents(Due(old(DelayedTasks()), now))
    {
      ghost var tasks := DelayedTasks();
      ghost var k := 0;
      var i := 0;
      while i < delayedExecutionListSize
        invariant delayedExecutionListSize <= MaxDelayedExecutionListSize
        invariant i <= delayedExecutionListSize
        invariant k <= |tasks|
        invariant delayedExecutionList[..delayedExecutionListSize] == Pending(tasks[..k], now) + tasks[k..]
        invariant |Pending(tasks[..k], now)| == i
        invariant trace == old(trace) + FireEvents(Due(tasks[..k], now))
        decreases delayedExecutionListSize - i
      {
        ghost var queue := delayedExecutionList[..delayedExecutionListSize];
        PassVisits(tasks, k, now);
        var task := delayedExecutionList[i];
        assert task == queue[i] == tasks[k];
        if Reached(now, task.targetMillis) {
          PassFires(tasks, k, now);
          FireDelayedAt(i);
        } else {
          PassKeeps(tasks, k, now);
          i := i + 1;
        }
        k := k + 1;
      }
      assert tasks[..k] == tasks;
    }

    /** `loop()`: detects lost connections, takes at most one supervisor
        action (a Wi-Fi attempt, an MQTT attempt or a broker poll), then runs
        the delayed-execution pass, all at the single clock sample `now`. */
    method Loop(now: Millis, obs: Observation)
      requires Valid()
      modifies this`wifiConnected, this`lastWifiConnectionAttemptMillis,
               this`lastWifiConnectionSuccessMillis, this`mqttConnected,
               this`lastMqttConnectionMillis, this`trace,
               this`delayedExecutionListSize, delayedExecutionList
      ensures Valid()
      ensures ConnectionState() == Step(old(ConnectionState()), now, obs).conn
      ensures Subscriptions() == old(Subscriptions())
      ensures DelayedTasks() == Pending(old(DelayedTasks()), now)
      ensures trace == old(trace)
        + ActionEvents(Step(old(ConnectionState()), now, obs).action, old(Subscriptions()),
                       connectionEstablishedCallback, obs.inbound)
        + FireEvents(Due(old(DelayedTasks()), now))
    {
      ghost var subs, tasks, before := Subscriptions(), DelayedTasks(), trace;
      ghost var outcome := Step(ConnectionState(), now, obs);
      if wifiConnected && !obs.wifiLinkUp {
        wifiConnected, mqttConnected := false, false;
      } else if mqttConnected && !obs.mqttSessionUp {
        mqttConnected := false;
      }
      assert ConnectionState() == Sense(old(ConnectionState()), obs);

      if !wifiConnected {
        if RetryDue(now, lastWifiConnectionAttemptMillis) {
          ConnectToWifi(now, obs.wifiConnectSucceeds);
        }
      } else if !mqttConnected {
        if RetryDue(now, lastMqttConnectionMillis) {
          ConnectToMqttBroker(now, obs.mqttConnectSucceeds);
        }
      } else {
        PollBroker(obs.inbound);
      }
      assert ConnectionState() == outcome.conn;
      assert Subscriptions() == subs && DelayedTasks() == tasks;
      assert trace == before + ActionEvents(outcome.action, subs, connectionEstablishedCallback, obs.inbound);

      HandleDelayedExecutions(now);
    }
  }
}
