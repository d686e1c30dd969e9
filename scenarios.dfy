/** Two uses of a freshly built client, following the library's documented
    behaviour: a delay of 0 fires on the very next `loop()`, and a
    subscription beyond the tenth is dropped. */
module Scenarios {
  import opened Effects
  import opened Millis
  import opened Registry
  import opened DelayQueue
  import opened Supervisor
  import opened Client

  /** A callback scheduled with delay 0 is called by the next `loop()`,
      as that tick's last event, and the delayed list is empty again. */
  method DelayZeroFiresAtNextLoop(now: Millis, obs: Observation, callback: DelayedCallback)
  {
    var client := new EspMqttClient(0);
    client.ExecuteDelayed(now, 0, callback);
    assert client.DelayedTasks() == [DelayedTask(now, callback)];
    assert Reached(now, now);
    assert Due([DelayedTask(now, callback)], now) == [DelayedTask(now, callback)];
    assert Pending([DelayedTask(now, callback)], now) == [];
    client.Loop(now, obs);
    assert client.DelayedTasks() == [];
    assert client.trace[|client.trace| - 1] == DelayedCallbackCalled(callback);
  }

  /** With ten subscriptions stored, an eleventh leaves the list as it was. */
  method EleventhSubscriptionDropped(topics: seq<Topic>, extra: Topic)
    requires |topics| == MaxTopicSubscriptionListSize
  {
    var client := new EspMqttClient(0);
    var i := 0;
    while i < |topics|
      invariant 0 <= i <= |topics|
      invariant client.Valid() && client.topicSubscriptionListSize == i
      invariant fresh(client.topicSubscriptionList) && fresh(client.delayedExecutionList)
    {
      client.Subscribe(topics[i], i);
      i := i + 1;
    }
    var stored := client.Subscriptions();
    client.Subscribe(extra, i);
    assert client.Subscriptions() == stored;
  }
}
