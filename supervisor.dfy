/** The connection supervisor of `loop()`: the two connection flags and the
    three timestamps of the client, and what one tick does with them. The
    radio and the MQTT library are outside the model; what they report
    during a tick is an `Observation`. A tick takes at most one action:
    a Wi-Fi attempt while Wi-Fi is down, else an MQTT attempt while MQTT is
    down, else a poll for inbound messages; each attempt is gated by the
    retry delay measured on the wrapping clock. */
module Supervisor {
  import opened Effects
  import opened Millis

  /** `MQTT_CONNECTION_RETRY_DELAY`, in milliseconds. */
  const MqttConnectionRetryDelay: Millis := 10 * 1000

  /** The wrap-safe retry gate: at least the retry delay has passed since
      the last attempt. */
  predicate RetryDue(now: Millis, lastAttempt: Millis)
  {
    Elapsed(now, lastAttempt) >= MqttConnectionRetryDelay
  }

  /** The gate opens exactly when the retry delay has really passed since
      the last attempt, also when the clock wrapped in between. */
  lemma RetryDueIffWaited(lastAttempt: Millis, p: int)
    requires 0 <= p < Modulus
    ensures RetryDue(Add(lastAttempt, p), lastAttempt) <==> p >= MqttConnectionRetryDelay
  {
    ElapsedAfterAdd(lastAttempt, p);
  }

  datatype Connection = Connection(
    wifiConnected: bool,
    lastWifiConnectionAttemptMillis: Millis,
    lastWifiConnectionSuccessMillis: Millis,
    mqttConnected: bool,
    lastMqttConnectionMillis: Millis)
  {
    /** MQTT runs over Wi-Fi: it cannot be up while Wi-Fi is down. */
    predicate Layered()
    {
      mqttConnected ==> wifiConnected
    }

    /** `isConnected()`. */
    predicate IsConnected()
    {
      wifiConnected && mqttConnected
    }
  }

  /** What the collaborators report during one tick: whether the Wi-Fi link
      and the broker session are still up, how a connection attempt would
      end, and the messages a poll would hand over. */
  datatype Observation = Observation(
    wifiLinkUp: bool,
    mqttSessionUp: bool,
    wifiConnectSucceeds: bool,
    mqttConnectSucceeds: bool,
    inbound: seq<Message>)

  /** The one thing a tick does besides detecting lost connections. */
  datatype Action = Idle | WifiAttempt(succeeded: bool) | MqttAttempt(succeeded: bool) | Poll

  datatype Outcome = Outcome(conn: Connection, action: Action)

  /** Loss detection at the start of a tick. Losing Wi-Fi takes MQTT down
      with it. */
  function Sense(c: Connection, obs: Observation): (r: Connection)
    ensures r.lastWifiConnectionAttemptMillis == c.lastWifiConnectionAttemptMillis
    ensures r.lastWifiConnectionSuccessMillis == c.lastWifiConnectionSuccessMillis
    ensures r.lastMqttConnectionMillis == c.lastMqttConnectionMillis
  {
    if c.wifiConnected && !obs.wifiLinkUp then c.(wifiConnected := false, mqttConnected := false)
    else if c.mqttConnected && !obs.mqttSessionUp then c.(mqttConnected := false)
    else c
  }

  /** One tick of the supervisor at time `now`. */
  function Step(c: Connection, now: Millis, obs: Observation): (r: Outcome)
    requires c.Layered()
    // the layering invariant is kept
    ensures r.conn.Layered()
    // Wi-Fi is attempted exactly when it is down and the retry delay has passed
    ensures r.action.WifiAttempt? <==>
      !Sense(c, obs).wifiConnected && RetryDue(now, c.lastWifiConnectionAttemptMillis)
    // MQTT is attempted exactly when Wi-Fi is up, MQTT is down and the retry delay has passed
    ensures r.action.MqttAttempt? <==>
      Sense(c, obs).wifiConnected && !Sense(c, obs).mqttConnected && RetryDue(now, c.lastMqttConnectionMillis)
    // the broker is polled exactly when both layers are still up
    ensures r.action == Poll <==> Sense(c, obs).IsConnected()
    // an attempt records its time; otherwise the timestamp is kept
    ensures r.conn.lastWifiConnectionAttemptMillis ==
      if r.action.WifiAttempt? then now else c.lastWifiConnectionAttemptMillis
    ensures r.conn.lastMqttConnectionMillis ==
      if r.action.MqttAttempt? then now else c.lastMqttConnectionMillis
    ensures r.conn.lastWifiConnectionSuccessMillis ==
      if r.action == WifiAttempt(true) then now else c.lastWifiConnectionSuccessMillis
    // attempts report the collaborator's answer
    ensures r.action.WifiAttempt? ==> r.action.succeeded == obs.wifiConnectSucceeds
    ensures r.action.MqttAttempt? ==> r.action.succeeded == obs.mqttConnectSucceeds
    // a layer comes up only through a successful attempt of its own
    ensures r.conn.wifiConnected <==> Sense(c, obs).wifiConnected || r.action == WifiAttempt(true)
    ensures r.conn.mqttConnected <==> Sense(c, obs).mqttConnected || r.action == MqttAttempt(true)
    // a lost Wi-Fi link takes MQTT down with it for the rest of the tick
    ensures c.wifiConnected && !obs.wifiLinkUp ==> !r.conn.mqttConnected
  {
    var s := Sense(c, obs);
    if !s.wifiConnected then
      if RetryDue(now, s.lastWifiConnectionAttemptMillis) then
        var ok := obs.wifiConnectSucceeds;
        Outcome(
          s.(wifiConnected := ok,
             lastWifiConnectionAttemptMillis := now,
             lastWifiConnectionSuccessMillis := if ok then now else s.lastWifiConnectionSuccessMillis),
          WifiAttempt(ok))
      else Outcome(s, Idle)
    else if !s.mqttConnected then
      if RetryDue(now, s.lastMqttConnectionMillis) then
        var ok := obs.mqttConnectSucceeds;
        Outcome(s.(mqttConnected := ok, lastMqttConnectionMillis := now), MqttAttempt(ok))
      else Outcome(s, Idle)
    else Outcome(s, Poll)
  }

  /** The host calling `loop()` once per entry of `ticks`. */
  function Run(c: Connection, ticks: seq<(Millis, Observation)>): (r: Connection)
    requires c.Layered()
    ensures r.Layered()
    decreases |ticks|
  {
    if ticks == [] then c
    else Run(Step(c, ticks[0].0, ticks[0].1).conn, ticks[1..])
  }

  /** A tick in which the client is fully connected at its start and ends
      fully connected is exactly one whose collaborators report no loss;
      otherwise only a successful MQTT attempt leaves it fully connected. */
  lemma StepConnected(c: Connection, now: Millis, obs: Observation)
    requires c.Layered()
    ensures Step(c, now, obs).conn.IsConnected() <==>
      Step(c, now, obs).action == MqttAttempt(true) || (c.IsConnected() && Sense(c, obs) == c)
  {
  }

  /** The state reached after the first `k` ticks. */
  function StateAt(c: Connection, ticks: seq<(Millis, Observation)>, k: nat): (r: Connection)
    requires c.Layered() && k <= |ticks|
    ensures r.Layered()
  {
    Run(c, ticks[..k])
  }

  /** Tick `k` of the run was a successful MQTT attempt. */
  predicate MqttSucceedsAt(c: Connection, ticks: seq<(Millis, Observation)>, k: nat)
    requires c.Layered() && k < |ticks|
  {
    Step(StateAt(c, ticks, k), ticks[k].0, ticks[k].1).action == MqttAttempt(true)
  }

  /** Tick `k` of the run detected no lost connection. */
  predicate NoLossAt(c: Connection, ticks: seq<(Millis, Observation)>, k: nat)
    requires c.Layered() && k < |ticks|
  {
    Sense(StateAt(c, ticks, k), ticks[k].1) == StateAt(c, ticks, k)
  }

  /** No tick from `k` on detected a lost connection. */
  predicate NoLossFrom(c: Connection, ticks: seq<(Millis, Observation)>, k: nat)
    requires c.Layered() && k <= |ticks|
  {
    forall j :: k <= j < |ticks| ==> NoLossAt(c, ticks, j)
  }

  /** The run is fully connected at its end exactly when either some tick
      made a successful MQTT attempt and no later tick detected a lost
      connection, or the client was connected from the start and no tick
      detected a lost connection. */
  lemma {:induction false} ConnectedIffMqttSuccessHeld(c: Connection, ticks: seq<(Millis, Observation)>)
    requires c.Layered()
    ensures Run(c, ticks).IsConnected() <==>
      || (exists k :: 0 <= k < |ticks| && MqttSucceedsAt(c, ticks, k) && NoLossFrom(c, ticks, k + 1))
      || (c.IsConnected() && NoLossFrom(c, ticks, 0))
    decreases |ticks|
  {
    if ticks != [] {
      var c1, rest := Step(c, ticks[0].0, ticks[0].1).conn, ticks[1..];
      ConnectedIffMqttSuccessHeld(c1, rest);
      StepConnected(c, ticks[0].0, ticks[0].1);
      RunShift(c, ticks);
      assert StateAt(c, ticks, 0) == c by { assert ticks[..0] == []; }
      assert NoLossFrom(c, ticks, 0) <==> NoLossAt(c, ticks, 0) && NoLossFrom(c, ticks, 1);
      var late := exists k :: 0 <= k < |ticks| && MqttSucceedsAt(c, ticks, k) && NoLossFrom(c, ticks, k + 1);
      var late' := exists k :: 0 <= k < |rest| && MqttSucceedsAt(c1, rest, k) && NoLossFrom(c1, rest, k + 1);
      if late {
        var k :| 0 <= k < |ticks| && MqttSucceedsAt(c, ticks, k) && NoLossFrom(c, ticks, k + 1);
        if k > 0 {
          assert MqttSucceedsAt(c1, rest, k - 1) && NoLossFrom(c1, rest, k);
        }
      }
      if late' {
        var k :| 0 <= k < |rest| && MqttSucceedsAt(c1, rest, k) && NoLossFrom(c1, rest, k + 1);
        assert MqttSucceedsAt(c, ticks, k + 1) && NoLossFrom(c, ticks, k + 2);
      }
      if c1.IsConnected() && NoLossFrom(c1, rest, 0) && MqttSucceedsAt(c, ticks, 0) {
        assert NoLossFrom(c, ticks, 1);
      }
    }
  }

  /** The run after its first tick is the rest of the run from the state
      that tick produced. */
  lemma RunShift(c: Connection, ticks: seq<(Millis, Observation)>)
    requires c.Layered() && ticks != []
    ensures var c1, rest := Step(c, ticks[0].0, ticks[0].1).conn, ticks[1..];
      && (forall k :: 0 <= k < |rest| ==> (MqttSucceedsAt(c, ticks, k + 1) <==> MqttSucceedsAt(c1, rest, k)))
      && (forall k :: 0 <= k <= |rest| ==> (NoLossFrom(c, ticks, k + 1) <==> NoLossFrom(c1, rest, k)))
  {
    var c1, rest := Step(c, ticks[0].0, ticks[0].1).conn, ticks[1..];
    forall k | 0 <= k <= |rest|
      ensures StateAt(c, ticks, k + 1) == StateAt(c1, rest, k)
    {
      assert ticks[..k + 1][1..] == rest[..k];
    }
    forall k | 0 <= k <= |rest|
      ensures NoLossFrom(c, ticks, k + 1) <==> NoLossFrom(c1, rest, k)
    {
      forall j | k <= j < |rest|
        ensures NoLossAt(c, ticks, j + 1) == NoLossAt(c1, rest, j)
      {
        assert StateAt(c, ticks, j + 1) == StateAt(c1, rest, j);
      }
      if NoLossFrom(c1, rest, k) {
        forall j | k + 1 <= j < |ticks|
          ensures NoLossAt(c, ticks, j)
        {
          assert NoLossAt(c1, rest, j - 1);
        }
      }
    }
  }
}
