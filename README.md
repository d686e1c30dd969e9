# EspMQTTClient — a verified model of the connection loop, the subscription list and the delayed-execution list

`EspMQTTClient` keeps an ESP8266 connected to a Wi-Fi network and to an MQTT
broker without ever blocking the sketch's `loop()`. This project models the
state the class declares in `src/EspMQTTClient.h` and the operations that
update it:

- the **connection supervisor**: the flags `mWifiConnected`, `mMqttConnected`
  and the timestamps of the last Wi-Fi attempt, the last Wi-Fi success and
  the last MQTT attempt. Each `loop()` first notices lost connections (losing
  Wi-Fi takes MQTT down with it), then does at most one thing: a Wi-Fi attempt
  while Wi-Fi is down, else an MQTT attempt while MQTT is down, else a broker
  poll. Both attempts wait for `MQTT_CONNECTION_RETRY_DELAY` (10 000 ms) since
  the previous one, measured on the wrapping 32-bit millisecond clock. A
  successful MQTT attempt subscribes again to every stored topic, in stored
  order, and then calls the connection-established callback once;
- the **subscription list**: a fixed array of 10 `(topic, callback)` records
  and its count. `subscribe` appends when there is room (and subscribes at the
  broker when connected); `unsubscribe` removes the first record of the topic,
  shifting the later ones down; an inbound message goes to every record whose
  topic equals the message's topic exactly. Subscribing twice to one topic
  stores two records; the model neither merges nor rejects them, and a message
  on that topic then reaches both callbacks in stored order;
- the **delayed-execution list**: a fixed array of 10 `(targetMillis,
  callback)` records and its count. `executeDelayed(delay, cb)` appends a
  record due at `now + delay` (modulo 2^32); each `loop()` makes one pass that
  fires every record whose deadline is reached — the wrapped difference
  `now - targetMillis` read as a signed 32-bit value is not negative — in
  insertion order, and removes it with compaction.

The class is `Client.EspMqttClient`: its fields are the header's fields, the
two lists are Dafny arrays of length 10 with their counts, and its methods
update them in place. Each method is proved against pure functions of the
modules `Registry`, `DelayQueue` and `Supervisor` (the list after removal,
the due and the pending records, one supervisor step), and the properties
listed in the table below are proved about those functions.

The radio and the MQTT library are outside the model. What they report during
one tick (is the Wi-Fi link still up, is the broker session still up, does an
attempt succeed, which messages does a poll hand over) is an `Observation`
given to `Loop`; what the client does towards them and towards the
application's callbacks (connect calls, protocol-level subscribe and
unsubscribe calls, callback invocations) is appended to the field `trace`.
Callbacks are opaque identifiers. The clock value `millis()` is the parameter
`now`, sampled once per `loop()`.

Files: `effects.dfy` (topics, callbacks, events), `millis.dfy` (the wrapping
clock), `compaction.dfy` (removal with shifting), `registry.dfy`,
`delay_queue.dfy`, `supervisor.dfy`, `client.dfy` (the class).

`scenarios.dfy` builds a client and drives it: a callback scheduled with delay 0 fires on the next `loop()`, and an eleventh subscription leaves the ten stored ones as they were.

## Model

| member | source | states |
|---|---|---|
| Millis.Elapsed | src/EspMQTTClient.h:22-25 | the `unsigned long` difference `now - since`; adding it back to `since` on the wrapping clock gives `now` |
| Millis.ToSigned | src/EspMQTTClient.h:55 | reading a clock value as a signed `long` keeps its bits (same value modulo 2^32) and is non-negative exactly below 2^31 |
| Millis.ElapsedAfterAdd | src/EspMQTTClient.h:22-25 | after waiting `d` (less than one wrap) from any timestamp `t`, including one just before the counter wraps, exactly `d` has elapsed |
| Millis.ReachedIffDelayPassed | src/EspMQTTClient.h:55 | a deadline `d < 2^31` ms after `t` counts as reached at `t + p` exactly when `p >= d`, for every `p` up to half a wrap past the deadline, across the wrap too |
| Supervisor.RetryDueIffWaited | src/EspMQTTClient.h:11 | the retry gate opens exactly when at least 10 000 ms have really passed since the last attempt, also across the clock wrap |
| Supervisor.Step | src/EspMQTTClient.h:21-25 | one tick keeps "MQTT up implies Wi-Fi up"; Wi-Fi is attempted exactly when it is down and the retry delay has passed; MQTT exactly when Wi-Fi is up, MQTT down and the delay has passed; the broker is polled exactly when both are up; an attempt records its time and a Wi-Fi success its time; a layer is up afterwards only if it stayed up or its own attempt succeeded; losing Wi-Fi takes MQTT down |
| Supervisor.Run | src/EspMQTTClient.h:76 | any number of `loop()` calls keeps MQTT from being connected while Wi-Fi is not |
| Supervisor.StepConnected | src/EspMQTTClient.h:77 | a tick ends fully connected exactly when it made a successful MQTT attempt, or started fully connected and its collaborators reported no lost connection |
| Supervisor.ConnectedIffMqttSuccessHeld | src/EspMQTTClient.h:77 | after any run of ticks the client is fully connected exactly when some tick made a successful MQTT attempt and no later tick detected a lost connection, or it was connected from the start and no tick detected a lost connection |
| Registry.FirstIndex | src/EspMQTTClient.h:47-52 | the index found is that of a record with exactly the topic and no earlier record has it; no index means no record has the topic |
| Registry.RemoveFirstSplices | src/EspMQTTClient.h:82 | unsubscribing removes exactly the first record of the topic and keeps all others in their relative order; an absent topic leaves the list as it was |
| Registry.DeliveriesOnlyMatching | src/EspMQTTClient.h:90 | every callback an inbound message reaches belongs to a record with exactly the message's topic and gets that message's payload |
| Registry.DeliveriesEmptyIffUnmatched | src/EspMQTTClient.h:90 | a message reaches no callback exactly when no record has its topic |
| Registry.DeliveriesToSoleSubscriber | src/EspMQTTClient.h:90 | when exactly one record has the topic, the message reaches that record's callback, exactly once |
| Registry.ReplayAfterUnsubscribe | src/EspMQTTClient.h:82 | after unsubscribing a topic, the re-subscription replays exactly the remaining records in their original relative order |
| DelayQueue.DuePendingPartition | src/EspMQTTClient.h:54-59 | a pass splits the list into fired and kept records with nothing lost or duplicated; the fired ones are exactly the due records, the kept ones exactly the others |
| DelayQueue.AllDueFireInInsertionOrder | src/EspMQTTClient.h:76 | when every deadline is reached, one pass fires all records in insertion order (not deadline order) and empties the list |
| DelayQueue.DueExactlyAfterDelay | src/EspMQTTClient.h:85 | a record scheduled with delay `d` at `t` is not due before `d` ms have passed and is due from then on (up to half a wrap), across the wrap; a delay of 0 is due at the next pass |
| Client.EstablishedCallbackOnceAfterReplay | src/EspMQTTClient.h:36 | after a successful MQTT attempt the connection-established callback is called exactly once, last, after a subscribe for each stored record in order; after a failed attempt it is not called |
| Compaction.ShiftDown | src/EspMQTTClient.h:51-52 | removing slot `i` shifts the later occupied slots down by one, so the occupied prefix is the old one without slot `i`, in order, and the rest of the array is untouched |
| Client.EspMqttClient.constructor | src/EspMQTTClient.h:62-73 | a new client is disconnected on both layers, has empty lists held in two newly allocated arrays that nothing else shares, all timestamps 0 and no activity |
| Client.EspMqttClient.IsConnected | src/EspMQTTClient.h:77 | true exactly when Wi-Fi and MQTT are both connected, which under the layering invariant is the same as MQTT being connected |
| Client.EspMqttClient.Subscribe | src/EspMQTTClient.h:81 | with room, the record is appended at index `size` and earlier records stay, and a broker subscribe is issued when MQTT is connected; on a full list the array, the count and the trace are unchanged; the count stays at most 10 |
| Client.EspMqttClient.FindTopic | src/EspMQTTClient.h:82 | returns the position of the first record with exactly the topic, or none when there is no such record |
| Client.EspMqttClient.Unsubscribe | src/EspMQTTClient.h:82 | the list becomes the list without its first record of the topic, and a broker unsubscribe is issued exactly when such a record existed |
| Client.EspMqttClient.ExecuteDelayed | src/EspMQTTClient.h:85 | with room, appends a record due at `(now + delay) mod 2^32`; on a full list the array and count are unchanged; nothing fires, not even for a delay of 0 |
| Client.EspMqttClient.ConnectToWifi | src/EspMQTTClient.h:88 | one Wi-Fi attempt: records the attempt time, sets the flag to the outcome, records the success time on success |
| Client.EspMqttClient.ConnectToMqttBroker | src/EspMQTTClient.h:89 | one MQTT attempt: records its time; on success sets the flag, re-subscribes every stored topic in order and then calls the connection-established callback |
| Client.EspMqttClient.ResubscribeAll | src/EspMQTTClient.h:89 | issues a broker subscribe for every stored record, in stored order |
| Client.EspMqttClient.MqttMessageReceivedCallback | src/EspMQTTClient.h:90 | invokes, with the payload, the callback of every record whose topic equals the message's topic, in stored order, and changes nothing else |
| Client.EspMqttClient.PollBroker | src/EspMQTTClient.h:45 | each message the MQTT library hands over during a poll is dispatched, in arrival order |
| Client.EspMqttClient.FireDelayedAt | src/EspMQTTClient.h:54-59 | the record at `i` has its callback called exactly once, then leaves the delayed list while the other records keep their order |
| Client.EspMqttClient.RemoveDelayedAt | src/EspMQTTClient.h:58-59 | the delayed list loses exactly its record at `i`, keeping the others in order |
| Client.EspMqttClient.HandleDelayedExecutions | src/EspMQTTClient.h:54-59 | one pass fires exactly the due records in insertion order and leaves exactly the pending records, in order |
| Client.EspMqttClient.Loop | src/EspMQTTClient.h:76 | one `loop()`: the connection state becomes `Supervisor.Step` of the old one; the subscription list is unchanged; the events are those of the step's single action followed by the firing of the due delayed records; the delayed list keeps the pending records |

## Left out

- The Wi-Fi radio, `WiFiClient` and the `PubSubClient` protocol engine are not modelled; they appear only as the per-tick `Observation` and as the connect, subscribe and unsubscribe events in `trace`.
- A Wi-Fi attempt's result is taken as known within the tick that makes it; a connection that the radio completes later is seen as success of the attempt rather than at a later tick.
- `publish` is a pass-through to the MQTT library with no local state, so it is not modelled.
- The HTTP update server, the web server, mDNS (`mEnableWebUpdater`) and serial logging (`mEnableSerialLogs`) are I/O with no effect on the modelled state.
- The conversion of the raw `byte*` payload to a `String` and `MQTT_MAX_PAYLOAD_SIZE` are library details; payloads are opaque strings.
- The constructor's configuration (credentials, broker address and port, client name, feature flags) and the destructor hold no behaviour worth proving; the constructor keeps only the connection-established callback.
- The implementation file of the class is not part of this model. The model starts every timestamp at 0, so the first attempt of each layer waits until the clock reads 10 000 ms; any special rule the implementation has for the very first attempt is not captured.
- Callbacks are identifiers, so a callback that itself calls `subscribe`, `unsubscribe` or `executeDelayed` is not modelled; in particular a record added by a callback during the delayed pass cannot be visited by that pass.
- `subscribe` and `executeDelayed` on a full list are silent no-ops, as the `void` signatures allow; no "full" status is reported.
- The `byte` counters never exceed 10, so their 8-bit width plays no part; they are modelled as `nat`.
- `lastWifiConnectionSuccessMillis` is recorded on every successful Wi-Fi attempt, but no decision in the model reads it; its readers, if any, are in the implementation file of the class, which is not part of this model.
