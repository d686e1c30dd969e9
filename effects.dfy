/** Shared vocabulary of the client model: topics, payloads, the opaque
    callback identifiers registered by the application, and the events the
    client produces towards its collaborators (the Wi-Fi radio, the MQTT
    library) and towards the application's callbacks. */
module Effects {

  datatype Option<+T> = None | Some(value: T)

  type Topic = string

  /** Payloads are kept as opaque text; the byte-to-string conversion of the
      MQTT library is not part of this model. */
  type Payload = string

  /** A `MessageReceivedCallback` function pointer, as an identifier. */
  type MessageCallback = nat

  /** A `DelayedExecutionCallback` function pointer, as an identifier. */
  type DelayedCallback = nat

  /** A `ConnectionEstablishedCallback` function pointer, as an identifier. */
  type ConnectionCallback = nat

  /** An inbound publication handed to the client by the MQTT library. */
  datatype Message = Message(topic: Topic, payload: Payload)

  /** Everything observable that the client does: calls it issues to the
      radio and to the MQTT library, and callbacks it invokes. */
  datatype Event =
    | WifiConnectIssued
    | MqttConnectIssued
    | SubscribeIssued(topic: Topic)
    | UnsubscribeIssued(topic: Topic)
    | ConnectionEstablishedCalled(callback: ConnectionCallback)
    | MessageDelivered(callback: MessageCallback, payload: Payload)
    | DelayedCallbackCalled(callback: DelayedCallback)
}
