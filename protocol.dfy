/** Values that cross the boundary of the relay: the parameters of a connect
    request, a decoded message, the transport's report for one send, the store
    calls a handler makes, and the status/body pair every handler answers with. */
module Protocol {

  datatype Option<+T> = None | Some(value: T)

  /** The connection id the websocket gateway assigns; the table's primary key. */
  type ConnId = string

  /** The query-string parameters of a connect request; either may be absent. */
  datatype ConnectParams = ConnectParams(roomId: Option<string>, mode: Option<string>)

  /** The `mode` field of a message as JSON decodes it: a number or a string. */
  datatype ModeField = ModeNumber(n: int) | ModeText(s: string)

  /** The body of a message event, already decoded; every field may be absent. */
  datatype Message = Message(
    roomId: Option<string>,
    userId: Option<string>,
    name: Option<string>,
    resultToken: Option<string>,
    operation: Option<string>,
    result: Option<string>,
    mode: Option<ModeField>)

  /** What the websocket transport reports for one send: delivered, the peer is
      gone (WebsocketDisconnectedError), or any other error. */
  datatype SendOutcome = Sent | PeerDisconnected | SendError

  /** The store calls a handler makes. A handler invocation is given the set of
      calls that raise during it; every other call succeeds. */
  datatype StoreCall = Scan | Query | Put | Delete(id: ConnId)

  /** The response bodies: empty on success, and one reason per failure. */
  datatype Body =
    | Empty
    | ModeFormatError      // the mode is not one of "1".."6"
    | RoomIdFormatError    // the room id does not have the room id form
    | TooManyConnections   // the global connection ceiling is reached
    | CapacityExceeded     // the room+mode is full
    | ConnectFailed        // a store call failed while connecting or disconnecting
    | SendFailed           // a message could not be relayed

  datatype Response = Response(status: int, body: Body)
}
