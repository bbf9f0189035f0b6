/** The records shared by every part of the chat server: the connected user,
    the chat message it exchanges, and what the server writes to a connection. */
module Users {

  newtype byte = x: int | 0 <= x < 256

  /** One connected client. The object stands for its own websocket
      connection: a write "to the user" is a write on its connection.
      `peer` is the partner it is currently chatting with, or null. */
  class User {
    const id: string
    var peer: User?

    constructor (id: string)
      ensures this.id == id && peer == null
    {
      this.id := id;
      peer := null;
    }
  }

  /** A chat message as the JSON decoder fills it in; a frame that does not
      decode leaves some or all fields at their zero value "". */
  datatype Message = Message(msgType: string, content: string, sender: string, receiver: string)

  /** What the server writes on a connection. */
  datatype Payload =
    | Connected(userID: string)                  // {"status": "connected", "userID": ...}
    | Matched(userID: string, peerID: string)    // {"status": "matched", "userID": ..., "peer": ...}
    | PeerDisconnected(peerID: string)           // {"status": "disconnected_peer", "peer": ...}
    | Forwarded(msg: Message)                    // a decoded message relayed as JSON
    | Echoed(kind: int, data: seq<byte>)         // a received frame written back verbatim

  /** One write on the connection of `to`. */
  datatype Delivery = Delivery(to: User, payload: Payload)
}
