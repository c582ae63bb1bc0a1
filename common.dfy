/** Shared vocabulary: identifiers as the socket messages carry them, and an Option. */
module Common {

  /** A user id (a MongoDB ObjectId in hex, as sent by the client). */
  type UserId = string

  /** A socket.io connection id. */
  type SocketId = string

  /** A key of the `rooms` map. */
  type RoomId = string

  /** `undefined`/`null` versus a value. */
  datatype Option<+T> = None | Some(value: T)
}
