/**
 * The part of the Mongoose networking library that the bridge relies on:
 * connections as the manager lists them, the events a handler is given,
 * and what `mg_send` does to a connection. The library itself is not part
 * of this model; only the effects the bridge observes are.
 */
module Mongoose {

  /** One octet on the wire or on the serial line. */
  newtype byte = b: int | 0 <= b < 256

  datatype Option<T> = None | Some(value: T)

  /** Opaque identity of a listening connection (`struct mg_connection *`). */
  type ListenerId = nat

  /**
   * A connection in the manager's list. `listener` is the listening
   * connection that accepted it (`None` for the listening sockets themselves
   * and for outbound connections); `outbox` is the send buffer that
   * `mg_send` appends to; `recv` is the receive buffer the library fills;
   * `sendAndClose` is the `MG_F_SEND_AND_CLOSE` flag.
   */
  datatype Conn = Conn(listener: Option<ListenerId>, outbox: seq<byte>, recv: seq<byte>, sendAndClose: bool)

  /** The event kinds a Mongoose handler can be called with. */
  datatype Event = Poll | Accept | Connect | Recv | Send | Close | Timer | HttpRequest

  /** `mg_send(c, data, len)`: queue the bytes at the end of the send buffer. */
  function MgSend(c: Conn, data: seq<byte>): (r: Conn)
    ensures |r.outbox| == |c.outbox| + |data|
    ensures r.outbox[..|c.outbox|] == c.outbox && r.outbox[|c.outbox|..] == data
    ensures r.listener == c.listener && r.recv == c.recv && r.sendAndClose == c.sendAndClose
  {
    c.(outbox := c.outbox + data)
  }
}
