# serial-over-ip: a Dafny model of the bridge, the echo path, the Wi-Fi watchdog and the pulse endpoints

The firmware in `src/main.c` is a Mongoose OS application. It has four parts:

- It bridges a UART to TCP port 8001. Whatever arrives on the serial line is
  sent to every client of the bridge listener.
- Whatever a client sends is echoed back to that client and also written to
  the serial line, followed by a flush.
- A 2-second timer acts as a Wi-Fi watchdog. It restarts the device after
  more than 30 seconds without an IP address.
- Four HTTP endpoints pulse a GPIO pin (low, then high) or restart the device.

The model has five modules:

- `Mongoose` (`mongoose.dfy`) covers what the code uses from the networking
  library: a connection (accepting listener, send buffer, receive buffer,
  send-and-close flag), the event kinds, and `mg_send` as an append to the
  send buffer.
- `Bridge` (`bridge.dfy`) defines the broadcast of one serial read over the
  connection list, and the echo and forward done for a received chunk. These
  are functions over values. Lemmas cover whole runs: a sequence of serial
  reads, and a sequence of receive rounds on one peer.
- `Watchdog` (`watchdog.dfy`) has the decision of one tick, and a run of ticks
  that stops at the first restart. `LastGood` is an independent reference
  definition: the time of the latest healthy sample. The model proves that
  the run restarts exactly at the first tick that is due against that
  reference.
- `HttpHandlers` (`http_handlers.dfy`) has the pulse as a log of GPIO writes,
  a pin's level as its latest write, the endpoint table, and the
  send-and-close marking.
- `SerialOverIp` (`serial_over_ip.dfy`) has the class `App`. Its fields are the
  program's globals and the dispatcher's static `mbuf`. Its methods are the
  callbacks, and they update those fields in place. `UartDispatcher` walks
  the connection list in a loop, as the `mg_next` loop does. The dispatcher,
  the connection callback, the watchdog tick and the pin handler are proved
  to agree with the functions above; the reboot handler's contract states the
  restart flag directly. Every callback requires and keeps the object
  invariant `Valid()`: the line buffer is empty, and every UART write is
  followed by a flush.

Modelling choices:

- Uptime is seconds as a Dafny `real`. The source uses `double`.
- Bytes are a `byte` newtype over 0..255.
- The UART's pending input is a parameter of the dispatcher. What
  `mgos_uart_read_avail` reports is its length.
- Wi-Fi status and uptime are parameters of the watchdog tick.
- `mgos_system_restart` sets the sticky flag `restarted`.

## Model

| member | source | states |
|---|---|---|
| `Mongoose.MgSend` | src/main.c:55 | Sending keeps the old send buffer as a prefix and puts exactly the given bytes after it. Listener, receive buffer and flags are untouched. |
| `Bridge.Broadcast` | src/main.c:53-57 | Every connection whose listener is the bridge listener gains exactly the data at the end of its send buffer. Every other connection (the listening socket, HTTP clients) keeps its send buffer. All connections keep their listener, receive buffer and flags. Number and order of connections are kept. |
| `Bridge.BroadcastNothing` | src/main.c:49-50 | Broadcasting zero bytes leaves the connection list equal to what it was. |
| `Bridge.BroadcastAllDeliversConcat` | src/main.c:46-61 | Over any run of dispatches, each served connection receives the concatenation of the chunks, in read order, with nothing lost or repeated. Unserved connections receive nothing. |
| `Bridge.ForwardOps` | src/main.c:90-91 | A receive event writes the bytes to the UART and ends with a flush. Every write in it is flushed, and the bytes written are exactly the received bytes. |
| `Bridge.ForwardKeepsFlushed` | src/main.c:90-91 | Appending one forward to a UART log in which every write was flushed keeps that property. The bytes written grow by exactly the received bytes. |
| `Bridge.Echo` | src/main.c:88-93 | After a receive event, the connection's send buffer gains exactly its received bytes, and its receive buffer is empty. Listener and flags are kept. |
| `Bridge.EchoRoundsReturnsConcat` | src/main.c:88-93 | Over any number of receive rounds, a peer is sent back the concatenation of everything it sent, in order. Its receive buffer ends empty. |
| `Bridge.BroadcastAll` | src/main.c:46-61 | Repeated dispatches keep the number and order of connections, and every connection's listener and receive buffer. A connection the bridge listener did not accept is left exactly as it was. |
| `Bridge.EchoRounds` | src/main.c:88-93 | Repeated receive events on one peer keep its listener and flag. They only ever append to its send buffer, and after at least one round its receive buffer is empty. |
| `Bridge.EchoScenario` | src/main.c:88-93 | A peer that sends "AT\r\n" gets "AT\r\n" back. The UART gets a write of "AT\r\n" and then a flush. |
| `Bridge.BroadcastScenario` | src/main.c:53-57 | Serial input "OK\r\n" with two bridge peers and one HTTP client: both peers receive exactly "OK\r\n" and the HTTP client receives nothing. |
| `Watchdog.Tick` | src/main.c:100-106 | With an IP address: the last-good time becomes the current uptime and there is no restart. Without one: the last-good time is kept, and there is a restart if and only if strictly more than 30 s have elapsed. On a clock that does not go back, the last-good time never decreases and never passes the current uptime. |
| `Watchdog.Run` | src/main.c:96-109 | A run of repeated ticks, in which a restart is terminal, reports a restart only at an index inside the run and only on a tick without an IP address. If the run is still going and its last tick had an IP address, the last-good time is that tick's uptime. Through a run with no IP address at all, the last-good time is unchanged. |
| `Watchdog.RunRestartsAtFirstDue` | src/main.c:96-109 | The run restarts at the first tick that is due and at no earlier tick. "Due" means: no IP address, and more than 30 s since the latest healthy sample (or since start-up). A run that never restarts had no due tick, and it ends holding the latest healthy time. |
| `Watchdog.AlwaysConnectedNeverRestarts` | src/main.c:100-101 | If every tick sees an IP address, the device is never restarted, however long the run. The last-good time is then the latest uptime. |
| `Watchdog.OutageRestartsAtFirstExpiry` | src/main.c:102-105 | During an outage that starts from last-good time t0, the restart happens at the first tick with uptime − t0 > 30, and not before. With no such tick, the device keeps running. |
| `Watchdog.LastGoodNotAhead` | src/main.c:101 | On a monotone clock, the last-good time is never later than the latest sample. |
| `Watchdog.LastGoodNeverDecreases` | src/main.c:100-101 | On a monotone clock starting at the start-up uptime, the last-good time never decreases from one tick to the next. It never passes the current tick's uptime. |
| `HttpHandlers.Pulse` | src/main.c:68-70 | The writes of one pulse are all on the endpoint's pin, begin by driving it low and end by driving it high. |
| `HttpHandlers.PulseEndsHigh` | src/main.c:68-70 | After a pulse, the pulsed pin was driven low first and ends high. Every other pin keeps its level. |
| `HttpHandlers.PulsesAlternate` | src/main.c:66-70 | n pulse requests produce exactly n low-high cycles on the pin, in alternation. They neither merge nor queue. |
| `HttpHandlers.Endpoints` | src/main.c:137-140 | Four endpoints are registered. /reset pulses the reset pin. /shutdown and /wake-up pulse the same shutdown pin. /reset-esp32 restarts the device. |
| `HttpHandlers.CloseAfterReply` | src/main.c:75 | The request connection is marked send-and-close. Its buffers and listener are kept. |
| `SerialOverIp.App.constructor` | src/main.c:128-144 | After a successful start-up, the invariant holds. The connection list is the manager's earlier connections (the HTTP server's among them) with the new listening socket added. No connection in it is yet served by the bridge listener, since none of the earlier ones can have been accepted by it. Both pins are outputs driven high. The endpoints are registered. The last-good time is the start-up uptime. No restart has been requested. |
| `SerialOverIp.App.UartDispatcher` | src/main.c:46-61 | The invariant is kept, so the line buffer is empty afterwards. With zero bytes available, the connections are unchanged. Otherwise the connection list becomes `Broadcast` of exactly the bytes just read, because the buffer was empty on entry. Nothing else is modified. |
| `SerialOverIp.App.ConnectionCb` | src/main.c:85-94 | On a receive event: the connection becomes `Echo` of itself, the UART log gains the bytes and then a flush, and the bytes written grow by exactly the received bytes. On a poll or any other event, nothing changes. The invariant is kept. |
| `SerialOverIp.App.CheckWifi` | src/main.c:96-109 | The new last-good time and restart flag follow `Tick`. A healthy tick sets the last-good time to now. An unhealthy tick restarts the device if and only if now − last-good > 30. The last-good time never decreases on a monotone clock. |
| `SerialOverIp.App.HttpPinHandler` | src/main.c:63-76 | Any event other than an HTTP request changes nothing. A request appends low then high for the endpoint's pin, leaves that pin high, leaves other pins' levels alone, and marks the request connection send-and-close. |
| `SerialOverIp.App.HttpRebootHandler` | src/main.c:78-82 | An HTTP request sets the restart flag. Any other event leaves the flag as it was. |

## Left out

- Start-up configuration (src/main.c:111-148) is left out: the UART settings
  (115200 baud, 8N1), stdout/stderr redirection, the dispatcher and timer
  registration, and the two fatal start-up failures. Only the state after a
  successful start-up is modelled, by the `App` constructor.
- Transport behaviour is left out. `mg_send`, `mgos_uart_write` and
  `mgos_uart_flush` are appends to a send buffer or to a UART log. Partial
  writes, backpressure and the actual socket and UART I/O are not modelled.
- Connections are accepted and closed, and received bytes are placed in a
  receive buffer, by the networking library. None of that happens in
  `src/main.c`. The class has no operation for it. Its callbacks are proved
  for every connection list.
- The 120 ms `mgos_msleep` between the two GPIO writes is left out. So is the
  fact that it blocks the event loop. Both are real-time behaviour.
- The response line of the pulse handler (src/main.c:74) is left out: its
  status line and headers are not appended to the send buffer. Only the
  send-and-close flag is modelled.
- Floating point is left out. Uptime and the last-good time are exact reals,
  so rounding in `last_wifi_ok + 30` is not modelled.
- The `LOG` call (src/main.c:98) is left out.
- Reading the Wi-Fi status and the uptime is left out. Both are inputs to a
  tick.
- `mgos_system_restart` only sets a sticky flag. The reboot itself, and the
  events that would no longer happen after it, are not modelled.
- The `uart_no == UART_NO` assertion (src/main.c:48) is left out, because only
  one UART exists in the model.
- Routing a URI to its registered handler is done by the HTTP server library.
  The registration table is modelled. The lookup is not.
- The event codes come from `mongoose.h`, which is not part of this model.
  They are an enumeration of the kinds a handler can receive.
- `connection_cb` is the handler given to `mg_bind` for the bridge listener
  (src/main.c:128), and src/main.c:84 describes it as the handler for
  accepted connections. So in the firmware it only runs for the listening
  socket and the bridge's peers. `ConnectionCb` accepts any connection index,
  which is more general.
