/**
 * The application's process-wide state and its event callbacks, updated in
 * place as in the firmware: the bridge listener, the dispatcher's static
 * line buffer, the manager's connection list, the serial output, the GPIO
 * writes, the watchdog's last-good time and whether a restart was requested.
 */
module SerialOverIp {
  import opened Mongoose
  import opened Bridge
  import opened Watchdog
  import opened HttpHandlers

  class App {
    /** The TCP listener bound on port 8001. */
    const listener: ListenerId
    /** The HTTP endpoint registrations. */
    const endpoints: map<string, Handler>

    /** The dispatcher's static line buffer. */
    var lb: seq<byte>
    /** The manager's connections, in `mg_next` order. */
    var conns: seq<Conn>
    /** Everything written to the bridged UART, with its flushes. */
    var uartTx: seq<UartOp>
    /** Every GPIO write, in order. */
    var gpio: seq<PinWrite>
    /** Uptime, in seconds, at which an IP address was last seen. */
    var lastWifiOk: real
    /** Set once `mgos_system_restart` has been called. */
    var restarted: bool

    /** Between callbacks the line buffer is empty and every UART write has been flushed. */
    ghost predicate Valid()
      reads this
    {
      lb == [] && FlushedAfterWrites(uartTx)
    }

    /**
     * The state once start-up has succeeded. `existing` is the manager's
     * connection list before the bridge listener is bound (the HTTP server's
     * connections among them); none of them can have been accepted by a
     * listener that does not exist yet. Binding adds the listening socket to
     * the front of the list, as Mongoose links new connections; both pins are
     * outputs driven high, the endpoints are registered and the last-good
     * time is the current uptime.
     */
    constructor (existing: seq<Conn>, listener: ListenerId, resetPin: int, shutdownPin: int, uptime: real)
      requires forall i :: 0 <= i < |existing| ==> !ServedBy(existing[i], listener)
      ensures Valid()
      ensures this.listener == listener && endpoints == Endpoints(resetPin, shutdownPin)
      ensures conns == [Conn(None, [], [], false)] + existing && uartTx == []
      ensures forall i :: 0 <= i < |conns| ==> !ServedBy(conns[i], listener)
      ensures gpio == [PinWrite(resetPin, High), PinWrite(shutdownPin, High)]
      ensures lastWifiOk == uptime && !restarted
    {
      this.listener := listener;
      endpoints := Endpoints(resetPin, shutdownPin);
      lb := [];
      conns := [Conn(None, [], [], false)] + existing;
      uartTx := [];
      gpio := [PinWrite(resetPin, High), PinWrite(shutdownPin, High)];
      lastWifiOk := uptime;
      restarted := false;
    }

    /**
     * `uart_dispatcher`: `avail` is what the UART holds when it is called.
     * With nothing available nothing changes; otherwise every connection of
     * the bridge listener is sent exactly those bytes, and the line buffer is
     * emptied again.
     */
    method UartDispatcher(avail: seq<byte>)
      requires Valid()
      modifies this`lb, this`conns
      ensures Valid()
      ensures |avail| == 0 ==> conns == old(conns)
      ensures conns == Broadcast(old(conns), listener, avail)
    {
      var rxAv := |avail|;
      if rxAv == 0 {
        BroadcastNothing(conns, listener);
        return;
      }
      lb := lb + avail[..rxAv];

      var i := 0;
      while i < |conns|
        invariant 0 <= i <= |conns| == |old(conns)|
        invariant lb == avail
        invariant forall k :: 0 <= k < i ==>
          conns[k] == if ServedBy(old(conns)[k], listener) then MgSend(old(conns)[k], avail) else old(conns)[k]
        invariant forall k :: i <= k < |conns| ==> conns[k] == old(conns)[k]
      {
        if conns[i].listener == Some(listener) {
          conns := conns[i := MgSend(conns[i], lb)];
        }
        i := i + 1;
      }

      lb := lb[|lb|..];
      ghost var spec := Broadcast(old(conns), listener, avail);
      assert forall k :: 0 <= k < |conns| ==> conns[k] == spec[k];
    }

    /**
     * `connection_cb` for connection `ci`. On `MG_EV_RECV` the received bytes
     * are echoed back to the sender, written to the UART and flushed, and the
     * receive buffer is emptied; every other event changes nothing.
     */
    method ConnectionCb(ci: nat, ev: Event)
      requires Valid() && ci < |conns|
      modifies this`conns, this`uartTx
      ensures Valid()
      ensures ev == Recv ==> conns == old(conns)[ci := Echo(old(conns)[ci])]
      ensures ev == Recv ==> uartTx == old(uartTx) + ForwardOps(old(conns)[ci].recv)
      ensures Forwarded(uartTx) == Forwarded(old(uartTx)) + if ev == Recv then old(conns)[ci].recv else []
      ensures ev != Recv ==> conns == old(conns) && uartTx == old(uartTx)
    {
      if ev == Poll {
        return;
      }
      if ev == Recv {
        var c := conns[ci];
        conns := conns[ci := MgSend(c, c.recv)];
        uartTx := uartTx + [Write(c.recv)];
        uartTx := uartTx + [Flush];
        conns := conns[ci := conns[ci].(recv := [])];
        assert uartTx == old(uartTx) + ForwardOps(c.recv);
        ForwardKeepsFlushed(old(uartTx), c.recv);
      }
    }

    /**
     * `check_wifi_cb` at uptime `now`: with an IP address the last-good time
     * becomes `now`; without one the device is restarted when strictly more
     * than 30 seconds have passed since the last-good time.
     */
    method CheckWifi(status: WifiStatus, now: real)
      requires Valid()
      modifies this`lastWifiOk, this`restarted
      ensures lastWifiOk == Tick(status, now, old(lastWifiOk)).lastWifiOk
      ensures restarted == (old(restarted) || Tick(status, now, old(lastWifiOk)).restart)
      ensures status == IpAcquired ==> lastWifiOk == now && restarted == old(restarted)
      ensures status != IpAcquired ==>
        lastWifiOk == old(lastWifiOk) && restarted == (old(restarted) || now - old(lastWifiOk) > GraceSeconds)
      ensures now >= old(lastWifiOk) ==> lastWifiOk >= old(lastWifiOk)
      ensures Valid()
    {
      if status == IpAcquired {
        lastWifiOk := now;
      } else {
        if now > lastWifiOk + GraceSeconds {
          restarted := true;
        }
      }
    }

    /**
     * `http_pin_handler` for request connection `ci` and the endpoint's pin:
     * on an HTTP request the pin is driven low and then high, and the
     * connection is marked to close once its reply is sent; other events
     * change nothing.
     */
    method HttpPinHandler(ci: nat, ev: Event, pin: int)
      requires Valid() && ci < |conns|
      modifies this`gpio, this`conns
      ensures Valid()
      ensures ev != HttpRequest ==> gpio == old(gpio) && conns == old(conns)
      ensures ev == HttpRequest ==> gpio == old(gpio) + Pulse(pin)
      ensures ev == HttpRequest ==> conns == old(conns)[ci := CloseAfterReply(old(conns)[ci])]
      ensures ev == HttpRequest ==> LevelOf(gpio, pin) == Some(High)
      ensures forall other :: other != pin ==> LevelOf(gpio, other) == LevelOf(old(gpio), other)
    {
      if ev != HttpRequest {
        return;
      }
      gpio := gpio + [PinWrite(pin, Low)];
      gpio := gpio + [PinWrite(pin, High)];
      conns := conns[ci := conns[ci].(sendAndClose := true)];
      assert gpio == old(gpio) + Pulse(pin);
      PulseEndsHigh(old(gpio), pin);
    }

    /** `http_reboot_handler`: an HTTP request restarts the device; other events do nothing. */
    method HttpRebootHandler(ev: Event)
      requires Valid()
      modifies this`restarted
      ensures Valid()
      ensures restarted == (old(restarted) || ev == HttpRequest)
    {
      if ev != HttpRequest {
        return;
      }
      restarted := true;
    }
  }
}
