/**
 * The HTTP control endpoints: a pulse on a GPIO pin (low, a pause, high)
 * for `/reset`, `/shutdown` and `/wake-up`, and a restart for `/reset-esp32`.
 * GPIO writes are kept as a log; the level of a pin is its latest write.
 */
module HttpHandlers {
  import opened Mongoose

  datatype Level = Low | High

  /** One `mgos_gpio_write(pin, level)`. */
  datatype PinWrite = PinWrite(pin: int, level: Level)

  /** The writes of one pulse: the pin is driven low, then high again. */
  function Pulse(pin: int): (w: seq<PinWrite>)
    ensures forall i :: 0 <= i < |w| ==> w[i].pin == pin
    ensures w != [] && w[0].level == Low && w[|w| - 1].level == High
  {
    [PinWrite(pin, Low), PinWrite(pin, High)]
  }

  /** The level a pin was last driven to, if it was ever written. */
  function LevelOf(log: seq<PinWrite>, pin: int): Option<Level>
    decreases |log|
  {
    if log == [] then None
    else if log[|log| - 1].pin == pin then Some(log[|log| - 1].level)
    else LevelOf(log[..|log| - 1], pin)
  }

  /** Writes to other pins do not change a pin's level. */
  lemma {:induction false} LevelOfOtherWrites(log: seq<PinWrite>, more: seq<PinWrite>, pin: int)
    requires forall i :: 0 <= i < |more| ==> more[i].pin != pin
    ensures LevelOf(log + more, pin) == LevelOf(log, pin)
    decreases |more|
  {
    if more == [] {
      assert log + more == log;
    } else {
      var all := log + more;
      assert all[|all| - 1] == more[|more| - 1];
      assert all[..|all| - 1] == log + more[..|more| - 1];
      LevelOfOtherWrites(log, more[..|more| - 1], pin);
    }
  }

  /**
   * After a pulse the pulsed pin is high, whatever it was before, and the
   * pulse went through low first; every other pin keeps its level.
   */
  lemma PulseEndsHigh(log: seq<PinWrite>, pin: int)
    ensures LevelOf(log + Pulse(pin), pin) == Some(High)
    ensures LevelOf(log + Pulse(pin)[..1], pin) == Some(Low)
    ensures forall other :: other != pin ==> LevelOf(log + Pulse(pin), other) == LevelOf(log, other)
  {
    var all := log + Pulse(pin);
    assert all[|all| - 1] == PinWrite(pin, High);
    assert (log + Pulse(pin)[..1])[|log|] == PinWrite(pin, Low);
    forall other | other != pin
      ensures LevelOf(all, other) == LevelOf(log, other)
    {
      LevelOfOtherWrites(log, Pulse(pin), other);
    }
  }

  /** Repeated pulses each add exactly one low-high cycle; they neither queue nor merge. */
  function Pulses(pin: int, n: nat): seq<PinWrite> {
    if n == 0 then [] else Pulses(pin, n - 1) + Pulse(pin)
  }

  lemma {:induction false} PulsesAlternate(pin: int, n: nat)
    ensures |Pulses(pin, n)| == 2 * n
    ensures forall i :: 0 <= i < 2 * n ==>
      Pulses(pin, n)[i] == PinWrite(pin, if i % 2 == 0 then Low else High)
  {
    if n > 0 {
      PulsesAlternate(pin, n - 1);
    }
  }

  /** What an endpoint is registered with: the pin-pulse handler and its pin, or the restart handler. */
  datatype Handler = PinHandler(pin: int) | RebootHandler

  /** The endpoint registrations made at start-up. */
  function Endpoints(resetPin: int, shutdownPin: int): (m: map<string, Handler>)
    ensures m.Keys == {"/reset", "/shutdown", "/wake-up", "/reset-esp32"}
    ensures m["/reset"] == PinHandler(resetPin)
    ensures m["/shutdown"] == m["/wake-up"] == PinHandler(shutdownPin)
    ensures m["/reset-esp32"] == RebootHandler
  {
    map["/reset" := PinHandler(resetPin), "/shutdown" := PinHandler(shutdownPin),
        "/wake-up" := PinHandler(shutdownPin), "/reset-esp32" := RebootHandler]
  }

  /** The connection after a pulse request is answered: it is closed once its reply is sent. */
  function CloseAfterReply(c: Conn): (r: Conn)
    ensures r.sendAndClose
    ensures r.listener == c.listener && r.outbox == c.outbox && r.recv == c.recv
  {
    c.(sendAndClose := true)
  }
}
