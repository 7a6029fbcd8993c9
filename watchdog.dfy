/**
 * The Wi-Fi watchdog of `check_wifi_cb`: a timer tick refreshes the
 * last-good timestamp while an IP address is held, and restarts the device
 * once more than the grace period has passed without one.
 *
 * Uptime is seconds as a real number (the source reads it as a double);
 * rounding of floating-point arithmetic is not modelled.
 */
module Watchdog {

  /** The station states the Wi-Fi stack reports. */
  datatype WifiStatus = Disconnected | Connecting | Connected | IpAcquired

  /** Seconds without an IP address that are tolerated before a restart. */
  const GraceSeconds: real := 30.0

  /** The watchdog's decision for one tick: the new last-good time and whether to restart. */
  datatype Verdict = Verdict(lastWifiOk: real, restart: bool)

  /**
   * One tick at uptime `now`. Healthy: the last-good time becomes `now` and
   * there is no restart. Unhealthy: the last-good time is kept and the device
   * restarts exactly when strictly more than the grace period has elapsed.
   */
  function Tick(status: WifiStatus, now: real, lastWifiOk: real): (v: Verdict)
    ensures status == IpAcquired ==> v.lastWifiOk == now && !v.restart
    ensures status != IpAcquired ==> v.lastWifiOk == lastWifiOk
    ensures v.restart <==> status != IpAcquired && now - lastWifiOk > GraceSeconds
    ensures now >= lastWifiOk ==> lastWifiOk <= v.lastWifiOk <= now
  {
    if status == IpAcquired then Verdict(now, false)
    else Verdict(lastWifiOk, now > lastWifiOk + GraceSeconds)
  }

  /** What a tick observes: the Wi-Fi status and the uptime. */
  datatype Sample = Sample(status: WifiStatus, now: real)

  /** A run of ticks either is still going, or restarted the device at tick `at`. */
  datatype Outcome = Running(lastWifiOk: real) | Restarted(at: nat)

  /** Ticks in order from a last-good time, stopping at the first restart. */
  function Run(lastWifiOk: real, ticks: seq<Sample>): (o: Outcome)
    ensures o.Restarted? ==> o.at < |ticks| && ticks[o.at].status != IpAcquired
    ensures o.Running? && ticks != [] && ticks[|ticks| - 1].status == IpAcquired ==> o.lastWifiOk == ticks[|ticks| - 1].now
    ensures o.Running? && (forall j :: 0 <= j < |ticks| ==> ticks[j].status != IpAcquired) ==> o.lastWifiOk == lastWifiOk
    decreases |ticks|
  {
    if ticks == [] then Running(lastWifiOk)
    else
      var v := Tick(ticks[0].status, ticks[0].now, lastWifiOk);
      if v.restart then Restarted(0)
      else match Run(v.lastWifiOk, ticks[1..])
        case Running(last) => Running(last)
        case Restarted(k) => Restarted(k + 1)
  }

  /**
   * Reference definition: the uptime of the latest healthy sample, or the
   * start-up time `t0` if there was none.
   */
  function LastGood(t0: real, ticks: seq<Sample>): real
    decreases |ticks|
  {
    if ticks == [] then t0
    else if ticks[|ticks| - 1].status == IpAcquired then ticks[|ticks| - 1].now
    else LastGood(t0, ticks[..|ticks| - 1])
  }

  /** Tick `k` is due for a restart: no IP address, and more than the grace period since the last good sample. */
  predicate Due(t0: real, ticks: seq<Sample>, k: nat)
    requires k < |ticks|
  {
    ticks[k].status != IpAcquired && ticks[k].now - LastGood(t0, ticks[..k]) > GraceSeconds
  }

  lemma {:induction false} LastGoodCons(t0: real, x: Sample, rest: seq<Sample>)
    ensures LastGood(t0, [x] + rest) == LastGood(LastGood(t0, [x]), rest)
    decreases |rest|
  {
    if rest == [] {
      assert [x] + rest == [x];
    } else {
      var s := [x] + rest;
      assert s[|s| - 1] == rest[|rest| - 1];
      assert s[..|s| - 1] == [x] + rest[..|rest| - 1];
      LastGoodCons(t0, x, rest[..|rest| - 1]);
    }
  }

  lemma DueShift(t0: real, ticks: seq<Sample>, j: nat)
    requires 1 <= j < |ticks|
    ensures Due(t0, ticks, j) == Due(LastGood(t0, [ticks[0]]), ticks[1..], j - 1)
  {
    assert ticks[..j] == [ticks[0]] + ticks[1..][..j - 1];
    LastGoodCons(t0, ticks[0], ticks[1..][..j - 1]);
  }

  /**
   * The watchdog restarts at the first tick that is due and never earlier;
   * if it never restarts, no tick was due and it holds the latest good time.
   */
  lemma {:induction false} RunRestartsAtFirstDue(t0: real, ticks: seq<Sample>)
    ensures Run(t0, ticks).Restarted? ==>
      Due(t0, ticks, Run(t0, ticks).at) && forall j :: 0 <= j < Run(t0, ticks).at ==> !Due(t0, ticks, j)
    ensures Run(t0, ticks).Running? ==>
      (forall j :: 0 <= j < |ticks| ==> !Due(t0, ticks, j)) && Run(t0, ticks).lastWifiOk == LastGood(t0, ticks)
    decreases |ticks|
  {
    if ticks != [] {
      assert ticks[..0] == [];
      var v := Tick(ticks[0].status, ticks[0].now, t0);
      if !v.restart {
        var t1 := v.lastWifiOk;
        assert [ticks[0]][..0] == [];
        assert t1 == LastGood(t0, [ticks[0]]);
        RunRestartsAtFirstDue(t1, ticks[1..]);
        forall j | 1 <= j < |ticks|
          ensures Due(t0, ticks, j) == Due(t1, ticks[1..], j - 1)
        {
          DueShift(t0, ticks, j);
        }
        assert ticks == [ticks[0]] + ticks[1..];
        LastGoodCons(t0, ticks[0], ticks[1..]);
      }
    }
  }

  /** With an IP address on every tick the device is never restarted, however long the run. */
  lemma AlwaysConnectedNeverRestarts(t0: real, ticks: seq<Sample>)
    requires forall j :: 0 <= j < |ticks| ==> ticks[j].status == IpAcquired
    ensures Run(t0, ticks).Running?
    ensures ticks != [] ==> Run(t0, ticks).lastWifiOk == ticks[|ticks| - 1].now
  {
    RunRestartsAtFirstDue(t0, ticks);
  }

  lemma {:induction false} LastGoodThroughOutage(t0: real, ticks: seq<Sample>)
    requires forall j :: 0 <= j < |ticks| ==> ticks[j].status != IpAcquired
    ensures LastGood(t0, ticks) == t0
    decreases |ticks|
  {
    if ticks != [] {
      LastGoodThroughOutage(t0, ticks[..|ticks| - 1]);
    }
  }

  /**
   * An outage that starts with last-good time `t0`: the restart happens at
   * the first tick whose uptime exceeds `t0` by strictly more than the grace
   * period, and not before; with no such tick there is no restart.
   */
  lemma {:induction false} OutageRestartsAtFirstExpiry(t0: real, ticks: seq<Sample>)
    requires forall j :: 0 <= j < |ticks| ==> ticks[j].status != IpAcquired
    ensures Run(t0, ticks).Restarted? ==>
      ticks[Run(t0, ticks).at].now - t0 > GraceSeconds &&
      forall j :: 0 <= j < Run(t0, ticks).at ==> ticks[j].now - t0 <= GraceSeconds
    ensures Run(t0, ticks).Running? <==> forall j :: 0 <= j < |ticks| ==> ticks[j].now - t0 <= GraceSeconds
  {
    RunRestartsAtFirstDue(t0, ticks);
    forall k | 0 <= k < |ticks|
      ensures Due(t0, ticks, k) <==> ticks[k].now - t0 > GraceSeconds
    {
      LastGoodThroughOutage(t0, ticks[..k]);
    }
  }

  /** Uptime never goes backwards: the first sample is no earlier than `t0`, each later one no earlier than the one before. */
  predicate Chronological(t0: real, ticks: seq<Sample>) {
    (ticks != [] ==> t0 <= ticks[0].now) &&
    forall i :: 0 < i < |ticks| ==> ticks[i - 1].now <= ticks[i].now
  }

  lemma ChronologicalPrefix(t0: real, ticks: seq<Sample>, n: nat)
    requires Chronological(t0, ticks) && n <= |ticks|
    ensures Chronological(t0, ticks[..n])
  {
    var pre := ticks[..n];
    forall i | 0 < i < |pre|
      ensures pre[i - 1].now <= pre[i].now
    {
      assert pre[i - 1] == ticks[i - 1] && pre[i] == ticks[i];
    }
  }

  /** On a monotone clock the last-good time is never later than the latest sample. */
  lemma {:induction false} LastGoodNotAhead(t0: real, ticks: seq<Sample>)
    requires Chronological(t0, ticks)
    ensures LastGood(t0, ticks) <= if ticks == [] then t0 else ticks[|ticks| - 1].now
    decreases |ticks|
  {
    if ticks != [] {
      var n := |ticks|;
      var init := ticks[..n - 1];
      ChronologicalPrefix(t0, ticks, n - 1);
      LastGoodNotAhead(t0, init);
      if init != [] {
        assert init[|init| - 1] == ticks[n - 2];
        assert ticks[n - 2].now <= ticks[n - 1].now;
      }
    }
  }

  /** On a monotone clock the last-good time never decreases from one tick to the next. */
  lemma LastGoodNeverDecreases(t0: real, ticks: seq<Sample>, i: nat)
    requires Chronological(t0, ticks) && i < |ticks|
    ensures LastGood(t0, ticks[..i]) <= LastGood(t0, ticks[..i + 1]) <= ticks[i].now
  {
    var pre := ticks[..i];
    ChronologicalPrefix(t0, ticks, i);
    LastGoodNotAhead(t0, pre);
    if pre != [] {
      assert pre[|pre| - 1] == ticks[i - 1];
      assert ticks[i - 1].now <= ticks[i].now;
    }
    var next := ticks[..i + 1];
    assert next[|next| - 1] == ticks[i] && next[..|next| - 1] == pre;
  }
}
