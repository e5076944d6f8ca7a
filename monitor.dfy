/**
 * The monitoring engine of `SOLAlertSystem` (app.py): the bounded price history, the
 * cooldown-gated alert decision and the polling loop. The exchange, the wall clock and the
 * console are not modelled: every fetched value and every `time.time()` reading is a parameter.
 */
module Monitor {
  import opened Wrappers
  import Ema
  import Deque

  /** Capacity of the price history, `deque(maxlen=50)`. */
  const MaxLen: nat := 50
  /** The EMA period, `ema_period`. */
  const EmaPeriod: nat := 50
  /** Seconds between two history refreshes, `history_update_interval`. */
  const HistoryUpdateInterval: real := 900.0
  /** The values `main` configures: a gap threshold of 0.01 and a cooldown of 300 seconds. */
  const DefaultAlertThreshold: real := 0.01
  const DefaultAlertCooldown: real := 300.0

  /** What one pass of the polling loop observes from the outside world. */
  datatype Observation = Observation(
    now: real,                   // the clock reading of the cycle
    price: Option<real>,         // the live price; None when the fetch failed
    recent: Option<seq<real>>)   // closes of the last candles fetched on refresh; None on failure

  function Abs(x: real): (r: real)
    ensures r >= 0.0 && (r == x || r == -x)
  {
    if x < 0.0 then -x else x
  }

  // ---------------------------------------------------------------------------
  // Specification of the operations

  /** `should_send_alert`: no alert sent yet, or strictly more than `cooldown` seconds since. */
  predicate CooldownElapsed(lastAlert: Option<real>, now: real, cooldown: real)
    ensures lastAlert.None? ==> CooldownElapsed(lastAlert, now, cooldown)
    ensures lastAlert.Some? && now <= lastAlert.value + cooldown ==> !CooldownElapsed(lastAlert, now, cooldown)
  {
    lastAlert.None? || now - lastAlert.value > cooldown
  }

  /** `check_alert_condition`'s verdict on a given history, live price and alert state. */
  predicate AlertDue(history: seq<real>, price: real, now: real, lastAlert: Option<real>,
                     threshold: real, cooldown: real)
    ensures AlertDue(history, price, now, lastAlert, threshold, cooldown) ==>
      |history| >= EmaPeriod && CooldownElapsed(lastAlert, now, cooldown) &&
      -threshold <= price - Ema.Ema(history, EmaPeriod).value <= threshold
  {
    |history| >= EmaPeriod &&
    var ema := Ema.Ema(history, EmaPeriod);
    ema.Some? && Abs(price - ema.value) <= threshold && CooldownElapsed(lastAlert, now, cooldown)
  }

  /** `initialize_price_history`: the history after seeding, or None when no close was fetched. */
  function Seeded(history: seq<real>, closes: Option<seq<real>>): (r: Option<seq<real>>)
    ensures r.None? <==> closes.None? || closes.value == []
    ensures r.Some? ==> 1 <= |r.value| <= MaxLen && r.value[|r.value| - 1] == closes.value[|closes.value| - 1]
  {
    if closes.Some? && closes.value != [] then Some(Deque.Window(history + closes.value, MaxLen))
    else None
  }

  /** Whether `update_price_history` appends: the second-to-last close, unless it repeats the last entry. */
  predicate RefreshAppends(history: seq<real>, recent: Option<seq<real>>)
    ensures RefreshAppends(history, recent) ==> recent.Some? && |recent.value| >= 2
    ensures RefreshAppends(history, recent) && history != [] ==>
      history[|history| - 1] != recent.value[|recent.value| - 2]
  {
    recent.Some? && |recent.value| >= 2 &&
    (history == [] || recent.value[|recent.value| - 2] != history[|history| - 1])
  }

  /** The history after `update_price_history`. */
  function Refreshed(history: seq<real>, recent: Option<seq<real>>): (r: seq<real>)
    ensures !RefreshAppends(history, recent) ==> r == history
    ensures RefreshAppends(history, recent) ==> r != [] && r[|r| - 1] == recent.value[|recent.value| - 2]
    ensures |history| <= MaxLen ==> |r| <= MaxLen
  {
    if RefreshAppends(history, recent)
    then Deque.Window(history + [recent.value[|recent.value| - 2]], MaxLen)
    else history
  }

  /** Whether a cycle at `now` refreshes the history (inclusive comparison with the interval). */
  predicate RefreshDue(lastHistoryUpdate: real, now: real)
    ensures RefreshDue(lastHistoryUpdate, now) ==> now > lastHistoryUpdate
    ensures now == lastHistoryUpdate + HistoryUpdateInterval ==> RefreshDue(lastHistoryUpdate, now)
  {
    now - lastHistoryUpdate >= HistoryUpdateInterval
  }

  /** Consecutive alert times are more than `cooldown` apart, and the first is after `last`'s cooldown. */
  predicate Spaced(last: Option<real>, alerts: seq<real>, cooldown: real)
  {
    (alerts != [] ==> CooldownElapsed(last, alerts[0], cooldown)) &&
    forall i :: 0 < i < |alerts| ==> alerts[i] - alerts[i - 1] > cooldown
  }

  /**
   * The state `run_monitor` carries from one pass of its loop to the next: the price history,
   * the time of the last alert, its local `last_history_update`, and the alerts sent so far.
   */
  datatype EngineState = EngineState(
    history: seq<real>,
    lastAlert: Option<real>,
    lastHistoryUpdate: real,
    alerts: seq<real>)

  /**
   * The effect of one pass of the loop on observation `obs`: a failed price fetch changes
   * nothing; otherwise a due refresh updates the history and `last_history_update`, then an
   * alert that is due is sent and recorded.
   */
  function Cycle(s: EngineState, obs: Observation, threshold: real, cooldown: real): (r: EngineState)
    ensures obs.price.None? ==> r == s
    ensures r.alerts == s.alerts || r.alerts == s.alerts + [obs.now]
    ensures r.alerts == s.alerts ==> r.lastAlert == s.lastAlert
    ensures r.alerts != s.alerts ==>
      r.lastAlert == Some(obs.now) && CooldownElapsed(s.lastAlert, obs.now, cooldown)
    ensures |s.history| <= MaxLen ==> |r.history| <= MaxLen
  {
    if obs.price.None? then s
    else
      var refresh := RefreshDue(s.lastHistoryUpdate, obs.now);
      var history := if refresh then Refreshed(s.history, obs.recent) else s.history;
      var fired := AlertDue(history, obs.price.value, obs.now, s.lastAlert, threshold, cooldown);
      EngineState(
        history,
        if fired then Some(obs.now) else s.lastAlert,
        if refresh then obs.now else s.lastHistoryUpdate,
        if fired then s.alerts + [obs.now] else s.alerts)
  }

  /** The state after one pass of the loop per observation, in order. */
  function Cycles(s: EngineState, observations: seq<Observation>, threshold: real, cooldown: real): (r: EngineState)
  {
    if observations == [] then s
    else Cycle(Cycles(s, observations[..|observations| - 1], threshold, cooldown),
               observations[|observations| - 1], threshold, cooldown)
  }

  // ---------------------------------------------------------------------------
  // Properties of the specification

  /** The cooldown boundary is exclusive: at exactly `cooldown` seconds no alert is allowed, just after it is. */
  lemma CooldownBoundary(t: real, cooldown: real, d: real)
    requires d > 0.0
    ensures !CooldownElapsed(Some(t), t + cooldown, cooldown)
    ensures CooldownElapsed(Some(t), t + cooldown + d, cooldown)
    ensures CooldownElapsed(None, t, cooldown)
  {
  }

  /** Once an alert is sent at `t`, no evaluation within the cooldown fires, whatever the prices. */
  lemma NoAlertWithinCooldown(history: seq<real>, price: real, t: real, now: real,
                              threshold: real, cooldown: real)
    requires now <= t + cooldown
    ensures !AlertDue(history, price, now, Some(t), threshold, cooldown)
  {
  }

  /**
   * The tolerance boundary is inclusive on both sides of the EMA: with a full history and an
   * elapsed cooldown, a gap equal to the threshold fires and any larger gap does not.
   */
  lemma ThresholdInclusive(history: seq<real>, now: real, lastAlert: Option<real>,
                           threshold: real, cooldown: real, d: real)
    requires |history| >= EmaPeriod && threshold >= 0.0 && d > 0.0
    requires CooldownElapsed(lastAlert, now, cooldown)
    ensures var ema := Ema.Ema(history, EmaPeriod).value;
      AlertDue(history, ema + threshold, now, lastAlert, threshold, cooldown) &&
      AlertDue(history, ema - threshold, now, lastAlert, threshold, cooldown) &&
      !AlertDue(history, ema + threshold + d, now, lastAlert, threshold, cooldown) &&
      !AlertDue(history, ema - threshold - d, now, lastAlert, threshold, cooldown)
  {
  }

  /** An alert is never due before the history holds `EmaPeriod` prices. */
  lemma NoAlertDuringWarmUp(history: seq<real>, price: real, now: real, lastAlert: Option<real>,
                            threshold: real, cooldown: real)
    requires |history| < EmaPeriod
    ensures !AlertDue(history, price, now, lastAlert, threshold, cooldown)
  {
  }

  /**
   * The end-to-end scenario: 50 closes of 100.0 give an EMA of 100.0, so a live price of
   * 100.005 is within the default tolerance and the first evaluation fires.
   */
  lemma ConstantHistoryFires(history: seq<real>, now: real)
    requires |history| == MaxLen
    requires forall i :: 0 <= i < |history| ==> history[i] == 100.0
    ensures AlertDue(history, 100.005, now, None, DefaultAlertThreshold, DefaultAlertCooldown)
    ensures !AlertDue(history, 100.005, now, Some(now), DefaultAlertThreshold, DefaultAlertCooldown)
  {
    Ema.EmaOfConstant(history, EmaPeriod, 100.0);
  }

  /** Seeding fails exactly when no close was fetched; otherwise it keeps the newest closes, at most `MaxLen`. */
  lemma SeededKeepsNewest(closes: Option<seq<real>>)
    ensures Seeded([], closes).None? <==> closes.None? || closes.value == []
    ensures Seeded([], closes).Some? ==>
      var n := if |closes.value| < MaxLen then |closes.value| else MaxLen;
      Seeded([], closes).value == closes.value[|closes.value| - n..]
  {
    if closes.Some? && |closes.value| >= MaxLen {
      Deque.ExtendKeepsLast([], closes.value, MaxLen);
    }
  }

  /** A refresh never changes the history's length by more than one and keeps it within capacity. */
  lemma RefreshedLength(history: seq<real>, recent: Option<seq<real>>)
    requires |history| <= MaxLen
    ensures |Refreshed(history, recent)| <= MaxLen
    ensures Refreshed(history, recent) != history ==> RefreshAppends(history, recent)
    ensures RefreshAppends(history, recent) ==>
      |Refreshed(history, recent)| == if |history| < MaxLen then |history| + 1 else MaxLen
  {
  }

  /** A refresh that appends leaves the new close last, different from the entry before it. */
  lemma RefreshedNoRepeatAtEnd(history: seq<real>, recent: Option<seq<real>>)
    requires |history| <= MaxLen
    requires history != [] && RefreshAppends(history, recent)
    ensures var r := Refreshed(history, recent);
      |r| >= 2 && r[|r| - 1] == recent.value[|recent.value| - 2] && r[|r| - 2] != r[|r| - 1]
  {
    var c := recent.value[|recent.value| - 2];
    if |history| == MaxLen {
      Deque.AppendEvictsOldest(history, c, MaxLen);
    }
  }

  /** Refreshing twice with the same fetched candles is the same as refreshing once. */
  lemma RefreshIdempotent(history: seq<real>, recent: Option<seq<real>>)
    ensures Refreshed(Refreshed(history, recent), recent) == Refreshed(history, recent)
  {
    if RefreshAppends(history, recent) {
      var r := Refreshed(history, recent);
      var c := recent.value[|recent.value| - 2];
      var s := history + [c];
      assert r == s[|s| - |r|..];
      assert r[|r| - 1] == c;
      assert !RefreshAppends(r, recent);
    }
  }

  /** One more element of `deque.extend`: bounding after each append agrees with bounding at the end. */
  lemma ExtendStep(before: seq<real>, prices: seq<real>, i: nat)
    requires i < |prices|
    ensures Deque.Window(Deque.Window(before + prices[..i], MaxLen) + [prices[i]], MaxLen)
         == Deque.Window(before + prices[..i + 1], MaxLen)
  {
    assert before + prices[..i + 1] == (before + prices[..i]) + [prices[i]];
    Deque.WindowAppend(before + prices[..i], prices[i], MaxLen);
  }

  /**
   * Over any run of cycles that starts with no alert recorded, the alerts sent are more than
   * one cooldown apart (the first after the cooldown of `s.lastAlert`), and the last one is
   * the recorded alert time.
   */
  lemma {:induction false} CyclesSpaced(s: EngineState, observations: seq<Observation>,
                                        threshold: real, cooldown: real)
    requires s.alerts == []
    ensures var r := Cycles(s, observations, threshold, cooldown);
      Spaced(s.lastAlert, r.alerts, cooldown) &&
      r.lastAlert == if r.alerts == [] then s.lastAlert else Some(r.alerts[|r.alerts| - 1])
  {
    if observations != [] {
      var init := observations[..|observations| - 1];
      CyclesSpaced(s, init, threshold, cooldown);
      var p := Cycles(s, init, threshold, cooldown);
      var r := Cycle(p, observations[|observations| - 1], threshold, cooldown);
      if r.alerts != p.alerts {
        assert r.alerts[..|p.alerts|] == p.alerts;
      }
    }
  }

  /** A cycle's effect does not depend on the alerts sent before it: it only appends to them. */
  lemma CycleAppendsAlerts(s: EngineState, obs: Observation, threshold: real, cooldown: real)
    ensures var c := Cycle(s.(alerts := []), obs, threshold, cooldown);
      Cycle(s, obs, threshold, cooldown) == c.(alerts := s.alerts + c.alerts)
  {
  }

  /** Running one more observation is one more `Cycle` on the state reached so far. */
  lemma CyclesStep(s: EngineState, observations: seq<Observation>, i: nat, threshold: real, cooldown: real)
    requires i < |observations|
    ensures Cycles(s, observations[..i + 1], threshold, cooldown)
         == Cycle(Cycles(s, observations[..i], threshold, cooldown), observations[i], threshold, cooldown)
  {
    assert observations[..i + 1][..i] == observations[..i];
  }

  /** Every alert a run of cycles adds is sent at the clock reading of one of its observations. */
  lemma {:induction false} CyclesAlertTimes(s: EngineState, observations: seq<Observation>,
                                            threshold: real, cooldown: real)
    ensures forall a :: a in Cycles(s, observations, threshold, cooldown).alerts ==>
      a in s.alerts || exists o :: o in observations && o.now == a
  {
    if observations != [] {
      var init := observations[..|observations| - 1];
      CyclesAlertTimes(s, init, threshold, cooldown);
      assert forall o :: o in init ==> o in observations;
    }
  }

  /** However many cycles run, the history stays within the deque's capacity. */
  lemma {:induction false} CyclesWithinCapacity(s: EngineState, observations: seq<Observation>,
                                                threshold: real, cooldown: real)
    requires |s.history| <= MaxLen
    ensures |Cycles(s, observations, threshold, cooldown).history| <= MaxLen
  {
    if observations != [] {
      CyclesWithinCapacity(s, observations[..|observations| - 1], threshold, cooldown);
    }
  }

  /** Cycles whose price fetch all failed leave the whole state as it was. */
  lemma {:induction false} FailedFetchesChangeNothing(s: EngineState, observations: seq<Observation>,
                                                      threshold: real, cooldown: real)
    requires forall i :: 0 <= i < |observations| ==> observations[i].price.None?
    ensures Cycles(s, observations, threshold, cooldown) == s
  {
    if observations != [] {
      FailedFetchesChangeNothing(s, observations[..|observations| - 1], threshold, cooldown);
    }
  }

  // ---------------------------------------------------------------------------
  // The engine

  class AlertSystem {
    /** `price_history`, oldest close first. */
    var priceHistory: seq<real>
    /** `last_alert_time`: when the last alert was sent, None before the first. */
    var lastAlertTime: Option<real>
    /** `alert_threshold` and `alert_cooldown`, fixed for a run. */
    const alertThreshold: real
    const alertCooldown: real

    /** The deque never holds more than `MaxLen` prices. */
    ghost predicate Valid()
      reads this
    {
      |priceHistory| <= MaxLen
    }

    /** `__init__` followed by `main`'s assignment of the threshold and the cooldown. */
    constructor (threshold: real, cooldown: real)
      ensures Valid()
      ensures priceHistory == [] && lastAlertTime == None
      ensures alertThreshold == threshold && alertCooldown == cooldown
    {
      priceHistory := [];
      lastAlertTime := None;
      alertThreshold := threshold;
      alertCooldown := cooldown;
    }

    /** `deque.append`: add `price` last, evicting the oldest entry when the deque is full. */
    method Append(price: real)
      requires Valid()
      modifies this
      ensures Valid()
      ensures priceHistory == Deque.Window(old(priceHistory) + [price], MaxLen)
      ensures lastAlertTime == old(lastAlertTime)
    {
      if |priceHistory| == MaxLen {
        priceHistory := priceHistory[1..];
      }
      priceHistory := priceHistory + [price];
    }

    /** `deque.extend`: append each price in order. */
    method Extend(prices: seq<real>)
      requires Valid()
      modifies this
      ensures Valid()
      ensures priceHistory == Deque.Window(old(priceHistory) + prices, MaxLen)
      ensures lastAlertTime == old(lastAlertTime)
    {
      ghost var before := priceHistory;
      var i := 0;
      while i < |prices|
        invariant 0 <= i <= |prices|
        invariant Valid()
        invariant priceHistory == Deque.Window(before + prices[..i], MaxLen)
        invariant lastAlertTime == old(lastAlertTime)
      {
        ExtendStep(before, prices, i);
        Append(prices[i]);
        i := i + 1;
      }
      assert prices[..i] == prices;
    }

    /** `initialize_price_history`, given the closes the exchange returned (None on failure). */
    method InitializePriceHistory(closes: Option<seq<real>>) returns (ok: bool)
      requires Valid()
      modifies this
      ensures Valid()
      ensures ok <==> Seeded(old(priceHistory), closes).Some?
      ensures priceHistory == if ok then Seeded(old(priceHistory), closes).value else old(priceHistory)
      ensures lastAlertTime == old(lastAlertTime)
    {
      if closes.Some? && closes.value != [] {
        Extend(closes.value);
        return true;
      }
      return false;
    }

    /** `update_price_history`, given the closes of the last candles fetched (None on failure). */
    method UpdatePriceHistory(recent: Option<seq<real>>) returns (appended: bool)
      requires Valid()
      modifies this
      ensures Valid()
      ensures appended == RefreshAppends(old(priceHistory), recent)
      ensures priceHistory == Refreshed(old(priceHistory), recent)
      ensures lastAlertTime == old(lastAlertTime)
    {
      if recent.Some? && |recent.value| >= 2 {
        var latestClose := recent.value[|recent.value| - 2];
        if priceHistory == [] || latestClose != priceHistory[|priceHistory| - 1] {
          assert RefreshAppends(priceHistory, recent);
          Append(latestClose);
          return true;
        }
      }
      assert !RefreshAppends(priceHistory, recent);
      return false;
    }

    /**
     * `should_send_alert` at clock reading `now`: the source's method of that name, evaluated
     * through `CooldownElapsed` on this system's alert time and cooldown.
     */
    function ShouldSendAlert(now: real): (r: bool)
      reads this
      ensures lastAlertTime.None? ==> r
      ensures lastAlertTime.Some? ==> (r <==> now > lastAlertTime.value + alertCooldown)
    {
      CooldownElapsed(lastAlertTime, now, alertCooldown)
    }

    /** The state effect of `send_alert`: record the time of the alert. */
    method SendAlert(now: real)
      modifies this
      ensures lastAlertTime == Some(now)
      ensures priceHistory == old(priceHistory)
    {
      lastAlertTime := Some(now);
    }

    /** `check_alert_condition` for the live price `price` at clock reading `now`. */
    method CheckAlertCondition(price: real, now: real) returns (fired: bool)
      requires Valid()
      modifies this
      ensures Valid()
      ensures fired == AlertDue(old(priceHistory), price, now, old(lastAlertTime), alertThreshold, alertCooldown)
      ensures lastAlertTime == if fired then Some(now) else old(lastAlertTime)
      ensures priceHistory == old(priceHistory)
    {
      if |priceHistory| < EmaPeriod {
        return false;
      }
      var ema50 := Ema.CalculateEma(priceHistory, EmaPeriod);
      if ema50.Some? && Abs(price - ema50.value) <= alertThreshold && ShouldSendAlert(now) {
        SendAlert(now);
        return true;
      }
      return false;
    }

    /**
     * One pass of the `run_monitor` loop. `lastHistoryUpdate` is the loop's local of that name;
     * its new value is returned.
     */
    method MonitorCycle(lastHistoryUpdate: real, obs: Observation) returns (nextHistoryUpdate: real, alerted: bool)
      requires Valid()
      modifies this
      ensures Valid()
      ensures obs.price.None? ==>
        nextHistoryUpdate == lastHistoryUpdate && !alerted &&
        priceHistory == old(priceHistory) && lastAlertTime == old(lastAlertTime)
      ensures obs.price.Some? ==>
        var refresh := RefreshDue(lastHistoryUpdate, obs.now);
        var history := if refresh then Refreshed(old(priceHistory), obs.recent) else old(priceHistory);
        nextHistoryUpdate == (if refresh then obs.now else lastHistoryUpdate) &&
        priceHistory == history &&
        alerted == AlertDue(history, obs.price.value, obs.now, old(lastAlertTime), alertThreshold, alertCooldown) &&
        lastAlertTime == (if alerted then Some(obs.now) else old(lastAlertTime))
      ensures Cycle(EngineState(old(priceHistory), old(lastAlertTime), lastHistoryUpdate, []), obs, alertThreshold, alertCooldown)
           == EngineState(priceHistory, lastAlertTime, nextHistoryUpdate, if alerted then [obs.now] else [])
    {
      if obs.price.None? {
        return lastHistoryUpdate, false;
      }
      nextHistoryUpdate := lastHistoryUpdate;
      if obs.now - lastHistoryUpdate >= HistoryUpdateInterval {
        var _ := UpdatePriceHistory(obs.recent);
        nextHistoryUpdate := obs.now;
      }
      alerted := CheckAlertCondition(obs.price.value, obs.now);
    }

    /**
     * `run_monitor` over the first `|observations|` passes of its loop: seed the history from
     * `closes` (stopping when there are none), then run one cycle per observation. Returns
     * whether the loop started and the times of the alerts sent.
     */
    method RunMonitor(closes: Option<seq<real>>, startTime: real, observations: seq<Observation>)
      returns (started: bool, alerts: seq<real>)
      requires Valid()
      modifies this
      ensures Valid()
      ensures started <==> Seeded(old(priceHistory), closes).Some?
      ensures !started ==>
        alerts == [] && priceHistory == old(priceHistory) && lastAlertTime == old(lastAlertTime)
      ensures started ==>
        var seeded := EngineState(Seeded(old(priceHistory), closes).value, old(lastAlertTime), startTime, []);
        var r := Cycles(seeded, observations, alertThreshold, alertCooldown);
        priceHistory == r.history && lastAlertTime == r.lastAlert && alerts == r.alerts
      ensures Spaced(old(lastAlertTime), alerts, alertCooldown)
      ensures forall a :: a in alerts ==> exists o :: o in observations && o.now == a
    {
      alerts := [];
      started := InitializePriceHistory(closes);
      if !started {
        return;
      }
      var lastHistoryUpdate := startTime;
      ghost var seeded := EngineState(priceHistory, lastAlertTime, startTime, []);
      var i := 0;
      while i < |observations|
        invariant 0 <= i <= |observations|
        invariant Valid()
        invariant EngineState(priceHistory, lastAlertTime, lastHistoryUpdate, alerts)
               == Cycles(seeded, observations[..i], alertThreshold, alertCooldown)
      {
        ghost var before := EngineState(priceHistory, lastAlertTime, lastHistoryUpdate, alerts);
        CyclesStep(seeded, observations, i, alertThreshold, alertCooldown);
        CycleAppendsAlerts(before, observations[i], alertThreshold, alertCooldown);
        var alerted;
        lastHistoryUpdate, alerted := MonitorCycle(lastHistoryUpdate, observations[i]);
        if alerted {
          alerts := alerts + [observations[i].now];
        }
        assert EngineState(priceHistory, lastAlertTime, lastHistoryUpdate, alerts)
            == Cycle(before, observations[i], alertThreshold, alertCooldown);
        i := i + 1;
      }
      assert observations[..i] == observations;
      CyclesAlertTimes(seeded, observations, alertThreshold, alertCooldown);
      CyclesSpaced(seeded, observations, alertThreshold, alertCooldown);
    }
  }
}
