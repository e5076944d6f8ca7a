# SOL price alert engine, modelled in Dafny

This project models the monitoring engine of `SOLAlertSystem` (`app.py`): a single-asset
monitor that keeps a rolling window of the last 50 fifteen-minute closes. It computes their
exponential moving average (EMA50). It sends an alert when the live price comes within a
threshold of that average, at most once per cooldown.

- `wrappers.dfy`: module `Wrappers`, the `Option` type that stands for Python's `None`.
- `ema.dfy`: module `Ema`. `calculate_ema` is here as a specification function `Ema` and as
  the loop `CalculateEma` proved equal to it. Lemmas cover the mean, the constant fixed point,
  the range bound, incremental extension and the worked example.
- `deque.dfy`: module `Deque`. `Window` is what a `deque(maxlen=n)` holds after a run of
  appends. Lemmas cover eviction, the agreement of per-element and bulk eviction, and seeding.
- `monitor.dfy`: module `Monitor`. It holds the decision functions (`CooldownElapsed`,
  `AlertDue`, `Seeded`, `Refreshed`, `RefreshDue`) and lemmas about them. Its class
  `AlertSystem` carries the state that the source updates in place: `priceHistory` (the deque,
  as a sequence), `lastAlertTime` and the configured threshold and cooldown. Its methods
  mirror the source's methods. `MonitorCycle` is one pass of the `run_monitor` loop.
  `Cycle` and `Cycles` specify one pass and a run of passes on values. `RunMonitor` runs the
  loop over a finite list of observations, is proved equal to `Cycles`, and its alerts are
  proved more than one cooldown apart.

The exchange and the clock are parameters. Each cycle receives an `Observation`: the clock
reading `now`, the live price as `Option<real>` and the refresh candles' closes as
`Option<seq<real>>`. `None` stands for every failed fetch, whether the source caught a
network error, an exchange error or any other exception.

## Model

| member | source | states |
|---|---|---|
| `Ema.Ema` | app.py:52-65 | the EMA has no value exactly when fewer than `period` prices are given |
| `Ema.Multiplier` | app.py:59 | the smoothing multiplier `2/(period+1)` lies in (0, 1] for every period of at least 1 |
| `Ema.CalculateEma` | app.py:52-65 | the seed-then-loop computation returns exactly the specified EMA (None below `period` prices) |
| `Ema.EmaOfExactWindow` | app.py:58-65 | with exactly `period` prices the EMA is their arithmetic mean |
| `Ema.EmaOfConstant` | app.py:58-65 | a run of at least `period` copies of `v` has EMA `v` (fixed point of the recurrence) |
| `Ema.EmaWithinRange` | app.py:58-65 | the EMA lies between the smallest and the largest price of its input |
| `Ema.EmaExtend` | app.py:62-63 | one more price changes the EMA by exactly one step `(p - ema)*k + ema` |
| `Ema.EmaExample` | app.py:52-65 | period 3 over [1, 2, 3, 10] yields 6.0 |
| `Deque.Window` | app.py:14 | a bounded deque holds the newest `min(n, maxlen)` values appended, in order |
| `Deque.AppendEvictsOldest` | app.py:14 | appending to a full deque drops exactly the oldest value and adds the new one last |
| `Deque.AppendWithinCapacity` | app.py:14 | appending to a deque that is not full keeps every value |
| `Deque.WindowAppend` | app.py:71-72 | evicting after every append equals evicting once after appending everything |
| `Deque.ExtendKeepsLast` | app.py:71-72 | extending with at least `maxlen` values keeps exactly the last `maxlen` of them |
| `Monitor.CooldownBoundary` | app.py:101-105 | no previous alert allows an alert; exactly `cooldown` seconds after one does not; any later time does |
| `Monitor.NoAlertWithinCooldown` | app.py:101-105 | after an alert at `t`, no evaluation up to `t + cooldown` fires, whatever the prices |
| `Monitor.Abs` | app.py:120 | the gap is non-negative and equals the difference or its negation |
| `Monitor.CooldownElapsed` | app.py:101-105 | with no previous alert an alert is allowed; up to and including `cooldown` seconds after one it is not |
| `Monitor.AlertDue` | app.py:107-131 | an alert is due only on a full history, with the live price within the threshold of the EMA on either side and the cooldown elapsed |
| `Monitor.Seeded` | app.py:67-75 | seeding fails exactly on None or empty closes; otherwise the history holds 1 to 50 prices and ends with the newest close |
| `Monitor.RefreshAppends` | app.py:138-142 | a close is appended only when at least 2 candles were fetched and it differs from the history's last entry |
| `Monitor.Refreshed` | app.py:133-149 | without an append the history is unchanged; with one it ends with `ohlcv[-2]`'s close; it never exceeds 50 entries |
| `Monitor.RefreshDue` | app.py:177 | a refresh is due only after the last one, and exactly 900 s after it is due (inclusive) |
| `Monitor.Cycle` | app.py:166-185 | one loop pass: a failed price fetch changes nothing; at most one alert is added, and only when the cooldown since the recorded one has elapsed, which then becomes `now`; the history stays within 50 |
| `Monitor.ThresholdInclusive` | app.py:120-127 | with a full history and an elapsed cooldown, a price exactly `threshold` above or below the EMA fires and any price further away does not |
| `Monitor.NoAlertDuringWarmUp` | app.py:109-111 | no alert is due while the history holds fewer than 50 prices |
| `Monitor.ConstantHistoryFires` | app.py:107-131 | 50 closes of 100.0 and a live price of 100.005 fire on the first evaluation and not on a second one at the same time |
| `Monitor.SeededKeepsNewest` | app.py:67-75 | seeding fails exactly when the closes are None or empty; otherwise it keeps the newest `min(N, 50)` closes in order |
| `Monitor.RefreshedLength` | app.py:138-149 | a refresh keeps the history within 50 entries and changes it only when it appends one close |
| `Monitor.RefreshedNoRepeatAtEnd` | app.py:141-143 | a refresh that appends puts the second-to-last fetched close last, different from the entry before it |
| `Monitor.RefreshIdempotent` | app.py:138-145 | refreshing twice with the same fetched candles equals refreshing once (no duplicate ingestion) |
| `Monitor.CyclesSpaced` | app.py:99-105 | over any run of loop passes, consecutive alerts are more than one cooldown apart and the last is the recorded alert time |
| `Monitor.CyclesWithinCapacity` | app.py:14 | however many loop passes run, the history stays within 50 entries |
| `Monitor.CyclesAlertTimes` | app.py:127-128 | every alert a run of loop passes sends falls at the clock reading of one of its passes |
| `Monitor.FailedFetchesChangeNothing` | app.py:168-173 | loop passes whose price fetch failed leave history, alert time and refresh time unchanged |
| `Monitor.AlertSystem.constructor` | app.py:11-18 | a new system has an empty history and no alert sent |
| `Monitor.AlertSystem.Append` | app.py:143 | the history becomes the bounded window of the old history plus the new close, and stays within 50 |
| `Monitor.AlertSystem.Extend` | app.py:72 | appending the closes one by one leaves the bounded window of the old history plus all of them |
| `Monitor.AlertSystem.InitializePriceHistory` | app.py:67-75 | returns true exactly when closes were fetched and are non-empty, and only then extends the history |
| `Monitor.AlertSystem.UpdatePriceHistory` | app.py:133-149 | appends the second-to-last close exactly when at least 2 were fetched and the history is empty or ends differently; otherwise nothing changes and the result is false |
| `Monitor.AlertSystem.ShouldSendAlert` | app.py:101-105 | true with no previous alert; otherwise true exactly when `now` is strictly past the last alert plus the cooldown |
| `Monitor.AlertSystem.SendAlert` | app.py:99 | the alert time becomes `now`; the history is untouched |
| `Monitor.AlertSystem.CheckAlertCondition` | app.py:107-131 | fires exactly when the history is full, the gap is at most the threshold and the cooldown has elapsed; then and only then the alert time becomes `now`; the history never changes |
| `Monitor.AlertSystem.MonitorCycle` | app.py:166-185 | a failed price fetch changes nothing; otherwise a refresh runs exactly when at least 900 s passed, the refresh time then becomes `now` whether or not a close was appended, and the alert check runs on the resulting history; the whole effect is that of `Cycle` |
| `Monitor.AlertSystem.RunMonitor` | app.py:151-185 | the loop starts exactly when seeding obtained closes, and otherwise nothing changes; once started, the final history, alert time and alerts sent are those of one `Cycle` per observation from the seeded state; alerts are more than one cooldown apart and each falls at the time of an observed pass |

## Left out

- The exchange calls (`get_current_price`, `get_15min_klines` and the `fetch_ohlcv` call in `update_price_history`) are network I/O. Their results are the `Option` inputs, and every caught exception is `None`.
- Only the closes of the fetched candles are modelled. The other OHLCV columns are never read.
- The alert message, the status lines and all other printing are presentation only. `send_alert` keeps just its update of `last_alert_time`.
- `time.time()` and `time.sleep` are not modelled. Each cycle takes one clock reading `now`. The source reads the clock again in `should_send_alert` and in `send_alert`, so it stores a slightly later time than the one it compared. The model stores the compared time.
- `Monitor.AlertSystem.RunMonitor`: models a finite prefix of the `while True` loop, one cycle per observation. Stopping on `KeyboardInterrupt` and the handler for other exceptions are process lifecycle. That handler sleeps 60 s and then returns, so nothing restarts.
- Floating-point rounding: prices and times are `real`, so the EMA is exact. The 32/64-bit float behaviour of the source is not captured.
- `Ema.Ema`, `Ema.CalculateEma`: require `period >= 1`. A period of 0 makes the source divide by zero, and every caller passes 50.
- The list `ema` that `calculate_ema` builds is a single running value, because only its last element is ever read.
- `main`'s configuration is the constructor's parameters (threshold 0.01, cooldown 300 s). The unused pandas, numpy and json imports are not part of the model.
- An uncaught exception inside a cycle ends `run_monitor` after a 60 s sleep (app.py:189-192); nothing restarts.
- `last_history_update` is set after every attempted refresh, whether or not a close was appended (app.py:177-179); `MonitorCycle` and `Cycle` do the same.
