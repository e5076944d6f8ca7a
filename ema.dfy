/**
 * The trend estimator: the exponential moving average of `SOLAlertSystem.calculate_ema`
 * (app.py). Prices are modelled as `real`, so there is no floating-point rounding.
 */
module Ema {
  import opened Wrappers

  /** Sum of a price window (Python's `sum`). */
  function Sum(s: seq<real>): (r: real)
  {
    if s == [] then 0.0 else Sum(s[..|s| - 1]) + s[|s| - 1]
  }

  /** The smoothing multiplier `k = 2 / (period + 1)`. */
  function Multiplier(period: nat): (k: real)
    requires period >= 1
    ensures 0.0 < k <= 1.0
  {
    2.0 / (period as real + 1.0)
  }

  /** One step of the recurrence: move `ema` toward `price` by the fraction `k`. */
  function Step(ema: real, price: real, k: real): (r: real)
  {
    (price - ema) * k + ema
  }

  /** The EMA after folding `rest` into `seed`, oldest sample first. */
  function Smooth(seed: real, rest: seq<real>, k: real): (r: real)
  {
    if rest == [] then seed else Step(Smooth(seed, rest[..|rest| - 1], k), rest[|rest| - 1], k)
  }

  /**
   * The EMA of `prices` at `period`: no value while fewer than `period` prices are known;
   * otherwise the mean of the first `period` prices, smoothed by every later price in order.
   */
  function Ema(prices: seq<real>, period: nat): (r: Option<real>)
    requires period >= 1
    ensures r.None? <==> |prices| < period
  {
    if |prices| < period then None
    else Some(Smooth(Sum(prices[..period]) / period as real, prices[period..], Multiplier(period)))
  }

  /** `calculate_ema`: the seed is the mean, then the loop applies the recurrence once per later price. */
  method CalculateEma(prices: seq<real>, period: nat) returns (r: Option<real>)
    requires period >= 1
    ensures r == Ema(prices, period)
  {
    if |prices| < period {
      return None;
    }
    var seed := Sum(prices[..period]) / period as real;
    var multiplier := 2.0 / (period as real + 1.0);
    var ema := seed;
    var i := period;
    while i < |prices|
      invariant period <= i <= |prices|
      invariant ema == Smooth(seed, prices[period..i], multiplier)
    {
      SmoothOneMore(seed, prices, period, i, multiplier);
      ema := (prices[i] - ema) * multiplier + ema;
      i := i + 1;
    }
    assert prices[period..i] == prices[period..];
    return Some(ema);
  }

  /** The loop's step: smoothing over one more price is one more `Step`. */
  lemma SmoothOneMore(seed: real, prices: seq<real>, period: nat, i: nat, k: real)
    requires period <= i < |prices|
    ensures Smooth(seed, prices[period..i + 1], k) == Step(Smooth(seed, prices[period..i], k), prices[i], k)
  {
    var done := prices[period..i + 1];
    assert done[..|done| - 1] == prices[period..i];
  }

  // ---------------------------------------------------------------------------
  // Properties of the estimator

  /** With exactly `period` prices the EMA is their arithmetic mean. */
  lemma EmaOfExactWindow(prices: seq<real>, period: nat)
    requires period >= 1 && |prices| == period
    ensures Ema(prices, period) == Some(Sum(prices) / period as real)
  {
    assert prices[..period] == prices;
    assert prices[period..] == [];
  }

  lemma {:induction false} SumOfConstant(s: seq<real>, v: real)
    requires forall i :: 0 <= i < |s| ==> s[i] == v
    ensures Sum(s) == |s| as real * v
  {
    if s != [] {
      SumOfConstant(s[..|s| - 1], v);
    }
  }

  lemma {:induction false} SmoothFixedPoint(v: real, rest: seq<real>, k: real)
    requires forall i :: 0 <= i < |rest| ==> rest[i] == v
    ensures Smooth(v, rest, k) == v
  {
    if rest != [] {
      SmoothFixedPoint(v, rest[..|rest| - 1], k);
    }
  }

  /** A constant price `v` is a fixed point: the EMA of any long-enough run of `v` is `v`. */
  lemma {:induction false} EmaOfConstant(prices: seq<real>, period: nat, v: real)
    requires period >= 1 && |prices| >= period
    requires forall i :: 0 <= i < |prices| ==> prices[i] == v
    ensures Ema(prices, period) == Some(v)
  {
    SumOfConstant(prices[..period], v);
    var n := period as real;
    assert Sum(prices[..period]) / n == v by {
      assert Sum(prices[..period]) == n * v;
    }
    SmoothFixedPoint(v, prices[period..], Multiplier(period));
  }

  lemma {:induction false} SumBounds(s: seq<real>, lo: real, hi: real)
    requires forall i :: 0 <= i < |s| ==> lo <= s[i] <= hi
    ensures |s| as real * lo <= Sum(s) <= |s| as real * hi
  {
    if s != [] {
      SumBounds(s[..|s| - 1], lo, hi);
    }
  }

  lemma StepBounds(ema: real, price: real, k: real, lo: real, hi: real)
    requires 0.0 <= k <= 1.0
    requires lo <= ema <= hi && lo <= price <= hi
    ensures lo <= Step(ema, price, k) <= hi
  {
    // Step(ema, price, k) - lo == k * (price - lo) + (1 - k) * (ema - lo), and likewise for hi
    assert Step(ema, price, k) - lo == k * (price - lo) + (1.0 - k) * (ema - lo);
    assert hi - Step(ema, price, k) == k * (hi - price) + (1.0 - k) * (hi - ema);
    ProductNonNegative(k, price - lo);
    ProductNonNegative(1.0 - k, ema - lo);
    ProductNonNegative(k, hi - price);
    ProductNonNegative(1.0 - k, hi - ema);
  }

  lemma ProductNonNegative(x: real, y: real)
    requires x >= 0.0 && y >= 0.0
    ensures x * y >= 0.0
  {
  }

  lemma {:induction false} SmoothBounds(seed: real, rest: seq<real>, k: real, lo: real, hi: real)
    requires 0.0 <= k <= 1.0 && lo <= seed <= hi
    requires forall i :: 0 <= i < |rest| ==> lo <= rest[i] <= hi
    ensures lo <= Smooth(seed, rest, k) <= hi
  {
    if rest != [] {
      SmoothBounds(seed, rest[..|rest| - 1], k, lo, hi);
      StepBounds(Smooth(seed, rest[..|rest| - 1], k), rest[|rest| - 1], k, lo, hi);
    }
  }

  /** The EMA never leaves the range of the prices it is computed from. */
  lemma EmaWithinRange(prices: seq<real>, period: nat, lo: real, hi: real)
    requires period >= 1 && |prices| >= period
    requires forall i :: 0 <= i < |prices| ==> lo <= prices[i] <= hi
    ensures Ema(prices, period).Some?
    ensures lo <= Ema(prices, period).value <= hi
  {
    var n := period as real;
    SumBounds(prices[..period], lo, hi);
    var mean := Sum(prices[..period]) / n;
    assert n * lo <= n * mean <= n * hi;
    assert lo <= mean <= hi;
    SmoothBounds(mean, prices[period..], Multiplier(period), lo, hi);
  }

  /**
   * One more price moves an existing EMA by exactly one step of the recurrence, so the
   * value could be maintained incrementally instead of recomputed from the whole window.
   */
  lemma EmaExtend(prices: seq<real>, period: nat, p: real)
    requires period >= 1 && |prices| >= period
    ensures Ema(prices + [p], period).Some? && Ema(prices, period).Some?
    ensures Ema(prices + [p], period).value
         == Step(Ema(prices, period).value, p, Multiplier(period))
  {
    var s := prices + [p];
    assert s[..period] == prices[..period];
    assert s[period..][..|s[period..]| - 1] == prices[period..];
  }

  /** The worked example: period 3 over [1, 2, 3, 10] seeds at 2 and steps to 6. */
  lemma EmaExample()
    ensures Ema([1.0, 2.0, 3.0, 10.0], 3) == Some(6.0)
  {
    var prices := [1.0, 2.0, 3.0, 10.0];
    assert prices[..3] == [1.0, 2.0, 3.0];
    assert Sum([1.0, 2.0, 3.0]) == 6.0 by {
      assert [1.0, 2.0, 3.0][..2] == [1.0, 2.0];
      assert [1.0, 2.0][..1] == [1.0];
      assert [1.0][..0] == [];
    }
    assert prices[3..] == [10.0];
    assert [10.0][..0] == [];
  }
}
