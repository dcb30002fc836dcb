/**
 The two indicators the stock chart plots under the closing price.

 RSI over `window` rows: the day-to-day change of the close is split into a
 gain (the rise, or 0) and a loss (the fall, or 0); both are averaged with
 `ewm(com=window-1, min_periods=window)`, in the adjusted form, and the RSI
 is `100 - 100 / (1 + avgGain / avgLoss)`, computed in floating point: a
 zero average loss makes the ratio infinite (RSI 100) unless the average
 gain is zero too, when it is NaN.

 MACD with spans fast/slow/signal: the difference of two adjust=False
 exponential means of the close, its own adjust=False mean (the signal
 line), and the difference of the two (the histogram).
 */
module Indicators {
  import opened Series
  import opened Ewm

  // -------------------------------------------------------------------------
  // Day-to-day change, gains and losses

  /** `close.diff()`: NaN in the first row, the change since the previous
      row after that. */
  function Diff(close: seq<real>): (d: seq<Opt>)
    ensures |d| == |close|
  {
    seq(|close|, t requires 0 <= t < |close| => if t == 0 then None else Some(close[t] - close[t - 1]))
  }

  /** `delta.where(delta > 0, 0)`: a rise is kept, anything else (a fall, no
      change, or NaN) becomes 0. */
  function Gain(delta: seq<Opt>): (g: seq<real>)
    ensures |g| == |delta|
  {
    seq(|delta|, t requires 0 <= t < |delta| => if delta[t].Some? && delta[t].value > 0.0 then delta[t].value else 0.0)
  }

  /** `-delta.where(delta < 0, 0)`: the size of a fall, and 0 otherwise. */
  function Loss(delta: seq<Opt>): (l: seq<real>)
    ensures |l| == |delta|
  {
    seq(|delta|, t requires 0 <= t < |delta| => -(if delta[t].Some? && delta[t].value < 0.0 then delta[t].value else 0.0))
  }

  /** Gains and losses are non-negative, never both positive, both 0 in the
      first row, and their difference is the change of the close. */
  lemma GainLossSplit(close: seq<real>, t: nat)
    requires t < |close|
    ensures var g, l := Gain(Diff(close))[t], Loss(Diff(close))[t];
      g >= 0.0 && l >= 0.0 && (g == 0.0 || l == 0.0) &&
      (t == 0 ==> g == 0.0 && l == 0.0) &&
      (t > 0 ==> g - l == close[t] - close[t - 1])
  {
  }

  /** The total of `gain - loss` over the first `n` rows. */
  function NetChange(g: seq<real>, l: seq<real>, n: nat): real
    requires n <= |g| && n <= |l|
  {
    if n == 0 then 0.0 else NetChange(g, l, n - 1) + (g[n - 1] - l[n - 1])
  }

  /** Nothing is lost in the split: the first close plus the gains minus the
      losses so far gives back every close. */
  lemma {:induction false} GainLossRebuild(close: seq<real>, t: nat)
    requires t < |close|
    ensures close[t] == close[0] + NetChange(Gain(Diff(close)), Loss(Diff(close)), t + 1)
  {
    GainLossSplit(close, t);
    if t > 0 {
      GainLossRebuild(close, t - 1);
    }
  }

  /** The close changed at some row `1..t`. */
  predicate Moved(close: seq<real>, t: nat)
    requires t < |close|
  {
    exists s :: 0 < s <= t && close[s] != close[s - 1]
  }

  /** The close changed at some row `1..t` exactly when some gain or some
      loss up to row `t` is positive. */
  lemma {:induction false} MovedGainLoss(close: seq<real>, t: nat)
    requires t < |close|
    ensures Moved(close, t) <==> SomePositive(Gain(Diff(close)), t) || SomePositive(Loss(Diff(close)), t)
  {
    var g, l := Gain(Diff(close)), Loss(Diff(close));
    if Moved(close, t) {
      var s :| 0 < s <= t && close[s] != close[s - 1];
      GainLossSplit(close, s);
      assert g[s] > 0.0 || l[s] > 0.0;
    }
    if SomePositive(g, t) {
      var s :| 0 <= s <= t && g[s] > 0.0;
      GainLossSplit(close, s);
      assert close[s] != close[s - 1];
    }
    if SomePositive(l, t) {
      var s :| 0 <= s <= t && l[s] > 0.0;
      GainLossSplit(close, s);
      assert close[s] != close[s - 1];
    }
  }

  // -------------------------------------------------------------------------
  // RSI

  /** `100 - 100 / (1 + g / l)` for two non-negative averages, with the
      floating-point outcomes of a zero `l`: an infinite ratio gives 100, and
      0 / 0 gives NaN. */
  function RsiValue(g: real, l: real): (r: Opt)
    requires g >= 0.0 && l >= 0.0
    ensures r.None? <==> g == 0.0 && l == 0.0
    ensures r.Some? ==> 0.0 <= r.value <= 100.0
    ensures r.Some? ==> r.value == 100.0 * g / (g + l)
    ensures r.Some? ==> (r.value == 100.0 <==> l == 0.0)
    ensures r.Some? ==> (r.value == 0.0 <==> g == 0.0)
  {
    if l > 0.0 then
      RsiRatio(g, l);
      Some(100.0 - 100.0 / (1.0 + g / l))
    else if g > 0.0 then
      Some(100.0)
    else
      None
  }

  /** The share form of the RSI formula. */
  lemma RsiRatio(g: real, l: real)
    requires g >= 0.0 && l > 0.0
    ensures 100.0 - 100.0 / (1.0 + g / l) == 100.0 * g / (g + l)
    ensures 0.0 <= 100.0 * g / (g + l) < 100.0
    ensures 100.0 * g / (g + l) == 0.0 <==> g == 0.0
  {
    var s := g + l;
    assert l / l == 1.0;
    assert g / l + l / l == s / l;
    assert 100.0 / (s / l) == 100.0 * l / s;
    assert 100.0 * s / s == 100.0;
    assert 100.0 * s / s - 100.0 * l / s == (100.0 * s - 100.0 * l) / s;
    assert 100.0 * g / s < 100.0 * s / s;
  }

  /** RSI from the two averaged columns: NaN wherever either average is. */
  function RsiOf(avgGain: Opt, avgLoss: Opt): (r: Opt)
    requires avgGain.Some? ==> avgGain.value >= 0.0
    requires avgLoss.Some? ==> avgLoss.value >= 0.0
    ensures avgGain.None? || avgLoss.None? ==> r.None?
  {
    if avgGain.Some? && avgLoss.Some? then RsiValue(avgGain.value, avgLoss.value) else None
  }

  /** The smoothing factor `ewm(com=window-1)` uses. */
  function RsiAlpha(window: nat): (alpha: real)
    requires window >= 1
    ensures 0.0 < alpha <= 1.0
    ensures alpha < 1.0 <==> window >= 2
  {
    ComAlpha((window - 1) as real)
  }

  /** The averaged gains, `gain.ewm(com=window-1, min_periods=window).mean()`. */
  function AverageGain(close: seq<real>, window: nat): (a: seq<Opt>)
    requires window >= 1
    ensures |a| == |close|
  {
    Smoothed(Gain(Diff(close)), RsiAlpha(window), true, window)
  }

  /** The averaged losses, `loss.ewm(com=window-1, min_periods=window).mean()`. */
  function AverageLoss(close: seq<real>, window: nat): (a: seq<Opt>)
    requires window >= 1
    ensures |a| == |close|
  {
    Smoothed(Loss(Diff(close)), RsiAlpha(window), true, window)
  }

  /** Both averages are NaN during the first `window - 1` rows and
      non-negative numbers afterwards. */
  lemma {:induction false} AveragesNonneg(close: seq<real>, window: nat, t: nat)
    requires window >= 1 && t < |close|
    ensures AverageGain(close, window)[t].None? <==> t + 1 < window
    ensures AverageLoss(close, window)[t].None? <==> t + 1 < window
    ensures AverageGain(close, window)[t].Some? ==> AverageGain(close, window)[t].value >= 0.0
    ensures AverageLoss(close, window)[t].Some? ==> AverageLoss(close, window)[t].value >= 0.0
  {
    var alpha := RsiAlpha(window);
    var g, l := Gain(Diff(close)), Loss(Diff(close));
    forall i | 0 <= i <= t
      ensures g[i] >= 0.0 && l[i] >= 0.0
    {
      GainLossSplit(close, i);
    }
    AdjustedNonneg(g, alpha, t);
    AdjustedNonneg(l, alpha, t);
  }

  /** `calculate_rsi(data, window)` on the close column. */
  function Rsi(close: seq<real>, window: nat): (r: seq<Opt>)
    requires window >= 1
    ensures |r| == |close|
  {
    var avgGain, avgLoss := AverageGain(close, window), AverageLoss(close, window);
    seq(|close|, t requires 0 <= t < |close| =>
      AveragesNonneg(close, window, t);
      RsiOf(avgGain[t], avgLoss[t]))
  }

  /** The first `window - 1` rows have no RSI. */
  lemma RsiWarmUp(close: seq<real>, window: nat, t: nat)
    requires window >= 1 && t < |close| && t + 1 < window
    ensures Rsi(close, window)[t] == None
  {
    AveragesNonneg(close, window, t);
  }

  /** Every RSI value lies between 0 and 100 and is the share of the average
      gain in the sum of the two averages, in percent. */
  lemma {:induction false} RsiRange(close: seq<real>, window: nat, t: nat)
    requires window >= 1 && t < |close| && Rsi(close, window)[t].Some?
    ensures 0.0 <= Rsi(close, window)[t].value <= 100.0
    ensures var g, l := AverageGain(close, window)[t].value, AverageLoss(close, window)[t].value;
      g + l > 0.0 && Rsi(close, window)[t].value == 100.0 * g / (g + l)
  {
    AveragesNonneg(close, window, t);
  }

  /** With a window of at least 2, an RSI exists from row `window - 1` on
      exactly when the close has moved at some point: only a history without
      any change makes both averages 0. */
  lemma {:induction false} RsiDefined(close: seq<real>, window: nat, t: nat)
    requires window >= 2 && window - 1 <= t < |close|
    ensures Rsi(close, window)[t].Some? <==> Moved(close, t)
  {
    var alpha := RsiAlpha(window);
    var g, l := Gain(Diff(close)), Loss(Diff(close));
    forall i | 0 <= i <= t
      ensures g[i] >= 0.0 && l[i] >= 0.0
    {
      GainLossSplit(close, i);
    }
    AdjustedPositive(g, alpha, t);
    AdjustedPositive(l, alpha, t);
    MovedGainLoss(close, t);
    AveragesNonneg(close, window, t);
  }

  /** With a window of 1 the averages keep no memory: an RSI exists exactly
      where the close has just changed. */
  lemma {:induction false} RsiDefinedNoMemory(close: seq<real>, t: nat)
    requires t < |close|
    ensures Rsi(close, 1)[t].Some? <==> t > 0 && close[t] != close[t - 1]
  {
    var g, l := Gain(Diff(close)), Loss(Diff(close));
    AdjustedNoMemory(g, RsiAlpha(1), t);
    AdjustedNoMemory(l, RsiAlpha(1), t);
    GainLossSplit(close, t);
    AveragesNonneg(close, 1, t);
  }

  /** The close rose at every row. */
  predicate Rising(close: seq<real>) {
    forall s :: 0 < s < |close| ==> close[s - 1] < close[s]
  }

  /** The close fell at every row. */
  predicate Falling(close: seq<real>) {
    forall s :: 0 < s < |close| ==> close[s - 1] > close[s]
  }

  /** An average of non-negative values whose latest value is positive is
      positive, whatever the window. */
  lemma {:induction false} LatestPositive(x: seq<real>, window: nat, t: nat)
    requires window >= 1 && 0 < t < |x|
    requires forall i :: 0 <= i <= t ==> x[i] >= 0.0
    requires x[t] > 0.0
    ensures AdjustedAt(x, RsiAlpha(window), t) > 0.0
  {
    var alpha := RsiAlpha(window);
    if window == 1 {
      AdjustedNoMemory(x, alpha, t);
    } else {
      AdjustedPositive(x, alpha, t);
    }
  }

  /** A close that only rises has an RSI of 100 wherever one exists after
      the first row: every loss, and so the average loss, is 0. */
  lemma {:induction false} RsiRising(close: seq<real>, window: nat, t: nat)
    requires window >= 1 && Rising(close) && window - 1 <= t < |close| && 0 < t
    ensures Rsi(close, window)[t] == Some(100.0)
  {
    var alpha := RsiAlpha(window);
    var g, l := Gain(Diff(close)), Loss(Diff(close));
    forall i | 0 <= i < |l|
      ensures l[i] == 0.0 && g[i] >= 0.0
    {
      GainLossSplit(close, i);
    }
    assert Constant(l, 0.0);
    AdjustedConstant(l, alpha, 0.0, t);
    GainLossSplit(close, t);
    LatestPositive(g, window, t);
    AveragesNonneg(close, window, t);
  }

  /** A close that only falls has an RSI of 0 wherever one exists after the
      first row: every gain, and so the average gain, is 0. */
  lemma {:induction false} RsiFalling(close: seq<real>, window: nat, t: nat)
    requires window >= 1 && Falling(close) && window - 1 <= t < |close| && 0 < t
    ensures Rsi(close, window)[t] == Some(0.0)
  {
    var alpha := RsiAlpha(window);
    var g, l := Gain(Diff(close)), Loss(Diff(close));
    forall i | 0 <= i < |g|
      ensures g[i] == 0.0 && l[i] >= 0.0
    {
      GainLossSplit(close, i);
    }
    assert Constant(g, 0.0);
    AdjustedConstant(g, alpha, 0.0, t);
    GainLossSplit(close, t);
    LatestPositive(l, window, t);
    AveragesNonneg(close, window, t);
  }

  // -------------------------------------------------------------------------
  // MACD

  /** The three lines `calculate_macd` returns. */
  datatype MacdLines = MacdLines(macd: seq<real>, signal: seq<real>, histogram: seq<real>)

  /** `x.ewm(span=span, adjust=False).mean()`. */
  function Ema(x: seq<real>, span: nat): (y: seq<real>)
    requires span >= 1
    ensures |y| == |x|
  {
    Recursive(x, SpanAlpha(span as real))
  }

  /** `calculate_macd(data, fast, slow, signal)` on the close column. */
  function Macd(close: seq<real>, fast: nat, slow: nat, signal: nat): (m: MacdLines)
    requires fast >= 1 && slow >= 1 && signal >= 1
    ensures |m.macd| == |close| && |m.signal| == |close| && |m.histogram| == |close|
    ensures forall t :: 0 <= t < |close| ==> m.signal[t] + m.histogram[t] == m.macd[t]
  {
    var line := Minus(Ema(close, fast), Ema(close, slow));
    var sig := Ema(line, signal);
    MacdLines(line, sig, Minus(line, sig))
  }

  /** All three lines start at 0: both means, and the signal, start at their
      first input. */
  lemma MacdFirstRow(close: seq<real>, fast: nat, slow: nat, signal: nat)
    requires fast >= 1 && slow >= 1 && signal >= 1 && |close| > 0
    ensures var m := Macd(close, fast, slow, signal);
      m.macd[0] == 0.0 && m.signal[0] == 0.0 && m.histogram[0] == 0.0
  {
    RecursiveFirst(close, SpanAlpha(fast as real));
    RecursiveFirst(close, SpanAlpha(slow as real));
    var m := Macd(close, fast, slow, signal);
    RecursiveFirst(m.macd, SpanAlpha(signal as real));
  }

  /** A constant close gives three flat zero lines. */
  lemma MacdConstant(close: seq<real>, c: real, fast: nat, slow: nat, signal: nat)
    requires fast >= 1 && slow >= 1 && signal >= 1 && Constant(close, c)
    ensures var m := Macd(close, fast, slow, signal);
      Constant(m.macd, 0.0) && Constant(m.signal, 0.0) && Constant(m.histogram, 0.0)
  {
    RecursiveConstant(close, SpanAlpha(fast as real), c);
    RecursiveConstant(close, SpanAlpha(slow as real), c);
    var m := Macd(close, fast, slow, signal);
    assert Constant(m.macd, 0.0);
    RecursiveConstant(m.macd, SpanAlpha(signal as real), 0.0);
  }

  /** Equal fast and slow spans give three flat zero lines, whatever the
      close. */
  lemma MacdEqualSpans(close: seq<real>, span: nat, signal: nat)
    requires span >= 1 && signal >= 1
    ensures var m := Macd(close, span, span, signal);
      Constant(m.macd, 0.0) && Constant(m.signal, 0.0) && Constant(m.histogram, 0.0)
  {
    var m := Macd(close, span, span, signal);
    assert Constant(m.macd, 0.0);
    RecursiveConstant(m.macd, SpanAlpha(signal as real), 0.0);
  }

  /** Adding the same amount to every close changes none of the lines: MACD
      sees only differences of prices. */
  lemma MacdShift(close: seq<real>, c: real, fast: nat, slow: nat, signal: nat)
    requires fast >= 1 && slow >= 1 && signal >= 1
    ensures Macd(Shift(close, c), fast, slow, signal) == Macd(close, fast, slow, signal)
  {
    var shifted := Shift(close, c);
    RecursiveShift(close, SpanAlpha(fast as real), c);
    RecursiveShift(close, SpanAlpha(slow as real), c);
    var a, b := Macd(shifted, fast, slow, signal), Macd(close, fast, slow, signal);
    assert a.macd == b.macd;
  }

  /** The signal line never leaves the range of the MACD line so far. */
  lemma MacdSignalBounds(close: seq<real>, fast: nat, slow: nat, signal: nat, t: nat)
    requires fast >= 1 && slow >= 1 && signal >= 1 && t < |close|
    ensures var m := Macd(close, fast, slow, signal);
      Lowest(m.macd[..t + 1]) <= m.signal[t] <= Highest(m.macd[..t + 1])
  {
    var m := Macd(close, fast, slow, signal);
    RecursiveBounds(m.macd, SpanAlpha(signal as real), t);
  }

  // -------------------------------------------------------------------------
  // The computation as the script runs it

  /** `calculate_rsi`, with both averages computed by pandas' streaming loop. */
  method CalculateRsi(close: seq<real>, window: nat) returns (rsi: seq<Opt>)
    requires window >= 1
    ensures rsi == Rsi(close, window)
  {
    var delta := Diff(close);
    var avgGain := EwmMean(Gain(delta), RsiAlpha(window), true, window);
    var avgLoss := EwmMean(Loss(delta), RsiAlpha(window), true, window);
    rsi := [];
    var i := 0;
    while i < |close|
      invariant 0 <= i <= |close|
      invariant rsi == Rsi(close, window)[..i]
    {
      AveragesNonneg(close, window, i);
      rsi := rsi + [RsiOf(avgGain[i], avgLoss[i])];
      i := i + 1;
    }
  }

  /** `calculate_macd`, with the three means computed by pandas' streaming
      loop. */
  method CalculateMacd(close: seq<real>, fast: nat, slow: nat, signal: nat) returns (m: MacdLines)
    requires fast >= 1 && slow >= 1 && signal >= 1
    ensures m == Macd(close, fast, slow, signal)
  {
    var exp1 := EwmMean(close, SpanAlpha(fast as real), false, 0);
    var exp2 := EwmMean(close, SpanAlpha(slow as real), false, 0);
    SmoothedRecursive(close, SpanAlpha(fast as real));
    SmoothedRecursive(close, SpanAlpha(slow as real));
    var line := Minus(Values(exp1), Values(exp2));
    var sig := EwmMean(line, SpanAlpha(signal as real), false, 0);
    SmoothedRecursive(line, SpanAlpha(signal as real));
    m := MacdLines(line, Values(sig), Minus(line, Values(sig)));
  }
}
