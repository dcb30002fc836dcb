/**
 pandas' exponentially weighted mean, `Series.ewm(...).mean()`, for a column
 without NaN, in its two forms:

   adjust=False  y[0] = x[0];  y[t] = (1 - alpha) * y[t-1] + alpha * x[t]
   adjust=True   y[t] = sum_i (1-alpha)^i * x[t-i] / sum_i (1-alpha)^i,
                 i ranging over 0..t

 together with the single streaming loop pandas uses to compute both, and
 the `min_periods` rule that turns early values into NaN.
 */
module Ewm {
  import opened Series

  // -------------------------------------------------------------------------
  // Smoothing factors

  /** The factor pandas derives from `span`; pandas refuses a span below 1. */
  function SpanAlpha(span: real): (alpha: real)
    requires span >= 1.0
    ensures 0.0 < alpha <= 1.0
    ensures alpha == 1.0 <==> span == 1.0
  {
    2.0 / (span + 1.0)
  }

  /** The factor pandas derives from the centre of mass `com`; pandas refuses
      a negative one. */
  function ComAlpha(com: real): (alpha: real)
    requires com >= 0.0
    ensures 0.0 < alpha <= 1.0
    ensures alpha == 1.0 <==> com == 0.0
  {
    1.0 / (1.0 + com)
  }

  // -------------------------------------------------------------------------
  // adjust=False: the recursive form

  /** `ewm(alpha=alpha, adjust=False).mean()`: the first value is the first
      observation; each later value moves the previous one the fraction
      `alpha` of the way towards the new observation. */
  function Recursive(x: seq<real>, alpha: real): (y: seq<real>)
    ensures |y| == |x|
    decreases |x|
  {
    if |x| <= 1 then x
    else
      var prev := Recursive(x[..|x| - 1], alpha);
      prev + [(1.0 - alpha) * prev[|x| - 2] + alpha * x[|x| - 1]]
  }

  /** A value depends only on the observations up to its own row. */
  lemma {:induction false} RecursiveCausal(x: seq<real>, alpha: real, k: nat)
    requires k <= |x|
    ensures Recursive(x, alpha)[..k] == Recursive(x[..k], alpha)
    decreases |x|
  {
    if k == |x| {
      assert x[..k] == x;
    } else {
      var init := x[..|x| - 1];
      assert Recursive(x, alpha)[..|x| - 1] == Recursive(init, alpha);
      RecursiveCausal(init, alpha, k);
      assert init[..k] == x[..k];
    }
  }

  /** The recurrence pandas documents for adjust=False, row by row. */
  lemma {:induction false} RecursiveStep(x: seq<real>, alpha: real, t: nat)
    requires 0 < t < |x|
    ensures Recursive(x, alpha)[t] == (1.0 - alpha) * Recursive(x, alpha)[t - 1] + alpha * x[t]
  {
    var y := Recursive(x, alpha);
    RecursiveCausal(x, alpha, t + 1);
    var pre := x[..t + 1];
    assert pre[..t] == x[..t];
    assert y[..t + 1][t] == y[t] && y[..t + 1][t - 1] == y[t - 1];
  }

  lemma MulNonneg(a: real, b: real)
    requires a >= 0.0 && b >= 0.0
    ensures a * b >= 0.0
  {
  }

  /** A mix of two values, each between `lo` and `hi`, stays between them. */
  lemma MixBetween(a: real, b: real, alpha: real, lo: real, hi: real)
    requires 0.0 <= alpha <= 1.0
    requires lo <= a <= hi && lo <= b <= hi
    ensures lo <= (1.0 - alpha) * a + alpha * b <= hi
  {
    MulNonneg(1.0 - alpha, a - lo);
    MulNonneg(alpha, b - lo);
    MulNonneg(1.0 - alpha, hi - a);
    MulNonneg(alpha, hi - b);
    assert (1.0 - alpha) * a + alpha * b - lo == (1.0 - alpha) * (a - lo) + alpha * (b - lo);
    assert hi - ((1.0 - alpha) * a + alpha * b) == (1.0 - alpha) * (hi - a) + alpha * (hi - b);
  }

  lemma {:induction false} RecursiveFirst(x: seq<real>, alpha: real)
    requires |x| > 0
    ensures Recursive(x, alpha)[0] == x[0]
  {
    RecursiveCausal(x, alpha, 1);
    assert x[..1] == [x[0]];
    assert Recursive(x, alpha)[..1][0] == Recursive(x, alpha)[0];
  }

  /** Extending a prefix by one row can only widen its range. */
  lemma {:induction false} PrefixExtremes(x: seq<real>, t: nat)
    requires 0 < t < |x|
    ensures Lowest(x[..t + 1]) <= Lowest(x[..t]) && Lowest(x[..t + 1]) <= x[t]
    ensures Highest(x[..t]) <= Highest(x[..t + 1]) && x[t] <= Highest(x[..t + 1])
  {
    assert x[..t + 1][..t] == x[..t];
    assert x[..t + 1][t] == x[t];
  }

  /** One step of the recurrence keeps the value inside any interval that
      holds both the previous value and the new observation. */
  lemma {:induction false} RecursiveStepBetween(x: seq<real>, alpha: real, t: nat, lo: real, hi: real)
    requires 0.0 <= alpha <= 1.0
    requires 0 < t < |x|
    requires lo <= Recursive(x, alpha)[t - 1] <= hi && lo <= x[t] <= hi
    ensures lo <= Recursive(x, alpha)[t] <= hi
  {
    RecursiveStep(x, alpha, t);
    MixBetween(Recursive(x, alpha)[t - 1], x[t], alpha, lo, hi);
  }

  /** Every value of the recursive mean lies between the smallest and the
      largest observation so far. */
  lemma {:induction false} RecursiveBounds(x: seq<real>, alpha: real, t: nat)
    requires 0.0 <= alpha <= 1.0
    requires t < |x|
    ensures Lowest(x[..t + 1]) <= Recursive(x, alpha)[t] <= Highest(x[..t + 1])
  {
    if t == 0 {
      RecursiveFirst(x, alpha);
      assert x[..1] == [x[0]];
    } else {
      RecursiveBounds(x, alpha, t - 1);
      PrefixExtremes(x, t);
      RecursiveStepBetween(x, alpha, t, Lowest(x[..t + 1]), Highest(x[..t + 1]));
    }
  }

  /** A constant column has a constant mean, whatever the factor. */
  lemma {:induction false} RecursiveConstant(x: seq<real>, alpha: real, c: real)
    requires Constant(x, c)
    ensures Constant(Recursive(x, alpha), c)
  {
    var y := Recursive(x, alpha);
    forall t | 0 <= t < |y|
      ensures y[t] == c
    {
      RecursiveConstantAt(x, alpha, c, t);
    }
  }

  lemma {:induction false} RecursiveConstantAt(x: seq<real>, alpha: real, c: real, t: nat)
    requires Constant(x, c) && t < |x|
    ensures Recursive(x, alpha)[t] == c
  {
    if t == 0 {
      RecursiveFirst(x, alpha);
    } else {
      RecursiveConstantAt(x, alpha, c, t - 1);
      RecursiveStep(x, alpha, t);
      assert (1.0 - alpha) * c + alpha * c == c;
    }
  }

  /** Adding a constant to every observation adds it to every value of the
      mean. */
  lemma {:induction false} RecursiveShiftAt(x: seq<real>, alpha: real, c: real, t: nat)
    requires t < |x|
    ensures Recursive(Shift(x, c), alpha)[t] == Recursive(x, alpha)[t] + c
  {
    var xs := Shift(x, c);
    if t == 0 {
      RecursiveFirst(x, alpha);
      RecursiveFirst(xs, alpha);
    } else {
      RecursiveShiftAt(x, alpha, c, t - 1);
      RecursiveStep(x, alpha, t);
      RecursiveStep(xs, alpha, t);
      var a := Recursive(x, alpha)[t - 1];
      assert (1.0 - alpha) * (a + c) + alpha * (x[t] + c) == (1.0 - alpha) * a + alpha * x[t] + c;
    }
  }

  lemma {:induction false} RecursiveShift(x: seq<real>, alpha: real, c: real)
    ensures Recursive(Shift(x, c), alpha) == Shift(Recursive(x, alpha), c)
  {
    var l := Recursive(Shift(x, c), alpha);
    var r := Shift(Recursive(x, alpha), c);
    forall t | 0 <= t < |x|
      ensures l[t] == r[t]
    {
      RecursiveShiftAt(x, alpha, c, t);
    }
  }

  // -------------------------------------------------------------------------
  // adjust=True: the weighted-average form

  function Pow(b: real, n: nat): real
  {
    if n == 0 then 1.0 else b * Pow(b, n - 1)
  }

  /** Powers of a non-negative factor are non-negative, and positive when the
      factor is. */
  lemma {:induction false} PowSign(b: real, n: nat)
    requires b >= 0.0
    ensures Pow(b, n) >= 0.0
    ensures b > 0.0 ==> Pow(b, n) > 0.0
  {
    if n > 0 {
      PowSign(b, n - 1);
      MulNonneg(b, Pow(b, n - 1));
      if b > 0.0 {
        MulPositive(b, Pow(b, n - 1));
      }
    }
  }

  lemma MulPositive(a: real, b: real)
    requires a > 0.0 && b > 0.0
    ensures a * b > 0.0
  {
  }

  /** The total weight `1 + beta + ... + beta^(n-1)` of the `n` most recent
      observations, each weighted by `beta` to the power of its age. */
  function Weight(beta: real, n: nat): (w: real)
    requires beta >= 0.0
    ensures n > 0 ==> w >= 1.0
  {
    if n == 0 then 0.0 else PowSign(beta, n - 1); Weight(beta, n - 1) + Pow(beta, n - 1)
  }

  /** The weighted sum of the `n` most recent observations up to row `t`:
      `x[t] + beta * x[t-1] + ... + beta^(n-1) * x[t-n+1]`. */
  function WeightedSum(x: seq<real>, beta: real, t: nat, n: nat): real
    requires t < |x| && n <= t + 1
  {
    if n == 0 then 0.0 else WeightedSum(x, beta, t, n - 1) + Pow(beta, n - 1) * x[t - (n - 1)]
  }

  /** `ewm(alpha=alpha, adjust=True).mean()` at row `t`: the average of all
      observations so far, weighted by `1 - alpha` to the power of their age. */
  function AdjustedAt(x: seq<real>, alpha: real, t: nat): real
    requires 0.0 < alpha <= 1.0 && t < |x|
  {
    WeightedSum(x, 1.0 - alpha, t, t + 1) / Weight(1.0 - alpha, t + 1)
  }

  /** Adding one more (older) age class to the weights: the newest keeps
      weight 1 and every older one is discounted once more. */
  lemma {:induction false} WeightStep(beta: real, n: nat)
    requires beta >= 0.0
    ensures Weight(beta, n + 1) == 1.0 + beta * Weight(beta, n)
  {
    if n > 0 {
      WeightStep(beta, n - 1);
      assert Pow(beta, n) == beta * Pow(beta, n - 1);
      assert beta * Weight(beta, n) == beta * Weight(beta, n - 1) + beta * Pow(beta, n - 1);
    }
  }

  /** The weighted sum at row `t` is the new observation plus the discounted
      weighted sum at row `t - 1`. */
  lemma {:induction false} WeightedSumStep(x: seq<real>, beta: real, t: nat, n: nat)
    requires 0 < t < |x| && n <= t
    ensures WeightedSum(x, beta, t, n + 1) == x[t] + beta * WeightedSum(x, beta, t - 1, n)
  {
    if n > 0 {
      WeightedSumStep(x, beta, t, n - 1);
      OldestTerm(x, beta, t - 1, n);
      HornerStep(WeightedSum(x, beta, t, n + 1), WeightedSum(x, beta, t, n),
                 WeightedSum(x, beta, t - 1, n - 1), WeightedSum(x, beta, t - 1, n),
                 Pow(beta, n), Pow(beta, n - 1), x[t - n], x[t], beta);
    }
  }

  /** The weighted sum of `n` observations adds the oldest one, at row
      `t + 1 - n`, to the weighted sum of the `n - 1` newer ones. */
  lemma OldestTerm(x: seq<real>, beta: real, t: nat, n: nat)
    requires t < |x| && 0 < n <= t + 1
    ensures WeightedSum(x, beta, t, n) == WeightedSum(x, beta, t, n - 1) + Pow(beta, n - 1) * x[t + 1 - n]
  {
  }

  /** The arithmetic behind `WeightedSumStep`, on plain numbers: appending the
      oldest term `p * v` on both sides keeps the Horner form. */
  lemma HornerStep(next: real, sum: real, prevSum: real, prevNext: real, p: real, q: real, v: real, newest: real, beta: real)
    requires next == sum + p * v && sum == newest + beta * prevSum
    requires prevNext == prevSum + q * v && p == beta * q
    ensures next == newest + beta * prevNext
  {
    assert p * v == beta * (q * v);
  }

  /** The update the streaming loop performs for adjust=True: the new mean
      mixes the previous one with the new observation, which gets the share
      `1 / Weight` of the total weight after the new row. */
  lemma {:induction false} AdjustedStep(x: seq<real>, alpha: real, t: nat)
    requires 0.0 < alpha <= 1.0 && 0 < t < |x|
    ensures var g := 1.0 / Weight(1.0 - alpha, t + 1);
      AdjustedAt(x, alpha, t) == (1.0 - g) * AdjustedAt(x, alpha, t - 1) + g * x[t]
  {
    var beta := 1.0 - alpha;
    WeightStep(beta, t);
    WeightedSumStep(x, beta, t, t);
    AverageAsMix(WeightedSum(x, beta, t, t + 1), Weight(beta, t + 1),
                 WeightedSum(x, beta, t - 1, t), Weight(beta, t), beta, x[t]);
  }

  /** The arithmetic behind `AdjustedStep`, on plain numbers: adding `v` with
      weight 1 to a weighted average discounted by `beta` mixes the old
      average with `v` in the proportion `1 / weightNext`. */
  lemma AverageAsMix(sumNext: real, weightNext: real, sum: real, weight: real, beta: real, v: real)
    requires weight > 0.0 && beta >= 0.0
    requires sumNext == v + beta * sum && weightNext == 1.0 + beta * weight
    ensures var g := 1.0 / weightNext; sumNext / weightNext == (1.0 - g) * (sum / weight) + g * v
  {
    MulNonneg(beta, weight);
    var a := sum / weight;
    var g := 1.0 / weightNext;
    assert weight * a == sum;
    assert 1.0 - g == (beta * weight) / weightNext;
    assert (1.0 - g) * a == (beta * (weight * a)) / weightNext;
    assert g * v == v / weightNext;
  }

  lemma {:induction false} AdjustedFirst(x: seq<real>, alpha: real)
    requires 0.0 < alpha <= 1.0 && 0 < |x|
    ensures AdjustedAt(x, alpha, 0) == x[0]
  {
    assert WeightedSum(x, 1.0 - alpha, 0, 1) == x[0];
    assert Weight(1.0 - alpha, 1) == 1.0;
  }

  /** The share of the new observation: all of it after one row, and less
      than all of it after that unless the factor is 0 (alpha = 1). */
  lemma {:induction false} ShareBounds(beta: real, n: nat)
    requires beta >= 0.0 && n > 0
    ensures 0.0 < 1.0 / Weight(beta, n) <= 1.0
    ensures beta > 0.0 && n > 1 ==> 1.0 / Weight(beta, n) < 1.0
  {
    WeightStep(beta, n - 1);
    if beta > 0.0 && n > 1 {
      MulPositive(beta, Weight(beta, n - 1));
    }
    ReciprocalBounds(Weight(beta, n));
  }

  lemma ReciprocalBounds(w: real)
    requires w >= 1.0
    ensures 0.0 < 1.0 / w <= 1.0
    ensures w > 1.0 ==> 1.0 / w < 1.0
  {
  }

  /** Every value of the adjusted mean lies between the smallest and the
      largest observation so far. */
  lemma {:induction false} AdjustedBounds(x: seq<real>, alpha: real, t: nat)
    requires 0.0 < alpha <= 1.0 && t < |x|
    ensures Lowest(x[..t + 1]) <= AdjustedAt(x, alpha, t) <= Highest(x[..t + 1])
  {
    if t == 0 {
      AdjustedFirst(x, alpha);
      assert x[..1] == [x[0]];
    } else {
      AdjustedBounds(x, alpha, t - 1);
      PrefixExtremes(x, t);
      AdjustedStepBetween(x, alpha, t, Lowest(x[..t + 1]), Highest(x[..t + 1]));
    }
  }

  /** One adjusted step keeps the mean inside any interval that holds both
      the previous mean and the new observation. */
  lemma {:induction false} AdjustedStepBetween(x: seq<real>, alpha: real, t: nat, lo: real, hi: real)
    requires 0.0 < alpha <= 1.0 && 0 < t < |x|
    requires lo <= AdjustedAt(x, alpha, t - 1) <= hi && lo <= x[t] <= hi
    ensures lo <= AdjustedAt(x, alpha, t) <= hi
  {
    AdjustedStep(x, alpha, t);
    ShareBounds(1.0 - alpha, t + 1);
    MixBetween(AdjustedAt(x, alpha, t - 1), x[t], 1.0 / Weight(1.0 - alpha, t + 1), lo, hi);
  }

  /** A proper mix of two non-negative values is non-negative, and positive
      exactly when one of them is. */
  lemma MixPositive(a: real, b: real, g: real)
    requires 0.0 < g < 1.0 && a >= 0.0 && b >= 0.0
    ensures (1.0 - g) * a + g * b >= 0.0
    ensures (1.0 - g) * a + g * b > 0.0 <==> a > 0.0 || b > 0.0
  {
    MulNonneg(1.0 - g, a);
    MulNonneg(g, b);
    if a > 0.0 {
      MulPositive(1.0 - g, a);
    }
    if b > 0.0 {
      MulPositive(g, b);
    }
  }

  /** Some observation among rows `0..t` is positive. */
  predicate SomePositive(x: seq<real>, t: nat)
    requires t < |x|
  {
    exists i :: 0 <= i <= t && x[i] > 0.0
  }

  lemma SomePositiveStep(x: seq<real>, t: nat)
    requires 0 < t < |x|
    ensures SomePositive(x, t) <==> SomePositive(x, t - 1) || x[t] > 0.0
  {
    if SomePositive(x, t) && !(x[t] > 0.0) {
      var i :| 0 <= i <= t && x[i] > 0.0;
      assert i <= t - 1;
    }
  }

  /** For a factor below 1 and non-negative observations, the adjusted mean
      is non-negative, and positive exactly when some observation so far is
      positive. */
  lemma {:induction false} AdjustedPositive(x: seq<real>, alpha: real, t: nat)
    requires 0.0 < alpha < 1.0 && t < |x|
    requires forall i :: 0 <= i <= t ==> x[i] >= 0.0
    ensures AdjustedAt(x, alpha, t) >= 0.0
    ensures AdjustedAt(x, alpha, t) > 0.0 <==> SomePositive(x, t)
  {
    if t == 0 {
      AdjustedFirst(x, alpha);
      assert SomePositive(x, 0) <==> x[0] > 0.0;
    } else {
      AdjustedPositive(x, alpha, t - 1);
      SomePositiveStep(x, t);
      AdjustedStep(x, alpha, t);
      ShareBounds(1.0 - alpha, t + 1);
      MixPositive(AdjustedAt(x, alpha, t - 1), x[t], 1.0 / Weight(1.0 - alpha, t + 1));
    }
  }

  /** A constant column has a constant adjusted mean. */
  lemma {:induction false} AdjustedConstant(x: seq<real>, alpha: real, c: real, t: nat)
    requires 0.0 < alpha <= 1.0 && t < |x| && Constant(x, c)
    ensures AdjustedAt(x, alpha, t) == c
  {
    AdjustedBounds(x, alpha, t);
    var pre := x[..t + 1];
    assert pre[0] == c;
    assert forall i :: 0 <= i < |pre| ==> pre[i] == c;
  }

  /** The adjusted mean of non-negative observations is non-negative. */
  lemma {:induction false} AdjustedNonneg(x: seq<real>, alpha: real, t: nat)
    requires 0.0 < alpha <= 1.0 && t < |x|
    requires forall i :: 0 <= i <= t ==> x[i] >= 0.0
    ensures AdjustedAt(x, alpha, t) >= 0.0
  {
    AdjustedBounds(x, alpha, t);
    var pre := x[..t + 1];
    assert forall i :: 0 <= i < |pre| ==> pre[i] >= 0.0;
  }

  /** With alpha = 1 the older observations get weight 0 and the adjusted
      mean is the latest observation. */
  lemma {:induction false} AdjustedNoMemory(x: seq<real>, alpha: real, t: nat)
    requires alpha == 1.0 && t < |x|
    ensures AdjustedAt(x, alpha, t) == x[t]
  {
    if t == 0 {
      AdjustedFirst(x, alpha);
    } else {
      AdjustedStep(x, alpha, t);
      WeightStep(0.0, t);
    }
  }

  // -------------------------------------------------------------------------
  // min_periods and the streaming loop

  /** `ewm(alpha=alpha, adjust=adjust, min_periods=minPeriods).mean()` of a
      column without NaN: row `t` has seen `t + 1` observations and is NaN
      while that is fewer than `minPeriods`. */
  function Smoothed(x: seq<real>, alpha: real, adjust: bool, minPeriods: nat): (y: seq<Opt>)
    requires 0.0 < alpha <= 1.0
    ensures |y| == |x|
  {
    seq(|x|, t requires 0 <= t < |x| => if t + 1 < minPeriods then None else Some(MeanAt(x, alpha, adjust, t)))
  }

  /** The mean at row `t` in the chosen form. */
  function MeanAt(x: seq<real>, alpha: real, adjust: bool, t: nat): real
    requires 0.0 < alpha <= 1.0 && t < |x|
  {
    if adjust then AdjustedAt(x, alpha, t) else Recursive(x, alpha)[t]
  }

  /** Without `min_periods` every row of the adjust=False mean is defined and
      holds the recursive mean. */
  lemma SmoothedRecursive(x: seq<real>, alpha: real)
    requires 0.0 < alpha <= 1.0
    ensures Defined(Smoothed(x, alpha, false, 0))
    ensures Values(Smoothed(x, alpha, false, 0)) == Recursive(x, alpha)
  {
  }

  /** The loop pandas runs for `ewm(...).mean()`, specialised to a column
      without NaN. It keeps one running mean `weighted` and the weight
      `oldWt` of everything seen so far; with adjust=True the new observation
      enters with weight 1 against `oldWt * (1 - alpha)`, with adjust=False
      with weight alpha against `1 - alpha`. An observation equal to the
      running mean leaves it as it is. */
  method EwmMean(vals: seq<real>, alpha: real, adjust: bool, minPeriods: nat) returns (out: seq<Opt>)
    requires 0.0 < alpha <= 1.0
    ensures out == Smoothed(vals, alpha, adjust, minPeriods)
  {
    var want := Smoothed(vals, alpha, adjust, minPeriods);
    out := [];
    if |vals| == 0 {
      return;
    }
    var minp := if minPeriods < 1 then 1 else minPeriods;
    var oldWtFactor := 1.0 - alpha;
    var newWt := if adjust then 1.0 else alpha;
    var weighted := vals[0];
    var nobs := 1;
    out := [if nobs >= minp then Some(weighted) else None];
    var oldWt := 1.0;
    LoopStart(vals, alpha, adjust);
    assert out == want[..1];
    var i := 1;
    while i < |vals|
      invariant 1 <= i <= |vals| && nobs == i
      invariant out == want[..i]
      invariant weighted == MeanAt(vals, alpha, adjust, i - 1)
      invariant oldWt == if adjust then Weight(oldWtFactor, i) else 1.0
    {
      var cur := vals[i];
      nobs := nobs + 1;
      LoopWeight(alpha, adjust, i, oldWt, oldWtFactor, newWt);
      oldWt := oldWt * oldWtFactor;
      LoopStep(vals, alpha, adjust, i, weighted, oldWt, newWt);
      weighted := Blend(weighted, cur, oldWt, newWt);
      if adjust {
        oldWt := oldWt + newWt;
      } else {
        oldWt := 1.0;
      }
      assert want[i] == if i + 1 < minPeriods then None else Some(MeanAt(vals, alpha, adjust, i));
      assert want[..i + 1] == want[..i] + [want[i]];
      out := out + [if nobs >= minp then Some(weighted) else None];
      i := i + 1;
    }
    assert want[..i] == want;
  }

  /** Before the loop: the running mean is the first observation, with
      weight 1, in either form. */
  lemma {:induction false} LoopStart(x: seq<real>, alpha: real, adjust: bool)
    requires 0.0 < alpha <= 1.0 && 0 < |x|
    ensures MeanAt(x, alpha, adjust, 0) == x[0]
    ensures Weight(1.0 - alpha, 1) == 1.0
  {
    if adjust {
      AdjustedFirst(x, alpha);
    } else {
      RecursiveFirst(x, alpha);
    }
  }

  /** The loop's update of the running mean `weighted`, carrying weight
      `oldWt`, by the observation `cur`, carrying weight `newWt`; an
      observation equal to the running mean leaves it untouched. */
  function Blend(weighted: real, cur: real, oldWt: real, newWt: real): real
    requires oldWt + newWt > 0.0
  {
    if weighted != cur then (oldWt * weighted + newWt * cur) / (oldWt + newWt) else weighted
  }

  /** Discounting the weight of row `i - 1` by `factor` and adding the weight
      of the new observation gives the weight of row `i`, in either form. */
  lemma {:induction false} LoopWeight(alpha: real, adjust: bool, i: nat, prevWt: real, factor: real, newWt: real)
    requires 0.0 < alpha <= 1.0 && 0 < i
    requires factor == 1.0 - alpha && newWt == if adjust then 1.0 else alpha
    requires prevWt == if adjust then Weight(factor, i) else 1.0
    ensures prevWt * factor + newWt == if adjust then Weight(factor, i + 1) else 1.0
  {
    if adjust {
      WeightStep(factor, i);
    }
  }

  /** One pass of the loop body takes the running mean of row `i - 1` to that
      of row `i`, in either form: `w` is the weight of the running mean once
      discounted, `newWt` that of the new observation. */
  lemma {:induction false} LoopStep(x: seq<real>, alpha: real, adjust: bool, i: nat, prev: real, w: real, newWt: real)
    requires 0.0 < alpha <= 1.0 && 0 < i < |x|
    requires newWt == if adjust then 1.0 else alpha
    requires prev == MeanAt(x, alpha, adjust, i - 1)
    requires w + newWt == if adjust then Weight(1.0 - alpha, i + 1) else 1.0
    ensures w + newWt > 0.0
    ensures Blend(prev, x[i], w, newWt) == MeanAt(x, alpha, adjust, i)
  {
    if adjust {
      AdjustedStep(x, alpha, i);
      BlendIsMix(prev, x[i], w, 1.0);
    } else {
      RecursiveStep(x, alpha, i);
      BlendIsMix(prev, x[i], w, alpha);
      assert alpha / (w + alpha) == alpha;
    }
  }

  /** `Blend` mixes the running mean with the new observation in proportion
      to their weights; skipping the update when the two are equal changes
      nothing, since a mix of a value with itself gives it back. */
  lemma BlendIsMix(weighted: real, cur: real, oldWt: real, newWt: real)
    requires oldWt + newWt > 0.0
    ensures var g := newWt / (oldWt + newWt);
      Blend(weighted, cur, oldWt, newWt) == (1.0 - g) * weighted + g * cur
  {
    var total := oldWt + newWt;
    var g := newWt / total;
    assert oldWt / total + g == total / total == 1.0;
    if weighted == cur {
      assert (1.0 - g) * cur + g * cur == cur;
    } else {
      assert (oldWt / total) * weighted == (oldWt * weighted) / total;
      assert g * cur == (newWt * cur) / total;
    }
  }
}
