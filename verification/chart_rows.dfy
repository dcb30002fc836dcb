/**
 The table the stock chart is drawn from: one row per trading day with the
 close, RSI(14) and MACD(12, 26, 9), after `dropna()` has removed every row
 in which an indicator is NaN.
 */
module ChartRows {
  import opened Calendar
  import opened BarOrder
  import opened Series
  import opened Indicators

  /** The RSI window and the MACD spans the script uses. */
  const RsiWindow: nat := 14
  const FastSpan: nat := 12
  const SlowSpan: nat := 26
  const SignalSpan: nat := 9

  /** One row of the frame once the indicator columns are added. */
  datatype ChartRow = ChartRow(day: Date, close: real, rsi: Opt, macd: Opt, signal: Opt, histogram: Opt)

  /** No indicator of the row is NaN. */
  predicate Complete(row: ChartRow) {
    row.rsi.Some? && row.macd.Some? && row.signal.Some? && row.histogram.Some?
  }

  /** The close column. */
  function Closes(bars: seq<Bar>): (c: seq<real>)
    ensures |c| == |bars|
    ensures forall t :: 0 <= t < |bars| ==> c[t] == bars[t].close
  {
    seq(|bars|, t requires 0 <= t < |bars| => bars[t].close)
  }

  /** The frame with the four indicator columns, before `dropna()`. */
  function Table(bars: seq<Bar>): (rows: seq<ChartRow>)
    ensures |rows| == |bars|
    ensures forall t :: 0 <= t < |bars| ==> rows[t].day == bars[t].day && rows[t].close == bars[t].close
  {
    var close := Closes(bars);
    var rsi := Rsi(close, RsiWindow);
    var m := Macd(close, FastSpan, SlowSpan, SignalSpan);
    seq(|bars|, t requires 0 <= t < |bars| =>
      ChartRow(bars[t].day, close[t], rsi[t], Some(m.macd[t]), Some(m.signal[t]), Some(m.histogram[t])))
  }

  /** `dropna()`: the complete rows, in their order. */
  function DropNa(rows: seq<ChartRow>): (kept: seq<ChartRow>)
    ensures |kept| <= |rows|
    ensures forall i :: 0 <= i < |kept| ==> Complete(kept[i])
    ensures forall r :: r in kept <==> r in rows && Complete(r)
  {
    if |rows| == 0 then []
    else (if Complete(rows[0]) then [rows[0]] else []) + DropNa(rows[1..])
  }

  /** Dropping rows works row by row: the rows kept from two pieces of a
      table, in order, are the rows kept from the whole. */
  lemma {:induction false} DropNaAppend(a: seq<ChartRow>, b: seq<ChartRow>)
    ensures DropNa(a + b) == DropNa(a) + DropNa(b)
  {
    if |a| > 0 {
      assert (a + b)[1..] == a[1..] + b;
      DropNaAppend(a[1..], b);
    } else {
      assert a + b == b;
    }
  }

  /** A table is left as it is exactly when every row is complete. */
  lemma {:induction false} DropNaKeepsComplete(rows: seq<ChartRow>)
    ensures DropNa(rows) == rows <==> forall i :: 0 <= i < |rows| ==> Complete(rows[i])
  {
    if forall i :: 0 <= i < |rows| ==> Complete(rows[i]) {
      if |rows| > 0 {
        DropNaKeepsComplete(rows[1..]);
      }
    }
  }

  /** A table without a complete row is dropped entirely. */
  lemma {:induction false} DropNaDropsIncomplete(rows: seq<ChartRow>)
    requires forall i :: 0 <= i < |rows| ==> !Complete(rows[i])
    ensures DropNa(rows) == []
  {
    if |rows| > 0 {
      DropNaDropsIncomplete(rows[1..]);
    }
  }

  /** Dropping twice drops nothing more. */
  lemma DropNaIdempotent(rows: seq<ChartRow>)
    ensures DropNa(DropNa(rows)) == DropNa(rows)
  {
    DropNaKeepsComplete(DropNa(rows));
  }

  /** Both MACD columns and the histogram are defined in every row; the RSI
      decides which rows survive: a row is complete exactly when it is past
      the RSI warm-up and the close has moved by then. */
  lemma RowComplete(bars: seq<Bar>, t: nat)
    requires t < |bars|
    ensures Complete(Table(bars)[t]) <==> RsiWindow - 1 <= t && Moved(Closes(bars), t)
  {
    var close := Closes(bars);
    if t < RsiWindow - 1 {
      RsiWarmUp(close, RsiWindow, t);
    } else {
      RsiDefined(close, RsiWindow, t);
    }
  }

  /** A move of the close once seen stays seen. */
  lemma MovedLater(close: seq<real>, s: nat, t: nat)
    requires s <= t < |close| && Moved(close, s)
    ensures Moved(close, t)
  {
    var k :| 0 < k <= s && close[k] != close[k - 1];
    assert 0 < k <= t;
  }

  /** The number of rows the RSI warm-up removes from a table of `n` rows. */
  function WarmUpRows(n: nat): (w: nat)
    ensures w <= n && w <= RsiWindow - 1
    ensures w < RsiWindow - 1 ==> w == n
  {
    if n < RsiWindow - 1 then n else RsiWindow - 1
  }

  /** When the close has moved by the end of the warm-up, `dropna()` removes
      exactly the first 13 rows (all of them if there are fewer). */
  lemma ChartAfterDrop(bars: seq<Bar>)
    requires |bars| < RsiWindow || Moved(Closes(bars), RsiWindow - 1)
    ensures DropNa(Table(bars)) == Table(bars)[WarmUpRows(|bars|)..]
    ensures |DropNa(Table(bars))| == |bars| - WarmUpRows(|bars|)
  {
    var rows := Table(bars);
    var w := WarmUpRows(|bars|);
    forall t | 0 <= t < |rows|
      ensures Complete(rows[t]) <==> w <= t
    {
      RowComplete(bars, t);
      if w <= t {
        MovedLater(Closes(bars), RsiWindow - 1, t);
      }
    }
    DropNaPrefix(rows, w);
  }

  /** When exactly the rows from `w` on are complete, `dropna()` removes the
      first `w` rows. */
  lemma DropNaPrefix(rows: seq<ChartRow>, w: nat)
    requires w <= |rows|
    requires forall t :: 0 <= t < |rows| ==> (Complete(rows[t]) <==> w <= t)
    ensures DropNa(rows) == rows[w..]
  {
    assert rows == rows[..w] + rows[w..];
    DropNaAppend(rows[..w], rows[w..]);
    DropNaDropsIncomplete(rows[..w]);
    DropNaKeepsComplete(rows[w..]);
  }

  /** A close that never moves leaves no row to chart. */
  lemma ChartFlat(bars: seq<Bar>)
    requires forall t :: 0 < t < |bars| ==> bars[t].close == bars[t - 1].close
    ensures DropNa(Table(bars)) == []
  {
    var rows := Table(bars);
    forall t | 0 <= t < |rows|
      ensures !Complete(rows[t])
    {
      RowComplete(bars, t);
    }
    DropNaDropsIncomplete(rows);
  }

  /** The script's main flow from the downloaded bars to the charted rows:
      both indicators, the frame, then `dropna()`. */
  method BuildChart(bars: seq<Bar>) returns (rows: seq<ChartRow>)
    ensures rows == DropNa(Table(bars))
  {
    var close := Closes(bars);
    var rsi := CalculateRsi(close, RsiWindow);
    var m := CalculateMacd(close, FastSpan, SlowSpan, SignalSpan);
    ghost var table := Table(bars);
    rows := [];
    var i := 0;
    while i < |bars|
      invariant 0 <= i <= |bars|
      invariant rows == DropNa(table[..i])
    {
      var row := ChartRow(bars[i].day, close[i], rsi[i], Some(m.macd[i]), Some(m.signal[i]), Some(m.histogram[i]));
      assert row == table[i];
      assert table[..i + 1] == table[..i] + [row];
      DropNaAppend(table[..i], [row]);
      if Complete(row) {
        rows := rows + [row];
      }
      i := i + 1;
    }
    assert table[..i] == table;
  }
}
