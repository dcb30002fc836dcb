# Index data repair, day ordering, RSI and MACD in Dafny

This project models the computational core of two small market-data scripts.

- **The index script** downloads the daily bars of the Shanghai Composite index.
  - The bars arrive as text that is almost JSON. The script patches that text in two steps:
    - step 1: `re.sub(r'"\s*"\s*', '","', text)` puts a comma between two quoted fields that touch;
    - step 2: `text.replace('}{', '},{')` puts a comma between two records that touch.
  - It then parses the rows and sorts them by day.
- **The stock script** downloads daily bars of a share and adds indicator columns:
  - RSI(14): the day-to-day change of the close, split into gains and losses, each averaged with `ewm(com=13, min_periods=14)`, then `100 - 100 / (1 + avgGain / avgLoss)`;
  - MACD(12, 26, 9): the difference of two `ewm(span, adjust=False)` means of the close, its own span-9 mean (the signal line) and the difference of the two (the histogram).
  - Finally it drops every row in which an indicator is NaN.

## Modules

| module | file | what it models |
|---|---|---|
| `ResponseRepair` | `response_repair.dfy` | Step 1 as a left-to-right scan with greedy `\s*`. Step 2 and its inverse `JoinObjects`. The whole `Repair`. |
| `RepairExamples` | `repair_examples.dfy` | The repair worked out on concrete texts. |
| `Calendar`, `BarOrder` | `calendar.dfy`, `bar_order.dfy` | A calendar day. Bars ordered by day, through insertion into a sorted sequence. |
| `Series` | `series.dfy` | A numeric column. NaN is the `None` of `Opt`. |
| `Ewm` | `ewm.dfy` | `ewm(...).mean()` in its two forms, the streaming loop pandas runs to compute it, and `min_periods`. |
| `Indicators` | `indicators.dfy` | `calculate_rsi` and `calculate_macd`. |
| `ChartRows` | `chart_rows.dfy` | The frame with the four indicator columns, `dropna()`, and the main flow `BuildChart`. |

### Modelling decisions

- **Numbers are reals.** A close or an average is a Dafny `real`. Floating point is not modelled.
  - NaN is `None`.
  - pandas' float division decides three cases of the RSI, which are modelled exactly:
    - a zero average loss with a positive average gain gives an infinite ratio, so the RSI is 100;
    - both averages zero gives 0/0, which is NaN;
    - otherwise the RSI is `100 - 100/(1 + g/l)`, proved equal to `100g/(g+l)`.
- **The pandas ewm parameters.**
  - `span` and `com` become the smoothing factor `alpha`, as pandas converts them: `2/(span+1)` and `1/(1+com)`.
  - adjust=False is the recursion `y[t] = (1-alpha) y[t-1] + alpha x[t]`.
  - adjust=True is the weighted average with weights `(1-alpha)^age`.
  - `EwmMean` is the single loop pandas uses for both forms. It is proved to compute exactly these definitions, including the rule that an observation equal to the running mean leaves it untouched.
- **Warm-up rows.**
  - `diff()` is NaN in the first row. `where(delta > 0, 0)` and its counterpart then turn it into 0.
  - So the gain and loss columns have no NaN, and `min_periods=14` makes the first 13 rows of the RSI NaN.
  - The three MACD columns have no `min_periods`, so they are never NaN.
  - The RSI alone decides which rows `dropna()` removes: the first 13, and also every row before the first move of the close (`RowComplete`).
- **Step 1's whitespace.** `\s` in a Python `str` pattern is the set of characters for which `str.isspace()` holds. `IsSpace` lists that set.
- **What the repair does to some texts.**
  - *A second repair can change the text again.* `"""` becomes `",""`, which still holds two adjacent quotes, and then `",","` (`RepairExamples.RepairNotIdempotent`). Idempotence holds where step 1 leaves no quote run behind (`ResponseRepair.RepairIdempotent`).
  - *Valid JSON is altered.* Step 1 cannot tell an empty string from two touching fields, so `[""]` becomes `[","]` (`RepairExamples.EmptyStringExample`).
  - *Records that touch.* The fragment `"a":"1"}{"a":"2"` becomes `"a":"1"},{"a":"2"` (`RepairExamples.FragmentExample`). The comma comes from step 2 alone; step 1 finds nothing to change in it.

## Model

| member | source | states |
|---|---|---|
| ResponseRepair.MatchLengthFinds | shanghai_index_plot.py:33 | At the front of the text the pattern matches exactly a quote, whitespace, a quote and the whitespace after it, up to the first non-space |
| ResponseRepair.MatchLength | shanghai_index_plot.py:33 | The length of the match of the pattern at the front of the text, 0 for none: a match is at least 2 long, is a quote, optional whitespace, a quote and optional whitespace, and ends at the end of the text or before a non-space |
| ResponseRepair.SeparateFields | shanghai_index_plot.py:33 | Step 1 as a left-to-right scan (definition): a match at the front becomes `","` and the scan goes on after it; any other front character is copied |
| ResponseRepair.SeparateFieldsCopies | shanghai_index_plot.py:33 | Where no quote run starts, whatever follows the quote, step 1 copies the front character and goes on with the rest |
| ResponseRepair.SeparateFieldsReplaces | shanghai_index_plot.py:33 | Where a match starts, step 1 writes `","` and goes on after the match, so matches never overlap |
| ResponseRepair.SeparateFieldsKeepsContent | shanghai_index_plot.py:33 | Step 1 keeps every character other than quotes, whitespace and commas, in order |
| ResponseRepair.SeparateFieldsCounts | shanghai_index_plot.py:33 | Step 1 keeps the number of quotes and adds exactly one comma per replacement |
| ResponseRepair.SeparateFieldsFixedPoints | shanghai_index_plot.py:33 | Step 1 leaves a text unchanged exactly when it holds no quote run |
| ResponseRepair.ReplacementsNone | shanghai_index_plot.py:33 | With no replacement made, step 1 returns its input |
| ResponseRepair.SeparateObjects | shanghai_index_plot.py:35 | Step 2 leaves no `}{`, keeps the first character, and its output is longer than its input by the number of `}{` in the input |
| ResponseRepair.SeparateObjectsCons | shanghai_index_plot.py:35 | Away from a `}{`, step 2 copies the front character |
| ResponseRepair.SeparateObjectsAtBoundary | shanghai_index_plot.py:35 | At a `}{`, step 2 writes `},{` and goes on after the `{` |
| ResponseRepair.SeparateObjectsPrefix | shanghai_index_plot.py:35 | A stretch without `}{` that does not end in `}` before a `{` passes through step 2 unchanged |
| ResponseRepair.SeparateObjectsOnlyAddsCommas | shanghai_index_plot.py:35 | Removing all commas from the input and from the output of step 2 gives the same text |
| ResponseRepair.SeparateObjectsCommaCount | shanghai_index_plot.py:35 | Step 2 adds exactly one comma per `}{` |
| ResponseRepair.NoBoundaryCount | shanghai_index_plot.py:35 | A text has no `}{` exactly when its count of `}{` is 0 |
| ResponseRepair.SeparateObjectsFixedPoints | shanghai_index_plot.py:35 | Step 2 leaves a text unchanged exactly when it has no `}{` |
| ResponseRepair.JoinObjectsIdentity | shanghai_index_plot.py:35 | Removing the comma of each `},{` changes nothing in a text without `},{` |
| ResponseRepair.JoinAfterSeparate | shanghai_index_plot.py:35 | Removing the comma of each `},{` after step 2 gives what it gives on the input |
| ResponseRepair.SeparateObjectsRoundTrip | shanghai_index_plot.py:35 | On a text with no `},{` of its own, removing the inserted commas gives back the input |
| ResponseRepair.SeparateObjectsNotInjective | shanghai_index_plot.py:35 | `}{` and `},{` give the same output, so step 2 has no inverse in general |
| ResponseRepair.SeparateObjectsKeepsNoQuoteRun | shanghai_index_plot.py:33-35 | Step 2 creates no quote run |
| ResponseRepair.Repair | shanghai_index_plot.py:33-35 | No `}{` is left after the repair |
| ResponseRepair.RepairKeepsBraces | shanghai_index_plot.py:33-35 | The repair keeps the number of `{` and the number of `}` |
| ResponseRepair.RepairKeepsCount | shanghai_index_plot.py:33-35 | Every character other than quotes, whitespace and commas occurs as often after the repair as before |
| ResponseRepair.RepairFixedPoints | shanghai_index_plot.py:33-35 | The repair leaves a text unchanged exactly when it has neither a quote run nor a `}{` |
| ResponseRepair.RepairIdempotent | shanghai_index_plot.py:33-35 | When step 1 leaves no quote run, a second repair changes nothing |
| RepairExamples.ObjectBoundaryExample | shanghai_index_plot.py:33-35 | Two records that touch get a comma between them, and their fields are left alone |
| RepairExamples.FragmentExample | shanghai_index_plot.py:33-35 | The fragment `"a":"1"}{"a":"2"` is repaired to `"a":"1"},{"a":"2"` |
| RepairExamples.AdjacentFieldsExample | shanghai_index_plot.py:33-35 | `"x""y"` is repaired to `"x","y"` |
| RepairExamples.SpacedFieldsExample | shanghai_index_plot.py:33-35 | `"x" "y"` is repaired to `"x","y"`: the whitespace is replaced |
| RepairExamples.TripleQuoteExample | shanghai_index_plot.py:33-35 | `"""` is repaired to `",""` |
| RepairExamples.TripleQuoteAgainExample | shanghai_index_plot.py:33-35 | `",""` is repaired to `",","` |
| RepairExamples.RepairNotIdempotent | shanghai_index_plot.py:33-35 | Repairing `"""` twice differs from repairing it once |
| RepairExamples.EmptyStringExample | shanghai_index_plot.py:33-35 | The valid JSON `[""]` is altered to `[","]` |
| BarOrder.Insert | shanghai_index_plot.py:47 | Inserting a bar into rows sorted by day keeps them sorted and adds exactly that bar |
| BarOrder.SortByDay | shanghai_index_plot.py:47 | The result is in non-decreasing order of day and is a permutation of the input |
| BarOrder.SortByDayUnique | shanghai_index_plot.py:47 | With one bar per day, any ordering by day of the rows is the one `SortByDay` returns |
| BarOrder.SortExample | shanghai_index_plot.py:47 | Bars of 2021-03-01, 2020-01-05 and 2020-06-15 come back in calendar order |
| Ewm.SpanAlpha | tesla_stock_echarts.py:25-26 | The factor for a span of at least 1 lies in (0, 1] and is 1 only for span 1 |
| Ewm.ComAlpha | tesla_stock_echarts.py:18-19 | The factor for a centre of mass of at least 0 lies in (0, 1] and is 1 only for com 0 |
| Ewm.Recursive | tesla_stock_echarts.py:25-26 | The adjust=False mean (definition): one value per observation, the first being the first observation and each later one `(1-alpha)` times the previous plus `alpha` times the new observation; its contract gives the length, and `RecursiveFirst`, `RecursiveStep` and `RecursiveCausal` state the rest |
| Ewm.RecursiveFirst | tesla_stock_echarts.py:25-26 | The adjust=False mean starts at the first observation |
| Ewm.RecursiveStep | tesla_stock_echarts.py:25-26 | Each adjust=False value moves the previous one the fraction alpha towards the new observation |
| Ewm.RecursiveCausal | tesla_stock_echarts.py:25-26 | An adjust=False value depends only on the observations up to its own row |
| Ewm.RecursiveBounds | tesla_stock_echarts.py:25-26 | Each adjust=False value lies between the lowest and the highest observation so far |
| Ewm.RecursiveConstant | tesla_stock_echarts.py:25-26 | A constant column has itself as its adjust=False mean |
| Ewm.RecursiveShift | tesla_stock_echarts.py:25-26 | Adding a constant to the column adds it to the adjust=False mean |
| Ewm.WeightStep | tesla_stock_echarts.py:18-19 | The total weight of one more age class is 1 plus the discounted previous total |
| Ewm.WeightedSumStep | tesla_stock_echarts.py:18-19 | The weighted sum at a row is the new observation plus the discounted weighted sum of the row before |
| Ewm.AdjustedAt | tesla_stock_echarts.py:18-19 | The adjust=True mean at a row (definition): the observations so far weighted by `(1-alpha)` to the power of their age, divided by the total weight; `AdjustedFirst`, `AdjustedStep` and `AdjustedBounds` state its properties |
| Ewm.AdjustedFirst | tesla_stock_echarts.py:18-19 | The adjust=True mean starts at the first observation |
| Ewm.AdjustedStep | tesla_stock_echarts.py:18-19 | Each adjust=True value mixes the previous value with the new observation in the share 1/(total weight) |
| Ewm.ShareBounds | tesla_stock_echarts.py:18-19 | The new observation's share lies in (0, 1], and below 1 after the first row when older rows carry weight |
| Ewm.AdjustedBounds | tesla_stock_echarts.py:18-19 | Each adjust=True value lies between the lowest and the highest observation so far |
| Ewm.AdjustedPositive | tesla_stock_echarts.py:18-19 | For non-negative observations and alpha below 1, the adjust=True mean is non-negative and positive exactly when some observation so far is |
| Ewm.AdjustedConstant | tesla_stock_echarts.py:18-19 | A constant column has itself as its adjust=True mean |
| Ewm.AdjustedNonneg | tesla_stock_echarts.py:18-19 | Non-negative observations give a non-negative adjust=True mean |
| Ewm.AdjustedNoMemory | tesla_stock_echarts.py:18-19 | With alpha 1 the adjust=True mean is the latest observation |
| Ewm.Smoothed | tesla_stock_echarts.py:18-19 | The mean with `min_periods` (definition): one entry per observation, NaN while fewer than `min_periods` observations have been seen, the mean of the chosen form after |
| Ewm.SmoothedRecursive | tesla_stock_echarts.py:25-26 | Without min_periods every adjust=False row is defined and holds the recursive mean |
| Ewm.LoopStep | tesla_stock_echarts.py:18-19 | One pass of pandas' loop takes the running mean of one row to that of the next, in either form |
| Ewm.EwmMean | tesla_stock_echarts.py:18-19 | pandas' streaming loop returns NaN for the first min_periods - 1 rows and the exact mean of the chosen form after |
| Indicators.Diff | tesla_stock_echarts.py:15 | `diff()` (definition): one entry per close, NaN in the first row and the change from the row before after |
| Indicators.Gain | tesla_stock_echarts.py:16 | The gain column (definition): one entry per change, the change where it is a rise and 0 otherwise, NaN included |
| Indicators.Loss | tesla_stock_echarts.py:17 | The loss column (definition): one entry per change, the size of the change where it is a fall and 0 otherwise, NaN included |
| Indicators.GainLossSplit | tesla_stock_echarts.py:15-17 | Gain and loss are non-negative and never both positive, both are 0 in the first row, and gain minus loss is the change of the close |
| Indicators.GainLossRebuild | tesla_stock_echarts.py:15-17 | The first close plus the running total of gain minus loss gives back every close |
| Indicators.MovedGainLoss | tesla_stock_echarts.py:15-17 | The close has moved by row t exactly when some gain or some loss so far is positive |
| Indicators.RsiValue | tesla_stock_echarts.py:20-21 | The RSI is NaN exactly when both averages are 0; otherwise it is 100g/(g+l), within [0, 100], 100 exactly when the loss is 0 and 0 exactly when the gain is 0 |
| Indicators.RsiRatio | tesla_stock_echarts.py:20-21 | With a positive average loss, `100 - 100/(1 + g/l)` equals 100g/(g+l), lies in [0, 100) and is 0 exactly when the gain is 0 |
| Indicators.RsiAlpha | tesla_stock_echarts.py:18-19 | The factor of com = window - 1 lies in (0, 1], and below 1 exactly when the window is at least 2 |
| Indicators.AverageGain | tesla_stock_echarts.py:18 | The average gain (definition): one entry per close, the adjust=True mean of the gains with com = window - 1 and min_periods = window |
| Indicators.AverageLoss | tesla_stock_echarts.py:19 | The average loss (definition): one entry per close, the adjust=True mean of the losses with com = window - 1 and min_periods = window |
| Indicators.AveragesNonneg | tesla_stock_echarts.py:18-19 | Both averages are NaN exactly in the first window - 1 rows, and non-negative after |
| Indicators.Rsi | tesla_stock_echarts.py:14-22 | The RSI column (definition): one entry per close, each the `RsiValue` of the two averages of that row, NaN where either is NaN |
| Indicators.RsiWarmUp | tesla_stock_echarts.py:14-22 | The RSI is NaN in the first window - 1 rows |
| Indicators.RsiRange | tesla_stock_echarts.py:14-22 | A defined RSI lies in [0, 100] and equals 100g/(g+l) for the two averages |
| Indicators.RsiDefined | tesla_stock_echarts.py:14-22 | For a window of at least 2, past the warm-up the RSI is defined exactly when the close has moved by then |
| Indicators.RsiDefinedNoMemory | tesla_stock_echarts.py:14-22 | For a window of 1, the RSI is defined exactly when the close moved since the row before |
| Indicators.RsiRising | tesla_stock_echarts.py:14-22 | A strictly rising close gives an RSI of 100 after the warm-up |
| Indicators.RsiFalling | tesla_stock_echarts.py:14-22 | A strictly falling close gives an RSI of 0 after the warm-up |
| Indicators.CalculateRsi | tesla_stock_echarts.py:14-22 | With pandas' loop for both averages, the method returns the RSI column as defined |
| Indicators.Ema | tesla_stock_echarts.py:25-26 | `ewm(span=span, adjust=False).mean()` (definition): one value per observation, the adjust=False mean with alpha = 2/(span+1) |
| Indicators.Macd | tesla_stock_echarts.py:24-30 | All three lines are as long as the close, and signal plus histogram is the MACD line |
| Indicators.MacdFirstRow | tesla_stock_echarts.py:24-30 | All three lines start at 0 |
| Indicators.MacdConstant | tesla_stock_echarts.py:24-30 | A constant close gives three lines that are 0 throughout |
| Indicators.MacdEqualSpans | tesla_stock_echarts.py:24-30 | Equal fast and slow spans give three lines that are 0 throughout |
| Indicators.MacdShift | tesla_stock_echarts.py:24-30 | Adding the same amount to every close changes none of the lines |
| Indicators.MacdSignalBounds | tesla_stock_echarts.py:27-28 | The signal line stays between the lowest and the highest MACD value so far |
| Indicators.CalculateMacd | tesla_stock_echarts.py:24-30 | With pandas' loop for the three means, the method returns the three lines as defined |
| ChartRows.Table | tesla_stock_echarts.py:187-191 | The frame has one row per bar, with that bar's day and close |
| ChartRows.DropNa | tesla_stock_echarts.py:194 | The kept rows are complete, and a row is kept exactly when it is in the frame and complete |
| ChartRows.DropNaAppend | tesla_stock_echarts.py:194 | Dropping works row by row: the kept rows of two pieces, in order, are the kept rows of the whole |
| ChartRows.DropNaKeepsComplete | tesla_stock_echarts.py:194 | A frame is left as it is exactly when every row is complete |
| ChartRows.DropNaDropsIncomplete | tesla_stock_echarts.py:194 | A frame without a complete row is dropped entirely |
| ChartRows.DropNaIdempotent | tesla_stock_echarts.py:194 | Dropping twice drops nothing more |
| ChartRows.RowComplete | tesla_stock_echarts.py:187-194 | A row is complete exactly when it is past the 13-row RSI warm-up and the close has moved by then |
| ChartRows.ChartAfterDrop | tesla_stock_echarts.py:187-194 | When the close has moved by row 13, exactly the first 13 rows are removed, or all rows if there are fewer |
| ChartRows.ChartFlat | tesla_stock_echarts.py:187-194 | A close that never moves leaves no row |
| ChartRows.BuildChart | tesla_stock_echarts.py:187-194 | The main flow returns the complete rows of the frame, in order |

## Left out

- Fetching the data is not modelled: the HTTP request, the proxy settings, status checks and the download library.
- Parsing is not modelled: `read_json`, `to_datetime` and a failed parse. A bar arrives already parsed, its day as a `Date`.
- Output is not modelled: plotting, HTML generation, the temporary file and the browser.
- Floating point is not modelled. Values are exact reals, with no rounding, overflow or IEEE special values. The one infinite case of the RSI, a zero average loss with a positive gain, is modelled as the 100 it leads to.
- A NaN in the downloaded close is not modelled. The close column is a `seq<real>`.
- The model's `DropNa` looks only at the indicator columns; the downloaded price and volume columns are taken to hold no NaN.
- The console messages are not modelled: the debug prints of the raw response (shanghai_index_plot.py:24) and of the column names (tesla_stock_echarts.py:183), and the failure messages.
- pandas rejects a span below 1 and a negative centre of mass. These error paths are preconditions here (`span >= 1`, `window >= 1`); the script's constants always meet them.
- `BarOrder.SortByDay`: `sort_values` is not a stable sort, so the order of two bars on the same day is left open. The model fixes one order, and `SortByDayUnique` shows that the order is forced when each day has one bar.
- pandas' own ewm implementation is not part of this model. `Ewm.EwmMean` follows its loop for a column without NaN; the `ignore_na` and `times` options are left out.
- `ResponseRepair.RepairIdempotent`: proved only where step 1 leaves no quote run, because in general a second repair changes `"""` again (`RepairExamples.RepairNotIdempotent`).
