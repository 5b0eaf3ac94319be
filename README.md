# Trailing-return report of TickerFinder, modelled in Dafny

TickerFinder's `get_performance_data` reads a list of tickers. For each ticker it downloads
the full daily price history and computes the trailing percentage return over a fixed set of
named windows: "1 Day", "5 Days", …, "10 Years" (counts of trading days) and "Year to Date".
It collects one row per ticker whose download gave data, moves the `Ticker` column to the
front, and colours every return cell green, red or not at all.

The project models that engine:

- `wrappers.dfy` holds `Option`, Python's `None` for a return that cannot be computed.
- `ordered_dict.dfy` holds a Python `dict` as an insertion-ordered sequence of pairs.
  `Put` is `d[k] = v`: it overwrites an existing key where it stands, or appends a new key.
- `calculator.dfy` (module `Performance`) holds `calculate_performance`.
  - It is a method with a loop over the windows that fills the dict.
  - It is proved equal to the specification function `PerformanceOf`.
  - Per window, `FixedReturn` and `YtdReturn` carry the defined-iff conditions and the reference prices.
  - A price history is a sequence of `(date, close)` entries: dates are day numbers, closes are reals.
  - "January 1 of the current year" is the parameter `yearStart`.
- `report.dfy` (module `Report`) holds the rest.
  - The ticker loop is a method with `continue` on an empty or failed download, proved equal to `Collected`.
  - The download is a given outcome per ticker: `Downloaded(series)` (possibly empty) or `Raised`.
  - It also holds the columns of the table built from the rows, the reorder that puts `Ticker` first, and `highlight_performance`.

Points where the code's behaviour is easy to misread:

- A fixed window of `k` days takes its reference close from `Close.iloc[-k]`. That is the
  entry at index `len - k`, k - 1 trading days before today, not k. So "1 Day" always compares
  today's close with itself and is 0 whenever it is defined (`FixedReference`, `OneDayIsFlat`).
  The window is still defined only when `len > k`.
- `iloc[-0]` is `iloc[0]`, so a window of 0 days would use the first close. The model keeps this.
  The configured windows never use it.
- A zero reference price is not guarded against: the division would give an infinity or NaN
  rather than "undefined". The model requires non-zero closes instead (see "Left out").
- When no ticker yields data, the table has no `Ticker` column. Selecting it at line 64 then
  raises `KeyError`, so the run does not complete. `MoveTickerFirst` returns `None` for this
  case, and `ReportColumns` proves that it happens exactly when no download yields data.
- The cell colouring is two-way for numbers: a return of exactly 0 is coloured red, like a
  negative one. A missing value gets no style (`Highlight`).

## Model

| member | source | states |
|---|---|---|
| OrderedDict.Put | performance.py:56 | `d[k] = v` grows the dict by one entry exactly when `k` is a new key (its lookup, append and order facts are `PutGet`, `PutNew`, `PutExisting`) |
| OrderedDict.PutGet | performance.py:56 | after `d[k] = v`, `k` looks up `v` and every other key looks up what it did before |
| OrderedDict.PutNew | performance.py:37-45 | assigning to a key that is not yet present appends it at the end, after the earlier keys |
| OrderedDict.PutExisting | performance.py:56 | assigning to a key that is present keeps the keys and their order |
| OrderedDict.GetAt | performance.py:30-46 | in a dict with distinct keys, the i-th key looks up the i-th value |
| Performance.PercentChange | performance.py:37-43 | `((today - past) / past) * 100`: for a positive reference it is positive, zero or negative exactly when today's close is above, equal to or below the reference |
| Performance.ILoc | performance.py:42 | `iloc[i]` with Python's negative indexing is the entry at `(i + len) mod len`, so `iloc[-1]` is the last entry and `iloc[-k]` the one at `len - k` |
| Performance.FixedReturn | performance.py:41-45 | a window of k days is defined iff the history has more than k entries; its reference is the close at index `len - k` (index 0 when k = 0), compared with the last close |
| Performance.FixedReference | performance.py:42 | for 1 <= k < len the reference close is k - 1 trading days before today |
| Performance.OneDayIsFlat | performance.py:41-43 | the "1 Day" window is 0 whenever the history has two or more entries, and `None` otherwise |
| Performance.OnOrAfter | performance.py:34 | the filtered history holds exactly the entries dated on or after the cutoff |
| Performance.OnOrAfterAppend | performance.py:34 | the filter works piecewise over concatenation, so the surviving entries keep their series order |
| Performance.OnOrAfterAll | performance.py:34 | a history dated entirely on or after the cutoff passes the filter unchanged |
| Performance.FirstOnOrAfter | performance.py:34-36 | every entry before the returned position predates the cutoff; the entry at it, if any, does not |
| Performance.OnOrAfterHead | performance.py:34-36 | the filtered history is empty iff no entry is on or after the cutoff; otherwise its first entry is the earliest such entry of the history |
| Performance.YtdReturn | performance.py:32-39 | year to date is `None` iff every entry predates the cutoff; otherwise it is the change from the earliest entry on or after the cutoff to the last entry |
| Performance.WindowReturn | performance.py:32-45 | dispatch on `'ytd'` or a day count: a fixed window is defined iff `len > k`, year to date iff some entry is on or after the cutoff, and a defined return is the change from the reference close to the last close |
| Performance.ReturnSign | performance.py:37-43 | for positive prices, a defined return of either kind is positive, zero or negative exactly when today's close is above, equal to or below its reference close (index `len - k`, or the first entry on or after the cutoff) |
| Performance.PerformanceOf | performance.py:28-46 | the returned dict's keys are the window names in configuration order and every value is a float or `None` (lookups are `PerformanceLookup`) |
| Performance.PerformanceLookup | performance.py:30-46 | the result has every window name as a key, in configuration order, each looking up its own window's return or `None` |
| Performance.CalculatePerformance | performance.py:28-46 | the loop over the windows builds exactly the dict `PerformanceOf`: one entry per window in order, no window omitted, `None` recorded explicitly |
| Performance.PerformancePeriodsWellFormed | performance.py:12-25 | the twelve configured window names are distinct and none of them is `Ticker` |
| Report.RowOf | performance.py:55-57 | a ticker's row looks up the ticker under `Ticker`; with no window named `Ticker` it is the window returns followed by the `Ticker` entry |
| Report.Kept | performance.py:50-54 | the positions of rows' tickers lie within the ticker list |
| Report.Collected | performance.py:49-60 | `performance_data` after the loop has one row per ticker that yields data, each carrying a `Ticker` entry (which rows, in which order, is `CollectedRows`) |
| Report.KeptExactly | performance.py:50-60 | a ticker yields a row iff its download succeeded with non-empty data; the positions are strictly increasing |
| Report.CollectedRows | performance.py:49-60 | the j-th row is the row computed for the j-th ticker that yields data, so the rows are those tickers', one each, in input order |
| Report.RowsTagged | performance.py:56 | each row carries the ticker it was computed for under `Ticker` |
| Report.CollectPerformance | performance.py:49-60 | the loop over the tickers builds exactly `Collected`; empty and failed downloads add no row |
| Report.SkipsFailedTicker | performance.py:50-60 | with three tickers whose second download raises, the rows are those of the first and third, in that order |
| Report.AddNew | performance.py:63 | merging a row's keys into the columns keeps the columns already there as a prefix and adds exactly the missing keys |
| Report.AddNewPresent | performance.py:63 | a row whose keys are all columns already adds no column |
| Report.AddNewFresh | performance.py:63 | new distinct keys are appended in their own order |
| Report.AddNewDistinct | performance.py:63 | merging keys into distinct columns keeps the columns distinct |
| Report.FrameColumns | performance.py:63 | the table's columns are distinct and are exactly the keys that occur in some row |
| Report.FrameColumnsUniform | performance.py:63 | rows that all have the same distinct keys make a table with exactly those columns, in that order |
| Report.Without | performance.py:64 | the comprehension keeps exactly the columns other than the removed one, and never lengthens the list (order is `WithoutAppend`) |
| Report.WithoutAppend | performance.py:64 | the column filter works piecewise over concatenation, so it keeps the relative order |
| Report.WithoutAbsent | performance.py:64 | filtering out a column that is not present changes nothing |
| Report.WithoutSplit | performance.py:64 | removing a column that occurs once between `pre` and `post` leaves `pre + post` |
| Report.MoveTickerFirst | performance.py:64 | the reorder succeeds iff there is a `Ticker` column; `Ticker` comes first and nowhere else, and exactly the other columns follow |
| Report.MoveTickerFirstShape | performance.py:64 | with distinct columns `pre + [Ticker] + post`, the reorder gives `[Ticker] + pre + post` |
| Report.CollectedKeys | performance.py:55-57 | every row's keys are the window names in order, followed by `Ticker` |
| Report.ReportColumns | performance.py:63-64 | when some ticker yields data, the report's columns are `Ticker` and then the window names in configuration order; when none does, there are no rows and the reorder fails |
| Report.Highlight | performance.py:67-71 | a missing value gets no style, a value above 0 green, and any other value, 0 included, red |
| Report.FixedWindowStyle | performance.py:67-71 | for positive prices a fixed window's cell is unstyled iff the history is too short, green iff today's close is above the close at `len - k`, red otherwise |

## Left out

- Reading the ticker file (line 9) and the download `yf.download` (line 52) are file and network I/O.
  The tickers are a given sequence and each download is a given `Fetch`: a history (possibly empty) or an exception.
- The wall clock (line 33) is replaced by the parameter `yearStart`, the day number of January 1 of the current year.
  Converting calendar dates to day numbers is not modelled.
- The Styler and HTML output (lines 74, 78), the output file name (line 77) and the messages printed (lines 59, 79) are presentation and I/O.
  Applying `Highlight` to every non-`Ticker` cell is not modelled; only the classification of one cell is.
- The hardcoded paths and the top-level call (lines 83-85) are not modelled.
- Prices are `real`. Floating-point rounding, and the NaN that pandas shows for `None` in a numeric column, are not modelled.
- CalculatePerformance: requires every close to be non-zero. The source divides without a guard, and pandas would produce an infinity or NaN.
- CollectPerformance: requires every downloaded history to have non-zero closes, for the same reason.
- FixedReturn: is stated for any `k >= 0`. Negative counts, which would index from the front and could raise `IndexError`, are not representable.
- CollectPerformance: an exception is modelled only as a download outcome. With non-zero closes, nothing in the calculation itself raises.
- The dates of a history are not required to increase. The calculation does not depend on it: the year-to-date filter keeps series order either way (`OnOrAfterAppend`).
