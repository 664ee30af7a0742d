# Stock indicator scripts, modelled in Dafny

The repository is a set of batch scripts around a local cache of daily
stock prices:

- `load_data.py` reads a ticker list from JSON. For each ticker it either
  downloads ten years of bars or extends the stored CSV table. Extending
  means fetching from the day after the last stored date, then
  concatenating, deduplicating (the later row wins) and sorting by date.
- `ema_calc.py`, `macd_calc.py` and `rsi_calc.py` add indicator columns to
  a stored table:
  - the exponential moving average with `adjust=False`;
  - MACD from two EMAs, with a signal line and a histogram;
  - RSI from simple rolling means of gains and losses.
- `spy_daily_ema_incr.py` keeps a SPY close table up to date. It
  recomputes the 8/21/50/200 EMAs over the whole history, then selects
  the last calendar year for a chart.
- `archive/spy_daily_ema_incr.py` is an earlier version of that script. It
  adds 12/26/50/200 EMAs, a Wilder-smoothed RSI(14) and MACD(12, 26, 9).
- `generate_signals.py` looks at the last 365 days of every stored table.
  It flags the EMA 12 / EMA 26 crossovers and labels each ticker Bullish,
  Bearish or Neutral by its latest crossover. Nothing in its loop catches
  an exception, so the first file that fails ends the run.
- `rising_falling.py` cleans a CSV file and counts, per weekday, the days
  on which the close fell or rose. It reports the days present in Monday
  to Sunday order.

The Dafny project has one module per script, plus four shared modules.

**Shared modules**
- `Common`: days, options, and `Cell` (a number or NaN).
- `Tables`: dated rows, plus the dedup, sort and merge operations the
  scripts apply to them.
- `Frames`: a DataFrame reduced to an index, the ordered column labels
  and a map from label to column, with `df[k] = v` as `Frame.Set`.
- `Calendar`: day numbers and civil dates, `DateOffset(years=1)` and
  `dayofweek`.

**How the scripts' form is kept**
- Pure computations are functions, with lemmas about them.
- Each loop of the scripts is a method with a loop invariant, proved equal
  to a function of its inputs:
  - the EMA column loops;
  - the ticker loop of `load_data.py`;
  - the file loop of `generate_signals.py`.
- The frames the scripts update are local, unaliased values, so an update
  is a rebinding of a `Frame` value.
- Downloads, file contents, `today` and the parsing of dates and numbers
  are parameters.

## Model

| member | source | states |
|---|---|---|
| Tables.MaxDate | load_data.py:66 | `index.max()` of a non-empty table is one of its dates and no row is later |
| Tables.DedupKeepLast | spy_daily_ema_incr.py:51 | `duplicated(keep='last')` filter: distinct dates, the same date set, every kept row is the last row of its date, original order kept |
| Tables.DedupUnique | spy_daily_ema_incr.py:51 | a table whose dates are already distinct passes the filter unchanged |
| Tables.LastWithAppend | load_data.py:81-82 | after a concatenation the last row of a date comes from the second part when that part has the date, else from the first |
| Tables.SortByDate | load_data.py:83 | `sort_index`: ascending dates and a permutation of the input rows |
| Tables.SortDates | load_data.py:83 | sorting keeps the date set and keeps dates distinct |
| Tables.SortAscending | load_data.py:83 | an ascending table is its own sorted order |
| Tables.SortedRowsAreInputRows | generate_signals.py:38 | a row is in the sorted table exactly when it is in the input |
| Tables.MergedRowIsLast | load_data.py:81-83 | every merged row is the last row of its date in stored + fetched |
| Tables.MergeTablesAscending | load_data.py:81-83 | the merged table is strictly ascending and its dates are the union of stored and fetched dates |
| Tables.MergeTablesCorrect | load_data.py:81-83 | date by date, the merged table is the stored table overridden by the fetched one |
| Tables.DedupMergeCorrect | spy_daily_ema_incr.py:42-51 | concatenation then dedup without sort: distinct dates, rows in concatenation order, fetched rows override stored ones |
| Tables.AscendingTableDeterminedByMap | load_data.py:83 | two strictly ascending tables with the same row per date are equal |
| Tables.MergeIdempotent | load_data.py:81-83 | merging the same fetch twice changes nothing |
| Tables.MergeAppendsNewer | load_data.py:81-83 | when all fetched dates are later than all stored ones, the merge is plain concatenation |
| Tables.CloseRows | spy_daily_ema_incr.py:41 | `new_data[[price_col]]`: each bar keeps its date and close |
| Tables.RowsFrom | spy_daily_ema_incr.py:72 | `df.loc[index >= start]`: every selected row is a table row dated on or after `start`, and the selection is a subsequence of the table |
| Tables.RowsFromKeeps | spy_daily_ema_incr.py:72 | every table row dated on or after `start` is selected |
| Tables.RowsFromOne | spy_daily_ema_incr.py:72 | a single row is kept exactly when it is dated on or after `start` |
| Tables.RowsFromAppend | generate_signals.py:68 | the selection splits over a concatenation and keeps a single row iff it is dated on or after `start`: a row-by-row filter that keeps every copy of a qualifying row, in place |
| Frames.Frame.Set | ema_calc.py:43 | `df[k] = v`: column `k` becomes `v`, other columns unchanged, a new label goes last, existing labels keep their order |
| Calendar.DaysFromCivil | spy_daily_ema_incr.py:71 | a valid civil date maps to a day number inside its own year |
| Calendar.CivilFromDays | spy_daily_ema_incr.py:71 | the civil date of a day number is valid and converts back to that day number |
| Calendar.CivilRoundTrip | spy_daily_ema_incr.py:71 | converting a valid civil date to a day number and back gives the same date |
| Calendar.OneYearBefore | spy_daily_ema_incr.py:71 | `ts - DateOffset(years=1)` is the same month and day one year earlier (29 February becomes 28 February), 365 or 366 days earlier |
| Calendar.YearBackDistance | spy_daily_ema_incr.py:71 | same month one year back (29 February becomes 28 February) is 365 or 366 days back |
| Calendar.Weekday | rising_falling.py:47 | `dayofweek` is in 0..6 |
| Calendar.WeekdayNext | rising_falling.py:47 | the weekday advances by one per day, Sunday to Monday, and repeats every seven days |
| EmaCalc.SpanAlpha | ema_calc.py:16 | `span` gives a smoothing factor in (0, 1] |
| EmaCalc.EmaSeed | ema_calc.py:16 | the EMA at the first row equals the first close |
| EmaCalc.EmaStep | ema_calc.py:16 | each later EMA is alpha times the close plus (1 - alpha) times the previous EMA |
| EmaCalc.EmaRecurrence | ema_calc.py:16 | seed and step for every row at once |
| EmaCalc.EmaUnique | ema_calc.py:16 | any series satisfying seed and step is the EMA |
| EmaCalc.EmaPrefix | ema_calc.py:16 | the EMA of a prefix is the prefix of the EMA |
| EmaCalc.EmaAppend | ema_calc.py:16 | appending rows and recomputing leaves the earlier EMA values unchanged |
| EmaCalc.EmaAtLeast | ema_calc.py:16 | a lower bound of the closes bounds every EMA value |
| EmaCalc.EmaAtMost | ema_calc.py:16 | an upper bound of the closes bounds every EMA value |
| EmaCalc.EmaWithinRange | ema_calc.py:16 | each EMA value lies between the least and the greatest close up to that row |
| EmaCalc.EmaConstant | ema_calc.py:16 | a constant series is its own EMA |
| EmaCalc.CalculateEma | ema_calc.py:4-16 | `calculate_ema`: same length, seeded by the first close, the adjust=False step with alpha = 2/(period+1) |
| EmaCalc.CalculateEmaBounds | ema_calc.py:16 | `calculate_ema` stays within the closes seen so far and is constant on a constant series |
| EmaCalc.CloseKey | ema_calc.py:36-39 | the close column is `(Price, ticker)` when `Price` is a first-level label, else `(Close, ticker)`, with the ticker of the first column |
| EmaCalc.AddEmas | ema_calc.py:42-43 | the frame after the period loop is valid and keeps the index |
| EmaCalc.AddEmasSnoc | ema_calc.py:42-43 | one more turn of the loop sets the column of the next period to its EMA |
| EmaCalc.AddEmasWrites | ema_calc.py:42-43 | every requested period's column holds the EMA of the closes for that period |
| EmaCalc.AddEmasKeys | ema_calc.py:42-43 | the labels after the loop are the old labels plus one per requested period |
| EmaCalc.AddEmasPrefix | ema_calc.py:42-43 | the old labels stay first and in their order |
| EmaCalc.AddEmasColumns | ema_calc.py:42-43 | with new, distinct labels the columns are the old ones followed by one per period, in period order |
| EmaCalc.AddEmasKeeps | ema_calc.py:42-43 | a column that is not a requested period's keeps its cells |
| EmaCalc.AddEmasAbsent | ema_calc.py:42-43 | the loop creates no label other than the periods' |
| EmaCalc.AddEmaToFile | ema_calc.py:29-54 | None exactly when pandas would raise (no column; no close column while a period is given; a period below 1); otherwise the frame after the loop, unchanged for no periods |
| EmaCalc.AddEmaToFileWrites | ema_calc.py:42-43 | a successful run writes `(EMA_p, ticker)` = EMA of the close for each period and adds no other label |
| EmaCalc.AddEmaToFileKeeps | ema_calc.py:42-47 | a successful run keeps the old labels in order and every other column's cells |
| MacdCalc.CalculateMacd | macd_calc.py:18-23 | macd = fast EMA - slow EMA, signal = EMA of macd with span `signal`, histogram = macd - signal, row by row |
| MacdCalc.MacdFirstRowZero | macd_calc.py:18-22 | macd, signal and histogram are 0 at the first row |
| MacdCalc.MacdConstantZero | macd_calc.py:18-22 | a constant close series gives three all-zero series |
| MacdCalc.MacdPrefix | macd_calc.py:18-22 | appending closes leaves earlier rows of all three series unchanged |
| MacdCalc.MacdLinePrefix | macd_calc.py:18-20 | the same for the MACD line alone |
| MacdCalc.WithMacd | macd_calc.py:52-54 | the three assignments set exactly the MACD, signal and histogram columns and keep the old labels first |
| MacdCalc.AddMacdToFile | macd_calc.py:38-68 | None exactly when pandas would raise, otherwise the three columns of the ticker set from `calculate_macd`, nothing else changed |
| RsiCalc.GainLossSplit | rsi_calc.py:16-18 | gain and loss are non-negative, at most one is positive, and gain - loss is the close change |
| RsiCalc.RollingMean | rsi_calc.py:17-18 | `rolling(w).mean()` is defined exactly from row w-1 on, and never for w = 0 |
| RsiCalc.RsiFromAverages | rsi_calc.py:19-20 | the RSI formula is in [0, 100], is 100 exactly when the loss is 0 and the gain positive, and is NaN for 0/0 or a missing average |
| RsiCalc.CalculateRsiAt | rsi_calc.py:16-20 | the RSI at a row is the formula applied to the rolling means ending there |
| RsiCalc.RsiWarmUp | rsi_calc.py:17-18 | the first period-1 rows, and every row for period 0, are NaN |
| RsiCalc.RsiRange | rsi_calc.py:19-20 | every defined RSI lies in [0, 100] |
| RsiCalc.RsiWithLoss | rsi_calc.py:19-20 | a full window holding a loss gives a defined RSI below 100 |
| RsiCalc.RsiNoLossWindow | rsi_calc.py:19-20 | a full window without losses gives 100 with some gain and NaN without |
| RsiCalc.RsiPrefix | rsi_calc.py:16-21 | appending closes leaves earlier RSI values unchanged |
| RsiCalc.AddRsiToFile | rsi_calc.py:34-59 | None exactly when pandas would raise, otherwise only `(RSI_p, ticker)` set to `calculate_rsi` of the close |
| SpyDailyEmaIncr.HistoryStartIsNewYear2015 | spy_daily_ema_incr.py:11 | the history start is the day number of 2015-01-01 |
| SpyDailyEmaIncr.FetchPlan | spy_daily_ema_incr.py:26-48 | without a cache download from 2015-01-01; with one, download from the day after the last date iff that day is today or earlier; an empty cache has no last date |
| SpyDailyEmaIncr.CloseFrame | spy_daily_ema_incr.py:48 | the table before the loop has the dates as index and only the close column |
| SpyDailyEmaIncr.LoadOrFetch | spy_daily_ema_incr.py:26-48 | the load-or-fetch block yields the close history of `History` (None when it raises) |
| SpyDailyEmaIncr.RecalculateEmas | spy_daily_ema_incr.py:56-59 | the loop's table is the frame with the four EMA columns over the full history |
| SpyDailyEmaIncr.RunScript | spy_daily_ema_incr.py:26-72 | aborts exactly when loading raises; otherwise saves the EMA table of the deduplicated history and plots its last year |
| SpyDailyEmaIncr.HistoryExtendsCache | spy_daily_ema_incr.py:30-42 | the cached rows come first unchanged, followed by the downloaded closes, if any |
| SpyDailyEmaIncr.SavedRows | spy_daily_ema_incr.py:42-51 | the saved rows have distinct dates, keep history order (no sort) and take downloaded rows over cached ones |
| SpyDailyEmaIncr.SavedColumns | spy_daily_ema_incr.py:56-59 | the saved close column is the closes, and EMA_p for p in 8, 21, 50, 200 is their EMA over the whole history |
| SpyDailyEmaIncr.SavedLabels | spy_daily_ema_incr.py:56-64 | the saved labels are Close, EMA_8, EMA_21, EMA_50, EMA_200 in that order |
| SpyDailyEmaIncr.LabelsAfterClose | spy_daily_ema_incr.py:56-59 | for distinct periods the labels are Close followed by one EMA label per period |
| SpyDailyEmaIncr.PlotWindowRows | spy_daily_ema_incr.py:70-72 | the plot starts at the same month and day one year before the last date (365 or 366 days) and takes the table rows dated from then on, in order (every copy kept, by `Tables.RowsFromAppend`) |
| ArchiveSpyDailyEmaIncr.EmaPositive | archive/spy_daily_ema_incr.py:66-67 | with 0 < alpha < 1 over non-negative inputs, the average is positive iff some input so far is |
| ArchiveSpyDailyEmaIncr.AveragesNonNegative | archive/spy_daily_ema_incr.py:63-67 | the smoothed gains and losses are non-negative |
| ArchiveSpyDailyEmaIncr.WilderRsiCases | archive/spy_daily_ema_incr.py:60-70 | RSI_14 is in [0, 100]; NaN iff no move yet; 100 iff some gain and no loss so far; below 100 iff some loss so far |
| ArchiveSpyDailyEmaIncr.WilderRsiFirstRow | archive/spy_daily_ema_incr.py:61-70 | the first row's RSI is NaN |
| ArchiveSpyDailyEmaIncr.EmaTable | archive/spy_daily_ema_incr.py:52-55 | the table after the EMA loop is valid with the dates as index |
| ArchiveSpyDailyEmaIncr.WithIndicators | archive/spy_daily_ema_incr.py:60-79 | the RSI and MACD blocks set RSI_14, MACD, MACD_Signal, MACD_Hist and append these labels when new |
| ArchiveSpyDailyEmaIncr.ArchiveTable | archive/spy_daily_ema_incr.py:47-79 | the saved table is valid with the dates as index |
| ArchiveSpyDailyEmaIncr.ArchiveEmas | archive/spy_daily_ema_incr.py:52-55 | the loop writes the 12/26/50/200 EMA columns |
| ArchiveSpyDailyEmaIncr.EmaTableColumns | archive/spy_daily_ema_incr.py:52-55 | the close column is kept and each EMA_p holds the EMA of the closes |
| ArchiveSpyDailyEmaIncr.ArchiveEmaColumns | archive/spy_daily_ema_incr.py:52-55 | the same, for the period list of the script |
| ArchiveSpyDailyEmaIncr.AddIndicators | archive/spy_daily_ema_incr.py:60-79 | reading EMA_12 and EMA_26 back from the table gives the RSI/MACD table of the closes |
| ArchiveSpyDailyEmaIncr.ComputeIndicators | archive/spy_daily_ema_incr.py:47-79 | the indicator blocks yield the saved table of the deduplicated rows |
| ArchiveSpyDailyEmaIncr.RunArchive | archive/spy_daily_ema_incr.py:29-103 | aborts iff a cache exists or the download raises; otherwise saves the table of the deduplicated download and plots it unless the plot window is empty |
| ArchiveSpyDailyEmaIncr.PlotWindowNonEmpty | archive/spy_daily_ema_incr.py:89-103 | the plot window is empty exactly when the table is |
| ArchiveSpyDailyEmaIncr.ArchiveLabels | archive/spy_daily_ema_incr.py:52-79 | the saved labels are Close, the four EMAs, RSI_14, MACD, MACD_Signal, MACD_Hist in that order |
| ArchiveSpyDailyEmaIncr.EmaTableLabels | archive/spy_daily_ema_incr.py:52-79 | the saved labels are Close, the EMA labels in period order, then the four indicator labels |
| ArchiveSpyDailyEmaIncr.ArchiveKeepsEmaTable | archive/spy_daily_ema_incr.py:60-79 | the RSI and MACD blocks keep every column the EMA loop produced |
| LoadData.LoadTickersFromJson | load_data.py:20-37 | a list is returned as is, an object with `tickers` gives that value, any other JSON raises ValueError, a missing or invalid file gives [] |
| LoadData.EmptyTickerList | load_data.py:29-37 | the result is [] exactly for a missing file, invalid JSON, an empty list, or an empty `tickers` list |
| LoadData.HistoryStart | load_data.py:52-54 | the full-history start is not after today |
| LoadData.Incremental | load_data.py:63-89 | up to date iff the day after the last date is today or later; a file is written only after a non-empty fetch, as the merge of stored and fetched rows |
| LoadData.FirstDownload | load_data.py:91-100 | without a file, a non-empty download is written as it is; an empty one or a failure writes nothing |
| LoadData.SyncStored | load_data.py:61-74 | a file without rows has no last date and fails; otherwise the incremental step |
| LoadData.SyncTicker | load_data.py:59-104 | one turn dispatches on whether the file exists |
| LoadData.Apply | load_data.py:86-97 | only a step that writes changes the ticker's file |
| LoadData.SyncAll | load_data.py:56-104 | one outcome per ticker |
| LoadData.FetchAndStoreTickerData | load_data.py:39-106 | the loop yields the files and outcomes of `SyncAll` |
| LoadData.ProcessTicker | load_data.py:59-104 | the try block of one ticker applies that ticker's step |
| LoadData.SyncAllOnlyListed | load_data.py:56-104 | no file disappears, files of unlisted tickers are untouched, and every new file belongs to a listed ticker |
| LoadData.FailureSkipsTicker | load_data.py:102-104 | a failing ticker leaves the files as they were and the loop goes on |
| LoadData.SyncedFileCorrect | load_data.py:77-86 | an incremental write is strictly ascending, has the union of dates, prefers fetched rows and keeps stored-only rows |
| LoadData.SkipRuleBoundary | load_data.py:72 | on the day after the last stored date this script skips the ticker while the SPY script downloads |
| GenerateSignals.LoadStockCsv | generate_signals.py:21-38 | the first two rows are dropped and the rest are returned ascending by date, as a permutation; fewer than two rows give no rows |
| GenerateSignals.LoadedRowsAreFileRows | generate_signals.py:24-38 | a loaded row is exactly a file row from the third on |
| GenerateSignals.Lookback | generate_signals.py:57-68 | the rows dated on or after today - 365, both ways, as a subsequence; `Tables.RowsFromAppend` shows every copy is kept in place |
| GenerateSignals.Spread | generate_signals.py:45 | `ema_12 - ema_26`, NaN exactly when either EMA is NaN |
| GenerateSignals.DetectEmaCrossovers | generate_signals.py:44-51 | bullish at i iff diff[i] > 0 and diff[i-1] <= 0, bearish iff diff[i] < 0 and diff[i-1] >= 0, both false on NaN |
| GenerateSignals.CrossoverFlagsExclusive | generate_signals.py:46-49 | the first row is never flagged and no row is flagged both ways |
| GenerateSignals.FallCrossesBearish | generate_signals.py:49 | going from a positive to a negative difference passes a bearish crossover |
| GenerateSignals.CrossoversAlternate | generate_signals.py:48-49 | with non-zero differences, two bullish crossovers have a bearish one between them |
| GenerateSignals.ZeroSpreadRepeatsBullish | generate_signals.py:48-49 | a difference that touches 0 gives two bullish crossovers with no bearish one between |
| GenerateSignals.LastFlaggedDate | generate_signals.py:78-79 | the latest flagged date, None (NaT) iff nothing is flagged |
| GenerateSignals.LatestSignal | generate_signals.py:76-86 | Neutral iff no flag; Bullish iff a bullish date is later than any bearish one; Bearish otherwise, ties included |
| GenerateSignals.SignalIsLastCrossover | generate_signals.py:76-86 | on distinct ascending dates the label is that of the last crossover |
| GenerateSignals.SignalOfFlags | generate_signals.py:76-86 | for two flag columns that never mark the same row: Neutral iff no flag, Bullish iff a bullish flag has no bearish flag after it, Bearish iff a bearish flag has no bullish flag after it |
| GenerateSignals.LastCrossoverWins | generate_signals.py:81-86 | one direction wins iff one of its rows has no row of the other after it |
| GenerateSignals.RemoveCsv | generate_signals.py:64 | `replace(".csv", "")` leaves a name without ".csv" unchanged |
| GenerateSignals.TickerOfFile | generate_signals.py:61-64 | a name with ".csv" only at its end passes the filter and gives the name without the suffix |
| GenerateSignals.RemoveCsvEveryOccurrence | generate_signals.py:64 | every occurrence is removed: "a.csv.csv" gives "a" |
| GenerateSignals.Signals | generate_signals.py:60-162 | at most one label per listed file |
| GenerateSignals.AbortEndsLoop | generate_signals.py:60-162 | once a turn raises, the later files change nothing: the uncaught exception ends the script |
| GenerateSignals.RunOutcome | generate_signals.py:60-162 | the run is cut short iff some `.csv` file fails to load, or has rows in its window and lacks a column the loop reads; a run that is not cut short labels every `.csv` file whose window has rows |
| GenerateSignals.GenerateAll | generate_signals.py:60-162 | the loop, ended by the first raising turn, yields the run of `Signals` |
| GenerateSignals.LatestSignalOf | generate_signals.py:73-86 | the step-by-step label is the label of the window |
| GenerateSignals.ReportedFilesAreCsv | generate_signals.py:60-71 | every labelled ticker comes from a listed `.csv` file with a non-empty window |
| RisingFalling.FirstRowValues | rising_falling.py:20-23 | the first row as `astype(str)` prints it: a field the line lacks or a default NA text (empty, "NA", "null", ...) is "nan", any other field is as written |
| RisingFalling.Body | rising_falling.py:20-29 | the first data line is skipped exactly when one of its printed fields contains the ticker, ignoring case |
| RisingFalling.EmptyFieldMentionsTicker | rising_falling.py:20-26 | an empty field prints as "nan", so under `Date,Close,Volume` the line `2024-01-02,100,` is skipped for the ticker "A" |
| RisingFalling.CloseColumn | rising_falling.py:41 | the first `Close` column after the index; none when there is none or when the index column is itself named `Close` (read_csv renames the later one `Close.1`) |
| RisingFalling.Clean | rising_falling.py:31-41 | at most one row per line, and no row exactly when no line has an index other than "Date" that parses as a date |
| RisingFalling.CleanRows | rising_falling.py:31-41 | every row is the row of a kept line (its date, its close or NaN), and every kept line gives a row |
| RisingFalling.CleanAppend | rising_falling.py:31-41 | the cleanup splits over a concatenation of lines, so rows keep the lines' order and number |
| RisingFalling.CleanLine | rising_falling.py:31-41 | a single line gives its row when kept (index not "Date", date parses) and nothing otherwise |
| RisingFalling.DirectionFollowsClose | rising_falling.py:44-54 | after a positive close, a row falls iff its close is lower and rises iff it is higher |
| RisingFalling.FirstRowUncounted | rising_falling.py:44-54 | the first row is neither falling nor rising, and no row is both |
| RisingFalling.Count | rising_falling.py:51-57 | a per-weekday count never exceeds the rows counted |
| RisingFalling.CountsBounded | rising_falling.py:51-57 | per weekday, falling + rising <= total |
| RisingFalling.CountPositive | rising_falling.py:51-57 | a weekday's count of a kind (all, falling, rising) is positive iff some row of that kind is dated on it |
| RisingFalling.TotalsPartitionRows | rising_falling.py:57 | the seven totals add up to the number of rows |
| RisingFalling.Percent | rising_falling.py:60-61 | count/total*100 is in (0, 100], and NaN for a weekday without such days |
| RisingFalling.StatsOf | rising_falling.py:51-61 | a weekday's line carries its name, counts with falling + rising <= total, and the two percentages |
| RisingFalling.PresentDays | rising_falling.py:64-66 | the weekdays with days of a kind, strictly increasing from Monday, each present iff its count is positive |
| RisingFalling.DayReport | rising_falling.py:60-66 | one line per present weekday, in order |
| RisingFalling.AnalyzeDayOfWeekDrops | rising_falling.py:17-164 | True exactly when the file has a data line, a usable Close column and a cleaned row, and chart 3's rising bars broadcast over the falling bars' positions; then the report of the cleaned rows |
| RisingFalling.RisesWithoutFallsBreakChart | rising_falling.py:109-118 | with no falling day and rises on two different weekdays, chart 3's bars cannot be broadcast, so the analysis returns False |
| RisingFalling.ReportedDays | rising_falling.py:64-66 | the report lists exactly the weekdays that occur, in Monday to Sunday order, under their names |
| RisingFalling.AnalysisBounds | rising_falling.py:50-61 | a successful analysis reports at least one weekday; each has a positive total, falling + rising <= total and defined percentages in (0, 100] |
| RisingFalling.ReportBounds | rising_falling.py:50-61 | the same bounds for the report of any non-empty cleaned table |

## Left out

- Reading and writing files, the downloads, and `os.listdir` are modelled
  as parameters and results. This covers the CSV header layouts, the
  MultiIndex columns of downloaded frames, `to_csv`, and `mkdir`.
- Plotting and printing are left out: all matplotlib calls, the bar labels
  in `rising_falling.py` and `label_last_value` in the archived script. The
  one exception is the archived script's plot on an empty window, which
  raises; it is modelled as the outcome `PlotRaised`.
- Floating point is not modelled; the model uses exact reals.
  - NaN appears only where the code produces it explicitly: the RSI warm-up
    and 0/0, the first difference, a missing close or date, and a weekday
    without falls.
  - The model has no IEEE rounding and no `.round(2)`.
- `datetime.now()` and `pd.Timestamp.today()` are a `today` parameter, as a
  day number.
- `CloseNumeric` is required by `EmaCalc.AddEmaToFile`,
  `MacdCalc.AddMacdToFile` and `RsiCalc.AddRsiToFile`: the close column
  holds numbers only. pandas' treatment of NaN cells inside `ewm` and
  `rolling` is not modelled.
- `SpyDailyEmaIncr`: the cached table is read as its close column. The
  script recomputes every EMA column it had saved, so the saved table is
  the same. Extra columns a hand-edited cache might hold are not modelled.
  A table saved from a downloaded MultiIndex frame has a "Ticker" line and
  a "Date" line under its header. The single-header re-read puts both into
  the index, which stays a string index, so `index.max()` is "Ticker" and
  adding a day raises TypeError: with that layout the cached branch stops
  the script. The model shows the path the code intends, on parsed rows.
- `ArchiveSpyDailyEmaIncr.RunArchive`: with a cache file, the script calls
  `datetime.strptime` on a timestamp, which raises. The model therefore
  aborts there and does not model an incremental path for this script.
- `LoadData.LoadTickersFromJson` returns the JSON value it finds. Two
  things are not modelled:
  - the `__main__` block's truthiness test;
  - iterating a non-list `tickers` value (a string iterates by character).

  The loop takes a list of ticker strings.
- `LoadData.Incremental`: `pd.concat` of a stored single-level table with a
  downloaded MultiIndex frame is modelled as a concatenation of rows of
  bars. Column misalignment is not modelled. Moreover, a file written from
  a MultiIndex download has a "Ticker" line and a "Date" line under its
  header; the single-header re-read keeps them in a string index, whose
  maximum "Ticker" makes adding a day raise TypeError, so with that layout
  the ticker fails on every later run. The model shows the path the code
  intends, on parsed rows.
- `GenerateSignals.LoadStockCsv`:
  - a date or value that does not parse makes `to_datetime` or `astype`
    raise and stops the script; the model takes parsed rows, and
    `GenerateSignals.Signals` takes whether loading raises as a flag of the
    file;
  - the column rename is not modelled;
  - `sort_values` is not stable for equal dates, whereas the model sorts
    stably.
- `GenerateSignals.Signals` collects the (ticker, label) pairs that the
  script only puts into chart titles. Which columns a file has is a flag
  of the file (all the columns the loop reads, or not), not a column list.
- `RisingFalling.Body`: `astype(str)` prints a field of a numeric column
  in pandas' own rendering ("1e3" as "1000.0", "100" as "100.0" when the
  column holds a missing value); the model compares the field as written,
  except for missing values, which it prints as "nan".
- `RisingFalling`:
  - parsing a date or a number is a parameter;
  - `Path(csv_file).stem` is given as the ticker;
  - fields beyond the header's width are not modelled;
  - `RisingFalling.Upper` handles ASCII letters only.
- `RisingFalling.AnalyzeDayOfWeekDrops`:
  - `pct_change` is modelled without its forward-filling of missing
    closes; a NaN neighbour gives no return;
  - `idxmax` on percentages that are all NaN is version-dependent in
    pandas and is treated as success;
  - the checks for the input directory and `SPY.csv` in `main` are not
    modelled.
- `start.py`, `fin_conv.py`, `hourly_data_2y_TQQQ.py` and
  `indicators_main.py` are not part of this model. They are a download
  plus a plot, an interactive chat loop, a single download, and batch file
  plumbing.

## Behaviour that departs from the intended design

The model follows the code in each of these cases:

- **RSI with no losses.** Neither RSI computes a zero average loss as 100
  by a guard. When the average gain is positive the division gives +inf,
  so the RSI is 100; when the gain is 0 as well, 0/0 gives NaN. See
  `RsiCalc.RsiNoLossWindow` and
  `ArchiveSpyDailyEmaIncr.WilderRsiCases`.
- **RSI warm-up.** The rolling RSI is undefined for the first `period - 1`
  rows, not the first `period`, because the first difference is replaced
  by 0 (`RsiCalc.RsiWarmUp`).
- **No sort in the SPY script.** `spy_daily_ema_incr.py` deduplicates but
  does not sort (`SpyDailyEmaIncr.SavedRows`).
- **Different skip rules.** `load_data.py` skips a ticker when the day
  after its last date is today or later. The SPY script downloads when
  that day is today or earlier. On the boundary day they disagree
  (`LoadData.SkipRuleBoundary`).
- **Ties in the label.** Equal latest bullish and bearish dates give
  Bearish (`GenerateSignals.LatestSignal`).
- **A zero difference breaks alternation.** When the EMA difference
  touches exactly 0, two bullish crossovers can follow each other with no
  bearish one between them (`GenerateSignals.ZeroSpreadRepeatsBullish`).
