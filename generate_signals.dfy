/** `generate_signals.py`: for every `.csv` file of the data directory, the
    rows of the last 365 days, the EMA 12 / EMA 26 crossovers among them and
    the label of the latest one. Listing the directory and reading a file
    are parameters; `today` is a parameter. */
module GenerateSignals {
  import opened Common
  import opened Tables

  const LookbackDays: int := 365

  /** The values of one row that the signal depends on; the other columns
      are only plotted. */
  datatype Quote = Quote(close: Cell, ema12: Cell, ema26: Cell)

  /** `raw.iloc[2:]` followed by `sort_values("Date")`: the two lines below
      the header are dropped, the remaining rows are put in date order. */
  function LoadStockCsv(raw: seq<Row<Quote>>): (rows: seq<Row<Quote>>)
    ensures Ascending(rows)
    ensures |raw| >= 2 ==> multiset(rows) == multiset(raw[2..])
    ensures |raw| < 2 ==> rows == []
  {
    if |raw| >= 2 then SortByDate(raw[2..]) else []
  }

  /** A loaded row is a row of the file below its first two lines, and each
      such row is loaded. */
  lemma LoadedRowsAreFileRows(raw: seq<Row<Quote>>, x: Row<Quote>)
    ensures x in LoadStockCsv(raw) <==> exists k :: 2 <= k < |raw| && raw[k] == x
  {
    if |raw| >= 2 {
      SortedRowsAreInputRows(raw[2..], x);
      if x in raw[2..] {
        var k :| 0 <= k < |raw| - 2 && raw[2..][k] == x;
        assert raw[k + 2] == x;
      }
      if exists k :: 2 <= k < |raw| && raw[k] == x {
        var k :| 2 <= k < |raw| && raw[k] == x;
        assert raw[2..][k - 2] == x;
      }
    }
  }

  /** `df[df["Date"] >= start_date]` with `start_date = today - 365 days`. */
  function Lookback(rows: seq<Row<Quote>>, today: Day): (w: seq<Row<Quote>>)
    ensures forall k :: 0 <= k < |w| ==> w[k] in rows && w[k].date >= today - LookbackDays
    ensures forall k :: 0 <= k < |rows| && rows[k].date >= today - LookbackDays ==> rows[k] in w
    ensures Subsequence(w, rows)
  {
    RowsFromKeeps(rows, today - LookbackDays);
    RowsFrom(rows, today - LookbackDays)
  }

  /** `EMA_12 - EMA_26` on one row; a missing value on either side gives a
      missing difference. */
  function Spread(q: Quote): (d: Cell)
    ensures d.Num? <==> q.ema12.Num? && q.ema26.Num?
    ensures d.Num? ==> d.value == q.ema12.value - q.ema26.value
  {
    if q.ema12.Num? && q.ema26.Num? then Num(q.ema12.value - q.ema26.value) else NaN
  }

  /** `(diff > 0) & (prev_diff <= 0)` at row `i`; every comparison with a
      missing value is false, and the first row has no previous
      difference. */
  predicate BullishAt(rows: seq<Row<Quote>>, i: int)
    requires 0 <= i < |rows|
  {
    var d := Spread(rows[i].bar);
    && i > 0 && d.Num? && d.value > 0.0
    && var p := Spread(rows[i - 1].bar); p.Num? && p.value <= 0.0
  }

  /** `(diff < 0) & (prev_diff >= 0)` at row `i`. */
  predicate BearishAt(rows: seq<Row<Quote>>, i: int)
    requires 0 <= i < |rows|
  {
    var d := Spread(rows[i].bar);
    && i > 0 && d.Num? && d.value < 0.0
    && var p := Spread(rows[i - 1].bar); p.Num? && p.value >= 0.0
  }

  /** `detect_ema_crossovers`: the two boolean columns. */
  function DetectEmaCrossovers(rows: seq<Row<Quote>>): (r: (seq<bool>, seq<bool>))
    ensures |r.0| == |rows| && |r.1| == |rows|
    ensures forall i :: 0 <= i < |rows| ==> (r.0[i] <==> BullishAt(rows, i))
    ensures forall i :: 0 <= i < |rows| ==> (r.1[i] <==> BearishAt(rows, i))
  {
    (seq(|rows|, i requires 0 <= i < |rows| => BullishAt(rows, i)),
     seq(|rows|, i requires 0 <= i < |rows| => BearishAt(rows, i)))
  }

  /** The first row is never flagged and no row is flagged both ways. */
  lemma CrossoverFlagsExclusive(rows: seq<Row<Quote>>, i: nat)
    requires i < |rows|
    ensures i == 0 ==> !DetectEmaCrossovers(rows).0[i] && !DetectEmaCrossovers(rows).1[i]
    ensures !(DetectEmaCrossovers(rows).0[i] && DetectEmaCrossovers(rows).1[i])
  {
  }

  /** Every row in `lo..hi` has a difference that is defined and not zero. */
  predicate NonZeroSpreads(rows: seq<Row<Quote>>, lo: int, hi: int)
    requires 0 <= lo <= hi < |rows|
  {
    forall k :: lo <= k <= hi ==> Spread(rows[k].bar).Num? && Spread(rows[k].bar).value != 0.0
  }

  /** Going from a positive to a negative difference passes a bearish
      crossover on the way. */
  lemma {:induction false} FallCrossesBearish(rows: seq<Row<Quote>>, i: nat, j: nat)
    requires i < j < |rows| && NonZeroSpreads(rows, i, j)
    requires Spread(rows[i].bar).value > 0.0 && Spread(rows[j].bar).value < 0.0
    ensures exists k :: i < k <= j && BearishAt(rows, k)
    decreases j - i
  {
    if Spread(rows[i + 1].bar).value < 0.0 {
      assert BearishAt(rows, i + 1);
    } else {
      FallCrossesBearish(rows, i + 1, j);
    }
  }

  /** Where the difference is never zero or missing, two bullish crossovers
      always have a bearish one between them. */
  lemma CrossoversAlternate(rows: seq<Row<Quote>>, i: nat, j: nat)
    requires i < j < |rows| && NonZeroSpreads(rows, i, j)
    requires BullishAt(rows, i) && BullishAt(rows, j)
    ensures exists k :: i < k < j && BearishAt(rows, k)
  {
    assert Spread(rows[j - 1].bar).value < 0.0;
    FallCrossesBearish(rows, i, j - 1);
  }

  /** A difference that touches zero breaks the alternation: the spreads
      1, 0, 1 give a bullish crossover without a bearish one before it. */
  lemma ZeroSpreadRepeatsBullish()
    ensures var q := (d: real) => Quote(Num(0.0), Num(d), Num(0.0));
      var rows := [Row(0, q(-1.0)), Row(1, q(1.0)), Row(2, q(0.0)), Row(3, q(1.0))];
      && BullishAt(rows, 1) && BullishAt(rows, 3)
      && !BearishAt(rows, 2)
  {
  }

  /** The latest date among flagged rows (`df.loc[flags, "Date"].max()`),
      None when no row is flagged (pandas NaT). */
  function LastFlaggedDate(rows: seq<Row<Quote>>, flags: seq<bool>): (d: Option<Day>)
    requires |flags| == |rows|
    ensures d.None? <==> forall k :: 0 <= k < |rows| ==> !flags[k]
    ensures d.Some? ==> exists k :: 0 <= k < |rows| && flags[k] && rows[k].date == d.value
    ensures d.Some? ==> forall k :: 0 <= k < |rows| && flags[k] ==> rows[k].date <= d.value
    decreases |rows|
  {
    if rows == [] then None
    else
      var n := |rows| - 1;
      var rest := LastFlaggedDate(rows[..n], flags[..n]);
      assert forall k :: 0 <= k < n ==> rows[..n][k] == rows[k] && flags[..n][k] == flags[k];
      if !flags[n] then rest
      else if rest.Some? && rest.value > rows[n].date then rest
      else Some(rows[n].date)
  }

  /** `d` is what `LastFlaggedDate` promises: None when no row is flagged,
      otherwise the date of a flagged row that no flagged row follows. */
  predicate IsLastFlagged(rows: seq<Row<Quote>>, flags: seq<bool>, d: Option<Day>)
    requires |flags| == |rows|
  {
    && (d.None? <==> forall k :: 0 <= k < |rows| ==> !flags[k])
    && (d.Some? ==> exists k :: 0 <= k < |rows| && flags[k] && rows[k].date == d.value)
    && (d.Some? ==> forall k :: 0 <= k < |rows| && flags[k] ==> rows[k].date <= d.value)
  }

  datatype Signal = Neutral | Bullish | Bearish

  /** The decision on the two last dates: Bullish when there is a bullish
      date later than any bearish one, Bearish when there is a bearish date
      otherwise (a tie included), Neutral with no crossover at all. */
  function LatestSignal(lastBullish: Option<Day>, lastBearish: Option<Day>): (s: Signal)
    ensures s == Neutral <==> lastBullish.None? && lastBearish.None?
    ensures s == Bullish <==> lastBullish.Some? && (lastBearish.None? || lastBullish.value > lastBearish.value)
    ensures s == Bearish <==> lastBearish.Some? && (lastBullish.None? || lastBullish.value <= lastBearish.value)
  {
    if lastBullish.None? && lastBearish.None? then Neutral
    else if lastBullish.Some? && (lastBearish.None? || lastBullish.value > lastBearish.value) then Bullish
    else if lastBearish.Some? then Bearish
    else Neutral
  }

  /** The label of one window. */
  function WindowSignal(rows: seq<Row<Quote>>): Signal
  {
    var r := DetectEmaCrossovers(rows);
    LatestSignal(LastFlaggedDate(rows, r.0), LastFlaggedDate(rows, r.1))
  }

  /** On a window with distinct dates in ascending order, the label is that
      of the last crossover: Bullish exactly when some bullish crossover has
      no bearish one after it, Bearish exactly when some bearish crossover
      has no bullish one after it. */
  lemma SignalIsLastCrossover(rows: seq<Row<Quote>>)
    requires StrictlyAscending(rows)
    ensures var r := DetectEmaCrossovers(rows);
      && (WindowSignal(rows) == Neutral <==> forall k :: 0 <= k < |rows| ==> !r.0[k] && !r.1[k])
      && (WindowSignal(rows) == Bullish <==>
            exists i :: 0 <= i < |rows| && r.0[i] && forall j :: i < j < |rows| ==> !r.1[j])
      && (WindowSignal(rows) == Bearish <==>
            exists i :: 0 <= i < |rows| && r.1[i] && forall j :: i < j < |rows| ==> !r.0[j])
  {
    var r := DetectEmaCrossovers(rows);
    FlagsDisjoint(rows, r.0, r.1);
    SignalOfFlags(rows, r.0, r.1);
  }

  lemma FlagsDisjoint(rows: seq<Row<Quote>>, bullish: seq<bool>, bearish: seq<bool>)
    requires (bullish, bearish) == DetectEmaCrossovers(rows)
    ensures forall k :: 0 <= k < |rows| ==> !(bullish[k] && bearish[k])
  {
    forall k | 0 <= k < |rows| ensures !(bullish[k] && bearish[k]) {
      CrossoverFlagsExclusive(rows, k);
    }
  }

  /** The label in terms of the two flag columns, for flags that never
      mark the same row. */
  lemma SignalOfFlags(rows: seq<Row<Quote>>, bullish: seq<bool>, bearish: seq<bool>)
    requires StrictlyAscending(rows) && |bullish| == |rows| && |bearish| == |rows|
    requires forall k :: 0 <= k < |rows| ==> !(bullish[k] && bearish[k])
    ensures var s := LatestSignal(LastFlaggedDate(rows, bullish), LastFlaggedDate(rows, bearish));
      && (s == Neutral <==> forall k :: 0 <= k < |rows| ==> !bullish[k] && !bearish[k])
      && (s == Bullish <==> exists i :: 0 <= i < |rows| && bullish[i] && forall j :: i < j < |rows| ==> !bearish[j])
      && (s == Bearish <==> exists i :: 0 <= i < |rows| && bearish[i] && forall j :: i < j < |rows| ==> !bullish[j])
  {
    var lastBull := LastFlaggedDate(rows, bullish);
    var lastBear := LastFlaggedDate(rows, bearish);
    LastCrossoverWins(rows, bullish, bearish, lastBull, lastBear);
    LastCrossoverWins(rows, bearish, bullish, lastBear, lastBull);
  }

  /** One direction of the label: the latest date of `mine` beats that of
      `theirs` exactly when some row of `mine` has no row of `theirs` after
      it. */
  lemma LastCrossoverWins(rows: seq<Row<Quote>>, mine: seq<bool>, theirs: seq<bool>, lastMine: Option<Day>, lastTheirs: Option<Day>)
    requires StrictlyAscending(rows) && |mine| == |rows| && |theirs| == |rows|
    requires forall k :: 0 <= k < |rows| ==> !(mine[k] && theirs[k])
    requires IsLastFlagged(rows, mine, lastMine) && IsLastFlagged(rows, theirs, lastTheirs)
    ensures lastMine.Some? && (lastTheirs.None? || lastMine.value > lastTheirs.value) <==>
      exists i :: 0 <= i < |rows| && mine[i] && forall j :: i < j < |rows| ==> !theirs[j]
    ensures lastMine.Some? && lastTheirs.Some? ==> lastMine.value != lastTheirs.value
  {
    assert lastMine.Some? && lastTheirs.Some? ==> lastMine.value != lastTheirs.value by {
      if lastMine.Some? && lastTheirs.Some? {
        var i :| 0 <= i < |rows| && mine[i] && rows[i].date == lastMine.value;
        var t :| 0 <= t < |rows| && theirs[t] && rows[t].date == lastTheirs.value;
        if t < i {
          assert rows[t].date < rows[i].date;
        } else if t > i {
          assert rows[i].date < rows[t].date;
        }
      }
    }
    assert lastMine.Some? && (lastTheirs.None? || lastMine.value > lastTheirs.value) ==>
      exists i :: 0 <= i < |rows| && mine[i] && forall j :: i < j < |rows| ==> !theirs[j]
    by {
      if lastMine.Some? && (lastTheirs.None? || lastMine.value > lastTheirs.value) {
        var i :| 0 <= i < |rows| && mine[i] && rows[i].date == lastMine.value;
        forall j | i < j < |rows| ensures !theirs[j] {
          assert rows[i].date < rows[j].date;
        }
      }
    }
    assert (exists i :: 0 <= i < |rows| && mine[i] && forall j :: i < j < |rows| ==> !theirs[j]) ==>
      lastMine.Some? && (lastTheirs.None? || lastMine.value > lastTheirs.value)
    by {
      if exists i :: 0 <= i < |rows| && mine[i] && forall j :: i < j < |rows| ==> !theirs[j] {
        var i :| 0 <= i < |rows| && mine[i] && forall j :: i < j < |rows| ==> !theirs[j];
        if lastTheirs.Some? {
          var t :| 0 <= t < |rows| && theirs[t] && rows[t].date == lastTheirs.value;
          assert t < i;
          assert rows[t].date < rows[i].date;
        }
      }
    }
  }

  /** ".csv" starts at position `k` of `s`. */
  predicate CsvAt(s: string, k: int)
  {
    0 <= k && k + 4 <= |s| && s[k] == '.' && s[k + 1] == 'c' && s[k + 2] == 's' && s[k + 3] == 'v'
  }

  /** `filename.endswith(".csv")`. */
  predicate EndsWithCsv(name: string)
  {
    CsvAt(name, |name| - 4)
  }

  /** `s.replace(".csv", "")`: every occurrence is removed, scanning from
      the left. */
  function RemoveCsv(s: string): (r: string)
    ensures |r| <= |s|
    ensures (forall k :: 0 <= k < |s| ==> !CsvAt(s, k)) ==> r == s
    decreases |s|
  {
    if |s| < 4 then s
    else if CsvAt(s, 0) then RemoveCsv(s[4..])
    else
      assert forall k :: 0 <= k < |s| - 1 ==> (CsvAt(s[1..], k) <==> CsvAt(s, k + 1));
      [s[0]] + RemoveCsv(s[1..])
  }

  /** When ".csv" occurs in the file name only as its suffix, the ticker is
      the name without that suffix; otherwise every other occurrence is
      removed as well. */
  lemma {:induction false} TickerOfFile(stem: string)
    requires forall k :: 0 <= k < |stem| ==> !CsvAt(stem + ".csv", k)
    ensures EndsWithCsv(stem + ".csv")
    ensures RemoveCsv(stem + ".csv") == stem
    decreases |stem|
  {
    var s := stem + ".csv";
    if |stem| == 0 {
      assert s[4..] == [];
    } else {
      var tail := stem[1..];
      assert s[1..] == tail + ".csv";
      forall k | 0 <= k < |tail| ensures !CsvAt(tail + ".csv", k) {
        assert !CsvAt(s, k + 1);
      }
      TickerOfFile(tail);
      assert !CsvAt(s, 0);
    }
  }

  /** A file named "a.csv.csv" reports the ticker "a". */
  lemma RemoveCsvEveryOccurrence()
    ensures RemoveCsv("a.csv.csv") == "a"
  {
    assert "a.csv.csv"[1..] == ".csv.csv";
    assert ".csv.csv"[4..] == ".csv";
    assert ".csv"[4..] == "";
  }

  /** What one turn of the loop hands to the chart: the ticker and the
      label of its latest crossover. */
  datatype Report = Report(ticker: string, signal: Signal)

  /** What reading one file yields. `loads` is false when `load_stock_csv`
      raises: no `Price` (or `Date`) column, or a date or value that does
      not parse. `charted` says whether the file has every other column
      the loop reads: `Close`, `EMA_12`, `EMA_26`, `EMA_50`, `EMA_200`,
      `MACD`, `MACD_Signal`, `MACD_Hist` and `RSI_14`. */
  datatype StockFile = StockFile(raw: seq<Row<Quote>>, loads: bool, charted: bool)

  /** The loop's outcome: the labelled tickers in listing order, and
      whether an exception ended the script. */
  datatype Run = Run(reports: seq<Report>, aborted: bool)

  /** The rows of a file's window. */
  function Window(file: StockFile, today: Day): seq<Row<Quote>>
  {
    Lookback(LoadStockCsv(file.raw), today)
  }

  /** The turn for `name` raises: loading fails, or the window has rows and
      a column the crossover detection or the chart reads is missing
      (nothing in the loop catches the KeyError). */
  predicate Fails(name: string, read: string -> StockFile, today: Day)
  {
    EndsWithCsv(name) && (!read(name).loads || (Window(read(name), today) != [] && !read(name).charted))
  }

  /** The whole loop as a function of the directory listing: files that
      are not `.csv` and windows without rows are skipped, and the first
      failing file ends the run. */
  function Signals(filenames: seq<string>, read: string -> StockFile, today: Day): (r: Run)
    ensures |r.reports| <= |filenames|
    decreases |filenames|
  {
    if filenames == [] then Run([], false)
    else
      var n := |filenames| - 1;
      var before := Signals(filenames[..n], read, today);
      var name := filenames[n];
      if before.aborted || !EndsWithCsv(name) then before
      else if Fails(name, read, today) then Run(before.reports, true)
      else
        var df := Window(read(name), today);
        if df == [] then before
        else Run(before.reports + [Report(RemoveCsv(name), WindowSignal(df))], false)
  }

  /** Once a turn has raised, the later files change nothing. */
  lemma {:induction false} AbortEndsLoop(filenames: seq<string>, read: string -> StockFile, today: Day, i: nat)
    requires i <= |filenames| && Signals(filenames[..i], read, today).aborted
    ensures Signals(filenames, read, today) == Signals(filenames[..i], read, today)
    decreases |filenames| - i
  {
    if i < |filenames| {
      assert filenames[..i + 1][..i] == filenames[..i];
      AbortEndsLoop(filenames, read, today, i + 1);
    } else {
      assert filenames[..i] == filenames;
    }
  }

  /** The run is cut short exactly when some listed file fails, and a run
      that is not cut short labels every `.csv` file whose window has
      rows. */
  lemma {:induction false} RunOutcome(filenames: seq<string>, read: string -> StockFile, today: Day)
    ensures var r := Signals(filenames, read, today);
      && (r.aborted <==> exists k :: 0 <= k < |filenames| && Fails(filenames[k], read, today))
      && (!r.aborted ==> forall name :: name in filenames && EndsWithCsv(name) && Window(read(name), today) != [] ==>
           Report(RemoveCsv(name), WindowSignal(Window(read(name), today))) in r.reports)
    decreases |filenames|
  {
    if filenames != [] {
      var n := |filenames| - 1;
      var init := filenames[..n];
      RunOutcome(init, read, today);
      assert forall k :: 0 <= k < n ==> init[k] == filenames[k];
      assert filenames == init + [filenames[n]];
      var before := Signals(init, read, today);
      var r := Signals(filenames, read, today);
      if !r.aborted {
        assert forall x :: x in before.reports ==> x in r.reports;
        forall name | name in filenames && EndsWithCsv(name) && Window(read(name), today) != []
          ensures Report(RemoveCsv(name), WindowSignal(Window(read(name), today))) in r.reports
        {
          if name != filenames[n] {
            assert name in init;
          }
        }
      }
    }
  }

  /** The module-level loop; the `raise` of a failing turn ends it. */
  method GenerateAll(filenames: seq<string>, read: string -> StockFile, today: Day) returns (report: seq<Report>, aborted: bool)
    ensures Run(report, aborted) == Signals(filenames, read, today)
  {
    report, aborted := [], false;
    var i := 0;
    while i < |filenames| && !aborted
      invariant 0 <= i <= |filenames|
      invariant Run(report, aborted) == Signals(filenames[..i], read, today)
    {
      assert filenames[..i + 1][..i] == filenames[..i];
      var filename := filenames[i];
      i := i + 1;
      if !EndsWithCsv(filename) {
        continue;
      }
      var ticker := RemoveCsv(filename);
      var file := read(filename);
      if !file.loads {
        aborted := true;  // `load_stock_csv` raises
        continue;
      }
      var df := LoadStockCsv(file.raw);
      df := Lookback(df, today);
      if df == [] {
        continue;
      }
      if !file.charted {
        aborted := true;  // KeyError on a missing column
        continue;
      }
      var latestSignal := LatestSignalOf(df);
      report := report + [Report(ticker, latestSignal)];
    }
    if aborted {
      AbortEndsLoop(filenames, read, today, i);
    } else {
      assert filenames[..i] == filenames;
    }
  }

  /** The labelling of one window, as the loop body writes it. */
  method LatestSignalOf(df: seq<Row<Quote>>) returns (latestSignal: Signal)
    ensures latestSignal == WindowSignal(df)
  {
    var (bullish, bearish) := DetectEmaCrossovers(df);
    latestSignal := Neutral;
    if (exists k :: 0 <= k < |df| && bullish[k]) || (exists k :: 0 <= k < |df| && bearish[k]) {
      var lastBullishDate := LastFlaggedDate(df, bullish);
      var lastBearishDate := LastFlaggedDate(df, bearish);
      if lastBullishDate.Some? && (lastBearishDate.None? || lastBullishDate.value > lastBearishDate.value) {
        latestSignal := Bullish;
      } else if lastBearishDate.Some? {
        latestSignal := Bearish;
      }
    }
  }

  /** Every reported ticker comes from a `.csv` file whose window has
      rows. */
  lemma {:induction false} ReportedFilesAreCsv(filenames: seq<string>, read: string -> StockFile, today: Day)
    ensures forall r :: r in Signals(filenames, read, today).reports ==>
      exists name :: name in filenames && EndsWithCsv(name) && r.ticker == RemoveCsv(name)
        && Window(read(name), today) != []
    decreases |filenames|
  {
    if filenames != [] {
      var n := |filenames| - 1;
      ReportedFilesAreCsv(filenames[..n], read, today);
      assert forall name :: name in filenames[..n] ==> name in filenames;
    }
  }
}
