/** `spy_daily_ema_incr.py`: a script that keeps a cached table of SPY
    daily closes, extends it with the days since the last cached date,
    drops duplicate dates keeping the last row, recomputes the 8, 21, 50 and
    200 day EMAs over the whole history, saves the table and plots the last
    year. The download is a parameter `download(start)`, answering with the
    bars from `start` on or with an exception; `today` is a parameter. */
module SpyDailyEmaIncr {
  import opened Common
  import opened Tables
  import opened Frames
  import opened Calendar
  import opened EmaCalc

  /** `start_date = "2015-01-01"` as a day number. */
  const HistoryStart: Day := 16436

  lemma HistoryStartIsNewYear2015()
    ensures Civil(2015, 1, 1).Valid() && DaysFromCivil(Civil(2015, 1, 1)) == HistoryStart
  {
    assert LeapsBefore(2015) == 488 && LeapsBefore(1970) == 477;
  }

  const EmaPeriods: seq<int> := [8, 21, 50, 200]

  /** What the script does before the merge: download from `start`, keep
      the cache as it is, or fail because the cache has no rows (its last
      date is pandas NaT). */
  datatype Plan = Download(start: Day) | UpToDate | NoLastDate

  /** With a cache, the download starts the day after the last cached date
      and happens only if that day is today or earlier; without one the full
      history is downloaded. */
  function FetchPlan(cache: Option<seq<Row<real>>>, today: Day): (plan: Plan)
    ensures cache.None? ==> plan == Download(HistoryStart)
    ensures cache.Some? && cache.value == [] ==> plan == NoLastDate
    ensures cache.Some? && cache.value != [] ==>
      && (plan.Download? <==> MaxDate(cache.value) + 1 <= today)
      && (plan.Download? ==> plan.start == MaxDate(cache.value) + 1)
      && (!plan.Download? ==> plan == UpToDate)
  {
    match cache
    case None => Download(HistoryStart)
    case Some(stored) =>
      if stored == [] then NoLastDate
      else if MaxDate(stored) + 1 <= today then Download(MaxDate(stored) + 1)
      else UpToDate
  }

  /** The close history before deduplication, or None when the script
      raises: fetched bars are cut to their close and appended after the
      cached rows, and an empty download appends nothing. */
  function History(cache: Option<seq<Row<real>>>, today: Day, download: Day -> Fetch<Row<Bar>>): Option<seq<Row<real>>>
  {
    match FetchPlan(cache, today)
    case NoLastDate => None
    case UpToDate => Some(cache.value)
    case Download(start) =>
      match download(start)
      case Raised => None
      case Bars(rows) =>
        if cache.None? then Some(CloseRows(rows))
        else if rows == [] then Some(cache.value)
        else Some(cache.value + CloseRows(rows))
  }

  /** The table before the EMA loop: the index and the close column. */
  function CloseFrame(rows: seq<Row<real>>): (f: Frame<ColName>)
    ensures f.Valid() && f.index == Dates(rows) && f.columns == [Named("Close")]
    ensures f.data == map[Named("Close") := ToCells(ClosesOf(rows))]
  {
    Frame(Dates(rows), [Named("Close")], map[Named("Close") := ToCells(ClosesOf(rows))])
  }

  /** `data.loc[data.index >= end_date - DateOffset(years=1)]`; with no rows
      the last date is NaT and nothing is selected. */
  function PlotWindow(rows: seq<Row<real>>): (w: seq<Row<real>>)
  {
    if rows == [] then [] else RowsFrom(rows, OneYearBefore(MaxDate(rows)))
  }

  datatype Run = Aborted | Saved(table: Frame<ColName>, plot: seq<Row<real>>)

  /** The load-or-fetch block of the script, up to the concatenation. */
  method LoadOrFetch(cache: Option<seq<Row<real>>>, today: Day, download: Day -> Fetch<Row<Bar>>) returns (data: Option<seq<Row<real>>>)
    ensures data == History(cache, today, download)
  {
    if cache.Some? {
      var stored := cache.value;
      if stored == [] {
        return None;
      }
      var fetchStart := MaxDate(stored) + 1;
      if fetchStart <= today {
        var newData := download(fetchStart);
        if newData.Raised? {
          return None;
        }
        if newData.rows != [] {
          return Some(stored + CloseRows(newData.rows));
        }
      }
      return Some(stored);
    } else {
      var fetched := download(HistoryStart);
      if fetched.Raised? {
        return None;
      }
      return Some(CloseRows(fetched.rows));
    }
  }

  /** The `for period in ema_periods` loop: each EMA column is recomputed
      from the full close history. */
  method RecalculateEmas(base: Frame<ColName>, closes: seq<real>) returns (table: Frame<ColName>)
    requires base.Valid() && |closes| == |base.index|
    ensures table == AddEmas(base, p => EmaCol(p), closes, EmaPeriods)
  {
    table := base;
    assert forall j :: 0 <= j < |EmaPeriods| ==> EmaPeriods[j] >= 1;
    for i := 0 to |EmaPeriods|
      invariant table == AddEmas(base, p => EmaCol(p), closes, EmaPeriods[..i])
    {
      AddEmasSnoc(base, p => EmaCol(p), closes, EmaPeriods, i);
      table := table.Set(EmaCol(EmaPeriods[i]), ToCells(CalculateEma(closes, EmaPeriods[i])));
    }
    assert EmaPeriods[..|EmaPeriods|] == EmaPeriods;
  }

  /** The whole script. */
  method RunScript(cache: Option<seq<Row<real>>>, today: Day, download: Day -> Fetch<Row<Bar>>) returns (run: Run)
    ensures run.Aborted? <==> History(cache, today, download).None?
    ensures run.Saved? ==>
      var rows := DedupKeepLast(History(cache, today, download).value);
      && run.table == AddEmas(CloseFrame(rows), p => EmaCol(p), ClosesOf(rows), EmaPeriods)
      && run.plot == PlotWindow(rows)
  {
    var loaded := LoadOrFetch(cache, today, download);
    if loaded.None? {
      return Aborted;
    }
    var data := DedupKeepLast(loaded.value);
    var table := RecalculateEmas(CloseFrame(data), ClosesOf(data));
    run := Saved(table, PlotWindow(data));
  }

  /** With a cache, the history starts with the cached rows unchanged and
      continues with the closes of the downloaded bars, if any. */
  lemma HistoryExtendsCache(cache: Option<seq<Row<real>>>, today: Day, download: Day -> Fetch<Row<Bar>>)
    requires cache.Some? && History(cache, today, download).Some?
    ensures var h := History(cache, today, download).value;
      && |h| >= |cache.value| && h[..|cache.value|] == cache.value
      && (FetchPlan(cache, today).Download? ==> h[|cache.value|..] == CloseRows(download(FetchPlan(cache, today).start).rows))
      && (FetchPlan(cache, today).UpToDate? ==> h == cache.value)
  {
    var h := History(cache, today, download).value;
    if FetchPlan(cache, today).Download? {
      var rows := download(FetchPlan(cache, today).start).rows;
      if rows != [] {
        assert h == cache.value + CloseRows(rows);
        assert h[..|cache.value|] == cache.value;
        assert h[|cache.value|..] == CloseRows(rows);
      }
    }
  }

  /** The saved rows: each date once, the later row winning, in the order
      of the history (there is no sort). */
  lemma SavedRows(cache: Option<seq<Row<real>>>, today: Day, download: Day -> Fetch<Row<Bar>>)
    requires History(cache, today, download).Some?
    ensures var h := History(cache, today, download).value;
      && UniqueDates(DedupKeepLast(h)) && Subsequence(DedupKeepLast(h), h)
      && (cache.Some? && FetchPlan(cache, today).Download? ==>
            TableMap(DedupKeepLast(h)) == TableMap(cache.value) + TableMap(CloseRows(download(FetchPlan(cache, today).start).rows)))
  {
    var h := History(cache, today, download).value;
    if cache.Some? && FetchPlan(cache, today).Download? {
      var fetched := CloseRows(download(FetchPlan(cache, today).start).rows);
      DedupMergeCorrect(cache.value, fetched);
      if fetched == [] {
        assert h == cache.value + fetched;
      }
    }
  }

  /** The saved columns: the closes of the saved rows, and for each of 8,
      21, 50 and 200 the column `EMA_<p>` holding the EMA of those closes
      over the whole retained history. */
  lemma SavedColumns(rows: seq<Row<real>>)
    ensures var t := AddEmas(CloseFrame(rows), p => EmaCol(p), ClosesOf(rows), EmaPeriods);
      && t.index == Dates(rows)
      && Named("Close") in t.data && t.data[Named("Close")] == ToCells(ClosesOf(rows))
      && (forall p :: p in EmaPeriods ==> EmaCol(p) in t.data && t.data[EmaCol(p)] == ToCells(CalculateEma(ClosesOf(rows), p)))
  {
    var key := p => EmaCol(p);
    assert forall j :: 0 <= j < |EmaPeriods| ==> EmaPeriods[j] >= 1;
    AddEmasWrites(CloseFrame(rows), key, ClosesOf(rows), EmaPeriods);
    AddEmasKeeps(CloseFrame(rows), key, ClosesOf(rows), EmaPeriods, Named("Close"));
  }

  /** The labels of the saved table, in order. */
  lemma SavedLabels(rows: seq<Row<real>>)
    ensures AddEmas(CloseFrame(rows), p => EmaCol(p), ClosesOf(rows), EmaPeriods).columns
      == [Named("Close"), EmaCol(8), EmaCol(21), EmaCol(50), EmaCol(200)]
  {
    EmaLabels();
    LabelsAfterClose(rows, EmaPeriods);
  }

  lemma EmaLabels()
    ensures [Named("Close")] + PeriodLabels(p => EmaCol(p), EmaPeriods)
      == [Named("Close"), EmaCol(8), EmaCol(21), EmaCol(50), EmaCol(200)]
  {
    var labels := PeriodLabels(p => EmaCol(p), EmaPeriods);
    assert labels[0] == EmaCol(8) && labels[1] == EmaCol(21) && labels[2] == EmaCol(50) && labels[3] == EmaCol(200);
    assert labels == [EmaCol(8), EmaCol(21), EmaCol(50), EmaCol(200)];
  }

  lemma LabelsAfterClose(rows: seq<Row<real>>, periods: seq<int>)
    requires forall j :: 0 <= j < |periods| ==> periods[j] >= 1
    requires forall i, j :: 0 <= i < j < |periods| ==> periods[i] != periods[j]
    ensures AddEmas(CloseFrame(rows), p => EmaCol(p), ClosesOf(rows), periods).columns
      == [Named("Close")] + PeriodLabels(p => EmaCol(p), periods)
  {
    AddEmasColumns(CloseFrame(rows), p => EmaCol(p), ClosesOf(rows), periods);
  }

  /** The plot shows the rows dated on or after the same month and day one
      year before the last date (365 or 366 days), in table order;
      `RowsFromAppend` shows that every such row is kept, in place. */
  lemma PlotWindowRows(rows: seq<Row<real>>)
    requires rows != []
    ensures var start := OneYearBefore(MaxDate(rows));
      && CivilFromDays(start) == YearBack(CivilFromDays(MaxDate(rows)))
      && 365 <= MaxDate(rows) - start <= 366
      && (forall k :: 0 <= k < |PlotWindow(rows)| ==> PlotWindow(rows)[k] in rows && PlotWindow(rows)[k].date >= start)
      && (forall k :: 0 <= k < |rows| && rows[k].date >= start ==> rows[k] in PlotWindow(rows))
      && Subsequence(PlotWindow(rows), rows)
  {
    RowsFromKeeps(rows, OneYearBefore(MaxDate(rows)));
  }
}
