/** `archive/spy_daily_ema_incr.py`: the earlier SPY script, which adds the
    12, 26, 50 and 200 day EMAs, a 14 day RSI smoothed with Wilder's
    exponential average, and MACD (12, 26, 9) to the close history, saves
    the table and plots the last year in three panels. Whether the cache
    file exists, the download `download(start)` and its answer are
    parameters. */
module ArchiveSpyDailyEmaIncr {
  import opened Common
  import opened Tables
  import opened Frames
  import opened EmaCalc
  import opened RsiCalc
  import opened MacdCalc
  import Spy = SpyDailyEmaIncr

  const ArchiveEmaPeriods: seq<int> := [12, 26, 50, 200]

  /** `alpha = 1 / rsi_period` with `rsi_period = 14`. */
  const RsiAlpha: real := 1.0 / 14.0

  /** A positive factor below 1 keeps every positive input alive: over
      non-negative inputs the average at row `i` is positive exactly when
      some input up to row `i` is. */
  lemma {:induction false} EmaPositive(xs: seq<real>, alpha: real, i: nat)
    requires 0.0 < alpha < 1.0 && i < |xs|
    requires forall j :: 0 <= j < |xs| ==> xs[j] >= 0.0
    ensures Ema(xs, alpha)[i] > 0.0 <==> exists j :: 0 <= j <= i && xs[j] > 0.0
  {
    if i == 0 {
      EmaSeed(xs, alpha);
    } else {
      EmaPositive(xs, alpha, i - 1);
      var prev := Ema(xs, alpha)[i - 1];
      assert prev >= 0.0 by {
        EmaAtLeast(xs, alpha, 0.0);
      }
      EmaStepPositive(xs, alpha, i);
      if xs[i] <= 0.0 {
        forall j | 0 <= j <= i && xs[j] > 0.0
          ensures 0 <= j <= i - 1 && xs[j] > 0.0
        {
        }
      }
    }
  }

  /** One step of the average over non-negative inputs: positive exactly
      when the new input or the previous average is. */
  lemma EmaStepPositive(xs: seq<real>, alpha: real, i: nat)
    requires 0.0 < alpha < 1.0 && 0 < i < |xs|
    requires xs[i] >= 0.0 && Ema(xs, alpha)[i - 1] >= 0.0
    ensures Ema(xs, alpha)[i] > 0.0 <==> xs[i] > 0.0 || Ema(xs, alpha)[i - 1] > 0.0
  {
    EmaStep(xs, alpha, i);
    MixPositive(alpha, xs[i], Ema(xs, alpha)[i - 1]);
  }

  lemma MixPositive(alpha: real, x: real, y: real)
    requires 0.0 < alpha < 1.0 && x >= 0.0 && y >= 0.0
    ensures alpha * x + (1.0 - alpha) * y > 0.0 <==> x > 0.0 || y > 0.0
  {
    WeightedPositive(alpha, x);
    WeightedPositive(1.0 - alpha, y);
  }

  lemma WeightedPositive(w: real, x: real)
    requires w > 0.0 && x >= 0.0
    ensures w * x >= 0.0
    ensures w * x > 0.0 <==> x > 0.0
  {
    if x > 0.0 {
      assert w * x > 0.0;
    }
  }

  /** `avg_gain` and `avg_loss`: the exponential averages of the gains and
      losses with factor 1/14; neither is ever negative. */
  lemma AveragesNonNegative(closes: seq<real>)
    ensures forall i :: 0 <= i < |closes| ==> Ema(Gains(closes), RsiAlpha)[i] >= 0.0
    ensures forall i :: 0 <= i < |closes| ==> Ema(Losses(closes), RsiAlpha)[i] >= 0.0
  {
    forall j | 0 <= j < |closes| ensures Gains(closes)[j] >= 0.0 && Losses(closes)[j] >= 0.0 {
      GainLossSplit(closes, j);
    }
    EmaAtLeast(Gains(closes), RsiAlpha, 0.0);
    EmaAtLeast(Losses(closes), RsiAlpha, 0.0);
  }

  /** `RSI_14`: `100 - 100 / (1 + avg_gain / avg_loss)` row by row. */
  function WilderRsi(closes: seq<real>): (rsi: seq<Cell>)
    ensures |rsi| == |closes|
  {
    AveragesNonNegative(closes);
    var gain := Ema(Gains(closes), RsiAlpha);
    var loss := Ema(Losses(closes), RsiAlpha);
    seq(|closes|, i requires 0 <= i < |closes| => RsiFromAverages(Num(gain[i]), Num(loss[i])))
  }

  /** The RSI at row `i` is decided by which moves the closes made up to
      that row: none at all gives no value, only rises give 100, and any
      fall gives a value below 100, for good, since the averages never
      return to zero. */
  lemma WilderRsiCases(closes: seq<real>, i: nat)
    requires i < |closes|
    ensures WilderRsi(closes)[i].Num? ==> 0.0 <= WilderRsi(closes)[i].value <= 100.0
    ensures WilderRsi(closes)[i].NaN? <==>
      forall j :: 0 <= j <= i ==> Gains(closes)[j] == 0.0 && Losses(closes)[j] == 0.0
    ensures WilderRsi(closes)[i] == Num(100.0) <==>
      (exists j :: 0 <= j <= i && Gains(closes)[j] > 0.0) && forall j :: 0 <= j <= i ==> Losses(closes)[j] == 0.0
    ensures (WilderRsi(closes)[i].Num? && WilderRsi(closes)[i].value < 100.0) <==>
      exists j :: 0 <= j <= i && Losses(closes)[j] > 0.0
  {
    AveragesNonNegative(closes);
    forall j | 0 <= j < |closes| ensures Gains(closes)[j] >= 0.0 && Losses(closes)[j] >= 0.0 {
      GainLossSplit(closes, j);
    }
    EmaPositive(Gains(closes), RsiAlpha, i);
    EmaPositive(Losses(closes), RsiAlpha, i);
  }

  /** The first row has no RSI: both averages start at 0. */
  lemma WilderRsiFirstRow(closes: seq<real>)
    requires |closes| > 0
    ensures WilderRsi(closes)[0] == NaN
  {
    WilderRsiCases(closes, 0);
    GainLossSplit(closes, 0);
  }

  /** The four EMA columns over the close column. */
  function EmaTable(rows: seq<Row<real>>): (t: Frame<ColName>)
    ensures t.Valid() && t.index == Dates(rows)
  {
    assert forall j :: 0 <= j < |ArchiveEmaPeriods| ==> ArchiveEmaPeriods[j] >= 1;
    AddEmas(Spy.CloseFrame(rows), p => EmaCol(p), ClosesOf(rows), ArchiveEmaPeriods)
  }

  /** The RSI and MACD blocks: `RSI_14`, `MACD`, `MACD_Signal` and
      `MACD_Hist` set, in that order, on a table of closes. */
  function WithIndicators(f: Frame<ColName>, closes: seq<real>): (t: Frame<ColName>)
    requires f.Valid() && |closes| == |f.index|
    ensures t.Valid() && t.index == f.index
    ensures var m := CalculateMacd(closes, 12, 26, 9);
      t.data == f.data[RsiCol(14) := WilderRsi(closes)][MacdCol := ToCells(m.macd)]
                      [MacdSignalCol := ToCells(m.signal)][MacdHistCol := ToCells(m.hist)]
    ensures RsiCol(14) !in f.data && MacdCol !in f.data && MacdSignalCol !in f.data && MacdHistCol !in f.data ==>
      t.columns == f.columns + [RsiCol(14), MacdCol, MacdSignalCol, MacdHistCol]
  {
    var m := CalculateMacd(closes, 12, 26, 9);
    var withRsi := f.Set(RsiCol(14), WilderRsi(closes));
    var withMacd := withRsi.Set(MacdCol, ToCells(m.macd));
    var withSignal := withMacd.Set(MacdSignalCol, ToCells(m.signal));
    var t := withSignal.Set(MacdHistCol, ToCells(m.hist));
    AppendFour(f.columns, RsiCol(14), MacdCol, MacdSignalCol, MacdHistCol);
    t
  }

  lemma AppendFour<T>(s: seq<T>, a: T, b: T, c: T, d: T)
    ensures s + [a] + [b] + [c] + [d] == s + [a, b, c, d]
  {
  }

  /** The saved table: the close column, the four EMA columns, `RSI_14`
      and the three MACD columns. */
  function ArchiveTable(rows: seq<Row<real>>): (t: Frame<ColName>)
    ensures t.Valid() && t.index == Dates(rows)
  {
    WithIndicators(EmaTable(rows), ClosesOf(rows))
  }

  /** The `for period in ema_periods` loop of the archived script. */
  method ArchiveEmas(base: Frame<ColName>, closes: seq<real>) returns (table: Frame<ColName>)
    requires base.Valid() && |closes| == |base.index|
    ensures table == AddEmas(base, p => EmaCol(p), closes, ArchiveEmaPeriods)
  {
    table := base;
    assert forall j :: 0 <= j < |ArchiveEmaPeriods| ==> ArchiveEmaPeriods[j] >= 1;
    for i := 0 to |ArchiveEmaPeriods|
      invariant table == AddEmas(base, p => EmaCol(p), closes, ArchiveEmaPeriods[..i])
    {
      AddEmasSnoc(base, p => EmaCol(p), closes, ArchiveEmaPeriods, i);
      table := table.Set(EmaCol(ArchiveEmaPeriods[i]), ToCells(CalculateEma(closes, ArchiveEmaPeriods[i])));
    }
    assert ArchiveEmaPeriods[..|ArchiveEmaPeriods|] == ArchiveEmaPeriods;
  }

  /** The EMA columns the loop writes hold the EMA of the closes, and the
      close column is kept. */
  lemma EmaTableColumns(rows: seq<Row<real>>)
    ensures var t := EmaTable(rows);
      && Named("Close") in t.data && t.data[Named("Close")] == ToCells(ClosesOf(rows))
      && forall p :: p in ArchiveEmaPeriods ==>
           EmaCol(p) in t.data && t.data[EmaCol(p)] == ToCells(CalculateEma(ClosesOf(rows), p))
  {
    ArchiveEmaColumns(rows, ArchiveEmaPeriods);
  }

  lemma ArchiveEmaColumns(rows: seq<Row<real>>, periods: seq<int>)
    requires periods == ArchiveEmaPeriods
    ensures var t := EmaTable(rows);
      && Named("Close") in t.data && t.data[Named("Close")] == ToCells(ClosesOf(rows))
      && forall p :: p in periods ==>
           EmaCol(p) in t.data && t.data[EmaCol(p)] == ToCells(CalculateEma(ClosesOf(rows), p))
  {
    assert forall j :: 0 <= j < |periods| ==> periods[j] >= 1;
    AddEmasWrites(Spy.CloseFrame(rows), p => EmaCol(p), ClosesOf(rows), periods);
    AddEmasKeeps(Spy.CloseFrame(rows), p => EmaCol(p), ClosesOf(rows), periods, Named("Close"));
  }

  /** The RSI and MACD blocks of the script on the table the EMA loop
      left, MACD being read back from its `EMA_12` and `EMA_26` columns. */
  method AddIndicators(table: Frame<ColName>, closes: seq<real>) returns (out: Frame<ColName>)
    requires table.Valid() && |closes| == |table.index|
    requires EmaCol(12) in table.data && table.data[EmaCol(12)] == ToCells(CalculateEma(closes, 12))
    requires EmaCol(26) in table.data && table.data[EmaCol(26)] == ToCells(CalculateEma(closes, 26))
    ensures out == WithIndicators(table, closes)
  {
    out := table.Set(RsiCol(14), WilderRsi(closes));
    ValuesToCells(CalculateEma(closes, 12));
    ValuesToCells(CalculateEma(closes, 26));
    var macd := Minus(Values(out.data[EmaCol(12)]), Values(out.data[EmaCol(26)]));
    var signal := CalculateEma(macd, 9);
    var hist := Minus(macd, signal);
    out := out.Set(MacdCol, ToCells(macd)).Set(MacdSignalCol, ToCells(signal)).Set(MacdHistCol, ToCells(hist));
  }

  /** The indicator blocks of the script, after deduplication. */
  method ComputeIndicators(rows: seq<Row<real>>) returns (table: Frame<ColName>)
    ensures table == ArchiveTable(rows)
  {
    var closes := ClosesOf(rows);
    table := ArchiveEmas(Spy.CloseFrame(rows), closes);
    EmaTableColumns(rows);
    assert 12 in ArchiveEmaPeriods && 26 in ArchiveEmaPeriods;
    table := AddIndicators(table, closes);
  }

  /** What the archived script ends with: an exception before anything is
      saved, a saved table and the plotted rows, or a saved table whose plot
      raises because the plot window has no last value to label. */
  datatype ArchiveRun = Aborted | Saved(table: Frame<ColName>, plot: seq<Row<real>>) | PlotRaised(table: Frame<ColName>)

  /** The whole script. With a cache file the index is read as dates and
      `datetime.strptime` on the last one raises, so only a first run gets
      past loading. */
  method RunArchive(cacheExists: bool, download: Day -> Fetch<Row<Bar>>) returns (run: ArchiveRun)
    ensures run.Aborted? <==> cacheExists || download(Spy.HistoryStart).Raised?
    ensures !run.Aborted? ==>
      var rows := DedupKeepLast(CloseRows(download(Spy.HistoryStart).rows));
      && run.table == ArchiveTable(rows)
      && (run.Saved? <==> Spy.PlotWindow(rows) != [])
      && (run.Saved? ==> run.plot == Spy.PlotWindow(rows))
  {
    if cacheExists {
      return Aborted;
    }
    var fetched := download(Spy.HistoryStart);
    if fetched.Raised? {
      return Aborted;
    }
    var data := DedupKeepLast(CloseRows(fetched.rows));
    var table := ComputeIndicators(data);
    var plotData := Spy.PlotWindow(data);
    if plotData == [] {
      return PlotRaised(table);
    }
    run := Saved(table, plotData);
  }

  /** The plot fails only when there is nothing at all to plot: a
      non-empty table always has its last row in the window. */
  lemma PlotWindowNonEmpty(rows: seq<Row<real>>)
    ensures Spy.PlotWindow(rows) != [] <==> rows != []
  {
    if rows != [] {
      var k :| 0 <= k < |rows| && rows[k].date == MaxDate(rows);
      Spy.PlotWindowRows(rows);
      assert rows[k] in Spy.PlotWindow(rows);
    }
  }

  /** The labels of the saved table, in order. */
  lemma ArchiveLabels(rows: seq<Row<real>>)
    ensures ArchiveTable(rows).columns == [Named("Close"), EmaCol(12), EmaCol(26), EmaCol(50), EmaCol(200),
                                           RsiCol(14), MacdCol, MacdSignalCol, MacdHistCol]
  {
    ArchiveEmaLabels();
    EmaTableLabels(rows, ArchiveEmaPeriods);
  }

  lemma ArchiveEmaLabels()
    ensures [Named("Close")] + PeriodLabels(p => EmaCol(p), ArchiveEmaPeriods) + [RsiCol(14), MacdCol, MacdSignalCol, MacdHistCol]
      == [Named("Close"), EmaCol(12), EmaCol(26), EmaCol(50), EmaCol(200), RsiCol(14), MacdCol, MacdSignalCol, MacdHistCol]
  {
    var labels := PeriodLabels(p => EmaCol(p), ArchiveEmaPeriods);
    assert labels[0] == EmaCol(12) && labels[1] == EmaCol(26) && labels[2] == EmaCol(50) && labels[3] == EmaCol(200);
    assert labels == [EmaCol(12), EmaCol(26), EmaCol(50), EmaCol(200)];
  }

  lemma EmaTableLabels(rows: seq<Row<real>>, periods: seq<int>)
    requires periods == ArchiveEmaPeriods
    ensures ArchiveTable(rows).columns
      == [Named("Close")] + PeriodLabels(p => EmaCol(p), periods) + [RsiCol(14), MacdCol, MacdSignalCol, MacdHistCol]
  {
    ArchivePeriodsValid();
    var e := EmaTable(rows);
    assert e == AddEmas(Spy.CloseFrame(rows), p => EmaCol(p), ClosesOf(rows), periods);
    Spy.LabelsAfterClose(rows, periods);
    NoIndicatorLabels(rows, periods);
    assert RsiCol(14) !in e.data && MacdCol !in e.data && MacdSignalCol !in e.data && MacdHistCol !in e.data;
    assert ArchiveTable(rows) == WithIndicators(e, ClosesOf(rows));
  }

  lemma ArchivePeriodsValid()
    ensures forall j :: 0 <= j < |ArchiveEmaPeriods| ==> ArchiveEmaPeriods[j] >= 1
    ensures forall i, j :: 0 <= i < j < |ArchiveEmaPeriods| ==> ArchiveEmaPeriods[i] != ArchiveEmaPeriods[j]
  {
  }

  lemma NoIndicatorLabels(rows: seq<Row<real>>, periods: seq<int>)
    requires forall j :: 0 <= j < |periods| ==> periods[j] >= 1
    ensures var e := AddEmas(Spy.CloseFrame(rows), p => EmaCol(p), ClosesOf(rows), periods);
      RsiCol(14) !in e.data && MacdCol !in e.data && MacdSignalCol !in e.data && MacdHistCol !in e.data
  {
    var base, key, closes := Spy.CloseFrame(rows), p => EmaCol(p), ClosesOf(rows);
    AddEmasAbsent(base, key, closes, periods, RsiCol(14));
    AddEmasAbsent(base, key, closes, periods, MacdCol);
    AddEmasAbsent(base, key, closes, periods, MacdSignalCol);
    AddEmasAbsent(base, key, closes, periods, MacdHistCol);
  }

  /** The RSI and MACD blocks leave the close and EMA columns as the loop
      wrote them. */
  lemma ArchiveKeepsEmaTable(rows: seq<Row<real>>)
    ensures forall k :: k in EmaTable(rows).data ==>
      k in ArchiveTable(rows).data && ArchiveTable(rows).data[k] == EmaTable(rows).data[k]
  {
    var e := EmaTable(rows);
    ArchivePeriodsValid();
    NoIndicatorLabels(rows, ArchiveEmaPeriods);
    var t := WithIndicators(e, ClosesOf(rows));
    assert forall k :: k in e.data ==> k in t.data && t.data[k] == e.data[k];
    assert ArchiveTable(rows) == t;
  }
}
