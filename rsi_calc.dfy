/** `rsi_calc.py`: the relative strength index over simple rolling means of
    gains and losses, and `add_rsi_to_file`, which stores it as the column
    `RSI_<period>`. */
module RsiCalc {
  import opened Common
  import opened Frames
  import opened EmaCalc

  /** `delta.where(delta > 0, 0)` with `delta = close.diff()`: the rise from
      the previous close, 0 where the close fell or stayed, and 0 at the
      first row, whose delta is missing. */
  function Gains(closes: seq<real>): (g: seq<real>)
    ensures |g| == |closes|
  {
    seq(|closes|, i requires 0 <= i < |closes| =>
      if i > 0 && closes[i] - closes[i - 1] > 0.0 then closes[i] - closes[i - 1] else 0.0)
  }

  /** `-delta.where(delta < 0, 0)`: the fall from the previous close, 0
      where the close rose or stayed, and 0 at the first row. */
  function Losses(closes: seq<real>): (l: seq<real>)
    ensures |l| == |closes|
  {
    seq(|closes|, i requires 0 <= i < |closes| =>
      if i > 0 && closes[i] - closes[i - 1] < 0.0 then -(closes[i] - closes[i - 1]) else 0.0)
  }

  /** Gains and losses split each move: both are non-negative, at most one
      of them is nonzero, their difference is the change from the previous
      close, and at the first row both are 0. */
  lemma GainLossSplit(closes: seq<real>, i: nat)
    requires i < |closes|
    ensures Gains(closes)[i] >= 0.0 && Losses(closes)[i] >= 0.0
    ensures Gains(closes)[i] == 0.0 || Losses(closes)[i] == 0.0
    ensures i == 0 ==> Gains(closes)[i] == 0.0 && Losses(closes)[i] == 0.0
    ensures i > 0 ==> Gains(closes)[i] - Losses(closes)[i] == closes[i] - closes[i - 1]
  {
  }

  /** `rolling(window=w).mean()` at row `i`: the mean of the `w` values
      ending at row `i`, missing while fewer than `w` rows exist and for a
      window of 0. */
  function RollingMean(xs: seq<real>, w: nat, i: nat): (m: Cell)
    requires i < |xs|
    ensures m.Num? <==> 1 <= w <= i + 1
  {
    if 1 <= w <= i + 1 then Num(Sum(xs[i + 1 - w..i + 1]) / (w as real)) else NaN
  }

  /** `100 - 100 / (1 + gain / loss)` on two averages, with IEEE semantics
      for a zero loss: a positive gain over a zero loss is infinite and gives
      100, zero over zero is NaN. */
  function RsiFromAverages(gain: Cell, loss: Cell): (r: Cell)
    requires gain.Num? ==> gain.value >= 0.0
    requires loss.Num? ==> loss.value >= 0.0
    ensures r.Num? ==> 0.0 <= r.value <= 100.0
    ensures r.Num? && r.value == 100.0 <==> gain.Num? && loss.Num? && loss.value == 0.0 && gain.value > 0.0
    ensures r.NaN? <==> gain.NaN? || loss.NaN? || (loss.value == 0.0 && gain.value == 0.0)
  {
    if gain.NaN? || loss.NaN? then NaN
    else if loss.value > 0.0 then
      RsiBelowHundred(gain.value, loss.value);
      Num(100.0 - 100.0 / (1.0 + gain.value / loss.value))
    else if gain.value > 0.0 then Num(100.0)
    else NaN
  }

  lemma RsiBelowHundred(g: real, l: real)
    requires g >= 0.0 && l > 0.0
    ensures 0.0 <= 100.0 - 100.0 / (1.0 + g / l) < 100.0
  {
    var t := 1.0 + g / l;
    assert g / l >= 0.0;
    assert t >= 1.0;
    assert 100.0 / t <= 100.0;
    assert 100.0 / t > 0.0;
  }

  /** `calculate_rsi(df, column, period)` on the close series. */
  function CalculateRsi(closes: seq<real>, period: nat): (rsi: seq<Cell>)
    ensures |rsi| == |closes|
  {
    var g := Gains(closes);
    var l := Losses(closes);
    seq(|closes|, i requires 0 <= i < |closes| =>
      MeansNonNegative(closes, period, i);
      RsiFromAverages(RollingMean(g, period, i), RollingMean(l, period, i)))
  }

  lemma MeansNonNegative(closes: seq<real>, w: nat, i: nat)
    requires i < |closes|
    ensures RollingMean(Gains(closes), w, i).Num? ==> RollingMean(Gains(closes), w, i).value >= 0.0
    ensures RollingMean(Losses(closes), w, i).Num? ==> RollingMean(Losses(closes), w, i).value >= 0.0
  {
    if 1 <= w <= i + 1 {
      var g := Gains(closes)[i + 1 - w..i + 1];
      var l := Losses(closes)[i + 1 - w..i + 1];
      forall j | 0 <= j < w ensures g[j] >= 0.0 && l[j] >= 0.0 {
        GainLossSplit(closes, i + 1 - w + j);
      }
      SumNonNegative(g);
      SumNonNegative(l);
    }
  }

  /** The RSI at row `i` is built from the averages over the window ending
      there. */
  lemma CalculateRsiAt(closes: seq<real>, period: nat, i: nat)
    requires i < |closes|
    ensures RollingMean(Gains(closes), period, i).Num? ==> RollingMean(Gains(closes), period, i).value >= 0.0
    ensures RollingMean(Losses(closes), period, i).Num? ==> RollingMean(Losses(closes), period, i).value >= 0.0
    ensures CalculateRsi(closes, period)[i]
      == RsiFromAverages(RollingMean(Gains(closes), period, i), RollingMean(Losses(closes), period, i))
  {
    MeansNonNegative(closes, period, i);
  }

  /** The first `period - 1` rows (and every row, for a period of 0) have
      no RSI. */
  lemma RsiWarmUp(closes: seq<real>, period: nat, i: nat)
    requires i < |closes| && (i + 1 < period || period == 0)
    ensures CalculateRsi(closes, period)[i] == NaN
  {
    CalculateRsiAt(closes, period, i);
  }

  /** Every defined RSI lies in [0, 100]. */
  lemma RsiRange(closes: seq<real>, period: nat, i: nat)
    requires i < |closes|
    ensures CalculateRsi(closes, period)[i].Num? ==> 0.0 <= CalculateRsi(closes, period)[i].value <= 100.0
  {
    CalculateRsiAt(closes, period, i);
  }

  /** Once the window is full and holds a loss, the RSI is defined and below
      100. */
  lemma RsiWithLoss(closes: seq<real>, period: nat, i: nat, j: nat)
    requires i < |closes| && 1 <= period <= i + 1
    requires i + 1 - period <= j <= i && Losses(closes)[j] > 0.0
    ensures CalculateRsi(closes, period)[i].Num?
    ensures CalculateRsi(closes, period)[i].value < 100.0
  {
    CalculateRsiAt(closes, period, i);
    var l := Losses(closes)[i + 1 - period..i + 1];
    forall k | 0 <= k < |l| ensures l[k] >= 0.0 {
      GainLossSplit(closes, i + 1 - period + k);
    }
    SumPositive(l, j - (i + 1 - period));
  }

  /** There is no guard against a zero average loss: over a window without
      losses the RSI is 100 if the window holds a gain and missing if the
      closes did not move at all. */
  lemma RsiNoLossWindow(closes: seq<real>, period: nat, i: nat)
    requires i < |closes| && 1 <= period <= i + 1
    requires forall j :: i + 1 - period <= j <= i ==> Losses(closes)[j] == 0.0
    ensures (exists j :: i + 1 - period <= j <= i && Gains(closes)[j] > 0.0) ==> CalculateRsi(closes, period)[i] == Num(100.0)
    ensures (forall j :: i + 1 - period <= j <= i ==> Gains(closes)[j] == 0.0) ==> CalculateRsi(closes, period)[i] == NaN
  {
    var lo := i + 1 - period;
    var gain := RollingMean(Gains(closes), period, i);
    var loss := RollingMean(Losses(closes), period, i);
    assert loss == Num(0.0) by {
      SumZero(Losses(closes)[lo..i + 1]);
      MeanSign(Losses(closes), period, i);
    }
    assert gain.Num? && gain.value >= 0.0 by {
      MeansNonNegative(closes, period, i);
    }
    assert (exists j :: lo <= j <= i && Gains(closes)[j] > 0.0) ==> gain.value > 0.0 by {
      if exists j :: lo <= j <= i && Gains(closes)[j] > 0.0 {
        var j :| lo <= j <= i && Gains(closes)[j] > 0.0;
        var g := Gains(closes)[lo..i + 1];
        forall k | 0 <= k < |g| ensures g[k] >= 0.0 {
          GainLossSplit(closes, lo + k);
        }
        SumPositive(g, j - lo);
        MeanSign(Gains(closes), period, i);
      }
    }
    assert (forall j :: lo <= j <= i ==> Gains(closes)[j] == 0.0) ==> gain.value == 0.0 by {
      if forall j :: lo <= j <= i ==> Gains(closes)[j] == 0.0 {
        SumZero(Gains(closes)[lo..i + 1]);
        MeanSign(Gains(closes), period, i);
      }
    }
    CalculateRsiAt(closes, period, i);
  }

  /** A full window's mean has the sign of the window's sum. */
  lemma MeanSign(xs: seq<real>, w: nat, i: nat)
    requires i < |xs| && 1 <= w <= i + 1
    ensures RollingMean(xs, w, i).value == 0.0 <==> Sum(xs[i + 1 - w..i + 1]) == 0.0
    ensures RollingMean(xs, w, i).value > 0.0 <==> Sum(xs[i + 1 - w..i + 1]) > 0.0
  {
  }

  /** Appending closes and recomputing leaves earlier RSI values as they
      were. */
  lemma RsiPrefix(closes: seq<real>, period: nat, k: nat)
    requires k <= |closes|
    ensures CalculateRsi(closes[..k], period) == CalculateRsi(closes, period)[..k]
  {
    var p := closes[..k];
    assert Gains(p) == Gains(closes)[..k];
    assert Losses(p) == Losses(closes)[..k];
    forall i | 0 <= i < k
      ensures CalculateRsi(p, period)[i] == CalculateRsi(closes, period)[i]
    {
      CalculateRsiAt(p, period, i);
      CalculateRsiAt(closes, period, i);
      if 1 <= period <= i + 1 {
        assert Gains(p)[i + 1 - period..i + 1] == Gains(closes)[i + 1 - period..i + 1];
        assert Losses(p)[i + 1 - period..i + 1] == Losses(closes)[i + 1 - period..i + 1];
      }
    }
  }

  function RsiKey(ticker: string, period: int): ColKey
  {
    ColKey(RsiCol(period), ticker)
  }

  /** `add_rsi_to_file` on the frame read from the file: None when it fails
      (no first column, no close column, or a negative window makes pandas
      raise), otherwise the frame with the single column
      `(RSI_<period>, ticker)` set to the RSI of the close column and no
      other column changed. */
  function AddRsiToFile(df: Frame<ColKey>, period: int): (r: Option<Frame<ColKey>>)
    requires df.Valid() && CloseNumeric(df)
    ensures r.None? <==> |df.columns| == 0 || CloseKey(df.columns) !in df.data || period < 0
    ensures r.Some? ==> r.value.Valid() && r.value.index == df.index
    ensures r.Some? ==> |r.value.columns| >= |df.columns| && r.value.columns[..|df.columns|] == df.columns
    ensures r.Some? ==>
      r.value.data == df.data[RsiKey(df.columns[0].ticker, period) := CalculateRsi(Values(df.data[CloseKey(df.columns)]), period)]
  {
    if |df.columns| == 0 then None
    else
      var close := CloseKey(df.columns);
      if close !in df.data || period < 0 then None
      else Some(df.Set(RsiKey(df.columns[0].ticker, period), CalculateRsi(Values(df.data[close]), period)))
  }
}
