/** `macd_calc.py`: the MACD line (fast EMA minus slow EMA of the close),
    its signal line (an EMA of the MACD line) and the histogram (their
    difference), and `add_macd_to_file`, which stores the three series as
    columns `MACD`, `MACD_Signal` and `MACD_Hist`. */
module MacdCalc {
  import opened Common
  import opened Frames
  import opened EmaCalc

  datatype MacdLines = MacdLines(macd: seq<real>, signal: seq<real>, hist: seq<real>)

  /** `calculate_macd(df, column, fast, slow, signal)` on the close series. */
  function CalculateMacd(closes: seq<real>, fast: int, slow: int, signal: int): (m: MacdLines)
    requires fast >= 1 && slow >= 1 && signal >= 1
    ensures |m.macd| == |closes| && |m.signal| == |closes| && |m.hist| == |closes|
    ensures forall i :: 0 <= i < |closes| ==>
      m.macd[i] == CalculateEma(closes, fast)[i] - CalculateEma(closes, slow)[i]
    ensures m.signal == CalculateEma(m.macd, signal)
    ensures forall i :: 0 <= i < |closes| ==> m.hist[i] == m.macd[i] - m.signal[i]
  {
    var macd := Minus(CalculateEma(closes, fast), CalculateEma(closes, slow));
    var sig := CalculateEma(macd, signal);
    MacdLines(macd, sig, Minus(macd, sig))
  }

  /** Both averages start at the first close, so the first row of all three
      series is zero. */
  lemma MacdFirstRowZero(closes: seq<real>, fast: int, slow: int, signal: int)
    requires fast >= 1 && slow >= 1 && signal >= 1 && |closes| > 0
    ensures CalculateMacd(closes, fast, slow, signal).macd[0] == 0.0
    ensures CalculateMacd(closes, fast, slow, signal).signal[0] == 0.0
    ensures CalculateMacd(closes, fast, slow, signal).hist[0] == 0.0
  {
  }

  /** A flat close series has no momentum: all three series are zero. */
  lemma MacdConstantZero(closes: seq<real>, fast: int, slow: int, signal: int)
    requires fast >= 1 && slow >= 1 && signal >= 1
    requires forall j :: 0 <= j < |closes| ==> closes[j] == closes[0]
    ensures forall i :: 0 <= i < |closes| ==>
      && CalculateMacd(closes, fast, slow, signal).macd[i] == 0.0
      && CalculateMacd(closes, fast, slow, signal).signal[i] == 0.0
      && CalculateMacd(closes, fast, slow, signal).hist[i] == 0.0
  {
    if |closes| > 0 {
      var m := CalculateMacd(closes, fast, slow, signal);
      EmaConstant(closes, SpanAlpha(fast), closes[0]);
      EmaConstant(closes, SpanAlpha(slow), closes[0]);
      EmaConstant(m.macd, SpanAlpha(signal), 0.0);
    }
  }

  /** Appending closes and recomputing leaves the earlier rows of all three
      series unchanged. */
  lemma MacdPrefix(closes: seq<real>, fast: int, slow: int, signal: int, k: nat)
    requires fast >= 1 && slow >= 1 && signal >= 1 && k <= |closes|
    ensures CalculateMacd(closes[..k], fast, slow, signal).macd == CalculateMacd(closes, fast, slow, signal).macd[..k]
    ensures CalculateMacd(closes[..k], fast, slow, signal).signal == CalculateMacd(closes, fast, slow, signal).signal[..k]
    ensures CalculateMacd(closes[..k], fast, slow, signal).hist == CalculateMacd(closes, fast, slow, signal).hist[..k]
  {
    var whole := CalculateMacd(closes, fast, slow, signal);
    var part := CalculateMacd(closes[..k], fast, slow, signal);
    assert part.macd == whole.macd[..k] by {
      MacdLinePrefix(closes, fast, slow, signal, k);
    }
    assert part.signal == whole.signal[..k] by {
      EmaPrefix(whole.macd, SpanAlpha(signal), k);
    }
    assert part.hist == whole.hist[..k] by {
      forall i | 0 <= i < k ensures part.hist[i] == whole.hist[i] {
        assert part.macd[i] == whole.macd[i] && part.signal[i] == whole.signal[i];
      }
    }
  }

  lemma MacdLinePrefix(closes: seq<real>, fast: int, slow: int, signal: int, k: nat)
    requires fast >= 1 && slow >= 1 && signal >= 1 && k <= |closes|
    ensures CalculateMacd(closes[..k], fast, slow, signal).macd == CalculateMacd(closes, fast, slow, signal).macd[..k]
  {
    var fastWhole, slowWhole := CalculateEma(closes, fast), CalculateEma(closes, slow);
    var fastPart, slowPart := CalculateEma(closes[..k], fast), CalculateEma(closes[..k], slow);
    EmaPrefix(closes, SpanAlpha(fast), k);
    EmaPrefix(closes, SpanAlpha(slow), k);
    assert Minus(fastPart, slowPart) == Minus(fastWhole, slowWhole)[..k];
  }

  function MacdKey(ticker: string): ColKey { ColKey(MacdCol, ticker) }
  function SignalKey(ticker: string): ColKey { ColKey(MacdSignalCol, ticker) }
  function HistKey(ticker: string): ColKey { ColKey(MacdHistCol, ticker) }

  /** The three column assignments of `add_macd_to_file`. */
  function WithMacd(df: Frame<ColKey>, t: string, macd: seq<Cell>, signal: seq<Cell>, hist: seq<Cell>): (f: Frame<ColKey>)
    requires df.Valid() && |macd| == |df.index| && |signal| == |df.index| && |hist| == |df.index|
    ensures f.Valid() && f.index == df.index
    ensures |f.columns| >= |df.columns| && f.columns[..|df.columns|] == df.columns
    ensures f.data == df.data[MacdKey(t) := macd][SignalKey(t) := signal][HistKey(t) := hist]
  {
    var f1 := df.Set(MacdKey(t), macd);
    var f2 := f1.Set(SignalKey(t), signal);
    var f3 := f2.Set(HistKey(t), hist);
    PrefixTrans(df.columns, f1.columns, f2.columns);
    PrefixTrans(df.columns, f2.columns, f3.columns);
    f3
  }

  /** `add_macd_to_file` on the frame read from the file: None when it
      fails (no first column, no close column, or a span below 1 makes
      pandas raise), otherwise the frame with the three MACD columns of the
      ticker set, the old labels first and in their old order, and no other
      column changed. */
  function AddMacdToFile(df: Frame<ColKey>, fast: int, slow: int, signal: int): (r: Option<Frame<ColKey>>)
    requires df.Valid() && CloseNumeric(df)
    ensures r.None? <==>
      (|df.columns| == 0 || CloseKey(df.columns) !in df.data || fast < 1 || slow < 1 || signal < 1)
    ensures r.Some? ==> r.value.Valid() && r.value.index == df.index
    ensures r.Some? ==> |r.value.columns| >= |df.columns| && r.value.columns[..|df.columns|] == df.columns
    ensures r.Some? ==>
      var t := df.columns[0].ticker;
      var m := CalculateMacd(Values(df.data[CloseKey(df.columns)]), fast, slow, signal);
      r.value.data == df.data[MacdKey(t) := ToCells(m.macd)][SignalKey(t) := ToCells(m.signal)][HistKey(t) := ToCells(m.hist)]
  {
    if |df.columns| == 0 then None
    else
      var close := CloseKey(df.columns);
      if close !in df.data || fast < 1 || slow < 1 || signal < 1 then None
      else
        var m := CalculateMacd(Values(df.data[close]), fast, slow, signal);
        Some(WithMacd(df, df.columns[0].ticker, ToCells(m.macd), ToCells(m.signal), ToCells(m.hist)))
  }
}
