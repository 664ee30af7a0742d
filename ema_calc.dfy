/** `ema_calc.py`: the exponential moving average pandas computes with
    `ewm(span=p, adjust=False).mean()` (also used with `alpha=` directly by
    the archived SPY script), and `add_ema_to_file`, which adds one column
    `EMA_<p>` per requested period to a two-level-header price file. */
module EmaCalc {
  import opened Common
  import opened Frames

  /** The smoothing factor pandas derives from `span`: 2 / (span + 1). */
  function SpanAlpha(span: int): (alpha: real)
    requires span >= 1
    ensures 0.0 < alpha <= 1.0
  {
    2.0 / (span as real + 1.0)
  }

  /** `ewm(alpha=alpha, adjust=False).mean()`: the first value is the first
      input, every later one mixes the new input with the previous value. */
  function Ema(xs: seq<real>, alpha: real): (ys: seq<real>)
    ensures |ys| == |xs|
    decreases |xs|
  {
    if |xs| <= 1 then xs
    else
      var prev := Ema(xs[..|xs| - 1], alpha);
      prev + [alpha * xs[|xs| - 1] + (1.0 - alpha) * prev[|xs| - 2]]
  }

  /** The average of a prefix is the prefix of the average: appending rows
      and recomputing never changes an earlier value. */
  lemma {:induction false} EmaPrefix(xs: seq<real>, alpha: real, k: nat)
    requires k <= |xs|
    ensures Ema(xs[..k], alpha) == Ema(xs, alpha)[..k]
    decreases |xs|
  {
    if k == |xs| {
      assert xs[..k] == xs;
    } else if |xs| > 1 {
      var init := xs[..|xs| - 1];
      EmaPrefix(init, alpha, k);
      assert init[..k] == xs[..k];
    }
  }

  /** Recomputing over a longer history leaves the values of the old rows
      as they were. */
  lemma EmaAppend(xs: seq<real>, ys: seq<real>, alpha: real)
    ensures Ema(xs + ys, alpha)[..|xs|] == Ema(xs, alpha)
  {
    EmaPrefix(xs + ys, alpha, |xs|);
    assert (xs + ys)[..|xs|] == xs;
  }

  /** The average starts at the first input. */
  lemma EmaSeed(xs: seq<real>, alpha: real)
    requires |xs| > 0
    ensures Ema(xs, alpha)[0] == xs[0]
  {
    EmaPrefix(xs, alpha, 1);
  }

  /** Every later value is alpha times the input plus (1 - alpha) times the
      previous value. */
  lemma EmaStep(xs: seq<real>, alpha: real, i: nat)
    requires 0 < i < |xs|
    ensures Ema(xs, alpha)[i] == alpha * xs[i] + (1.0 - alpha) * Ema(xs, alpha)[i - 1]
  {
    EmaPrefix(xs, alpha, i + 1);
    EmaPrefix(xs, alpha, i);
    assert xs[..i + 1][..i] == xs[..i];
  }

  /** The seed and the step for every row at once. */
  lemma EmaRecurrence(xs: seq<real>, alpha: real)
    ensures |xs| > 0 ==> Ema(xs, alpha)[0] == xs[0]
    ensures forall i :: 0 < i < |xs| ==>
      Ema(xs, alpha)[i] == alpha * xs[i] + (1.0 - alpha) * Ema(xs, alpha)[i - 1]
  {
    if |xs| > 0 {
      EmaSeed(xs, alpha);
    }
    forall i | 0 < i < |xs|
      ensures Ema(xs, alpha)[i] == alpha * xs[i] + (1.0 - alpha) * Ema(xs, alpha)[i - 1]
    {
      EmaStep(xs, alpha, i);
    }
  }

  /** The seed and the step together determine the average: any series that
      satisfies both is the average. */
  lemma EmaUnique(xs: seq<real>, alpha: real, ys: seq<real>)
    requires |ys| == |xs|
    requires |xs| > 0 ==> ys[0] == xs[0]
    requires forall i :: 0 < i < |xs| ==> ys[i] == alpha * xs[i] + (1.0 - alpha) * ys[i - 1]
    ensures ys == Ema(xs, alpha)
  {
    var e := Ema(xs, alpha);
    forall i | 0 <= i < |xs| ensures ys[i] == e[i] {
      EmaUniqueAt(xs, alpha, ys, i);
    }
  }

  lemma {:induction false} EmaUniqueAt(xs: seq<real>, alpha: real, ys: seq<real>, i: nat)
    requires |ys| == |xs| && i < |xs|
    requires ys[0] == xs[0]
    requires forall j :: 0 < j < |xs| ==> ys[j] == alpha * xs[j] + (1.0 - alpha) * ys[j - 1]
    ensures ys[i] == Ema(xs, alpha)[i]
  {
    if i == 0 {
      EmaSeed(xs, alpha);
    } else {
      EmaUniqueAt(xs, alpha, ys, i - 1);
      EmaStep(xs, alpha, i);
    }
  }

  lemma ConvexAtLeast(a: real, x: real, y: real, lo: real)
    requires 0.0 <= a <= 1.0 && lo <= x && lo <= y
    ensures lo <= a * x + (1.0 - a) * y
  {
    assert a * (x - lo) >= 0.0;
    assert (1.0 - a) * (y - lo) >= 0.0;
  }

  lemma ConvexAtMost(a: real, x: real, y: real, hi: real)
    requires 0.0 <= a <= 1.0 && x <= hi && y <= hi
    ensures a * x + (1.0 - a) * y <= hi
  {
    assert a * (hi - x) >= 0.0;
    assert (1.0 - a) * (hi - y) >= 0.0;
  }

  /** With 0 <= alpha <= 1 the average never falls below a lower bound of
      the inputs. */
  lemma {:induction false} EmaAtLeast(xs: seq<real>, alpha: real, lo: real)
    requires 0.0 <= alpha <= 1.0
    requires forall j :: 0 <= j < |xs| ==> lo <= xs[j]
    ensures forall i :: 0 <= i < |xs| ==> lo <= Ema(xs, alpha)[i]
    decreases |xs|
  {
    if |xs| > 1 {
      var init := xs[..|xs| - 1];
      EmaAtLeast(init, alpha, lo);
      var prev := Ema(init, alpha);
      ConvexAtLeast(alpha, xs[|xs| - 1], prev[|xs| - 2], lo);
    }
  }

  /** With 0 <= alpha <= 1 the average never rises above an upper bound of
      the inputs. */
  lemma {:induction false} EmaAtMost(xs: seq<real>, alpha: real, hi: real)
    requires 0.0 <= alpha <= 1.0
    requires forall j :: 0 <= j < |xs| ==> xs[j] <= hi
    ensures forall i :: 0 <= i < |xs| ==> Ema(xs, alpha)[i] <= hi
    decreases |xs|
  {
    if |xs| > 1 {
      var init := xs[..|xs| - 1];
      EmaAtMost(init, alpha, hi);
      var prev := Ema(init, alpha);
      ConvexAtMost(alpha, xs[|xs| - 1], prev[|xs| - 2], hi);
    }
  }

  /** Each value lies between the least and the greatest input up to and
      including its row. */
  lemma EmaWithinRange(xs: seq<real>, alpha: real, i: nat)
    requires 0.0 <= alpha <= 1.0 && i < |xs|
    ensures Min(xs[..i + 1]) <= Ema(xs, alpha)[i] <= Max(xs[..i + 1])
  {
    var p := xs[..i + 1];
    EmaPrefix(xs, alpha, i + 1);
    EmaAtLeast(p, alpha, Min(p));
    EmaAtMost(p, alpha, Max(p));
    assert Ema(p, alpha)[i] == Ema(xs, alpha)[i];
  }

  /** A constant input is its own average, whatever the factor. */
  lemma {:induction false} EmaConstant(xs: seq<real>, alpha: real, c: real)
    requires forall j :: 0 <= j < |xs| ==> xs[j] == c
    ensures forall i :: 0 <= i < |xs| ==> Ema(xs, alpha)[i] == c
    decreases |xs|
  {
    if |xs| > 1 {
      EmaConstant(xs[..|xs| - 1], alpha, c);
    }
  }

  /** `calculate_ema`: the `adjust=False` average of a close series with
      span `period`. */
  function CalculateEma(closes: seq<real>, period: int): (ema: seq<real>)
    requires period >= 1
    ensures |ema| == |closes|
    ensures |closes| > 0 ==> ema[0] == closes[0]
    ensures forall i :: 0 < i < |closes| ==>
      ema[i] == SpanAlpha(period) * closes[i] + (1.0 - SpanAlpha(period)) * ema[i - 1]
  {
    EmaRecurrence(closes, SpanAlpha(period));
    Ema(closes, SpanAlpha(period))
  }

  /** Every value of `calculate_ema` lies between the least and greatest
      close up to its row, and a constant close series is its own EMA. */
  lemma CalculateEmaBounds(closes: seq<real>, period: int, i: nat)
    requires period >= 1 && i < |closes|
    ensures Min(closes[..i + 1]) <= CalculateEma(closes, period)[i] <= Max(closes[..i + 1])
    ensures (forall j :: 0 <= j < |closes| ==> closes[j] == closes[0]) ==> CalculateEma(closes, period)[i] == closes[0]
  {
    EmaWithinRange(closes, SpanAlpha(period), i);
    if forall j :: 0 <= j < |closes| ==> closes[j] == closes[0] {
      EmaConstant(closes, SpanAlpha(period), closes[0]);
    }
  }

  /** The close column of a two-level frame: the ticker is the second label
      of the first column, the field is "Price" if some first-level label is
      "Price" and "Close" otherwise. */
  function CloseKey(columns: seq<ColKey>): (k: ColKey)
    requires |columns| > 0
    ensures k.ticker == columns[0].ticker
    ensures k.field == Named("Price") <==> exists c :: c in columns && c.field == Named("Price")
    ensures k.field == Named("Price") || k.field == Named("Close")
  {
    var ticker := columns[0].ticker;
    if exists c :: c in columns && c.field == Named("Price") then ColKey(Named("Price"), ticker)
    else ColKey(Named("Close"), ticker)
  }

  /** The close column, where the frame has one, holds numbers only. */
  predicate CloseNumeric(df: Frame<ColKey>)
  {
    |df.columns| > 0 && CloseKey(df.columns) in df.data ==> AllNum(df.data[CloseKey(df.columns)])
  }

  function EmaKey(ticker: string, period: int): ColKey
  {
    ColKey(EmaCol(period), ticker)
  }

  /** The frame after a loop that, for each period in turn, sets the column
      labelled `key(p)` to the EMA of the closes with span `p`: the loop of
      `add_ema_to_file`, and the `for period` loops of the SPY scripts. */
  function AddEmas<K(!new)>(df: Frame<K>, key: int -> K, closes: seq<real>, periods: seq<int>): (f: Frame<K>)
    requires df.Valid() && |closes| == |df.index|
    requires forall j :: 0 <= j < |periods| ==> periods[j] >= 1
    ensures f.Valid() && f.index == df.index
    decreases |periods|
  {
    if periods == [] then df
    else
      var p := periods[|periods| - 1];
      AddEmas(df, key, closes, periods[..|periods| - 1]).Set(key(p), ToCells(CalculateEma(closes, p)))
  }

  /** One more turn of the loop adds the column of the next period. */
  lemma AddEmasSnoc<K(!new)>(df: Frame<K>, key: int -> K, closes: seq<real>, periods: seq<int>, i: nat)
    requires df.Valid() && |closes| == |df.index|
    requires i < |periods| && forall j :: 0 <= j <= i ==> periods[j] >= 1
    ensures AddEmas(df, key, closes, periods[..i + 1])
      == AddEmas(df, key, closes, periods[..i]).Set(key(periods[i]), ToCells(CalculateEma(closes, periods[i])))
  {
    assert periods[..i + 1][..i] == periods[..i];
  }

  /** With distinct labels for distinct periods, every requested period gets
      its EMA column. */
  lemma {:induction false} AddEmasWrites<K(!new)>(df: Frame<K>, key: int -> K, closes: seq<real>, periods: seq<int>)
    requires df.Valid() && |closes| == |df.index|
    requires forall j :: 0 <= j < |periods| ==> periods[j] >= 1
    requires forall p, q :: key(p) == key(q) ==> p == q
    ensures forall p :: p in periods ==>
      && key(p) in AddEmas(df, key, closes, periods).data
      && AddEmas(df, key, closes, periods).data[key(p)] == ToCells(CalculateEma(closes, p))
    decreases |periods|
  {
    if periods != [] {
      var init := periods[..|periods| - 1];
      AddEmasWrites(df, key, closes, init);
      assert periods == init + [periods[|periods| - 1]];
    }
  }

  /** The labels after the loop are those of the input and the new EMA
      labels. */
  lemma {:induction false} AddEmasKeys<K(!new)>(df: Frame<K>, key: int -> K, closes: seq<real>, periods: seq<int>)
    requires df.Valid() && |closes| == |df.index|
    requires forall j :: 0 <= j < |periods| ==> periods[j] >= 1
    ensures AddEmas(df, key, closes, periods).data.Keys == df.data.Keys + set p | p in periods :: key(p)
    decreases |periods|
  {
    if periods != [] {
      var init := periods[..|periods| - 1];
      var last := periods[|periods| - 1];
      AddEmasKeys(df, key, closes, init);
      assert periods == init + [last];
      LabelsSnoc(key, init, last);
    }
  }

  lemma LabelsSnoc<K>(key: int -> K, init: seq<int>, last: int)
    ensures (set p | p in init + [last] :: key(p)) == (set p | p in init :: key(p)) + {key(last)}
  {
    var whole := init + [last];
    var labels := set p | p in whole :: key(p);
    forall k | k in labels
      ensures k in (set p | p in init :: key(p)) + {key(last)}
    {
      var p :| p in whole && key(p) == k;
      if p != last {
        assert p in init;
      }
    }
    forall p | p in init ensures key(p) in (set q | q in whole :: key(q)) {
      assert p in whole;
    }
  }

  /** The labels of the input keep their positions at the front. */
  lemma {:induction false} AddEmasPrefix<K(!new)>(df: Frame<K>, key: int -> K, closes: seq<real>, periods: seq<int>)
    requires df.Valid() && |closes| == |df.index|
    requires forall j :: 0 <= j < |periods| ==> periods[j] >= 1
    ensures |AddEmas(df, key, closes, periods).columns| >= |df.columns|
    ensures AddEmas(df, key, closes, periods).columns[..|df.columns|] == df.columns
    decreases |periods|
  {
    if periods != [] {
      var init := periods[..|periods| - 1];
      AddEmasPrefix(df, key, closes, init);
      var before := AddEmas(df, key, closes, init);
      var after := AddEmas(df, key, closes, periods);
      assert after.columns[..|df.columns|] == after.columns[..|before.columns|][..|df.columns|];
    }
  }

  /** The labels of new periods go after the input's labels, in the order
      of the periods. */
  lemma {:induction false} AddEmasColumns<K(!new)>(df: Frame<K>, key: int -> K, closes: seq<real>, periods: seq<int>)
    requires df.Valid() && |closes| == |df.index|
    requires forall j :: 0 <= j < |periods| ==> periods[j] >= 1
    requires forall i, j :: 0 <= i < j < |periods| ==> key(periods[i]) != key(periods[j])
    requires forall j :: 0 <= j < |periods| ==> key(periods[j]) !in df.data
    ensures AddEmas(df, key, closes, periods).columns == df.columns + PeriodLabels(key, periods)
    decreases |periods|
  {
    if periods != [] {
      var n := |periods| - 1;
      var init := periods[..n];
      assert forall j :: 0 <= j < n ==> init[j] == periods[j];
      AddEmasColumns(df, key, closes, init);
      AddEmasAppendsLast(df, key, closes, periods);
      PeriodLabelsSnoc(key, periods);
      AppendStep(AddEmas(df, key, closes, periods).columns, AddEmas(df, key, closes, init).columns,
                 df.columns, PeriodLabels(key, init), PeriodLabels(key, periods), key(periods[n]));
    }
  }

  lemma AppendStep<K>(after: seq<K>, before: seq<K>, cols: seq<K>, labels: seq<K>, all: seq<K>, last: K)
    requires after == before + [last] && before == cols + labels && all == labels + [last]
    ensures after == cols + all
  {
    assert (cols + labels) + [last] == cols + (labels + [last]);
  }

  /** A turn of the loop for a period whose label is new appends that label. */
  lemma AddEmasAppendsLast<K(!new)>(df: Frame<K>, key: int -> K, closes: seq<real>, periods: seq<int>)
    requires df.Valid() && |closes| == |df.index| && periods != []
    requires forall j :: 0 <= j < |periods| ==> periods[j] >= 1
    requires forall j :: 0 <= j < |periods| - 1 ==> key(periods[j]) != key(periods[|periods| - 1])
    requires key(periods[|periods| - 1]) !in df.data
    ensures AddEmas(df, key, closes, periods).columns
      == AddEmas(df, key, closes, periods[..|periods| - 1]).columns + [key(periods[|periods| - 1])]
  {
    var n := |periods| - 1;
    var before := AddEmas(df, key, closes, periods[..n]);
    var v := ToCells(CalculateEma(closes, periods[n]));
    assert key(periods[n]) !in before.data by {
      AddEmasFresh(df, key, closes, periods);
    }
    assert AddEmas(df, key, closes, periods) == before.Set(key(periods[n]), v);
    SetNewLabel(before, key(periods[n]), v);
  }

  /** Assigning a new label appends it to the labels. */
  lemma SetNewLabel<K(!new)>(f: Frame<K>, k: K, v: seq<Cell>)
    requires f.Valid() && |v| == |f.index| && k !in f.data
    ensures f.Set(k, v).columns == f.columns + [k]
  {
  }

  /** `key(p)` for each period, in the order of the periods. */
  function PeriodLabels<K>(key: int -> K, periods: seq<int>): (labels: seq<K>)
    ensures |labels| == |periods|
    ensures forall j :: 0 <= j < |periods| ==> labels[j] == key(periods[j])
  {
    seq(|periods|, j requires 0 <= j < |periods| => key(periods[j]))
  }

  lemma PeriodLabelsSnoc<K>(key: int -> K, periods: seq<int>)
    requires periods != []
    ensures PeriodLabels(key, periods) == PeriodLabels(key, periods[..|periods| - 1]) + [key(periods[|periods| - 1])]
  {
  }

  /** Before the last turn of the loop, the label of the last period is not
      yet in the frame, so the turn appends it. */
  lemma AddEmasFresh<K(!new)>(df: Frame<K>, key: int -> K, closes: seq<real>, periods: seq<int>)
    requires df.Valid() && |closes| == |df.index| && periods != []
    requires forall j :: 0 <= j < |periods| ==> periods[j] >= 1
    requires forall j :: 0 <= j < |periods| - 1 ==> key(periods[j]) != key(periods[|periods| - 1])
    requires key(periods[|periods| - 1]) !in df.data
    ensures key(periods[|periods| - 1]) !in AddEmas(df, key, closes, periods[..|periods| - 1]).data
  {
    var n := |periods| - 1;
    var init := periods[..n];
    var last := periods[n];
    AddEmasKeys(df, key, closes, init);
    forall p | p in init
      ensures key(p) != key(last)
    {
      var i :| 0 <= i < n && init[i] == p;
      assert key(periods[i]) != key(last);
    }
  }

  /** Every column whose label is not that of a requested period keeps its
      cells. */
  lemma {:induction false} AddEmasKeeps<K(!new)>(df: Frame<K>, key: int -> K, closes: seq<real>, periods: seq<int>, k: K)
    requires df.Valid() && |closes| == |df.index|
    requires forall j :: 0 <= j < |periods| ==> periods[j] >= 1
    requires k in df.data && forall j :: 0 <= j < |periods| ==> key(periods[j]) != k
    ensures k in AddEmas(df, key, closes, periods).data
    ensures AddEmas(df, key, closes, periods).data[k] == df.data[k]
    decreases |periods|
  {
    if periods != [] {
      AddEmasKeeps(df, key, closes, periods[..|periods| - 1], k);
    }
  }

  /** A label that is neither in the input nor that of a requested period
      is not in the result either. */
  lemma {:induction false} AddEmasAbsent<K(!new)>(df: Frame<K>, key: int -> K, closes: seq<real>, periods: seq<int>, k: K)
    requires df.Valid() && |closes| == |df.index|
    requires forall j :: 0 <= j < |periods| ==> periods[j] >= 1
    requires k !in df.data && forall j :: 0 <= j < |periods| ==> key(periods[j]) != k
    ensures k !in AddEmas(df, key, closes, periods).data
    decreases |periods|
  {
    if periods != [] {
      AddEmasAbsent(df, key, closes, periods[..|periods| - 1], k);
    }
  }

  /** When `add_ema_to_file` ends in an exception (and so returns None):
      there is no first column to take the ticker from, or the loop runs at
      least once and the close column is missing or some period is not a
      valid span. */
  predicate AddEmaFails(df: Frame<ColKey>, periods: seq<int>)
  {
    || |df.columns| == 0
    || (|periods| > 0 && CloseKey(df.columns) !in df.data)
    || (exists j :: 0 <= j < |periods| && periods[j] < 1)
  }

  /** `add_ema_to_file` on the frame read from the file: None when it fails,
      otherwise the frame with column `(EMA_<p>, ticker)` set to the EMA of
      the close column for every requested period and every other column,
      and the order of the existing labels, unchanged. */
  method AddEmaToFile(df: Frame<ColKey>, periods: seq<int>) returns (r: Option<Frame<ColKey>>)
    requires df.Valid() && CloseNumeric(df)
    ensures r.None? <==> AddEmaFails(df, periods)
    ensures r.Some? && periods != [] ==>
      r.value == AddEmas(df, p => EmaKey(df.columns[0].ticker, p), Values(df.data[CloseKey(df.columns)]), periods)
    ensures r.Some? && periods == [] ==> r.value == df
  {
    if |df.columns| == 0 {
      return None;
    }
    var ticker := df.columns[0].ticker;
    var close := CloseKey(df.columns);
    var out := df;
    for i := 0 to |periods|
      invariant i == 0 ==> out == df
      invariant i > 0 ==> close in df.data
      invariant forall j :: 0 <= j < i ==> periods[j] >= 1
      invariant i > 0 ==> out == AddEmas(df, p => EmaKey(ticker, p), Values(df.data[close]), periods[..i])
    {
      if close !in df.data || periods[i] < 1 {
        return None;
      }
      var closes := Values(df.data[close]);
      AddEmasSnoc(df, p => EmaKey(ticker, p), closes, periods, i);
      out := out.Set(EmaKey(ticker, periods[i]), ToCells(CalculateEma(closes, periods[i])));
    }
    assert periods[..|periods|] == periods;
    return Some(out);
  }

  /** What a successful `add_ema_to_file` writes: the EMA of the close
      column under `(EMA_<p>, ticker)` for every requested period, and no
      label besides those. */
  lemma AddEmaToFileWrites(df: Frame<ColKey>, periods: seq<int>)
    requires df.Valid() && CloseNumeric(df) && !AddEmaFails(df, periods) && periods != []
    ensures var f := AddEmas(df, p => EmaKey(df.columns[0].ticker, p), Values(df.data[CloseKey(df.columns)]), periods);
      && (forall p :: p in periods ==>
            && EmaKey(df.columns[0].ticker, p) in f.data
            && f.data[EmaKey(df.columns[0].ticker, p)] == ToCells(CalculateEma(Values(df.data[CloseKey(df.columns)]), p)))
      && f.data.Keys == df.data.Keys + set p | p in periods :: EmaKey(df.columns[0].ticker, p)
  {
    var closes := Values(df.data[CloseKey(df.columns)]);
    var key := p => EmaKey(df.columns[0].ticker, p);
    AddEmasWrites(df, key, closes, periods);
    AddEmasKeys(df, key, closes, periods);
  }

  /** What a successful `add_ema_to_file` keeps: the old labels first and in
      their old order, and the cells of every column that is not the EMA
      column of a requested period. */
  lemma AddEmaToFileKeeps(df: Frame<ColKey>, periods: seq<int>, k: ColKey)
    requires df.Valid() && CloseNumeric(df) && !AddEmaFails(df, periods) && periods != []
    requires k in df.data && !(k.field.EmaCol? && k.ticker == df.columns[0].ticker && k.field.period in periods)
    ensures var f := AddEmas(df, p => EmaKey(df.columns[0].ticker, p), Values(df.data[CloseKey(df.columns)]), periods);
      && |f.columns| >= |df.columns| && f.columns[..|df.columns|] == df.columns
      && k in f.data && f.data[k] == df.data[k]
  {
    var closes := Values(df.data[CloseKey(df.columns)]);
    var key := p => EmaKey(df.columns[0].ticker, p);
    AddEmasPrefix(df, key, closes, periods);
    AddEmasKeeps(df, key, closes, periods, k);
  }
}
