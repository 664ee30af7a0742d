/** Shared vocabulary of the scripts: calendar days, optional values, the
    cells of a pandas column (a number or the missing value NaN), one
    downloaded price bar, and a few facts about sums and extremes of
    sequences of reals. */
module Common {

  /** A calendar date as a day number; day 0 is 1970-01-01. */
  type Day = int

  datatype Option<T> = None | Some(value: T)

  /** One cell of a numeric pandas column: a number or NaN. */
  datatype Cell = Num(value: real) | NaN

  /** One daily bar as the market-data source delivers it. */
  datatype Bar = Bar(open: real, high: real, low: real, close: real, volume: real)

  /** The outcome of one download: the bars it returned (possibly none),
      or an exception raised by the download itself. */
  datatype Fetch<B> = Bars(rows: seq<B>) | Raised

  /** A numeric series stored as a column. */
  function ToCells(xs: seq<real>): (cs: seq<Cell>)
    ensures |cs| == |xs|
    ensures forall i :: 0 <= i < |xs| ==> cs[i] == Num(xs[i])
  {
    seq(|xs|, i requires 0 <= i < |xs| => Num(xs[i]))
  }

  predicate AllNum(cs: seq<Cell>)
  {
    forall i :: 0 <= i < |cs| ==> cs[i].Num?
  }

  /** The numbers of a column that holds no NaN. */
  function Values(cs: seq<Cell>): (xs: seq<real>)
    requires AllNum(cs)
    ensures |xs| == |cs|
    ensures forall i :: 0 <= i < |cs| ==> cs[i] == Num(xs[i])
  {
    seq(|cs|, i requires 0 <= i < |cs| => cs[i].value)
  }

  /** Element-wise difference of two series of equal length. */
  function Minus(xs: seq<real>, ys: seq<real>): (zs: seq<real>)
    requires |xs| == |ys|
    ensures |zs| == |xs|
    ensures forall i :: 0 <= i < |xs| ==> zs[i] == xs[i] - ys[i]
  {
    seq(|xs|, i requires 0 <= i < |xs| => xs[i] - ys[i])
  }

  function Sum(xs: seq<real>): real
  {
    if xs == [] then 0.0 else Sum(xs[..|xs| - 1]) + xs[|xs| - 1]
  }

  lemma {:induction false} SumNonNegative(xs: seq<real>)
    requires forall i :: 0 <= i < |xs| ==> xs[i] >= 0.0
    ensures Sum(xs) >= 0.0
  {
    if xs != [] {
      SumNonNegative(xs[..|xs| - 1]);
    }
  }

  lemma {:induction false} SumZero(xs: seq<real>)
    requires forall i :: 0 <= i < |xs| ==> xs[i] == 0.0
    ensures Sum(xs) == 0.0
  {
    if xs != [] {
      SumZero(xs[..|xs| - 1]);
    }
  }

  /** A sum of non-negative terms is positive as soon as one term is. */
  lemma {:induction false} SumPositive(xs: seq<real>, k: nat)
    requires forall i :: 0 <= i < |xs| ==> xs[i] >= 0.0
    requires k < |xs| && xs[k] > 0.0
    ensures Sum(xs) > 0.0
  {
    if k == |xs| - 1 {
      SumNonNegative(xs[..|xs| - 1]);
    } else {
      SumPositive(xs[..|xs| - 1], k);
    }
  }

  function Min(xs: seq<real>): (m: real)
    requires |xs| > 0
    ensures forall i :: 0 <= i < |xs| ==> m <= xs[i]
    ensures exists i :: 0 <= i < |xs| && m == xs[i]
  {
    if |xs| == 1 then xs[0]
    else
      var rest := Min(xs[1..]);
      assert forall i :: 1 <= i < |xs| ==> xs[i] == xs[1..][i - 1];
      if xs[0] <= rest then xs[0] else rest
  }

  function Max(xs: seq<real>): (m: real)
    requires |xs| > 0
    ensures forall i :: 0 <= i < |xs| ==> xs[i] <= m
    ensures exists i :: 0 <= i < |xs| && m == xs[i]
  {
    if |xs| == 1 then xs[0]
    else
      var rest := Max(xs[1..]);
      assert forall i :: 1 <= i < |xs| ==> xs[i] == xs[1..][i - 1];
      if xs[0] >= rest then xs[0] else rest
  }

  /** Reading back a stored numeric series gives the series. */
  lemma ValuesToCells(xs: seq<real>)
    ensures AllNum(ToCells(xs)) && Values(ToCells(xs)) == xs
  {
  }

  /** Concatenation is associative; stated on its own so that proofs about
      filters can regroup without unfolding their contracts. */
  lemma ConcatAssoc<T>(x: seq<T>, y: seq<T>, z: seq<T>)
    ensures x + (y + z) == (x + y) + z
  {
  }
}
