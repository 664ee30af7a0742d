/** A pandas DataFrame reduced to what the indicator scripts touch: a date
    index, the ordered list of column labels, and one column of cells per
    label. */
module Frames {
  import opened Common

  /** Column labels the scripts read and write. `EmaCol(p)` is the header
      "EMA_<p>", `RsiCol(p)` is "RSI_<p>", and the three MACD labels are
      "MACD", "MACD_Signal" and "MACD_Hist"; any other header, such as
      "Close" or "Price", is `Named`. */
  datatype ColName =
    | Named(name: string)
    | EmaCol(period: int)
    | RsiCol(period: int)
    | MacdCol
    | MacdSignalCol
    | MacdHistCol

  /** A two-level column label `(field, ticker)`, as a file read with
      `header=[0, 1]` carries it. */
  datatype ColKey = ColKey(field: ColName, ticker: string)

  datatype Frame<K(!new)> = Frame(index: seq<Day>, columns: seq<K>, data: map<K, seq<Cell>>)
  {
    /** Labels are distinct, every label has a column, and every column is
        as long as the index. */
    ghost predicate Valid()
    {
      && (forall i, j :: 0 <= i < j < |columns| ==> columns[i] != columns[j])
      && (forall k :: k in data <==> k in columns)
      && (forall k :: k in data ==> |data[k]| == |index|)
    }

    /** `df[k] = v`: the column labelled `k` becomes `v`; an existing label
        keeps its position, a new one is appended after the others, and no
        other column changes. */
    function Set(k: K, v: seq<Cell>): (f: Frame<K>)
      requires Valid() && |v| == |index|
      ensures f.Valid()
      ensures f.index == index
      ensures f.data == data[k := v]
      ensures k in data ==> f.columns == columns
      ensures k !in data ==> f.columns == columns + [k]
      ensures |f.columns| >= |columns| && f.columns[..|columns|] == columns
    {
      Frame(index, if k in data then columns else columns + [k], data[k := v])
    }
  }

  /** Keeping the labels as a prefix is transitive. */
  lemma PrefixTrans<K>(a: seq<K>, b: seq<K>, c: seq<K>)
    requires |a| <= |b| && b[..|a|] == a
    requires |b| <= |c| && c[..|b|] == b
    ensures |a| <= |c| && c[..|a|] == a
  {
    assert c[..|a|] == c[..|b|][..|a|];
  }
}
