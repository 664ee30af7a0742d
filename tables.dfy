/** Tables of dated rows, and what the scripts do to them when a stored price
    history is extended: take the latest stored date, concatenate stored and
    fetched rows, drop every row whose date occurs again further down
    (pandas' `index.duplicated(keep='last')`), and sort by date
    (`sort_index`). */
module Tables {
  import opened Common

  /** One row of a date-indexed table. */
  datatype Row<B> = Row(date: Day, bar: B)

  function DateSet<B>(rows: seq<Row<B>>): set<Day>
  {
    set i | 0 <= i < |rows| :: rows[i].date
  }

  predicate UniqueDates<B>(rows: seq<Row<B>>)
  {
    forall i, j :: 0 <= i < j < |rows| ==> rows[i].date != rows[j].date
  }

  predicate Ascending<B>(rows: seq<Row<B>>)
  {
    forall i, j :: 0 <= i < j < |rows| ==> rows[i].date <= rows[j].date
  }

  predicate StrictlyAscending<B>(rows: seq<Row<B>>)
  {
    forall i, j :: 0 <= i < j < |rows| ==> rows[i].date < rows[j].date
  }

  /** `xs` is `ys` with some elements left out, the rest in their order. */
  predicate Subsequence<T(==)>(xs: seq<T>, ys: seq<T>)
    decreases |ys|
  {
    || xs == []
    || (&& ys != []
        && ((xs[0] == ys[0] && Subsequence(xs[1..], ys[1..])) || Subsequence(xs, ys[1..])))
  }

  lemma InDateSet<B>(rows: seq<Row<B>>, i: nat)
    requires i < |rows|
    ensures rows[i].date in DateSet(rows)
  {
  }

  lemma NotInDateSet<B>(rows: seq<Row<B>>, d: Day)
    requires forall i :: 0 <= i < |rows| ==> rows[i].date != d
    ensures d !in DateSet(rows)
  {
  }

  lemma DateSetCons<B>(rows: seq<Row<B>>)
    requires |rows| > 0
    ensures DateSet(rows) == {rows[0].date} + DateSet(rows[1..])
  {
    forall d | d in DateSet(rows) ensures d in {rows[0].date} + DateSet(rows[1..]) {
      var i :| 0 <= i < |rows| && rows[i].date == d;
      if i > 0 {
        InDateSet(rows[1..], i - 1);
      }
    }
    forall d | d in DateSet(rows[1..]) ensures d in DateSet(rows) {
      var i :| 0 <= i < |rows[1..]| && rows[1..][i].date == d;
      InDateSet(rows, i + 1);
    }
  }

  lemma DateSetAppend<B>(a: seq<Row<B>>, b: seq<Row<B>>)
    ensures DateSet(a + b) == DateSet(a) + DateSet(b)
  {
    forall d | d in DateSet(a + b) ensures d in DateSet(a) + DateSet(b) {
      var i :| 0 <= i < |a + b| && (a + b)[i].date == d;
      if i >= |a| {
        InDateSet(b, i - |a|);
      } else {
        InDateSet(a, i);
      }
    }
    forall d | d in DateSet(b) ensures d in DateSet(a + b) {
      var i :| 0 <= i < |b| && b[i].date == d;
      InDateSet(a + b, |a| + i);
    }
    forall d | d in DateSet(a) ensures d in DateSet(a + b) {
      var i :| 0 <= i < |a| && a[i].date == d;
      InDateSet(a + b, i);
    }
  }

  lemma UniqueHeadNotInTail<B>(rows: seq<Row<B>>)
    requires |rows| > 0 && UniqueDates(rows)
    ensures UniqueDates(rows[1..]) && rows[0].date !in DateSet(rows[1..])
  {
    NotInDateSet(rows[1..], rows[0].date);
  }

  lemma ConsUnique<B>(h: Row<B>, t: seq<Row<B>>)
    requires UniqueDates(t) && h.date !in DateSet(t)
    ensures UniqueDates([h] + t)
  {
    forall j | 0 <= j < |t| ensures t[j].date != h.date {
      InDateSet(t, j);
    }
  }

  /** `index.max()`: the latest date of a non-empty table. */
  function MaxDate<B>(rows: seq<Row<B>>): (d: Day)
    requires |rows| > 0
    ensures d in DateSet(rows)
    ensures forall i :: 0 <= i < |rows| ==> rows[i].date <= d
  {
    DateSetCons(rows);
    if |rows| == 1 then rows[0].date
    else
      var rest := MaxDate(rows[1..]);
      assert forall i :: 1 <= i < |rows| ==> rows[i] == rows[1..][i - 1];
      if rows[0].date >= rest then rows[0].date else rest
  }

  /** The last row of `rows` dated `d`. */
  function LastWith<B>(rows: seq<Row<B>>, d: Day): (r: Row<B>)
    requires d in DateSet(rows)
    ensures r.date == d
    decreases |rows|
  {
    DateSetCons(rows);
    if rows[0].date == d && d !in DateSet(rows[1..]) then rows[0]
    else LastWith(rows[1..], d)
  }

  /** The row `LastWith` picks is the one at the last index carrying `d`. */
  lemma {:induction false} LastWithIsLastIndex<B>(rows: seq<Row<B>>, i: nat)
    requires i < |rows|
    requires forall j :: i < j < |rows| ==> rows[j].date != rows[i].date
    ensures LastWith(rows, rows[i].date) == rows[i]
    decreases |rows|
  {
    DateSetCons(rows);
    InDateSet(rows, i);
    if i == 0 {
      NotInDateSet(rows[1..], rows[0].date);
    } else {
      assert rows[1..][i - 1] == rows[i];
      LastWithIsLastIndex(rows[1..], i - 1);
    }
  }

  /** In a table without repeated dates every row is the last of its date. */
  lemma LastWithUnique<B>(rows: seq<Row<B>>, k: nat)
    requires UniqueDates(rows) && k < |rows|
    ensures LastWith(rows, rows[k].date) == rows[k]
  {
    LastWithIsLastIndex(rows, k);
  }

  /** After concatenation, the last row of a date comes from the second part
      whenever that part has the date, and from the first part otherwise. */
  lemma {:induction false} LastWithAppend<B>(a: seq<Row<B>>, b: seq<Row<B>>, d: Day)
    requires d in DateSet(a) + DateSet(b)
    ensures DateSet(a + b) == DateSet(a) + DateSet(b)
    ensures d in DateSet(b) ==> LastWith(a + b, d) == LastWith(b, d)
    ensures d !in DateSet(b) ==> LastWith(a + b, d) == LastWith(a, d)
    decreases |a|
  {
    DateSetAppend(a, b);
    if a != [] {
      DateSetCons(a);
      DateSetCons(a + b);
      assert (a + b)[1..] == a[1..] + b;
      DateSetAppend(a[1..], b);
      if d in DateSet(a[1..]) + DateSet(b) {
        LastWithAppend(a[1..], b, d);
      }
    } else {
      assert a + b == b;
    }
  }

  /** `rows[~rows.index.duplicated(keep='last')]`: keeps exactly the last row
      of every date, in the original order. */
  function DedupKeepLast<B(==)>(rows: seq<Row<B>>): (r: seq<Row<B>>)
    ensures UniqueDates(r)
    ensures DateSet(r) == DateSet(rows)
    ensures forall k :: 0 <= k < |r| ==> r[k] == LastWith(rows, r[k].date)
    ensures Subsequence(r, rows)
    decreases |rows|
  {
    if rows == [] then []
    else
      DateSetCons(rows);
      var rest := DedupKeepLast(rows[1..]);
      assert forall k :: 0 <= k < |rest| ==> rest[k].date in DateSet(rest);
      if rows[0].date in DateSet(rows[1..]) then
        rest
      else
        var r := [rows[0]] + rest;
        ConsUnique(rows[0], rest);
        DateSetCons(r);
        assert r[1..] == rest;
        assert forall k :: 1 <= k < |r| ==> r[k] == rest[k - 1];
        r
  }

  /** A table whose dates are already distinct passes the filter unchanged. */
  lemma {:induction false} DedupUnique<B>(rows: seq<Row<B>>)
    requires UniqueDates(rows)
    ensures DedupKeepLast(rows) == rows
    decreases |rows|
  {
    if rows != [] {
      UniqueHeadNotInTail(rows);
      DedupUnique(rows[1..]);
    }
  }

  function InsertByDate<B>(x: Row<B>, rows: seq<Row<B>>): (r: seq<Row<B>>)
    requires Ascending(rows)
    ensures Ascending(r)
    ensures multiset(r) == multiset(rows) + multiset{x}
    ensures |r| > 0 && (r[0] == x || (rows != [] && r[0] == rows[0]))
    decreases |rows|
  {
    if rows == [] || x.date <= rows[0].date then
      [x] + rows
    else
      var rest := InsertByDate(x, rows[1..]);
      assert rows == [rows[0]] + rows[1..];
      assert rows[0].date <= rest[0].date;
      ConsAscending(rows[0], rest);
      [rows[0]] + rest
  }

  lemma ConsAscending<B>(h: Row<B>, t: seq<Row<B>>)
    requires Ascending(t) && (t != [] ==> h.date <= t[0].date)
    ensures Ascending([h] + t)
  {
    var r := [h] + t;
    forall i, j | 0 <= i < j < |r| ensures r[i].date <= r[j].date {
      if i == 0 {
        assert r[j] == t[j - 1] && t[0].date <= t[j - 1].date;
      } else {
        assert r[i] == t[i - 1] && r[j] == t[j - 1];
      }
    }
  }

  lemma {:induction false} InsertDates<B>(x: Row<B>, rows: seq<Row<B>>)
    requires Ascending(rows)
    ensures DateSet(InsertByDate(x, rows)) == DateSet(rows) + {x.date}
    ensures UniqueDates(rows) && x.date !in DateSet(rows) ==> UniqueDates(InsertByDate(x, rows))
    decreases |rows|
  {
    var r := InsertByDate(x, rows);
    DateSetCons(r);
    if rows == [] || x.date <= rows[0].date {
      assert r[1..] == rows;
      if UniqueDates(rows) && x.date !in DateSet(rows) {
        ConsUnique(x, rows);
      }
    } else {
      var rest := InsertByDate(x, rows[1..]);
      assert r[1..] == rest;
      DateSetCons(rows);
      InsertDates(x, rows[1..]);
      if UniqueDates(rows) && x.date !in DateSet(rows) {
        UniqueHeadNotInTail(rows);
        ConsUnique(rows[0], rest);
      }
    }
  }

  /** `sort_index()`: the same rows, in ascending date order. */
  function SortByDate<B>(rows: seq<Row<B>>): (r: seq<Row<B>>)
    ensures Ascending(r)
    ensures multiset(r) == multiset(rows)
    decreases |rows|
  {
    if rows == [] then []
    else
      assert rows == [rows[0]] + rows[1..];
      InsertByDate(rows[0], SortByDate(rows[1..]))
  }

  lemma {:induction false} SortDates<B>(rows: seq<Row<B>>)
    ensures DateSet(SortByDate(rows)) == DateSet(rows)
    ensures UniqueDates(rows) ==> UniqueDates(SortByDate(rows))
    decreases |rows|
  {
    if rows != [] {
      DateSetCons(rows);
      SortDates(rows[1..]);
      InsertDates(rows[0], SortByDate(rows[1..]));
      if UniqueDates(rows) {
        UniqueHeadNotInTail(rows);
      }
    }
  }

  /** An ascending table is its own sorted order. */
  lemma {:induction false} SortAscending<B>(rows: seq<Row<B>>)
    requires Ascending(rows)
    ensures SortByDate(rows) == rows
    decreases |rows|
  {
    if rows != [] {
      SortAscending(rows[1..]);
    }
  }

  /** Sorting rearranges rows and creates none. */
  lemma SortedRowsAreInputRows<B>(rows: seq<Row<B>>, x: Row<B>)
    ensures x in SortByDate(rows) <==> x in rows
  {
    var r := SortByDate(rows);
    assert x in r <==> x in multiset(r);
    assert x in rows <==> x in multiset(rows);
  }

  /** The table as a map from each date to the last row of that date. */
  function TableMap<B>(rows: seq<Row<B>>): (m: map<Day, Row<B>>)
    ensures m.Keys == DateSet(rows)
  {
    map d | d in DateSet(rows) :: LastWith(rows, d)
  }

  lemma TableMapAt<B>(rows: seq<Row<B>>, k: nat)
    requires UniqueDates(rows) && k < |rows|
    ensures rows[k].date in TableMap(rows) && TableMap(rows)[rows[k].date] == rows[k]
  {
    InDateSet(rows, k);
    LastWithUnique(rows, k);
  }

  /** What `load_data.py` stores after a fetch: stored rows, then fetched
      rows, duplicates dropped keeping the last, sorted by date. */
  function MergeTables<B(==)>(stored: seq<Row<B>>, fetched: seq<Row<B>>): seq<Row<B>>
  {
    SortByDate(DedupKeepLast(stored + fetched))
  }

  /** Each row of the merged table is the last row of its date in the
      concatenation stored + fetched. */
  lemma MergedRowIsLast<B>(stored: seq<Row<B>>, fetched: seq<Row<B>>, k: nat)
    requires k < |MergeTables(stored, fetched)|
    ensures MergeTables(stored, fetched)[k].date in DateSet(stored + fetched)
    ensures MergeTables(stored, fetched)[k] == LastWith(stored + fetched, MergeTables(stored, fetched)[k].date)
  {
    var dedup := DedupKeepLast(stored + fetched);
    var merged := MergeTables(stored, fetched);
    SortedRowsAreInputRows(dedup, merged[k]);
    var k' :| 0 <= k' < |dedup| && dedup[k'] == merged[k];
    InDateSet(dedup, k');
  }

  lemma MapsEqual<K, V>(m1: map<K, V>, m2: map<K, V>)
    requires m1.Keys == m2.Keys
    requires forall k :: k in m1 ==> m1[k] == m2[k]
    ensures m1 == m2
  {
  }

  /** The merged table has distinct dates in ascending order, and its dates
      are those of either input. */
  lemma MergeTablesAscending<B>(stored: seq<Row<B>>, fetched: seq<Row<B>>)
    ensures StrictlyAscending(MergeTables(stored, fetched))
    ensures DateSet(MergeTables(stored, fetched)) == DateSet(stored) + DateSet(fetched)
  {
    DateSetAppend(stored, fetched);
    SortDates(DedupKeepLast(stored + fetched));
  }

  /** For each date the merged table holds the row the fetch delivered last
      if the fetch has that date, else the last stored row of that date: as
      a map from dates to rows it is the stored map overridden by the fetched
      map. */
  lemma MergeTablesCorrect<B>(stored: seq<Row<B>>, fetched: seq<Row<B>>)
    ensures StrictlyAscending(MergeTables(stored, fetched))
    ensures TableMap(MergeTables(stored, fetched)) == TableMap(stored) + TableMap(fetched)
  {
    var merged := MergeTables(stored, fetched);
    var m := TableMap(merged);
    var u := TableMap(stored) + TableMap(fetched);
    MergeTablesAscending(stored, fetched);
    assert m.Keys == u.Keys;
    forall d | d in m ensures m[d] == u[d] {
      var k :| 0 <= k < |merged| && merged[k].date == d;
      TableMapAt(merged, k);
      MergedRowIsLast(stored, fetched, k);
      LastWithAppend(stored, fetched, d);
    }
    MapsEqual(m, u);
  }

  /** Without the sort, deduplicating stored + fetched already gives each
      date once, the fetched row winning, in the order of the concatenation:
      as a map it is the stored map overridden by the fetched map. */
  lemma DedupMergeCorrect<B>(stored: seq<Row<B>>, fetched: seq<Row<B>>)
    ensures UniqueDates(DedupKeepLast(stored + fetched))
    ensures Subsequence(DedupKeepLast(stored + fetched), stored + fetched)
    ensures TableMap(DedupKeepLast(stored + fetched)) == TableMap(stored) + TableMap(fetched)
  {
    var dedup := DedupKeepLast(stored + fetched);
    var m := TableMap(dedup);
    var u := TableMap(stored) + TableMap(fetched);
    DateSetAppend(stored, fetched);
    assert m.Keys == u.Keys;
    forall d | d in m ensures m[d] == u[d] {
      var k :| 0 <= k < |dedup| && dedup[k].date == d;
      TableMapAt(dedup, k);
      LastWithAppend(stored, fetched, d);
    }
    MapsEqual(m, u);
  }

  /** Dropping the first row of a strictly ascending table drops its date
      from the map and nothing else. */
  lemma TableMapTail<B>(a: seq<Row<B>>)
    requires |a| > 0 && StrictlyAscending(a)
    ensures TableMap(a[1..]) == TableMap(a) - {a[0].date}
  {
    DateSetCons(a);
    UniqueHeadNotInTail(a);
    forall d | d in DateSet(a[1..]) ensures TableMap(a[1..])[d] == TableMap(a)[d] {
      var i :| 0 <= i < |a[1..]| && a[1..][i].date == d;
      TableMapAt(a[1..], i);
      TableMapAt(a, i + 1);
    }
  }

  /** The first row of a strictly ascending table has its least date. */
  lemma FirstDateIsLeast<B>(a: seq<Row<B>>, d: Day)
    requires |a| > 0 && Ascending(a) && d in DateSet(a)
    ensures a[0].date <= d
  {
  }

  /** Two strictly ascending tables with the same row for every date are
      the same table. */
  lemma {:induction false} AscendingTableDeterminedByMap<B>(a: seq<Row<B>>, b: seq<Row<B>>)
    requires StrictlyAscending(a) && StrictlyAscending(b)
    requires TableMap(a) == TableMap(b)
    ensures a == b
    decreases |a|
  {
    if a == [] {
    } else {
      InDateSet(a, 0);
      assert b != [];
      InDateSet(b, 0);
      FirstDateIsLeast(a, b[0].date);
      FirstDateIsLeast(b, a[0].date);
      TableMapAt(a, 0);
      TableMapAt(b, 0);
      TableMapTail(a);
      TableMapTail(b);
      AscendingTableDeterminedByMap(a[1..], b[1..]);
      assert a == [a[0]] + a[1..] && b == [b[0]] + b[1..];
    }
  }

  /** Merging the same fetch a second time changes nothing. */
  lemma MergeIdempotent<B>(stored: seq<Row<B>>, fetched: seq<Row<B>>)
    ensures MergeTables(MergeTables(stored, fetched), fetched) == MergeTables(stored, fetched)
  {
    var once := MergeTables(stored, fetched);
    var twice := MergeTables(once, fetched);
    MergeTablesCorrect(stored, fetched);
    MergeTablesCorrect(once, fetched);
    assert TableMap(once) + TableMap(fetched) == TableMap(once);
    AscendingTableDeterminedByMap(twice, once);
  }

  /** When every fetched date is later than every stored date and both parts
      are strictly ascending, the merge simply appends the fetched rows. */
  lemma MergeAppendsNewer<B>(stored: seq<Row<B>>, fetched: seq<Row<B>>)
    requires StrictlyAscending(stored) && StrictlyAscending(fetched)
    requires forall i, j :: 0 <= i < |stored| && 0 <= j < |fetched| ==> stored[i].date < fetched[j].date
    ensures MergeTables(stored, fetched) == stored + fetched
  {
    var all := stored + fetched;
    assert StrictlyAscending(all) by {
      forall i, j | 0 <= i < j < |all| ensures all[i].date < all[j].date {
        if j < |stored| {
        } else if i >= |stored| {
          assert all[i] == fetched[i - |stored|] && all[j] == fetched[j - |stored|];
        } else {
          assert all[j] == fetched[j - |stored|];
        }
      }
    }
    DedupUnique(all);
    SortAscending(all);
  }

  /** `df[[close]]` on downloaded bars: each row keeps its date and close. */
  function CloseRows(rows: seq<Row<Bar>>): (r: seq<Row<real>>)
    ensures |r| == |rows|
    ensures forall k :: 0 <= k < |rows| ==> r[k] == Row(rows[k].date, rows[k].bar.close)
  {
    seq(|rows|, k requires 0 <= k < |rows| => Row(rows[k].date, rows[k].bar.close))
  }

  /** `df.loc[df.index >= start]`: the rows dated on or after `start`, in
      their order. */
  function RowsFrom<B(==)>(rows: seq<Row<B>>, start: Day): (r: seq<Row<B>>)
    ensures forall k :: 0 <= k < |r| ==> r[k] in rows && r[k].date >= start
    ensures Subsequence(r, rows)
  {
    if rows == [] then []
    else if rows[0].date >= start then [rows[0]] + RowsFrom(rows[1..], start)
    else RowsFrom(rows[1..], start)
  }

  /** Every row dated on or after `start` is selected. */
  lemma {:induction false} RowsFromKeeps<B>(rows: seq<Row<B>>, start: Day)
    ensures forall k :: 0 <= k < |rows| && rows[k].date >= start ==> rows[k] in RowsFrom(rows, start)
    decreases |rows|
  {
    if rows != [] {
      RowsFromKeeps(rows[1..], start);
      assert forall k :: 1 <= k < |rows| ==> rows[k] == rows[1..][k - 1];
    }
  }

  /** The selection is a row-by-row filter: it splits over a concatenation,
      so every copy of a qualifying row is kept, in place. */
  lemma {:induction false} RowsFromAppend<B>(a: seq<Row<B>>, b: seq<Row<B>>, start: Day)
    ensures RowsFrom(a + b, start) == RowsFrom(a, start) + RowsFrom(b, start)
    decreases |a|
  {
    if a == [] {
      assert a + b == b;
    } else {
      var x, rest := a[0], a[1..];
      var head := if x.date >= start then [x] else [];
      assert RowsFrom(a, start) == head + RowsFrom(rest, start);
      assert RowsFrom(a + b, start) == head + RowsFrom(rest + b, start) by {
        assert (a + b)[0] == x && (a + b)[1..] == rest + b;
      }
      assert RowsFrom(rest + b, start) == RowsFrom(rest, start) + RowsFrom(b, start) by {
        RowsFromAppend(rest, b, start);
      }
      ConcatAssoc(head, RowsFrom(rest, start), RowsFrom(b, start));
    }
  }

  /** A single row is kept exactly when it is dated on or after `start`. */
  lemma RowsFromOne<B>(x: Row<B>, start: Day)
    ensures RowsFrom([x], start) == if x.date >= start then [x] else []
  {
    assert [x][1..] == [];
  }

  /** The index of a table. */
  function Dates<B>(rows: seq<Row<B>>): (ds: seq<Day>)
    ensures |ds| == |rows|
    ensures forall k :: 0 <= k < |rows| ==> ds[k] == rows[k].date
  {
    seq(|rows|, k requires 0 <= k < |rows| => rows[k].date)
  }

  /** The close column of a close-only table. */
  function ClosesOf(rows: seq<Row<real>>): (xs: seq<real>)
    ensures |xs| == |rows|
    ensures forall k :: 0 <= k < |rows| ==> xs[k] == rows[k].bar
  {
    seq(|rows|, k requires 0 <= k < |rows| => rows[k].bar)
  }
}
