/** `rising_falling.py`: the counting part of `analyze_day_of_week_drops`.
    The CSV file is given as its header and its data lines split into
    fields; parsing a date or a number is a parameter. Plotting and
    printing are not modelled. */
module RisingFalling {
  import opened Common
  import opened Calendar

  /** A CSV file: the header line and the data lines, each split into
      fields; field 0 is the index column. */
  datatype CsvFile = CsvFile(header: seq<string>, lines: seq<seq<string>>)

  /** One cleaned row: its date and its `Close` value. */
  datatype DatedClose = DatedClose(date: Day, close: Cell)

  const DayOrder: seq<string> := ["Monday", "Tuesday", "Wednesday", "Thursday", "Friday", "Saturday", "Sunday"]

  /** `str.upper` on ASCII letters. */
  function Upper(s: string): (u: string)
    ensures |u| == |s|
    ensures forall i :: 0 <= i < |s| ==> u[i] == if 'a' <= s[i] <= 'z' then (s[i] as int - 32) as char else s[i]
  {
    seq(|s|, i requires 0 <= i < |s| => if 'a' <= s[i] <= 'z' then (s[i] as int - 32) as char else s[i])
  }

  /** `needle` occurs in `hay` starting at position `k`. */
  predicate OccursAt(hay: string, needle: string, k: int)
  {
    0 <= k && k + |needle| <= |hay| && hay[k..k + |needle|] == needle
  }

  /** `needle in hay` on strings. */
  predicate Contains(hay: string, needle: string)
  {
    exists k :: 0 <= k <= |hay| && OccursAt(hay, needle, k)
  }

  /** The field texts `read_csv` reads as a missing value by default. */
  const DefaultNaValues: set<string> := {"", "#N/A", "#N/A N/A", "#NA", "-1.#IND", "-1.#QNAN", "-NaN", "-nan",
    "1.#IND", "1.#QNAN", "<NA>", "N/A", "NA", "NULL", "NaN", "None", "n/a", "nan", "null"}

  /** `df_check.iloc[0].astype(str).values`: the fields of the first data
      line, where a missing value, or a field the line does not have, is
      printed as "nan". */
  function FirstRowValues(f: CsvFile): (v: seq<string>)
    requires f.lines != []
    ensures |v| == |f.header|
    ensures forall k :: 0 <= k < |v| && (k >= |f.lines[0]| || f.lines[0][k] in DefaultNaValues) ==> v[k] == "nan"
    ensures forall k :: 0 <= k < |v| && k < |f.lines[0]| && f.lines[0][k] !in DefaultNaValues ==> v[k] == f.lines[0][k]
  {
    seq(|f.header|, k requires 0 <= k < |f.header| =>
      if k < |f.lines[0]| && f.lines[0][k] !in DefaultNaValues then f.lines[0][k] else "nan")
  }

  /** Some field of the first data line contains the ticker, ignoring
      case. */
  predicate MentionsTicker(f: CsvFile, ticker: string)
    requires f.lines != []
  {
    var v := FirstRowValues(f);
    exists k :: 0 <= k < |v| && Contains(Upper(v[k]), Upper(ticker))
  }

  /** The data lines read by the second `read_csv`: the first one is
      skipped exactly when it mentions the ticker. */
  function Body(f: CsvFile, ticker: string): (body: seq<seq<string>>)
    requires f.lines != []
    ensures MentionsTicker(f, ticker) ==> body == f.lines[1..]
    ensures !MentionsTicker(f, ticker) ==> body == f.lines
  {
    if MentionsTicker(f, ticker) then f.lines[1..] else f.lines
  }

  /** An empty field prints as "nan", which contains the ticker "A": a first
      data line `2024-01-02,100,` under `Date,Close,Volume` is skipped. */
  lemma EmptyFieldMentionsTicker()
    ensures var f := CsvFile(["Date", "Close", "Volume"], [["2024-01-02", "100", ""]]);
      MentionsTicker(f, "A") && Body(f, "A") == []
  {
    var f := CsvFile(["Date", "Close", "Volume"], [["2024-01-02", "100", ""]]);
    var v := FirstRowValues(f);
    assert v[2] == "nan";
    assert Upper("nan") == "NAN";
    assert Upper("A") == "A";
    assert OccursAt(Upper(v[2]), Upper("A"), 1);
  }

  /** The column `df['Close']` reads: the first one after the index whose
      header is `Close`. `read_csv` renames a repeated header `Close` to
      `Close.1`, so when the index column is itself named `Close` no data
      column is named `Close` and the lookup raises KeyError. */
  function CloseColumn(header: seq<string>): (c: Option<nat>)
    ensures c.Some? <==> (|header| > 0 && header[0] != "Close" && exists k :: 1 <= k < |header| && header[k] == "Close")
    ensures c.Some? ==> (1 <= c.value < |header| && header[c.value] == "Close"
      && forall k :: 1 <= k < c.value ==> header[k] != "Close")
  {
    if |header| > 0 && header[0] == "Close" then None else FindClose(header, 1)
  }

  function FindClose(header: seq<string>, from: nat): (c: Option<nat>)
    requires from >= 1
    ensures c.Some? <==> exists k :: from <= k < |header| && header[k] == "Close"
    ensures c.Some? ==> (from <= c.value < |header| && header[c.value] == "Close"
      && forall k :: from <= k < c.value ==> header[k] != "Close")
    decreases |header| - from
  {
    if from >= |header| then None
    else if header[from] == "Close" then Some(from)
    else FindClose(header, from + 1)
  }

  /** A field that the line does not have is missing (NaN). */
  function Field(line: seq<string>, k: nat): Option<string>
  {
    if k < |line| then Some(line[k]) else None
  }

  /** A line survives the cleanup when its index is present, is not the
      literal "Date" and parses as a date. */
  predicate Kept(line: seq<string>, parseDate: string -> Option<Day>)
  {
    Field(line, 0).Some? && Field(line, 0).value != "Date" && parseDate(Field(line, 0).value).Some?
  }

  /** The cleaned row of a kept line; an unparsable or missing close is
      NaN (`to_numeric(errors='coerce')`). */
  function RowOf(line: seq<string>, col: nat, parseDate: string -> Option<Day>, parseNumber: string -> Option<real>): DatedClose
    requires Kept(line, parseDate)
  {
    var close := Field(line, col);
    DatedClose(parseDate(line[0]).value,
               if close.Some? && parseNumber(close.value).Some? then Num(parseNumber(close.value).value) else NaN)
  }

  /** Dropping the "Date" rows and the rows whose date does not parse. */
  function Clean(lines: seq<seq<string>>, col: nat, parseDate: string -> Option<Day>, parseNumber: string -> Option<real>): (rows: seq<DatedClose>)
    ensures |rows| <= |lines|
    ensures rows == [] <==> forall k :: 0 <= k < |lines| ==> !Kept(lines[k], parseDate)
    decreases |lines|
  {
    if lines == [] then []
    else
      var rest := Clean(lines[1..], col, parseDate, parseNumber);
      assert forall k :: 1 <= k < |lines| ==> lines[1..][k - 1] == lines[k];
      if Kept(lines[0], parseDate) then [RowOf(lines[0], col, parseDate, parseNumber)] + rest else rest
  }

  /** Every cleaned row is the row of a kept line, and every kept line
      gives a cleaned row. */
  lemma {:induction false} CleanRows(lines: seq<seq<string>>, col: nat, parseDate: string -> Option<Day>, parseNumber: string -> Option<real>)
    ensures var rows := Clean(lines, col, parseDate, parseNumber);
      && (forall i :: 0 <= i < |rows| ==>
           exists k :: 0 <= k < |lines| && Kept(lines[k], parseDate) && rows[i] == RowOf(lines[k], col, parseDate, parseNumber))
      && (forall k :: 0 <= k < |lines| && Kept(lines[k], parseDate) ==> RowOf(lines[k], col, parseDate, parseNumber) in rows)
    decreases |lines|
  {
    if lines != [] {
      CleanRows(lines[1..], col, parseDate, parseNumber);
      assert forall k :: 1 <= k < |lines| ==> lines[1..][k - 1] == lines[k];
    }
  }

  /** The cleanup is a line-by-line filter: it splits over a concatenation
      and turns a single line into its row when the line is kept and into
      nothing otherwise, so the rows keep the lines' order and number. */
  lemma {:induction false} CleanAppend(a: seq<seq<string>>, b: seq<seq<string>>, col: nat, parseDate: string -> Option<Day>, parseNumber: string -> Option<real>)
    ensures Clean(a + b, col, parseDate, parseNumber) == Clean(a, col, parseDate, parseNumber) + Clean(b, col, parseDate, parseNumber)
    decreases |a|
  {
    if a == [] {
      assert a + b == b;
    } else {
      assert (a + b)[0] == a[0];
      assert (a + b)[1..] == a[1..] + b;
      CleanAppend(a[1..], b, col, parseDate, parseNumber);
    }
  }

  /** A single line becomes its row when it is kept and nothing otherwise. */
  lemma CleanLine(line: seq<string>, col: nat, parseDate: string -> Option<Day>, parseNumber: string -> Option<real>)
    ensures Clean([line], col, parseDate, parseNumber) ==
      if Kept(line, parseDate) then [RowOf(line, col, parseDate, parseNumber)] else []
  {
    assert [line][1..] == [];
  }

  /** The value of `pct_change() * 100` at one row. */
  datatype Return = Finite(pct: real) | PlusInf | MinusInf | Undefined

  /** `(close / prev - 1) * 100`; a missing value gives NaN, a zero
      previous close gives an infinity of the close's sign, or NaN when
      both are zero. */
  function DailyReturn(prev: Cell, close: Cell): Return
  {
    if prev.NaN? || close.NaN? then Undefined
    else if prev.value == 0.0 then
      (if close.value > 0.0 then PlusInf else if close.value < 0.0 then MinusInf else Undefined)
    else Finite((close.value / prev.value - 1.0) * 100.0)
  }

  /** The return of row `i`; the first row has none. */
  function ReturnAt(rows: seq<DatedClose>, i: nat): Return
    requires i < |rows|
  {
    if i == 0 then Undefined else DailyReturn(rows[i - 1].close, rows[i].close)
  }

  /** `Daily_Return < 0` and `Daily_Return > 0`; NaN compares false. */
  predicate IsFalling(r: Return) { (r.Finite? && r.pct < 0.0) || r.MinusInf? }
  predicate IsRising(r: Return) { (r.Finite? && r.pct > 0.0) || r.PlusInf? }

  /** For a positive previous close, a row falls exactly when its close is
      below the previous one and rises exactly when it is above. */
  lemma DirectionFollowsClose(prev: real, close: real)
    requires prev > 0.0
    ensures IsFalling(DailyReturn(Num(prev), Num(close))) <==> close < prev
    ensures IsRising(DailyReturn(Num(prev), Num(close))) <==> close > prev
  {
    var q := close / prev;
    assert q * prev == close;
    if close < prev {
      assert q < 1.0;
    } else if close > prev {
      assert q > 1.0;
    } else {
      assert q == 1.0;
    }
  }

  /** The first row is neither falling nor rising, and no row is both. */
  lemma FirstRowUncounted(rows: seq<DatedClose>, i: nat)
    requires i < |rows|
    ensures i == 0 ==> !IsFalling(ReturnAt(rows, i)) && !IsRising(ReturnAt(rows, i))
    ensures !(IsFalling(ReturnAt(rows, i)) && IsRising(ReturnAt(rows, i)))
  {
  }

  datatype Kind = All | Falls | Rises

  predicate Matches(kind: Kind, r: Return)
  {
    match kind
    case All => true
    case Falls => IsFalling(r)
    case Rises => IsRising(r)
  }

  /** The number of rows among the first `n` that fall on weekday `d` and
      match `kind`: `groupby('Day_Name').size()` for one day. */
  function Count(rows: seq<DatedClose>, d: int, kind: Kind, n: nat): (c: nat)
    requires n <= |rows|
    ensures c <= n
  {
    if n == 0 then 0
    else Count(rows, d, kind, n - 1)
         + (if Weekday(rows[n - 1].date) == d && Matches(kind, ReturnAt(rows, n - 1)) then 1 else 0)
  }

  /** Per weekday, falling and rising days together are at most all days. */
  lemma {:induction false} CountsBounded(rows: seq<DatedClose>, d: int, n: nat)
    requires n <= |rows|
    ensures Count(rows, d, Falls, n) + Count(rows, d, Rises, n) <= Count(rows, d, All, n)
  {
    if n > 0 {
      CountsBounded(rows, d, n - 1);
    }
  }

  /** A weekday has days of a kind exactly when some row of that kind is
      dated on it. */
  lemma {:induction false} CountPositive(rows: seq<DatedClose>, d: int, kind: Kind, n: nat)
    requires n <= |rows|
    ensures Count(rows, d, kind, n) > 0 <==> exists i :: 0 <= i < n && Weekday(rows[i].date) == d && Matches(kind, ReturnAt(rows, i))
  {
    if n > 0 {
      CountPositive(rows, d, kind, n - 1);
    }
  }

  /** The totals of the weekdays before `e`. */
  function TotalsBelow(rows: seq<DatedClose>, n: nat, e: nat): nat
    requires n <= |rows|
  {
    if e == 0 then 0 else TotalsBelow(rows, n, e - 1) + Count(rows, e - 1, All, n)
  }

  lemma {:induction false} TotalsBelowNone(rows: seq<DatedClose>, e: nat)
    ensures TotalsBelow(rows, 0, e) == 0
  {
    if e > 0 {
      TotalsBelowNone(rows, e - 1);
    }
  }

  lemma {:induction false} TotalsBelowStep(rows: seq<DatedClose>, n: nat, e: nat)
    requires n < |rows|
    ensures TotalsBelow(rows, n + 1, e) == TotalsBelow(rows, n, e) + (if Weekday(rows[n].date) < e then 1 else 0)
  {
    if e > 0 {
      TotalsBelowStep(rows, n, e - 1);
    }
  }

  /** Every row is counted under exactly one weekday: the seven totals add
      up to the number of rows. */
  lemma {:induction false} TotalsPartitionRows(rows: seq<DatedClose>, n: nat)
    requires n <= |rows|
    ensures TotalsBelow(rows, n, 7) == n
  {
    if n == 0 {
      TotalsBelowNone(rows, 7);
    } else {
      TotalsPartitionRows(rows, n - 1);
      TotalsBelowStep(rows, n - 1, 7);
      assert Weekday(rows[n - 1].date) < 7;
    }
  }

  /** `count / total * 100`; a weekday without any such day has no entry in
      the count series, so the division gives NaN there. */
  function Percent(count: nat, total: nat): (p: Cell)
    requires count <= total
    ensures p.Num? <==> count > 0
    ensures p.Num? ==> 0.0 < p.value <= 100.0 && p.value * total as real == count as real * 100.0
  {
    if count == 0 then NaN
    else
      var v := count as real * 100.0 / total as real;
      assert v * total as real == count as real * 100.0;
      Num(v)
  }

  /** One line of the report: the weekday (0 is Monday), its name and its
      counts and percentages. */
  datatype DayStats = DayStats(day: nat, name: string, total: nat, falling: nat, rising: nat, fallPct: Cell, risePct: Cell)

  /** The statistics of weekday `d`. */
  function StatsOf(rows: seq<DatedClose>, d: nat): (s: DayStats)
    requires d < 7
    ensures s.day == d && s.name == DayOrder[d] && s.falling + s.rising <= s.total
    ensures s.total == Count(rows, d, All, |rows|)
    ensures s.fallPct == Percent(s.falling, s.total) && s.risePct == Percent(s.rising, s.total)
  {
    var n := |rows|;
    CountsBounded(rows, d, n);
    var total := Count(rows, d, All, n);
    var falling := Count(rows, d, Falls, n);
    var rising := Count(rows, d, Rises, n);
    DayStats(d, DayOrder[d], total, falling, rising, Percent(falling, total), Percent(rising, total))
  }

  /** The weekdays from `d` on that have days of a kind, in Monday to
      Sunday order (`reindex` over `day_order`, keeping the days present in
      the grouped counts). */
  function PresentDays(rows: seq<DatedClose>, kind: Kind, d: nat): (ds: seq<nat>)
    requires d <= 7
    ensures forall i :: 0 <= i < |ds| ==> d <= ds[i] < 7
    ensures forall i, j :: 0 <= i < j < |ds| ==> ds[i] < ds[j]
    ensures forall e :: d <= e < 7 ==> (e in ds <==> Count(rows, e, kind, |rows|) > 0)
    decreases 7 - d
  {
    if d == 7 then []
    else if Count(rows, d, kind, |rows|) > 0 then [d] + PresentDays(rows, kind, d + 1)
    else PresentDays(rows, kind, d + 1)
  }

  /** The report: one line per weekday present, in order. */
  function DayReport(rows: seq<DatedClose>): (r: seq<DayStats>)
    ensures |r| == |PresentDays(rows, All, 0)|
    ensures forall i :: 0 <= i < |r| ==> r[i] == StatsOf(rows, PresentDays(rows, All, 0)[i])
  {
    var ds := PresentDays(rows, All, 0);
    seq(|ds|, i requires 0 <= i < |ds| => StatsOf(rows, ds[i]))
  }

  /** Chart 3 draws the rising bars at the falling bars' positions: one
      position per weekday with a fall, one height per weekday with a rise.
      `ax3.bar` broadcasts the two, which works only when the lengths agree
      or one of them is 1. */
  predicate BarsBroadcast(rows: seq<DatedClose>)
  {
    var falls, rises := |PresentDays(rows, Falls, 0)|, |PresentDays(rows, Rises, 0)|;
    falls == rises || falls == 1 || rises == 1
  }

  /** The outcome of `analyze_day_of_week_drops`: the per-weekday
      statistics when it returns True, None when an exception made it
      return False. */
  function AnalyzeDayOfWeekDrops(f: CsvFile, ticker: string, parseDate: string -> Option<Day>, parseNumber: string -> Option<real>): (r: Option<seq<DayStats>>)
    ensures r.Some? <==> (f.lines != [] && CloseColumn(f.header).Some?
      && var rows := Clean(Body(f, ticker), CloseColumn(f.header).value, parseDate, parseNumber);
         rows != [] && BarsBroadcast(rows))
    ensures r.Some? ==> r.value == DayReport(Clean(Body(f, ticker), CloseColumn(f.header).value, parseDate, parseNumber))
  {
    if f.lines == [] then None  // `df_check.iloc[0]` has no row
    else
      var col := CloseColumn(f.header);
      if col.None? then None  // `df['Close']` has no such column
      else
        var rows := Clean(Body(f, ticker), col.value, parseDate, parseNumber);
        if !BarsBroadcast(rows) then None  // the rising bars of chart 3
        else if rows == [] then None  // `idxmax` of an empty series
        else Some(DayReport(rows))
  }

  /** With no falling day and rises on two different weekdays, chart 3
      cannot be drawn, so the analysis fails. */
  lemma RisesWithoutFallsBreakChart(rows: seq<DatedClose>, i: nat, j: nat)
    requires forall k :: 0 <= k < |rows| ==> !IsFalling(ReturnAt(rows, k))
    requires i < |rows| && j < |rows| && IsRising(ReturnAt(rows, i)) && IsRising(ReturnAt(rows, j))
    requires Weekday(rows[i].date) != Weekday(rows[j].date)
    ensures !BarsBroadcast(rows)
  {
    var falls := PresentDays(rows, Falls, 0);
    assert falls == [] by {
      if falls != [] {
        CountPositive(rows, falls[0], Falls, |rows|);
        assert false;
      }
    }
    var rises := PresentDays(rows, Rises, 0);
    var di, dj := Weekday(rows[i].date), Weekday(rows[j].date);
    assert di in rises by { CountPositive(rows, di, Rises, |rows|); }
    assert dj in rises by { CountPositive(rows, dj, Rises, |rows|); }
    TwoMembers(rises, di, dj);
  }

  lemma TwoMembers(s: seq<nat>, x: nat, y: nat)
    requires x in s && y in s && x != y
    ensures |s| >= 2
  {
  }

  /** Some row falls on weekday `e`. */
  predicate HasWeekday(rows: seq<DatedClose>, e: int)
  {
    exists k :: 0 <= k < |rows| && Weekday(rows[k].date) == e
  }

  /** The report lists the weekdays on which some row falls, each once, in
      Monday to Sunday order. */
  lemma ReportedDays(rows: seq<DatedClose>)
    ensures forall e :: 0 <= e < 7 ==> (HasWeekday(rows, e) <==> e in PresentDays(rows, All, 0))
    ensures forall i, j :: 0 <= i < j < |DayReport(rows)| ==> DayReport(rows)[i].day < DayReport(rows)[j].day
    ensures forall i :: 0 <= i < |DayReport(rows)| ==> DayReport(rows)[i].name == DayOrder[DayReport(rows)[i].day]
  {
    forall e | 0 <= e < 7 ensures HasWeekday(rows, e) <==> e in PresentDays(rows, All, 0) {
      CountPositive(rows, e, All, |rows|);
    }
  }

  /** A successful analysis reports at least one weekday, each with
      falling plus rising days at most its total and both percentages in
      [0, 100]. */
  lemma AnalysisBounds(f: CsvFile, ticker: string, parseDate: string -> Option<Day>, parseNumber: string -> Option<real>)
    requires AnalyzeDayOfWeekDrops(f, ticker, parseDate, parseNumber).Some?
    ensures var stats := AnalyzeDayOfWeekDrops(f, ticker, parseDate, parseNumber).value;
      && stats != []
      && forall i :: 0 <= i < |stats| ==>
        && 0 < stats[i].total
        && stats[i].falling + stats[i].rising <= stats[i].total
        && (stats[i].fallPct.Num? ==> 0.0 < stats[i].fallPct.value <= 100.0)
        && (stats[i].risePct.Num? ==> 0.0 < stats[i].risePct.value <= 100.0)
  {
    ReportBounds(Clean(Body(f, ticker), CloseColumn(f.header).value, parseDate, parseNumber));
  }

  lemma ReportBounds(rows: seq<DatedClose>)
    requires rows != []
    ensures var stats := DayReport(rows);
      && stats != []
      && forall i :: 0 <= i < |stats| ==>
        && 0 < stats[i].total
        && stats[i].falling + stats[i].rising <= stats[i].total
        && (stats[i].fallPct.Num? ==> 0.0 < stats[i].fallPct.value <= 100.0)
        && (stats[i].risePct.Num? ==> 0.0 < stats[i].risePct.value <= 100.0)
  {
    var e := Weekday(rows[0].date);
    CountPositive(rows, e, All, |rows|);
    assert e in PresentDays(rows, All, 0);
  }
}
