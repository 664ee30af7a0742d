/** `load_data.py`: reading the ticker list from a JSON file, and the loop
    that brings one CSV file of daily bars per ticker up to date. The data
    directory is a map from ticker to the rows of its file, the download
    `download(ticker, start, end)` answers with the bars dated from `start`
    up to `end` or with an exception, and `today` is a parameter. */
module LoadData {
  import opened Common
  import opened Tables
  import Spy = SpyDailyEmaIncr

  /** A parsed JSON value. */
  datatype Json =
    | JNull
    | JBool(b: bool)
    | JNumber(n: real)
    | JString(s: string)
    | JArray(items: seq<Json>)
    | JObject(fields: map<string, Json>)

  /** What opening and parsing the file gives. */
  datatype ReadResult = Parsed(value: Json) | FileNotFound | InvalidJson

  /** What `load_tickers_from_json` does: return a value, or raise a
      `ValueError` that it does not catch itself. */
  datatype TickerLoad = Loaded(value: Json) | RaisesValueError

  /** A list is returned as it is and an object with a `tickers` key gives
      that key's value, whatever it holds; any other JSON value raises.
      A missing file or text that is not JSON gives the empty list. */
  function LoadTickersFromJson(read: ReadResult): (r: TickerLoad)
    ensures read.Parsed? && read.value.JArray? ==> r == Loaded(read.value)
    ensures read.Parsed? && read.value.JObject? && "tickers" in read.value.fields ==>
      r == Loaded(read.value.fields["tickers"])
    ensures r.RaisesValueError? <==>
      read.Parsed? && !read.value.JArray? && !(read.value.JObject? && "tickers" in read.value.fields)
    ensures !read.Parsed? ==> r == Loaded(JArray([]))
  {
    match read
    case FileNotFound => Loaded(JArray([]))
    case InvalidJson => Loaded(JArray([]))
    case Parsed(data) =>
      if data.JArray? then Loaded(data)
      else if data.JObject? && "tickers" in data.fields then Loaded(data.fields["tickers"])
      else RaisesValueError
  }

  /** An empty list comes back when the file is missing or not JSON, or
      when the file itself holds an empty list or a `tickers` key with an
      empty list; a list from the file is never altered. */
  lemma EmptyTickerList(read: ReadResult)
    ensures LoadTickersFromJson(read) == Loaded(JArray([])) <==>
      || !read.Parsed?
      || read.value == JArray([])
      || (read.value.JObject? && "tickers" in read.value.fields && read.value.fields["tickers"] == JArray([]))
  {
  }

  /** How one ticker ends, as the script reports it. */
  datatype Outcome =
    | UpToDate                          // the day after the last stored date is today or later
    | Appended(added: nat, total: nat)  // new rows merged into the file
    | NoNewData                         // the incremental download was empty
    | Saved(rows: nat)                  // a first download written to a new file
    | NoData                            // the first download was empty
    | Failed                            // an exception, reported and skipped

  /** One turn of the loop: the outcome and, when the file is written, its
      new rows. */
  datatype Step = Step(outcome: Outcome, write: Option<seq<Row<Bar>>>)

  type Download = (string, Day, Day) -> Fetch<Row<Bar>>

  /** `start_date = end_date - timedelta(days=years*365)`. */
  function HistoryStart(today: Day, years: int): (d: Day)
    ensures years >= 0 ==> d <= today
  {
    today - years * 365
  }

  /** A ticker with a non-empty file: skip it when the day after its last
      date is today or later, otherwise download from that day and merge
      stored + fetched, keeping the last row of each date, sorted. */
  function Incremental(ticker: string, existing: seq<Row<Bar>>, today: Day, download: Download): (s: Step)
    requires existing != []
    ensures s.outcome.UpToDate? <==> MaxDate(existing) + 1 >= today
    ensures s.write.None? <==> s.outcome.UpToDate? || s.outcome.Failed? || s.outcome.NoNewData?
    ensures s.write.Some? ==>
      && MaxDate(existing) + 1 < today
      && download(ticker, MaxDate(existing) + 1, today).Bars?
      && s.write.value == MergeTables(existing, download(ticker, MaxDate(existing) + 1, today).rows)
  {
    var fetchStart := MaxDate(existing) + 1;
    if fetchStart >= today then Step(UpToDate, None)
    else
      match download(ticker, fetchStart, today)
      case Raised => Step(Failed, None)
      case Bars(newData) =>
        if newData != [] then
          var combined := MergeTables(existing, newData);
          Step(Appended(|newData|, |combined|), Some(combined))
        else Step(NoNewData, None)
  }

  /** A ticker without a file: download the whole history and write it as
      it comes, unless it is empty. */
  function FirstDownload(ticker: string, start: Day, today: Day, download: Download): (s: Step)
    ensures s.write.None? <==> s.outcome.Failed? || s.outcome.NoData?
    ensures s.write.Some? ==>
      && download(ticker, start, today).Bars?
      && s.write.value == download(ticker, start, today).rows && s.write.value != []
  {
    match download(ticker, start, today)
    case Raised => Step(Failed, None)
    case Bars(data) =>
      if data != [] then Step(Saved(|data|), Some(data)) else Step(NoData, None)
  }

  /** A ticker with a file: a file without rows has no last date, and
      taking the date of pandas NaT raises. */
  function SyncStored(ticker: string, existing: seq<Row<Bar>>, today: Day, download: Download): (s: Step)
    ensures existing == [] ==> s == Step(Failed, None)
    ensures existing != [] ==> s == Incremental(ticker, existing, today, download)
  {
    if existing == [] then Step(Failed, None) else Incremental(ticker, existing, today, download)
  }

  /** The body of the loop for one ticker whose file holds `stored` (None
      when there is no file). */
  function SyncTicker(ticker: string, stored: Option<seq<Row<Bar>>>, today: Day, years: int, download: Download): (s: Step)
    ensures stored.Some? ==> s == SyncStored(ticker, stored.value, today, download)
    ensures stored.None? ==> s == FirstDownload(ticker, HistoryStart(today, years), today, download)
  {
    match stored
    case Some(existing) => SyncStored(ticker, existing, today, download)
    case None => FirstDownload(ticker, HistoryStart(today, years), today, download)
  }

  /** The files after one turn. */
  function Apply(files: map<string, seq<Row<Bar>>>, ticker: string, s: Step): (f: map<string, seq<Row<Bar>>>)
    ensures s.write.None? ==> f == files
    ensures s.write.Some? ==> f == files[ticker := s.write.value]
  {
    if s.write.Some? then files[ticker := s.write.value] else files
  }

  function Lookup(files: map<string, seq<Row<Bar>>>, ticker: string): Option<seq<Row<Bar>>>
  {
    if ticker in files then Some(files[ticker]) else None
  }

  /** The whole loop over `tickers`: each turn sees the files as the earlier
      turns left them. */
  function SyncAll(tickers: seq<string>, files: map<string, seq<Row<Bar>>>, today: Day, years: int, download: Download)
    : (r: (map<string, seq<Row<Bar>>>, seq<Outcome>))
    ensures |r.1| == |tickers|
    decreases |tickers|
  {
    if tickers == [] then (files, [])
    else
      var n := |tickers| - 1;
      var (before, outcomes) := SyncAll(tickers[..n], files, today, years, download);
      var s := SyncTicker(tickers[n], Lookup(before, tickers[n]), today, years, download);
      (Apply(before, tickers[n], s), outcomes + [s.outcome])
  }

  /** `fetch_and_store_ticker_data`: the loop over tickers. */
  method FetchAndStoreTickerData(tickers: seq<string>, files: map<string, seq<Row<Bar>>>, today: Day, years: int, download: Download)
    returns (out: map<string, seq<Row<Bar>>>, report: seq<Outcome>)
    ensures (out, report) == SyncAll(tickers, files, today, years, download)
  {
    var startDate := HistoryStart(today, years);
    out, report := files, [];
    for i := 0 to |tickers|
      invariant (out, report) == SyncAll(tickers[..i], files, today, years, download)
    {
      assert tickers[..i + 1][..i] == tickers[..i];
      var outcome;
      out, outcome := ProcessTicker(tickers[i], out, startDate, today, download);
      report := report + [outcome];
    }
    assert tickers[..|tickers|] == tickers;
  }

  /** The `try` block for one ticker; each `continue` of the loop is a
      return here. */
  method ProcessTicker(ticker: string, files: map<string, seq<Row<Bar>>>, startDate: Day, today: Day, download: Download)
    returns (out: map<string, seq<Row<Bar>>>, outcome: Outcome)
    ensures var step := if ticker in files then SyncStored(ticker, files[ticker], today, download)
                        else FirstDownload(ticker, startDate, today, download);
      out == Apply(files, ticker, step) && outcome == step.outcome
  {
    out := files;
    if ticker in files {
      var existingData := files[ticker];
      if existingData == [] {
        return out, Failed;
      }
      var fetchStart := MaxDate(existingData) + 1;
      if fetchStart >= today {
        return out, UpToDate;
      }
      var newData := download(ticker, fetchStart, today);
      if newData.Raised? {
        return out, Failed;
      }
      if newData.rows != [] {
        var combinedData := existingData + newData.rows;
        combinedData := DedupKeepLast(combinedData);
        combinedData := SortByDate(combinedData);
        out := out[ticker := combinedData];
        outcome := Appended(|newData.rows|, |combinedData|);
      } else {
        outcome := NoNewData;
      }
    } else {
      var data := download(ticker, startDate, today);
      if data.Raised? {
        return out, Failed;
      }
      if data.rows != [] {
        out := out[ticker := data.rows];
        outcome := Saved(|data.rows|);
      } else {
        outcome := NoData;
      }
    }
  }

  /** A file whose ticker is not in the list is left as it was, and every
      file written belongs to a listed ticker. */
  lemma {:induction false} SyncAllOnlyListed(tickers: seq<string>, files: map<string, seq<Row<Bar>>>, today: Day, years: int, download: Download)
    ensures var out := SyncAll(tickers, files, today, years, download).0;
      && files.Keys <= out.Keys
      && (forall t :: t in out && t !in files ==> t in tickers)
      && (forall t :: t in files && t !in tickers ==> out[t] == files[t])
    decreases |tickers|
  {
    if tickers != [] {
      var n := |tickers| - 1;
      SyncAllOnlyListed(tickers[..n], files, today, years, download);
      assert forall t :: t in tickers[..n] ==> t in tickers;
    }
  }

  /** A failing ticker changes no file and the loop goes on: the outcome of
      every later ticker is what it would have been had the failing one not
      been in the list. */
  lemma FailureSkipsTicker(tickers: seq<string>, i: nat, files: map<string, seq<Row<Bar>>>, today: Day, years: int, download: Download)
    requires i < |tickers|
    requires var before := SyncAll(tickers[..i], files, today, years, download).0;
      SyncTicker(tickers[i], Lookup(before, tickers[i]), today, years, download).outcome.Failed?
    ensures SyncAll(tickers[..i + 1], files, today, years, download).0 == SyncAll(tickers[..i], files, today, years, download).0
    ensures SyncAll(tickers[..i + 1], files, today, years, download).1 == SyncAll(tickers[..i], files, today, years, download).1 + [Failed]
  {
    assert tickers[..i + 1][..i] == tickers[..i];
  }

  /** What an incremental turn writes: each date once, in ascending order,
      the dates of the stored and the fetched rows together, the fetched row
      for a date both have, and the stored row for every other stored
      date. */
  lemma SyncedFileCorrect(ticker: string, stored: seq<Row<Bar>>, today: Day, download: Download)
    requires stored != [] && Incremental(ticker, stored, today, download).write.Some?
    ensures var fetched := download(ticker, MaxDate(stored) + 1, today).rows;
      var written := Incremental(ticker, stored, today, download).write.value;
      && StrictlyAscending(written)
      && DateSet(written) == DateSet(stored) + DateSet(fetched)
      && TableMap(written) == TableMap(stored) + TableMap(fetched)
      && (forall d :: d in DateSet(stored) && d !in DateSet(fetched) ==> TableMap(written)[d] == TableMap(stored)[d])
  {
    var fetched := download(ticker, MaxDate(stored) + 1, today).rows;
    var written := Incremental(ticker, stored, today, download).write.value;
    assert written == MergeTables(stored, fetched);
    MergeTablesAscending(stored, fetched);
    MergeTablesCorrect(stored, fetched);
  }

  /** The two incremental scripts disagree on the boundary day: when the day
      after the last stored date is today, this loop skips the ticker while
      the SPY script downloads from today. */
  lemma SkipRuleBoundary(ticker: string, stored: seq<Row<Bar>>, download: Download)
    requires stored != []
    ensures var today := MaxDate(stored) + 1;
      && Incremental(ticker, stored, today, download).outcome == UpToDate
      && Spy.FetchPlan(Some(CloseRows(stored)), today) == Spy.Download(today)
  {
    var closes := CloseRows(stored);
    assert MaxDate(closes) == MaxDate(stored) by {
      var k :| 0 <= k < |stored| && stored[k].date == MaxDate(stored);
      assert closes[k].date == MaxDate(stored);
      InDateSet(closes, k);
    }
  }
}
