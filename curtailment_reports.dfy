/** The prior-trade-day curtailment report downloader (`CurtailmentDownloader`):
    report URLs and local file names by date, the download log and its skip
    rule, row extraction from the downloaded `PREV_DAY_OUTAGES` worksheets
    (filtering by column values, the header search, clipping to the trade day)
    and the monthly forced-outage rates computed from the extracted rows.
    Downloads and workbook reads are parameters: a response per date, and the
    worksheet stored at each path. */
module CurtailmentReports {
  import opened Wrappers
  import Calendar
  import Text
  import Frames
  import CurtailmentEvents
  import Floats

  // ---- report locations --------------------------------------------------------

  const UrlPrefix: string := "http://www.caiso.com/Documents/Curtailed-non-operational-generator-prior-trade-date-report-"
  const ReportPrefix: string := "PriorTradeDateCurtailments_"
  const Xlsx: string := ".xlsx"

  /** The first trade day for which a report is published (`start_date`). */
  const FirstReportDate: Calendar.Date := Calendar.Date(2021, 6, 18)

  /** A path: the download directory and the file name inside it. */
  datatype FilePath = FilePath(directory: string, name: string)

  /** A date as `%Y<sep>%m<sep>%d`. */
  function DateStamp(d: Calendar.Date, sep: string): string
    requires Calendar.ValidDate(d)
  {
    Text.Digits(d.year, 4) + sep + Text.Digits(d.month, 2) + sep + Text.Digits(d.day, 2)
  }

  /** `url_by_date`: the report URL, the date written as %Y%m%d. */
  function UrlByDate(d: Calendar.Date): string
    requires Calendar.ValidDate(d)
  {
    UrlPrefix + DateStamp(d, "") + Xlsx
  }

  /** `path_by_date`: the report's file name under the download directory,
      the date written as %Y-%m-%d. */
  function PathByDate(directory: string, d: Calendar.Date): FilePath
    requires Calendar.ValidDate(d)
  {
    FilePath(directory, ReportPrefix + DateStamp(d, "-") + Xlsx)
  }

  /** Reads a stamp written by DateStamp back into a date. */
  function ParseStamp(s: string, sep: string): Option<Calendar.Date>
  {
    var k := |sep|;
    if |s| == 8 + 2 * k && s[4..4 + k] == sep && s[6 + k..6 + 2 * k] == sep
       && Text.AllDigits(s[..4]) && Text.AllDigits(s[4 + k..6 + k]) && Text.AllDigits(s[6 + 2 * k..])
    then Some(Calendar.Date(Text.ParseNat(s[..4]), Text.ParseNat(s[4 + k..6 + k]), Text.ParseNat(s[6 + 2 * k..])))
    else None
  }

  /** The date a report URL names, if it has the report URL's shape. */
  function DateOfUrl(url: string): Option<Calendar.Date>
  {
    if |url| >= |UrlPrefix| + |Xlsx| && url[..|UrlPrefix|] == UrlPrefix && url[|url| - |Xlsx|..] == Xlsx
    then ParseStamp(url[|UrlPrefix|..|url| - |Xlsx|], "")
    else None
  }

  /** The date a report file name names, if it has the report file name's shape. */
  function DateOfReportName(name: string): Option<Calendar.Date>
  {
    if |name| >= |ReportPrefix| + |Xlsx| && name[..|ReportPrefix|] == ReportPrefix && name[|name| - |Xlsx|..] == Xlsx
    then ParseStamp(name[|ReportPrefix|..|name| - |Xlsx|], "-")
    else None
  }

  /** Round trip of the stamp, for the four-digit years of pandas Timestamps. */
  lemma StampRoundTrip(d: Calendar.Date, sep: string)
    requires Calendar.ValidDate(d) && d.year < 10000
    ensures ParseStamp(DateStamp(d, sep), sep) == Some(d)
  {
    var y := Text.Digits(d.year, 4);
    var m := Text.Digits(d.month, 2);
    var dd := Text.Digits(d.day, 2);
    var s := y + sep + m + sep + dd;
    var k := |sep|;
    assert s == DateStamp(d, sep);
    assert s[..4] == y;
    assert s[4..4 + k] == sep;
    assert s[4 + k..6 + k] == m;
    assert s[6 + k..6 + 2 * k] == sep;
    assert s[6 + 2 * k..] == dd;
    Text.ParseDigits(d.year, 4);
    Text.ParseDigits(d.month, 2);
    Text.ParseDigits(d.day, 2);
  }

  /** The URL names its date: reading it back gives the date, so distinct
      dates have distinct URLs. */
  lemma UrlRoundTrip(d: Calendar.Date)
    requires Calendar.ValidDate(d) && d.year < 10000
    ensures DateOfUrl(UrlByDate(d)) == Some(d)
  {
    var url := UrlByDate(d);
    StampRoundTrip(d, "");
    assert url[..|UrlPrefix|] == UrlPrefix;
    assert url[|url| - |Xlsx|..] == Xlsx;
    assert url[|UrlPrefix|..|url| - |Xlsx|] == DateStamp(d, "");
  }

  /** The file name names its date and the path lies in the given directory. */
  lemma PathRoundTrip(directory: string, d: Calendar.Date)
    requires Calendar.ValidDate(d) && d.year < 10000
    ensures PathByDate(directory, d).directory == directory
    ensures DateOfReportName(PathByDate(directory, d).name) == Some(d)
  {
    var name := PathByDate(directory, d).name;
    StampRoundTrip(d, "-");
    assert name[..|ReportPrefix|] == ReportPrefix;
    assert name[|name| - |Xlsx|..] == Xlsx;
    assert name[|ReportPrefix|..|name| - |Xlsx|] == DateStamp(d, "-");
  }

  lemma PathByDateInjective(directory: string, d1: Calendar.Date, d2: Calendar.Date)
    requires Calendar.ValidDate(d1) && d1.year < 10000 && Calendar.ValidDate(d2) && d2.year < 10000
    requires PathByDate(directory, d1) == PathByDate(directory, d2)
    ensures d1 == d2
  {
    PathRoundTrip(directory, d1);
    PathRoundTrip(directory, d2);
  }

  // ---- the download log ------------------------------------------------------

  /** One log line: the report's trade day (at midnight) and where it was saved. */
  datatype LogEntry = LogEntry(effectiveDate: Calendar.Instant, downloadPath: FilePath)

  /** What fetching a URL gives: the HTTP status and the body written to the file. */
  datatype Response = Response(status: int, body: seq<bv8>)

  function PathOf(e: LogEntry): FilePath { e.downloadPath }

  /** `(date == log['effective_date']).any()`. */
  predicate Logged(log: seq<LogEntry>, t: Calendar.Instant)
  {
    exists i :: 0 <= i < |log| && log[i].effectiveDate == t
  }

  /** Midnight of day number n. */
  function DayInstant(n: nat): (t: Calendar.Instant)
    ensures t % Calendar.MicrosPerDay == 0 && t / Calendar.MicrosPerDay == n
  {
    n * Calendar.MicrosPerDay
  }

  /** t is midnight of a day numbered from lo up to, but not including, hi. */
  predicate MidnightBetween(t: Calendar.Instant, lo: nat, hi: nat)
  {
    t % Calendar.MicrosPerDay == 0 && lo <= t / Calendar.MicrosPerDay < hi
  }

  /** A log that keeps an older one as its prefix still has every date the
      older one had. */
  lemma LoggedKept(before: seq<LogEntry>, after: seq<LogEntry>, lo: nat, n: nat)
    requires |before| <= |after| && forall i :: 0 <= i < |before| ==> after[i] == before[i]
    requires forall k :: lo <= k < n ==> Logged(before, DayInstant(k))
    ensures forall k :: lo <= k < n ==> Logged(after, DayInstant(k))
  {
    forall k | lo <= k < n ensures Logged(after, DayInstant(k)) {
      assert Logged(before, DayInstant(k));
      var j :| 0 <= j < |before| && before[j].effectiveDate == DayInstant(k);
      assert after[j] == before[j];
    }
  }

  predicate DistinctDates(log: seq<LogEntry>)
  {
    forall i, j :: 0 <= i < j < |log| ==> log[i].effectiveDate != log[j].effectiveDate
  }

  /** The value `download_report` hands back after a download: `c.RESPONSE_CODE`
      is pycurl's information code for the response status (CURLINFO_RESPONSE_CODE),
      a constant, not the status itself. */
  const ResponseCodeInfo: int := 2097154

  /** The status `download_report` documents for a download: 1 when the site
      answered 200, -1 otherwise. */
  function DownloadStatus(status: int): (s: int)
    ensures s == 1 <==> status == 200
    ensures s == 1 || s == -1
  {
    if status == 200 then 1 else -1
  }

  /** The value the code returns after a download, whatever the response. */
  function ReturnedCodeAsWritten(status: int): (s: int)
    ensures s != 1 && s != 0 && s != -1
  {
    ResponseCodeInfo
  }

  /** A successful download is reported neither as 1 nor as any other documented status. */
  lemma DownloadReturnMisreports(body: seq<bv8>)
    ensures ReturnedCodeAsWritten(Response(200, body).status) != DownloadStatus(Response(200, body).status)
  {
  }

  class CurtailmentDownloader {
    var downloadDirectory: string
    var log: seq<LogEntry>
    /** The files written so far, by path. */
    var files: map<FilePath, seq<bv8>>

    /** The log as loaded from its file, and the directory's files. */
    constructor(downloadDirectory: string, log: seq<LogEntry>, files: map<FilePath, seq<bv8>>)
      ensures this.downloadDirectory == downloadDirectory && this.log == log && this.files == files
    {
      this.downloadDirectory := downloadDirectory;
      this.log := log;
      this.files := files;
    }

    /** `download_report`: a date already in the log is skipped with 0 and
        nothing changes; otherwise the response body is written to the date's
        path and exactly one log entry is appended, whatever the status. */
    method DownloadReport(date: Calendar.Date, response: Response) returns (status: int)
      requires Calendar.ValidDate(date)
      modifies this
      ensures downloadDirectory == old(downloadDirectory)
      ensures Logged(old(log), Calendar.Midnight(date)) ==>
                status == 0 && log == old(log) && files == old(files)
      ensures !Logged(old(log), Calendar.Midnight(date)) ==>
                && log == old(log) + [LogEntry(Calendar.Midnight(date), PathByDate(downloadDirectory, date))]
                && files == old(files)[PathByDate(downloadDirectory, date) := response.body]
                && status == DownloadStatus(response.status)
      ensures Logged(log, Calendar.Midnight(date))
      ensures DistinctDates(old(log)) ==> DistinctDates(log)
    {
      var t := Calendar.Midnight(date);
      if Logged(log, t) {
        return 0;
      }
      var path := PathByDate(downloadDirectory, date);
      files := files[path := response.body];
      log := log + [LogEntry(t, path)];
      assert log[|log| - 1].effectiveDate == t;
      status := DownloadStatus(response.status);
    }

    /** `download_all`: every trade day from the first report date up to, but
        not including, today ends up in the log; the existing entries stay and
        only days of that range are added. */
    method DownloadAll(today: Calendar.Date, responses: Calendar.Date -> Response)
      requires Calendar.ValidDate(today)
      modifies this
      ensures downloadDirectory == old(downloadDirectory)
      ensures |old(log)| <= |log| && forall i :: 0 <= i < |old(log)| ==> log[i] == old(log)[i]
      ensures forall n :: Calendar.DayNumber(FirstReportDate) <= n < Calendar.DayNumber(today) ==>
                Logged(log, DayInstant(n))
      ensures forall i :: |old(log)| <= i < |log| ==>
                MidnightBetween(log[i].effectiveDate, Calendar.DayNumber(FirstReportDate), Calendar.DayNumber(today))
      ensures DistinctDates(old(log)) ==> DistinctDates(log)
    {
      var lo := Calendar.DayNumber(FirstReportDate);
      var hi := Calendar.DayNumber(today);
      var log0 := log;
      var n := lo;
      while n < hi
        invariant lo <= n && (n <= hi || n == lo)
        invariant downloadDirectory == old(downloadDirectory)
        invariant |log0| <= |log| && forall i :: 0 <= i < |log0| ==> log[i] == log0[i]
        invariant forall k :: lo <= k < n ==> Logged(log, DayInstant(k))
        invariant forall i :: |log0| <= i < |log| ==> MidnightBetween(log[i].effectiveDate, lo, n)
        invariant DistinctDates(log0) ==> DistinctDates(log)
      {
        var d := Calendar.DateOfDay(n);
        ghost var before := log;
        var _ := DownloadReport(d, responses(d));
        assert Calendar.Midnight(d) == DayInstant(n);
        LoggedKept(before, log, lo, n);
        n := n + 1;
      }
    }

    /** `extract_by_columns`: the rows of the selected reports that match every
        filter, report by report in log order. */
    method ExtractByColumns(kvps: seq<Kvp>, effectiveDates: Option<seq<Calendar.Instant>>,
                            books: map<FilePath, Worksheet>) returns (r: Result<seq<Record>, string>)
      ensures r == ExtractedByColumns(FilterPaths(log, effectiveDates), kvps, books, |FilterPaths(log, effectiveDates)|)
    {
      var paths := FilterPaths(log, effectiveDates);
      var acc := [];
      var i := 0;
      while i < |paths|
        invariant i <= |paths| && ExtractedByColumns(paths, kvps, books, i) == Ok(acc)
      {
        if paths[i] !in books {
          ExtractedByColumnsErr(paths, kvps, books, i + 1, |paths|);
          return Err("FileNotFoundError");
        }
        var ws := books[paths[i]];
        if !KnownColumns(kvps) {
          ExtractedByColumnsErr(paths, kvps, books, i + 1, |paths|);
          return Err("KeyError");
        }
        var rows := ReadMatchingRows(ws, kvps);
        acc := acc + rows;
        i := i + 1;
      }
      return Ok(acc);
    }

    /** `extract_all`: the records of the reports paired by `zip` with the
        effective dates, each clipped to its own trade day; with no effective
        dates nothing is read. */
    method ExtractAll(effectiveDates: seq<Calendar.Instant>, books: map<FilePath, Worksheet>)
      returns (r: Result<seq<Record>, string>)
      ensures var paths := AllPaths(log, effectiveDates);
        r == ExtractedAll(effectiveDates, paths, books, if |effectiveDates| < |paths| then |effectiveDates| else |paths|)
      ensures effectiveDates == [] ==> r == Ok([])
    {
      var paths := AllPaths(log, effectiveDates);
      r := ReadReports(effectiveDates, paths, books);
    }

    /** `calculate_monthly_outage_rates`: the FORCED rows of the reports logged
        for the days of t's month, then the rates of the listed resources. */
    method CalculateMonthlyOutageRates(resourceIds: seq<string>, t: Calendar.Instant, books: map<FilePath, Worksheet>)
      returns (r: Result<seq<OutageRate>, string>)
      ensures r == MonthlyOutageRates(FilterPaths(log, Some(EffectiveDates(t))), books, resourceIds, t)
    {
      var forced := ExtractByColumns([ForcedFilter], Some(EffectiveDates(t)), books);
      if forced.Err? {
        return Err(forced.error);
      }
      r := OutageRates(forced.value, resourceIds, t);
    }
  }

  // ---- worksheets ----------------------------------------------------------------

  /** A cell value as openpyxl reads it: text, an integer, a float or a
      date-time; an empty cell is None. */
  datatype Cell = Text(s: string) | Int(i: int) | Real(x: real) | Time(t: Calendar.Instant)

  /** A worksheet row (column A first) and a worksheet (row 1 first).  Reading
      past the end of a row gives an empty cell, as the read-only worksheet pads
      its rows to the sheet's width. */
  type Row = seq<Option<Cell>>
  type Worksheet = seq<Row>

  function CellValue(row: Row, c: nat): Option<Cell>
  {
    if c < |row| then row[c] else None
  }

  /** Python's `==` between a cell and a value: integers and floats compare by
      value, other kinds only with their own kind, and an empty cell equals
      nothing. */
  predicate CellEquals(c: Option<Cell>, v: Cell)
  {
    match c
    case None => false
    case Some(x) =>
      match (x, v)
      case (Int(a), Real(b)) => a as real == b
      case (Real(a), Int(b)) => a == b as real
      case _ => x == v
  }

  /** The first position of x in xs (`list.index`), or None when x is absent. */
  function IndexOf<T(==)>(xs: seq<T>, x: T): (r: Option<nat>)
    ensures r.None? <==> x !in xs
    ensures r.Some? ==> r.value < |xs| && xs[r.value] == x && forall j :: 0 <= j < r.value ==> xs[j] != x
  {
    if xs == [] then None
    else if xs[0] == x then Some(0)
    else match IndexOf(xs[1..], x)
      case None => None
      case Some(i) => Some(i + 1)
  }

  // ---- extract_by_columns ------------------------------------------------------------

  /** The columns `extract_by_columns` returns, and the worksheet column each is
      read from (B, C, E, F, G, H, I, J, K and M). */
  const FilterColumns: seq<string> := [
    "OUTAGE MRID", "RESOURCE NAME", "RESOURCE ID", "OUTAGE TYPE", "NATURE OF WORK",
    "CURTAILMENT START DATE TIME", "CURTAILMENT END DATE TIME", "CURTAILMENT MW",
    "RESOURCE PMAX MW", "NET QUALIFYING CAPACITY MW"]
  const FilterCells: seq<nat> := [1, 2, 4, 5, 6, 7, 8, 9, 10, 12]

  /** 0-based index of worksheet row 11, where `extract_by_columns` starts reading. */
  const FirstDataRow: nat := 10

  /** One extracted row, a value per column in column order. */
  type Record = seq<Option<Cell>>

  /** A (column name, value) filter pair. */
  type Kvp = (string, Cell)

  /** The row's values at the fixed worksheet columns. */
  function Project(row: Row): (r: Record)
    ensures |r| == |FilterColumns|
    ensures forall k :: 0 <= k < |FilterCells| ==> r[k] == CellValue(row, FilterCells[k])
  {
    seq(|FilterCells|, k requires 0 <= k < |FilterCells| => CellValue(row, FilterCells[k]))
  }

  /** Every filter names one of the columns (otherwise `.loc` raises KeyError). */
  predicate KnownColumns(kvps: seq<Kvp>)
  {
    forall k :: 0 <= k < |kvps| ==> kvps[k].0 in FilterColumns
  }

  /** The record's value in the named column equals the filter's value. */
  predicate MatchesPair(r: Record, kvp: Kvp)
    requires |r| == |FilterColumns| && kvp.0 in FilterColumns
  {
    CellEquals(r[IndexOf(FilterColumns, kvp.0).value], kvp.1)
  }

  /** The AND of the filters over one record; an empty list accepts every record. */
  predicate MatchesAll(r: Record, kvps: seq<Kvp>)
    requires |r| == |FilterColumns| && KnownColumns(kvps)
  {
    forall k :: 0 <= k < |kvps| ==> MatchesPair(r, kvps[k])
  }

  /** The matching records of the non-empty rows from row 11 up to 0-based row n. */
  function SheetMatches(ws: Worksheet, kvps: seq<Kvp>, n: nat): seq<Record>
    requires KnownColumns(kvps) && n <= |ws|
  {
    if n <= FirstDataRow then []
    else
      var rs := SheetMatches(ws, kvps, n - 1);
      var row := ws[n - 1];
      if |row| > 0 && MatchesAll(Project(row), kvps) then rs + [Project(row)] else rs
  }

  /** A record is extracted from a sheet exactly when it is the projection of a
      non-empty row at or below row 11 that matches every filter. */
  lemma {:induction false} SheetMatchesMeaning(ws: Worksheet, kvps: seq<Kvp>, n: nat, r: Record)
    requires KnownColumns(kvps) && n <= |ws|
    ensures r in SheetMatches(ws, kvps, n) <==>
              exists i :: FirstDataRow <= i < n && |ws[i]| > 0 && r == Project(ws[i]) && MatchesAll(r, kvps)
  {
    if n > FirstDataRow {
      SheetMatchesMeaning(ws, kvps, n - 1, r);
    }
  }

  /** With no filters, every non-empty row from row 11 on is extracted. */
  lemma NoFiltersKeepAll(ws: Worksheet, i: nat)
    requires FirstDataRow <= i < |ws| && |ws[i]| > 0
    ensures Project(ws[i]) in SheetMatches(ws, [], |ws|)
  {
    SheetMatchesMeaning(ws, [], |ws|, Project(ws[i]));
  }

  /** The log paths `extract_by_columns` reads: those whose date is one of the
      given dates, or every path when no dates are given. */
  function FilterPaths(log: seq<LogEntry>, effectiveDates: Option<seq<Calendar.Instant>>): seq<FilePath>
  {
    match effectiveDates
    case None => Frames.Column(log, PathOf)
    case Some(ds) => Frames.Column(Frames.Filter(log, (e: LogEntry) => e.effectiveDate in ds), PathOf)
  }

  /** The records of the first n paths, or the first error: a path with no
      worksheet raises, and so does a filter on an unknown column once a sheet
      has been read. */
  function ExtractedByColumns(paths: seq<FilePath>, kvps: seq<Kvp>, books: map<FilePath, Worksheet>, n: nat)
    : Result<seq<Record>, string>
    requires n <= |paths|
  {
    if n == 0 then Ok([])
    else
      match ExtractedByColumns(paths, kvps, books, n - 1)
      case Err(e) => Err(e)
      case Ok(acc) =>
        if paths[n - 1] !in books then Err("FileNotFoundError")
        else if !KnownColumns(kvps) then Err("KeyError")
        else Ok(acc + SheetMatches(books[paths[n - 1]], kvps, |books[paths[n - 1]]|))
  }

  /** Extraction succeeds exactly when every path has a worksheet and, if any
      path is read, every filter names a column. */
  lemma {:induction false} ExtractedByColumnsOk(paths: seq<FilePath>, kvps: seq<Kvp>,
                                                books: map<FilePath, Worksheet>, n: nat)
    requires n <= |paths|
    ensures ExtractedByColumns(paths, kvps, books, n).Ok? <==>
              (forall j :: 0 <= j < n ==> paths[j] in books) && (n == 0 || KnownColumns(kvps))
  {
    if n > 0 {
      ExtractedByColumnsOk(paths, kvps, books, n - 1);
      assert (forall j :: 0 <= j < n ==> paths[j] in books) <==>
        (forall j :: 0 <= j < n - 1 ==> paths[j] in books) && paths[n - 1] in books;
    }
  }

  /** Extraction succeeds exactly when every path has a worksheet and, if any
      path is read, every filter names a column; the records are then those
      of each sheet's non-empty rows from row 11 on that match every filter. */
  lemma {:induction false} ExtractedByColumnsMeaning(paths: seq<FilePath>, kvps: seq<Kvp>,
                                                     books: map<FilePath, Worksheet>, n: nat, r: Record)
    requires n <= |paths|
    ensures ExtractedByColumns(paths, kvps, books, n).Ok? <==>
              (forall j :: 0 <= j < n ==> paths[j] in books) && (n == 0 || KnownColumns(kvps))
    ensures ExtractedByColumns(paths, kvps, books, n).Ok? ==>
              (r in ExtractedByColumns(paths, kvps, books, n).value <==>
                 exists j, i :: 0 <= j < n && FirstDataRow <= i < |books[paths[j]]|
                                && |books[paths[j]][i]| > 0 && r == Project(books[paths[j]][i]) && MatchesAll(r, kvps))
  {
    ExtractedByColumnsOk(paths, kvps, books, n);
    if n > 0 {
      var res := ExtractedByColumns(paths, kvps, books, n);
      if res.Ok? {
        ExtractedByColumnsMeaning(paths, kvps, books, n - 1, r);
        var ws := books[paths[n - 1]];
        var prev := ExtractedByColumns(paths, kvps, books, n - 1).value;
        assert res.value == prev + SheetMatches(ws, kvps, |ws|);
        assert r in res.value <==> r in prev || r in SheetMatches(ws, kvps, |ws|);
        SheetMatchesMeaning(ws, kvps, |ws|, r);
        SheetsSplit(paths, kvps, books, n, r, ws);
      }
    }
  }

  /** A row of the first n sheets is a row of the first n - 1 or of the n-th. */
  lemma SheetsSplit(paths: seq<FilePath>, kvps: seq<Kvp>, books: map<FilePath, Worksheet>, n: nat, r: Record,
                    ws: Worksheet)
    requires KnownColumns(kvps)
    requires 0 < n <= |paths| && (forall j :: 0 <= j < n ==> paths[j] in books) && ws == books[paths[n - 1]]
    ensures (exists j, i :: 0 <= j < n && FirstDataRow <= i < |books[paths[j]]|
                            && |books[paths[j]][i]| > 0 && r == Project(books[paths[j]][i]) && MatchesAll(r, kvps))
        <==> (|| (exists j, i :: 0 <= j < n - 1 && FirstDataRow <= i < |books[paths[j]]|
                                 && |books[paths[j]][i]| > 0 && r == Project(books[paths[j]][i]) && MatchesAll(r, kvps))
              || (exists i :: FirstDataRow <= i < |ws| && |ws[i]| > 0 && r == Project(ws[i]) && MatchesAll(r, kvps)))
  {
  }

  /** The row loop of `extract_by_columns` on one worksheet. */
  method ReadMatchingRows(ws: Worksheet, kvps: seq<Kvp>) returns (rs: seq<Record>)
    requires KnownColumns(kvps)
    ensures rs == SheetMatches(ws, kvps, |ws|)
  {
    rs := [];
    var i := if |ws| < FirstDataRow then |ws| else FirstDataRow;
    while i < |ws|
      invariant i <= |ws| && rs == SheetMatches(ws, kvps, i)
    {
      var row := ws[i];
      if |row| > 0 {
        var r := Project(row);
        if MatchesAll(r, kvps) {
          rs := rs + [r];
        }
      }
      i := i + 1;
    }
  }

  /** Propagation of the first error. */
  lemma {:induction false} ExtractedByColumnsErr(paths: seq<FilePath>, kvps: seq<Kvp>,
                                                 books: map<FilePath, Worksheet>, n: nat, m: nat)
    requires n <= m <= |paths| && ExtractedByColumns(paths, kvps, books, n).Err?
    ensures ExtractedByColumns(paths, kvps, books, m) == ExtractedByColumns(paths, kvps, books, n)
    decreases m - n
  {
    if n < m {
      ExtractedByColumnsErr(paths, kvps, books, n, m - 1);
    }
  }

  // ---- extract_all -------------------------------------------------------------------

  /** The columns `extract_all` returns; each is looked up by name in the header row. */
  const AllColumns: seq<string> := [
    "OUTAGE MRID", "RESOURCE NAME", "RESOURCE ID", "OUTAGE TYPE", "NATURE OF WORK",
    "CURTAILMENT START DATE TIME", "CURTAILMENT END DATE TIME", "CURTAILMENT MW",
    "RESOURCE PMAX MW", "NET QUALIFYING CAPACITY MW", "OUTAGE STATUS", "RES TYPE",
    "MKTORGANIZATION MRID", "BAA"]
  const MridHeader: string := "OUTAGE MRID"

  /** The number of columns of an `extract_all` record. */
  const Width: nat := 14
  const StartColumn: nat := 5
  const EndColumn: nat := 6

  /** The header search gives up after this row. */
  const LastHeaderRow: nat := 100

  /** `ws[n]` for a 1-based row number; rows past the end of the sheet are empty. */
  function RowAt(ws: Worksheet, n: nat): Row
  {
    if 1 <= n <= |ws| then ws[n - 1] else []
  }

  predicate HasMridHeader(row: Row)
  {
    Some(Text(MridHeader)) in row
  }

  /** The header search from row n on: stop at a row holding 'OUTAGE MRID', or
      at the first row past row 100. */
  function SearchFrom(ws: Worksheet, n: nat): nat
    requires 1 <= n <= LastHeaderRow + 1
    decreases LastHeaderRow + 1 - n
  {
    if HasMridHeader(RowAt(ws, n)) || n > LastHeaderRow then n else SearchFrom(ws, n + 1)
  }

  function HeaderRowNumber(ws: Worksheet): nat
  {
    SearchFrom(ws, 1)
  }

  lemma {:induction false} SearchFromMeaning(ws: Worksheet, n: nat)
    requires 1 <= n <= LastHeaderRow + 1
    ensures var h := SearchFrom(ws, n);
      && n <= h <= LastHeaderRow + 1
      && (forall k :: n <= k < h ==> !HasMridHeader(RowAt(ws, k)))
      && (HasMridHeader(RowAt(ws, h)) || h == LastHeaderRow + 1)
    decreases LastHeaderRow + 1 - n
  {
    if !(HasMridHeader(RowAt(ws, n)) || n > LastHeaderRow) {
      SearchFromMeaning(ws, n + 1);
    }
  }

  /** The header row is the first row holding 'OUTAGE MRID' among rows 1 to
      101; when none of rows 1 to 100 holds it, the search ends at row 101. */
  lemma HeaderRowMeaning(ws: Worksheet)
    ensures 1 <= HeaderRowNumber(ws) <= LastHeaderRow + 1
    ensures forall k :: 1 <= k < HeaderRowNumber(ws) ==> !HasMridHeader(RowAt(ws, k))
    ensures HeaderRowNumber(ws) <= LastHeaderRow ==> HasMridHeader(RowAt(ws, HeaderRowNumber(ws)))
  {
    SearchFromMeaning(ws, 1);
  }

  /** The `while True` header search of `extract_all`. */
  method FindHeaderRow(ws: Worksheet) returns (n: nat, header: Row)
    ensures n == HeaderRowNumber(ws) && header == RowAt(ws, n)
  {
    n := 1;
    header := RowAt(ws, n);
    while !(HasMridHeader(header) || n > LastHeaderRow)
      invariant 1 <= n <= LastHeaderRow + 1 && header == RowAt(ws, n)
      invariant SearchFrom(ws, n) == HeaderRowNumber(ws)
      decreases LastHeaderRow + 1 - n
    {
      n := n + 1;
      header := RowAt(ws, n);
    }
  }

  /** `columns`: each named column's first position in the header row, None
      when the header lacks it. */
  function Positions(header: Row, names: seq<string>): (ps: seq<Option<nat>>)
    ensures |ps| == |names|
  {
    if names == [] then []
    else Positions(header, names[..|names| - 1]) + [IndexOf(header, Some(Text(names[|names| - 1])))]
  }

  function ColumnPositions(header: Row): (ps: seq<Option<nat>>)
    ensures |ps| == Width
  {
    Positions(header, AllColumns)
  }

  lemma {:induction false} PositionsAt(header: Row, names: seq<string>, k: nat)
    requires k < |names|
    ensures Positions(header, names)[k] == IndexOf(header, Some(Text(names[k])))
  {
    if k < |names| - 1 {
      PositionsAt(header, names[..|names| - 1], k);
    }
  }

  /** Each column's position is its first occurrence in the header row, and
      None exactly when the header lacks the column's name. */
  lemma ColumnPositionsMeaning(header: Row, k: nat)
    requires k < Width
    ensures |AllColumns| == Width
    ensures ColumnPositions(header)[k].None? <==> Some(Text(AllColumns[k])) !in header
    ensures ColumnPositions(header)[k].Some? ==>
              var c := ColumnPositions(header)[k].value;
              c < |header| && header[c] == Some(Text(AllColumns[k]))
              && forall j :: 0 <= j < c ==> header[j] != Some(Text(AllColumns[k]))
  {
    PositionsAt(header, AllColumns, k);
  }

  /** One data row: the cell under each located column, None for a column the
      header lacks. */
  function ReadRecord(row: Row, ps: seq<Option<nat>>): (r: Record)
    ensures |r| == |ps|
    ensures forall k :: 0 <= k < |ps| ==> r[k] == (if ps[k].Some? then CellValue(row, ps[k].value) else None)
  {
    seq(|ps|, k requires 0 <= k < |ps| => if ps[k].Some? then CellValue(row, ps[k].value) else None)
  }

  /** The records of the non-empty rows below 1-based header row h, up to
      0-based row n. */
  function DataRecords(ws: Worksheet, ps: seq<Option<nat>>, h: nat, n: nat): seq<Record>
    requires n <= |ws|
  {
    if n <= h then []
    else
      var rs := DataRecords(ws, ps, h, n - 1);
      if |ws[n - 1]| > 0 then rs + [ReadRecord(ws[n - 1], ps)] else rs
  }

  /** A record is read exactly for each non-empty row below the header. */
  lemma {:induction false} DataRecordsMeaning(ws: Worksheet, ps: seq<Option<nat>>, h: nat, n: nat, r: Record)
    requires n <= |ws|
    ensures r in DataRecords(ws, ps, h, n) <==> exists i :: h <= i < n && |ws[i]| > 0 && r == ReadRecord(ws[i], ps)
  {
    if n > h {
      DataRecordsMeaning(ws, ps, h, n - 1, r);
    }
  }

  /** Every record read has one value per located column. */
  lemma {:induction false} DataRecordsWidth(ws: Worksheet, ps: seq<Option<nat>>, h: nat, n: nat)
    requires n <= |ws|
    ensures forall r :: r in DataRecords(ws, ps, h, n) ==> |r| == |ps|
  {
    if n > h {
      DataRecordsWidth(ws, ps, h, n - 1);
    }
  }

  /** The row loop of `extract_all` below the header. */
  method ReadDataRows(ws: Worksheet, ps: seq<Option<nat>>, h: nat) returns (rs: seq<Record>)
    ensures rs == DataRecords(ws, ps, h, |ws|)
  {
    rs := [];
    var i := if |ws| < h then |ws| else h;
    while i < |ws|
      invariant i <= |ws| && rs == DataRecords(ws, ps, h, i)
    {
      if |ws[i]| > 0 {
        rs := rs + [ReadRecord(ws[i], ps)];
      }
      i := i + 1;
    }
  }

  // ---- trade-day clipping ---------------------------------------------------------------

  /** `e.replace(hour=h, minute=m, second=s)`: the microseconds are kept. */
  function ReplaceTime(e: Calendar.Instant, h: nat, m: nat, s: nat): Calendar.Instant
    requires h < 24 && m < 60 && s < 60
  {
    DayInstant(Calendar.DayIndex(e)) + h * Calendar.MicrosPerHour + m * Calendar.MicrosPerMinute
      + s * Calendar.MicrosPerSecond + e % Calendar.MicrosPerSecond
  }

  function TradeDayStart(e: Calendar.Instant): Calendar.Instant { ReplaceTime(e, 0, 0, 0) }
  function TradeDayEnd(e: Calendar.Instant): Calendar.Instant { ReplaceTime(e, 23, 59, 59) }

  /** The trade-day window lies on the effective date's day, starts no later
      than the effective date, and ends before the effective date plus one day,
      so a missing end filled with that value is clipped to the window's end. */
  lemma TradeDayWindow(e: Calendar.Instant)
    ensures TradeDayStart(e) <= e && TradeDayStart(e) <= TradeDayEnd(e) < e + Calendar.MicrosPerDay
    ensures Calendar.DayIndex(TradeDayStart(e)) == Calendar.DayIndex(e) == Calendar.DayIndex(TradeDayEnd(e))
  {
    var d := Calendar.DayIndex(e);
    var us := e % Calendar.MicrosPerSecond;
    assert e == d * Calendar.MicrosPerDay + Calendar.TimeOfDay(e);
    assert Calendar.TimeOfDay(e) % Calendar.MicrosPerSecond == us;
    assert TradeDayEnd(e) == d * Calendar.MicrosPerDay + (Calendar.MicrosPerDay - Calendar.MicrosPerSecond + us);
  }

  predicate StartClippable(r: Record)
    requires |r| == Width
  {
    r[StartColumn].None? || r[StartColumn].value.Time?
  }

  predicate EndClippable(r: Record)
    requires |r| == Width
  {
    r[EndColumn].None? || r[EndColumn].value.Time?
  }

  /** One record with its start raised to the trade-day start and its end,
      filled with the effective date plus one day when missing, lowered to the
      trade-day end.  A missing start stays missing (NaT). */
  function ClipRecord(r: Record, e: Calendar.Instant): (out: Record)
    requires |r| == Width
    requires StartClippable(r) && EndClippable(r)
    ensures ClippedInto(out, r, e)
  {
    TradeDayWindow(e);
    var start := match r[StartColumn]
      case Some(Time(t)) => Some(Time(if t < TradeDayStart(e) then TradeDayStart(e) else t))
      case c => c;
    var filled := if r[EndColumn].None? then e + Calendar.MicrosPerDay else
      match r[EndColumn].value case Time(t) => t case _ => 0;
    r[StartColumn := start][EndColumn := Some(Time(if TradeDayEnd(e) < filled then TradeDayEnd(e) else filled))]
  }

  /** The clipped record's start is the later of its start and the trade-day
      start; its end is the earlier of its end and the trade-day end, and the
      trade-day end when it had none; the other columns are untouched. */
  predicate ClippedInto(out: Record, r: Record, e: Calendar.Instant)
    requires |r| == Width
  {
    && |out| == |r|
    && (forall k :: 0 <= k < |r| && k != StartColumn && k != EndColumn ==> out[k] == r[k])
    && (r[StartColumn].None? ==> out[StartColumn].None?)
    && (r[StartColumn].Some? && r[StartColumn].value.Time? ==>
          var t := r[StartColumn].value.t;
          out[StartColumn].Some? && out[StartColumn].value.Time?
          && var c := out[StartColumn].value.t;
          c >= t && c >= TradeDayStart(e) && (c == t || c == TradeDayStart(e)))
    && out[EndColumn].Some? && out[EndColumn].value.Time?
    && var c := out[EndColumn].value.t;
       c <= TradeDayEnd(e)
       && (r[EndColumn].None? ==> c == TradeDayEnd(e))
       && (r[EndColumn].Some? && r[EndColumn].value.Time? ==>
             var t := r[EndColumn].value.t; c <= t && (c == t || c == TradeDayEnd(e)))
  }

  /** The two `apply` calls and the `fillna` of `extract_all` on one report's
      records.  Comparing a Timestamp with a non-date value raises TypeError,
      and so does a start column holding no value at all: pandas then keeps
      the None objects, while a column mixing dates with empty cells holds NaT,
      which compares false and is kept. */
  function ClipToTradeDay(recs: seq<Record>, e: Calendar.Instant): Result<seq<Record>, string>
    requires forall r :: r in recs ==> |r| == Width
  {
    if recs != [] && !AnyStart(recs) then Err("TypeError") else ClipEach(recs, e)
  }

  /** Some record has a start value. */
  predicate AnyStart(recs: seq<Record>)
    requires forall r :: r in recs ==> |r| == Width
  {
    recs != [] && (recs[|recs| - 1][StartColumn].Some? || AnyStart(recs[..|recs| - 1]))
  }

  /** The records clipped one by one, or TypeError at the first start or end
      that is not a date-time. */
  function ClipEach(recs: seq<Record>, e: Calendar.Instant): Result<seq<Record>, string>
    requires forall r :: r in recs ==> |r| == Width
  {
    if recs == [] then Ok([])
    else
      match ClipEach(recs[..|recs| - 1], e)
      case Err(x) => Err(x)
      case Ok(out) =>
        var r := recs[|recs| - 1];
        if StartClippable(r) && EndClippable(r) then Ok(out + [ClipRecord(r, e)]) else Err("TypeError")
  }

  lemma {:induction false} AnyStartMeaning(recs: seq<Record>)
    requires forall r :: r in recs ==> |r| == Width
    ensures AnyStart(recs) <==> exists i :: 0 <= i < |recs| && recs[i][StartColumn].Some?
  {
    if recs != [] {
      var init := recs[..|recs| - 1];
      AnyStartMeaning(init);
      if exists i :: 0 <= i < |recs| && recs[i][StartColumn].Some? {
        var i :| 0 <= i < |recs| && recs[i][StartColumn].Some?;
        if i < |init| { assert init[i] == recs[i]; }
      }
    }
  }

  lemma {:induction false} ClipEachMeaning(recs: seq<Record>, e: Calendar.Instant)
    requires forall r :: r in recs ==> |r| == Width
    ensures var res := ClipEach(recs, e);
      && (res.Ok? <==> forall i :: 0 <= i < |recs| ==> StartClippable(recs[i]) && EndClippable(recs[i]))
      && (res.Ok? ==> |res.value| == |recs| && forall i :: 0 <= i < |recs| ==> ClippedInto(res.value[i], recs[i], e))
  {
    if recs != [] {
      var init := recs[..|recs| - 1];
      ClipEachMeaning(init, e);
      assert forall i :: 0 <= i < |init| ==> init[i] == recs[i];
    }
  }

  /** Clipping succeeds exactly when every start and end is a date-time or
      empty and some start is present (or there are no records); each record
      is then clipped into the trade day of e. */
  lemma ClipToTradeDayMeaning(recs: seq<Record>, e: Calendar.Instant)
    requires forall r :: r in recs ==> |r| == Width
    ensures var res := ClipToTradeDay(recs, e);
      && (res.Ok? <==>
            (forall i :: 0 <= i < |recs| ==> StartClippable(recs[i]) && EndClippable(recs[i]))
            && (recs == [] || exists i :: 0 <= i < |recs| && recs[i][StartColumn].Some?))
      && (res.Ok? ==> |res.value| == |recs| && forall i :: 0 <= i < |recs| ==> ClippedInto(res.value[i], recs[i], e))
  {
    AnyStartMeaning(recs);
    ClipEachMeaning(recs, e);
  }

  // ---- reading every report ------------------------------------------------------------

  /** The log paths `extract_all` reads: those whose date is one of the given
      dates, or every path when the list is empty. */
  function AllPaths(log: seq<LogEntry>, effectiveDates: seq<Calendar.Instant>): seq<FilePath>
  {
    if |effectiveDates| > 0 then Frames.Column(Frames.Filter(log, (e: LogEntry) => e.effectiveDate in effectiveDates), PathOf)
    else Frames.Column(log, PathOf)
  }

  /** One report: the records below its header, clipped to the trade day; a
      sheet whose header search ends at row 100 or later gives none. */
  function ReportRecords(ws: Worksheet, e: Calendar.Instant): Result<seq<Record>, string>
  {
    var h := HeaderRowNumber(ws);
    if h < LastHeaderRow then
      var ps := ColumnPositions(RowAt(ws, h));
      DataRecordsWidth(ws, ps, h, |ws|);
      ClipToTradeDay(DataRecords(ws, ps, h, |ws|), e)
    else Ok([])
  }

  /** The records of the first n (effective date, path) pairs of the `zip`, or
      the first error. */
  function ExtractedAll(dates: seq<Calendar.Instant>, paths: seq<FilePath>, books: map<FilePath, Worksheet>, n: nat)
    : Result<seq<Record>, string>
    requires n <= |dates| && n <= |paths|
  {
    if n == 0 then Ok([])
    else
      match ExtractedAll(dates, paths, books, n - 1)
      case Err(e) => Err(e)
      case Ok(acc) =>
        if paths[n - 1] !in books then Err("FileNotFoundError")
        else
          match ReportRecords(books[paths[n - 1]], dates[n - 1])
          case Err(e) => Err(e)
          case Ok(rs) => Ok(acc + rs)
  }

  lemma {:induction false} ExtractedAllErr(dates: seq<Calendar.Instant>, paths: seq<FilePath>,
                                           books: map<FilePath, Worksheet>, n: nat, m: nat)
    requires n <= m <= |dates| && m <= |paths| && ExtractedAll(dates, paths, books, n).Err?
    ensures ExtractedAll(dates, paths, books, m) == ExtractedAll(dates, paths, books, n)
    decreases m - n
  {
    if n < m {
      ExtractedAllErr(dates, paths, books, n, m - 1);
    }
  }

  /** A record lies in the trade day of e: it has every column, its start, when
      present, is a date-time no earlier than the trade day's start, and its
      end is a date-time no later than the trade day's end. */
  predicate InTradeDay(r: Record, e: Calendar.Instant)
  {
    && |r| == Width
    && (r[StartColumn].None? || (r[StartColumn].value.Time? && r[StartColumn].value.t >= TradeDayStart(e)))
    && r[EndColumn].Some? && r[EndColumn].value.Time? && r[EndColumn].value.t <= TradeDayEnd(e)
  }

  lemma ReportRecordsInTradeDay(ws: Worksheet, e: Calendar.Instant)
    requires ReportRecords(ws, e).Ok?
    ensures forall i :: 0 <= i < |ReportRecords(ws, e).value| ==> InTradeDay(ReportRecords(ws, e).value[i], e)
  {
    var h := HeaderRowNumber(ws);
    if h < LastHeaderRow {
      var ps := ColumnPositions(RowAt(ws, h));
      var recs := DataRecords(ws, ps, h, |ws|);
      DataRecordsWidth(ws, ps, h, |ws|);
      ClipToTradeDayMeaning(recs, e);
      var out := ClipToTradeDay(recs, e).value;
      forall i | 0 <= i < |out| ensures InTradeDay(out[i], e) {
        assert recs[i] in recs;
        ClippedInTradeDay(out[i], recs[i], e);
      }
    }
  }

  lemma ClippedInTradeDay(out: Record, r: Record, e: Calendar.Instant)
    requires |r| == Width && StartClippable(r) && ClippedInto(out, r, e)
    ensures InTradeDay(out, e)
  {
  }

  /** Every extracted record lies in the trade day of the effective date it was
      read under. */
  lemma {:induction false} ExtractedAllInTradeDays(dates: seq<Calendar.Instant>, paths: seq<FilePath>,
                                                   books: map<FilePath, Worksheet>, n: nat)
    requires n <= |dates| && n <= |paths| && ExtractedAll(dates, paths, books, n).Ok?
    ensures forall r :: r in ExtractedAll(dates, paths, books, n).value ==>
              exists j :: 0 <= j < n && InTradeDay(r, dates[j])
  {
    if n > 0 {
      ExtractedAllInTradeDays(dates, paths, books, n - 1);
      var ws := books[paths[n - 1]];
      ReportRecordsInTradeDay(ws, dates[n - 1]);
      var acc := ExtractedAll(dates, paths, books, n - 1).value;
      var rs := ReportRecords(ws, dates[n - 1]).value;
      forall r | r in acc + rs ensures exists j :: 0 <= j < n && InTradeDay(r, dates[j]) {
        if r in acc {
          var j :| 0 <= j < n - 1 && InTradeDay(r, dates[j]);
        } else {
          var i :| 0 <= i < |rs| && rs[i] == r;
          assert InTradeDay(rs[i], dates[n - 1]);
        }
      }
    }
  }

  /** One report of `extract_all`: the header search, the rows below the
      header, and the clipping. */
  method ReadReport(ws: Worksheet, e: Calendar.Instant) returns (r: Result<seq<Record>, string>)
    ensures r == ReportRecords(ws, e)
  {
    var h, header := FindHeaderRow(ws);
    if h < LastHeaderRow {
      var ps := ColumnPositions(header);
      var recs := ReadDataRows(ws, ps, h);
      DataRecordsWidth(ws, ps, h, |ws|);
      r := ClipToTradeDay(recs, e);
    } else {
      r := Ok([]);
    }
  }

  /** The loop of `extract_all` over the `zip` of effective dates and paths. */
  method ReadReports(dates: seq<Calendar.Instant>, paths: seq<FilePath>, books: map<FilePath, Worksheet>)
    returns (r: Result<seq<Record>, string>)
    ensures r == ExtractedAll(dates, paths, books, if |dates| < |paths| then |dates| else |paths|)
  {
    var n := if |dates| < |paths| then |dates| else |paths|;
    r := Ok([]);
    var i := 0;
    while i < n && r.Ok?
      invariant i <= n
      invariant r == ExtractedAll(dates, paths, books, i)
    {
      r := ReadPair(dates, paths, books, i, r.value);
      i := i + 1;
    }
    if r.Err? {
      ExtractedAllErr(dates, paths, books, i, n);
    }
  }

  /** One pass of the `extract_all` loop: the pair's report appended to the
      records so far. */
  method ReadPair(dates: seq<Calendar.Instant>, paths: seq<FilePath>, books: map<FilePath, Worksheet>,
                  i: nat, acc: seq<Record>) returns (r: Result<seq<Record>, string>)
    requires i < |dates| && i < |paths| && ExtractedAll(dates, paths, books, i) == Ok(acc)
    ensures r == ExtractedAll(dates, paths, books, i + 1)
  {
    if paths[i] !in books {
      return Err("FileNotFoundError");
    }
    var recs := ReadReport(books[paths[i]], dates[i]);
    if recs.Err? {
      return Err(recs.error);
    }
    return Ok(acc + recs.value);
  }

  // ---- monthly forced-outage rates ------------------------------------------------------

  /** The first day of t's month. */
  function MonthFirst(t: Calendar.Instant): (d: Calendar.Date)
    ensures Calendar.ValidDate(d) && d.day == 1
    ensures d.year == Calendar.YearOf(t) && d.month == Calendar.MonthOf(t)
    ensures Calendar.DayNumber(d) + Calendar.DayOf(t) - 1 == Calendar.DayIndex(t)
  {
    Calendar.Date(Calendar.YearOf(t), Calendar.MonthOf(t), 1)
  }

  /** The first day of the month after t's; December rolls over to January. */
  function NextMonthFirst(t: Calendar.Instant): (d: Calendar.Date)
    ensures Calendar.ValidDate(d) && d.day == 1
    ensures (d.year, d.month) == Calendar.NextMonth(Calendar.YearOf(t), Calendar.MonthOf(t))
    ensures Calendar.DayNumber(d)
            == Calendar.DayNumber(MonthFirst(t)) + Calendar.DaysInMonth(Calendar.YearOf(t), Calendar.MonthOf(t))
  {
    var y := Calendar.YearOf(t);
    var m := Calendar.MonthOf(t);
    Calendar.NextMonthDayNumber(y, m);
    Calendar.Date(Calendar.NextMonth(y, m).0, Calendar.NextMonth(y, m).1, 1)
  }

  /** `start_of_month`: midnight of the first of t's month, DayOf(t) - 1 days
      before t's own midnight. */
  function StartOfMonth(t: Calendar.Instant): (s: Calendar.Instant)
    ensures s <= t && s % Calendar.MicrosPerDay == 0
    ensures s / Calendar.MicrosPerDay == Calendar.DayIndex(t) - (Calendar.DayOf(t) - 1)
  {
    DayInstant(Calendar.DayNumber(MonthFirst(t)))
  }

  /** `end_of_month`: t moved to the first of the following month, keeping its
      time of day, less one microsecond. */
  function EndOfMonth(t: Calendar.Instant): Calendar.Instant
  {
    DayInstant(Calendar.DayNumber(NextMonthFirst(t))) + Calendar.TimeOfDay(t) - 1
  }

  /** An effective month's start, the instant itself and its end are in order. */
  lemma MonthOrder(t: Calendar.Instant)
    ensures StartOfMonth(t) <= t < EndOfMonth(t)
  {
    var first := MonthFirst(t);
    var dim := Calendar.DaysInMonth(first.year, first.month);
    var n := Calendar.DayNumber(NextMonthFirst(t));
    assert Calendar.DayOf(t) <= dim;
    assert Calendar.DayIndex(t) + 1 <= n;
    assert t == Calendar.DayIndex(t) * Calendar.MicrosPerDay + Calendar.TimeOfDay(t);
    assert EndOfMonth(t) == n * Calendar.MicrosPerDay + Calendar.TimeOfDay(t) - 1;
  }

  /** At midnight, end_of_month is the last microsecond of t's month; at any
      other time of day it falls on the first of the following month. */
  lemma EndOfMonthDate(t: Calendar.Instant)
    ensures var e := EndOfMonth(t);
      var first := MonthFirst(t);
      var dim := Calendar.DaysInMonth(first.year, first.month);
      && (Calendar.TimeOfDay(t) == 0 ==>
            && Calendar.DayIndex(e) == Calendar.DayNumber(first) + dim - 1
            && Calendar.DateOf(e) == Calendar.Date(first.year, first.month, dim)
            && Calendar.TimeOfDay(e) == Calendar.MicrosPerDay - 1)
      && (Calendar.TimeOfDay(t) > 0 ==>
            && Calendar.DayIndex(e) == Calendar.DayNumber(NextMonthFirst(t))
            && Calendar.DateOf(e) == NextMonthFirst(t)
            && Calendar.TimeOfDay(e) == Calendar.TimeOfDay(t) - 1)
  {
    var first := MonthFirst(t);
    var next := NextMonthFirst(t);
    var dim := Calendar.DaysInMonth(first.year, first.month);
    var n := Calendar.DayNumber(next);
    if Calendar.TimeOfDay(t) == 0 {
      var last := Calendar.Date(first.year, first.month, dim);
      assert Calendar.DayNumber(last) == n - 1;
      assert EndOfMonth(t) == (n - 1) * Calendar.MicrosPerDay + (Calendar.MicrosPerDay - 1);
      Calendar.DateOfDayNumber(last);
    } else {
      assert EndOfMonth(t) == n * Calendar.MicrosPerDay + (Calendar.TimeOfDay(t) - 1);
      Calendar.DateOfDayNumber(next);
    }
  }

  /** `effective_dates`: midnight of each day of t's month from the 1st to
      end_of_month's day. */
  function EffectiveDates(t: Calendar.Instant): (ds: seq<Calendar.Instant>)
    ensures |ds| == Calendar.DayOf(EndOfMonth(t))
    ensures forall k :: 0 <= k < |ds| ==> ds[k] == DayInstant(Calendar.DayNumber(MonthFirst(t)) + k)
  {
    EffectiveDayBound(t);
    MonthDays(MonthFirst(t), Calendar.DayOf(EndOfMonth(t)))
  }

  /** end_of_month's day is a day of t's month. */
  lemma EffectiveDayBound(t: Calendar.Instant)
    ensures 1 <= Calendar.DayOf(EndOfMonth(t)) <= Calendar.DaysInMonth(MonthFirst(t).year, MonthFirst(t).month)
  {
    EndOfMonthDate(t);
  }

  /** `[ts(year, month, d) for d in range(1, n + 1)]`: midnight of the month's
      first n days, one day apart. */
  function MonthDays(first: Calendar.Date, n: nat): (ds: seq<Calendar.Instant>)
    requires Calendar.ValidDate(first) && first.day == 1 && n <= Calendar.DaysInMonth(first.year, first.month)
    ensures |ds| == n
    ensures forall k :: 0 <= k < n ==> ds[k] == DayInstant(Calendar.DayNumber(first) + k)
  {
    seq(n, k requires 0 <= k < n => Calendar.Midnight(Calendar.Date(first.year, first.month, k + 1)))
  }

  /** `month_duration`: from start_of_month to the last microsecond of
      end_of_month's day. */
  function MonthDuration(t: Calendar.Instant): (d: nat)
    ensures d >= EndOfMonth(t) - StartOfMonth(t) && d >= Calendar.MicrosPerDay - 1
  {
    EndOfMonthDate(t);
    (Calendar.DayIndex(EndOfMonth(t)) + 1) * Calendar.MicrosPerDay - 1 - StartOfMonth(t)
  }

  /** For an effective month given at midnight: end_of_month is one
      microsecond before the first of the next month, the effective dates are
      every day of the month, and the month lasts all its days less one
      microsecond; given on the 1st, start_of_month is t itself. */
  lemma MonthAtMidnight(t: Calendar.Instant)
    requires Calendar.TimeOfDay(t) == 0
    ensures var first := MonthFirst(t);
      var dim := Calendar.DaysInMonth(first.year, first.month);
      && EndOfMonth(t) + 1 == Calendar.Midnight(NextMonthFirst(t))
      && Calendar.DateOf(EndOfMonth(t)) == Calendar.Date(first.year, first.month, dim)
      && |EffectiveDates(t)| == dim
      && MonthDuration(t) == dim * Calendar.MicrosPerDay - 1 == EndOfMonth(t) - StartOfMonth(t)
      && (Calendar.DayOf(t) == 1 ==> StartOfMonth(t) == t)
  {
    EndOfMonthDate(t);
    var first := MonthFirst(t);
    var dim := Calendar.DaysInMonth(first.year, first.month);
    var n := Calendar.DayNumber(first);
    assert StartOfMonth(t) == n * Calendar.MicrosPerDay;
    assert EndOfMonth(t) == (n + dim) * Calendar.MicrosPerDay - 1;
    if Calendar.DayOf(t) == 1 {
      assert t == Calendar.DayIndex(t) * Calendar.MicrosPerDay;
    }
  }

  /** Given at any other time of day, end_of_month lies on the first of the
      next month, only the 1st is an effective date, and the month duration
      takes in the whole first day of the next month. */
  lemma MonthOffMidnight(t: Calendar.Instant)
    requires Calendar.TimeOfDay(t) > 0
    ensures var first := MonthFirst(t);
      && Calendar.DateOf(EndOfMonth(t)) == NextMonthFirst(t)
      && EffectiveDates(t) == [Calendar.Midnight(first)]
      && MonthDuration(t) == (Calendar.DaysInMonth(first.year, first.month) + 1) * Calendar.MicrosPerDay - 1
  {
    EndOfMonthDate(t);
  }

  /** The filter `[['OUTAGE TYPE', 'FORCED']]`. */
  const ForcedFilter: Kvp := ("OUTAGE TYPE", Text("FORCED"))

  /** Both interval columns present (`dropna(subset=[start, end])`). */
  predicate HasInterval(r: Record)
  {
    CellValue(r, 5).Some? && CellValue(r, 6).Some?
  }

  function IntField(c: Option<Cell>): Result<Option<int>, string>
  {
    match c
    case None => Ok(None)
    case Some(Int(i)) => Ok(Some(i))
    case Some(_) => Err("TypeError")
  }

  function TextField(c: Option<Cell>): Result<Option<string>, string>
  {
    match c
    case None => Ok(None)
    case Some(Text(s)) => Ok(Some(s))
    case Some(_) => Err("TypeError")
  }

  function NumberField(c: Option<Cell>): Result<Option<real>, string>
  {
    match c
    case None => Ok(None)
    case Some(Int(i)) => Ok(Some(i as real))
    case Some(Real(x)) => Ok(Some(x))
    case Some(_) => Err("TypeError")
  }

  function TimeField(c: Option<Cell>): Result<Option<Calendar.Instant>, string>
  {
    match c
    case None => Ok(None)
    case Some(Time(t)) => Ok(Some(t))
    case Some(_) => Err("TypeError")
  }

  /** An extracted record as a curtailment report (the net qualifying capacity
      is not used). */
  function ToReport(r: Record): Result<CurtailmentEvents.Report, string>
  {
    match (IntField(CellValue(r, 0)), TextField(CellValue(r, 1)), TextField(CellValue(r, 2)),
           TextField(CellValue(r, 3)), TextField(CellValue(r, 4)), TimeField(CellValue(r, 5)),
           TimeField(CellValue(r, 6)), NumberField(CellValue(r, 7)), NumberField(CellValue(r, 8)))
    case (Ok(mrid), Ok(name), Ok(id), Ok(ot), Ok(nw), Ok(s), Ok(e), Ok(mw), Ok(pmax)) =>
      Ok(CurtailmentEvents.Report(mrid, name, id, ot, nw, s, e, mw, pmax))
    case _ => Err("TypeError")
  }

  /** The start raised to start_of_month and the end lowered to end_of_month. */
  function ClampToMonth(r: CurtailmentEvents.Report, som: Calendar.Instant, eom: Calendar.Instant)
    : CurtailmentEvents.Report
  {
    r.(start := if r.start.Some? && r.start.value < som then Some(som) else r.start,
       end := if r.end.Some? && eom < r.end.value then Some(eom) else r.end)
  }

  /** The forced outages of the month: records with both times, as reports,
      clamped into the month and reduced to the last report per (MRID, start). */
  function ForcedOutages(recs: seq<Record>, t: Calendar.Instant): Result<seq<CurtailmentEvents.Report>, string>
  {
    match Frames.MapAll(Frames.Filter(recs, HasInterval), ToReport)
    case Err(e) => Err(e)
    case Ok(reps) =>
      var som := StartOfMonth(t);
      var eom := EndOfMonth(t);
      Ok(CurtailmentEvents.Dedup(Frames.Column(reps, (r: CurtailmentEvents.Report) => ClampToMonth(r, som, eom))))
  }

  /** The report lies within [lo, hi]. */
  predicate Within(r: CurtailmentEvents.Report, lo: Calendar.Instant, hi: Calendar.Instant)
  {
    r.start.Some? && r.end.Some? && lo <= r.start.value && r.end.value <= hi
  }

  /** Every outage the rates are computed from lies within [start_of_month,
      end_of_month], and, when every record is a forced one, is reported as
      FORCED. */
  lemma ForcedOutagesInMonth(recs: seq<Record>, t: Calendar.Instant)
    ensures ForcedOutages(recs, t).Ok? ==>
      forall r :: r in ForcedOutages(recs, t).value ==> Within(r, StartOfMonth(t), EndOfMonth(t))
    ensures ForcedOutages(recs, t).Ok? && (forall r :: r in recs ==> CellValue(r, 3) == Some(Text("FORCED"))) ==>
      forall r :: r in ForcedOutages(recs, t).value ==> r.outageType == Some("FORCED")
  {
    var som := StartOfMonth(t);
    var eom := EndOfMonth(t);
    var kept := Frames.Filter(recs, HasInterval);
    var conv := Frames.MapAll(kept, ToReport);
    if conv.Ok? {
      var clamped := Frames.Column(conv.value, (r: CurtailmentEvents.Report) => ClampToMonth(r, som, eom));
      assert ForcedOutages(recs, t) == Ok(CurtailmentEvents.Dedup(clamped));
      ReportsInMonth(kept, conv.value, som, eom);
    }
  }

  /** The converted reports of the kept records, clamped and deduplicated,
      lie in [som, eom], and are FORCED when every kept record is. */
  lemma ReportsInMonth(kept: seq<Record>, reps: seq<CurtailmentEvents.Report>, som: Calendar.Instant,
                       eom: Calendar.Instant)
    requires forall r :: r in kept ==> HasInterval(r)
    requires |reps| == |kept| && forall i :: 0 <= i < |kept| ==> ToReport(kept[i]) == Ok(reps[i])
    ensures var ds := CurtailmentEvents.Dedup(Frames.Column(reps, (r: CurtailmentEvents.Report) => ClampToMonth(r, som, eom)));
      && (forall r :: r in ds ==> Within(r, som, eom))
      && ((forall r :: r in kept ==> CellValue(r, 3) == Some(Text("FORCED"))) ==>
            forall r :: r in ds ==> r.outageType == Some("FORCED"))
  {
    var clamped := Frames.Column(reps, (r: CurtailmentEvents.Report) => ClampToMonth(r, som, eom));
    ConvertedReports(kept, reps);
    ClampedWithin(reps, som, eom);
    DedupWithin(clamped, som, eom);
    if forall r :: r in kept ==> CellValue(r, 3) == Some(Text("FORCED")) {
      DedupForced(clamped);
    }
  }

  /** Records with both times convert to reports with both times; a FORCED
      record converts to a FORCED report. */
  lemma ConvertedReports(kept: seq<Record>, reps: seq<CurtailmentEvents.Report>)
    requires forall r :: r in kept ==> HasInterval(r)
    requires |reps| == |kept| && forall i :: 0 <= i < |kept| ==> ToReport(kept[i]) == Ok(reps[i])
    ensures forall i :: 0 <= i < |reps| ==> reps[i].start.Some? && reps[i].end.Some?
    ensures (forall r :: r in kept ==> CellValue(r, 3) == Some(Text("FORCED"))) ==>
              forall i :: 0 <= i < |reps| ==> reps[i].outageType == Some("FORCED")
  {
    forall i | 0 <= i < |kept|
      ensures reps[i].start.Some? && reps[i].end.Some?
      ensures CellValue(kept[i], 3) == Some(Text("FORCED")) ==> reps[i].outageType == Some("FORCED")
    {
      assert kept[i] in kept;
    }
  }

  /** Clamping puts every report with both times inside [som, eom]. */
  lemma ClampedWithin(reps: seq<CurtailmentEvents.Report>, som: Calendar.Instant, eom: Calendar.Instant)
    requires forall i :: 0 <= i < |reps| ==> reps[i].start.Some? && reps[i].end.Some?
    ensures var clamped := Frames.Column(reps, (r: CurtailmentEvents.Report) => ClampToMonth(r, som, eom));
      forall i :: 0 <= i < |clamped| ==>
        && clamped[i].start.Some? && clamped[i].end.Some? && som <= clamped[i].start.value && clamped[i].end.value <= eom
        && clamped[i].outageType == reps[i].outageType
  {
    var clamped := Frames.Column(reps, (r: CurtailmentEvents.Report) => ClampToMonth(r, som, eom));
    forall i | 0 <= i < |clamped|
      ensures clamped[i].start.Some? && clamped[i].end.Some? && som <= clamped[i].start.value && clamped[i].end.value <= eom
      ensures clamped[i].outageType == reps[i].outageType
    {
      assert clamped[i] == ClampToMonth(reps[i], som, eom);
    }
  }

  /** Deduplication keeps reports inside a window they all lie in. */
  lemma DedupWithin(rs: seq<CurtailmentEvents.Report>, lo: Calendar.Instant, hi: Calendar.Instant)
    requires forall i :: 0 <= i < |rs| ==> rs[i].start.Some? && rs[i].end.Some? && lo <= rs[i].start.value && rs[i].end.value <= hi
    ensures forall r :: r in CurtailmentEvents.Dedup(rs) ==> Within(r, lo, hi)
  {
    var ds := CurtailmentEvents.Dedup(rs);
    forall r | r in ds ensures Within(r, lo, hi) {
      var i :| 0 <= i < |ds| && ds[i] == r;
      CurtailmentEvents.DedupValuesFrom(rs, i);
    }
  }

  /** Deduplication keeps a common outage type. */
  lemma DedupForced(rs: seq<CurtailmentEvents.Report>)
    requires forall i :: 0 <= i < |rs| ==> rs[i].outageType == Some("FORCED")
    ensures forall r :: r in CurtailmentEvents.Dedup(rs) ==> r.outageType == Some("FORCED")
  {
    var ds := CurtailmentEvents.Dedup(rs);
    forall r | r in ds ensures r.outageType == Some("FORCED") {
      var i :| 0 <= i < |ds| && ds[i] == r;
      CurtailmentEvents.DedupValuesFrom(rs, i);
    }
  }

  // ---- outage-rate arithmetic ----------------------------------------------------------

  /** `CURTAILMENT DURATION`: end minus start in microseconds, negative when
      the end is earlier. */
  function Duration(r: CurtailmentEvents.Report): int
  {
    if r.start.Some? && r.end.Some? then r.end.value - r.start.value else 0
  }

  /** `total_seconds() / 3600` of a duration in microseconds. */
  function Hours(us: int): real
  {
    us as real / Calendar.MicrosPerHour as real
  }

  /** `OUTAGE MWH`: the MW times the duration in hours, null with the MW. */
  function ReportMwh(r: CurtailmentEvents.Report): Option<real>
  {
    if r.mw.Some? then Some(r.mw.value * Hours(Duration(r))) else None
  }

  /** The outages of one resource, in order. */
  function OfResource(ds: seq<CurtailmentEvents.Report>, id: string): seq<CurtailmentEvents.Report>
  {
    Frames.Filter(ds, (r: CurtailmentEvents.Report) => r.resourceId == Some(id))
  }

  predicate HasOutage(ds: seq<CurtailmentEvents.Report>, id: string)
  {
    OfResource(ds, id) != []
  }

  /** `groupby(...).sum()` of a nullable column: nulls are skipped, so a
      column of nulls sums to 0. */
  function SumSome(xs: seq<Option<real>>): real
  {
    if xs == [] then 0.0
    else SumSome(xs[..|xs| - 1]) + (if xs[|xs| - 1].Some? then xs[|xs| - 1].value else 0.0)
  }

  function CountSome(xs: seq<Option<real>>): nat
  {
    if xs == [] then 0
    else CountSome(xs[..|xs| - 1]) + (if xs[|xs| - 1].Some? then 1 else 0)
  }

  /** `groupby(...).mean()` of a nullable column: null when every value is. */
  function MeanSome(xs: seq<Option<real>>): Option<real>
  {
    if CountSome(xs) == 0 then None else Some(SumSome(xs) / CountSome(xs) as real)
  }

  /** `TOTAL OUTAGE TIME`: the sum of the durations. */
  function TotalTime(rs: seq<CurtailmentEvents.Report>): int
  {
    if rs == [] then 0 else TotalTime(rs[..|rs| - 1]) + Duration(rs[|rs| - 1])
  }

  /** One row of the result. */
  datatype OutageRate = OutageRate(
    resourceId: string, month: Calendar.Instant, capacity: Option<real>, totalOutageTime: int,
    sumCurtailmentMw: real, outageMwh: real, timeWeightedMw: Floats.Float,
    rateByTime: real, rateByMwh: Floats.Float)

  /** The row of a resource for the month starting at `month` and lasting
      `duration`: capacity as the mean PMAX, totals of time, MW and MWh, and
      the ratios of RowOf. */
  function RateOf(ds: seq<CurtailmentEvents.Report>, id: string, month: Calendar.Instant, duration: nat): OutageRate
    requires duration > 0
  {
    var rs := OfResource(ds, id);
    RowOf(id, month, MeanSome(Frames.Column(rs, CurtailmentEvents.PmaxOf)), TotalTime(rs),
          SumSome(Frames.Column(rs, CurtailmentEvents.MwOf)), SumSome(Frames.Column(rs, ReportMwh)), duration)
  }

  /** The row's ratios from its totals: MWh over outage hours, outage time over
      the month's duration, and MWh over capacity times the month's hours. */
  function RowOf(id: string, month: Calendar.Instant, capacity: Option<real>, total: int, mw: real, mwh: real,
                 duration: nat): OutageRate
    requires duration > 0
  {
    OutageRate(
      id, month, capacity, total, mw, mwh,
      Floats.Div(Floats.Finite(mwh), Floats.Finite(Hours(total))),
      total as real / duration as real,
      match capacity
      case None => Floats.NaN
      case Some(c) => Floats.Div(Floats.Finite(mwh), Floats.Finite(c * Hours(duration))))
  }

  /** The ratios of a row whose total is at most n spans no longer than the
      month. */
  lemma RowOfMeaning(id: string, month: Calendar.Instant, capacity: Option<real>, total: int, mw: real, mwh: real,
                     duration: nat, n: nat, span: nat)
    requires 0 < duration && span <= duration && total <= n * span
    ensures var row := RowOf(id, month, capacity, total, mw, mwh, duration);
      && ShareOf(row.rateByTime, total, duration, n)
      && EnergyRate(row.rateByMwh, mwh, capacity, duration)
  {
    RatioBound(total, n, span, duration);
    if capacity.Some? && capacity.value != 0.0 {
      ProductNonZero(capacity.value, Hours(duration));
    }
  }

  /** The listed resources that have a forced outage, in list order. */
  function WithOutage(ds: seq<CurtailmentEvents.Report>, ids: seq<string>): seq<string>
  {
    Frames.Filter(ids, (id: string) => HasOutage(ds, id))
  }

  /** The merges: a row per listed resource, in list order, dropped by the
      inner merges when the resource has no forced outage. */
  function RatesOf(ds: seq<CurtailmentEvents.Report>, ids: seq<string>, month: Calendar.Instant, duration: nat)
    : seq<OutageRate>
    requires duration > 0
  {
    Frames.Column(WithOutage(ds, ids), (id: string) => RateOf(ds, id, month, duration))
  }

  /** `calculate_monthly_outage_rates` after extraction.  The MONTH column is
      set to a scalar, which pandas refuses on a frame without rows: when no
      listed resource has a forced outage the call fails with a ValueError. */
  function OutageRates(recs: seq<Record>, ids: seq<string>, t: Calendar.Instant): Result<seq<OutageRate>, string>
  {
    match ForcedOutages(recs, t)
    case Err(e) => Err(e)
    case Ok(ds) =>
      var out := RatesOf(ds, ids, StartOfMonth(t), MonthDuration(t));
      if out == [] then Err("ValueError") else Ok(out)
  }

  /** `calculate_monthly_outage_rates`: the forced outages of the reports of
      the given paths, then the rates. */
  function MonthlyOutageRates(paths: seq<FilePath>, books: map<FilePath, Worksheet>, ids: seq<string>,
                              t: Calendar.Instant): Result<seq<OutageRate>, string>
  {
    match ExtractedByColumns(paths, [ForcedFilter], books, |paths|)
    case Err(e) => Err(e)
    case Ok(recs) => OutageRates(recs, ids, t)
  }

  /** A row is produced exactly for each listed resource that has a forced
      outage, as often as it is listed, in list order; a listed resource with
      none gets no row at all. */
  lemma RatesOfMeaning(ds: seq<CurtailmentEvents.Report>, ids: seq<string>, month: Calendar.Instant, duration: nat)
    requires duration > 0
    ensures var out := RatesOf(ds, ids, month, duration);
      && (forall i :: 0 <= i < |out| ==>
            && out[i].resourceId in ids && HasOutage(ds, out[i].resourceId)
            && out[i] == RateOf(ds, out[i].resourceId, month, duration))
      && (forall id :: id in ids && HasOutage(ds, id) ==> exists i :: 0 <= i < |out| && out[i].resourceId == id)
      && (forall id :: !HasOutage(ds, id) ==> forall i :: 0 <= i < |out| ==> out[i].resourceId != id)
    ensures var out := RatesOf(ds, ids, month, duration);
      var kept := WithOutage(ds, ids);
      |out| == |kept| && forall i :: 0 <= i < |out| ==> out[i].resourceId == kept[i]
  {
    var kept := WithOutage(ds, ids);
    var out := RatesOf(ds, ids, month, duration);
    RatesOfOrder(ds, ids, month, duration);
    forall id | id in ids && HasOutage(ds, id) ensures exists i :: 0 <= i < |out| && out[i].resourceId == id {
      assert id in kept;
      var i :| 0 <= i < |kept| && kept[i] == id;
      assert out[i] == RateOf(ds, kept[i], month, duration);
    }
    forall i | 0 <= i < |out|
      ensures out[i].resourceId in ids && HasOutage(ds, out[i].resourceId)
      ensures out[i] == RateOf(ds, out[i].resourceId, month, duration)
    {
      assert kept[i] in kept;
    }
  }

  /** Row i of the merged table is the rate row of the i-th listed resource
      with an outage. */
  lemma RatesOfOrder(ds: seq<CurtailmentEvents.Report>, ids: seq<string>, month: Calendar.Instant, duration: nat)
    requires duration > 0
    ensures var out := RatesOf(ds, ids, month, duration);
      var kept := WithOutage(ds, ids);
      |out| == |kept| && forall i :: 0 <= i < |out| ==> out[i] == RateOf(ds, kept[i], month, duration)
  {
  }

  /** No row is produced exactly when no listed resource has an outage. */
  lemma RatesOfEmpty(ds: seq<CurtailmentEvents.Report>, ids: seq<string>, month: Calendar.Instant, duration: nat)
    requires duration > 0
    ensures RatesOf(ds, ids, month, duration) == [] <==> forall id :: id in ids ==> !HasOutage(ds, id)
  {
    var kept := WithOutage(ds, ids);
    if kept != [] {
      assert kept[0] in kept;
    }
  }

  /** Outages within [lo, hi] add up to at most their number times hi - lo. */
  lemma {:induction false} TotalTimeBound(rs: seq<CurtailmentEvents.Report>, lo: Calendar.Instant, hi: Calendar.Instant)
    requires lo <= hi
    requires forall r :: r in rs ==> Within(r, lo, hi)
    ensures TotalTime(rs) <= |rs| * (hi - lo)
  {
    if rs != [] {
      var r := rs[|rs| - 1];
      assert r in rs;
      assert forall x :: x in rs[..|rs| - 1] ==> x in rs;
      TotalTimeBound(rs[..|rs| - 1], lo, hi);
      assert Duration(r) <= hi - lo;
      assert |rs| * (hi - lo) == (|rs| - 1) * (hi - lo) + (hi - lo);
    }
  }

  /** For outages within [som, eom] of a month lasting at least eom - som,
      a resource's rate by time times the month's duration is its total
      outage time and is at most the number of its outages; the row is
      stamped with the month start; the rate by energy is NaN without a
      capacity and MWh over capacity-hours otherwise. */
  lemma RateOfMeaning(ds: seq<CurtailmentEvents.Report>, id: string, som: Calendar.Instant, eom: Calendar.Instant,
                      duration: nat)
    requires som <= eom && 0 < duration && eom - som <= duration
    requires forall r :: r in ds ==> Within(r, som, eom)
    ensures var row := RateOf(ds, id, som, duration);
      && row.resourceId == id && row.month == som
      && ShareOf(row.rateByTime, row.totalOutageTime, duration, |OfResource(ds, id)|)
      && EnergyRate(row.rateByMwh, row.outageMwh, row.capacity, duration)
  {
    var rs := OfResource(ds, id);
    assert forall r :: r in rs ==> Within(r, som, eom);
    TotalTimeBound(rs, som, eom);
    RowOfMeaning(id, som, MeanSome(Frames.Column(rs, CurtailmentEvents.PmaxOf)), TotalTime(rs),
                 SumSome(Frames.Column(rs, CurtailmentEvents.MwOf)), SumSome(Frames.Column(rs, ReportMwh)),
                 duration, |rs|, eom - som);
  }

  /** The rates of a month: one row per listed resource with a forced outage
      in the month (none for the others), stamped with the month start, with a
      rate by time no larger than the resource's number of outages.  The call
      succeeds exactly when the forced outages can be read and some listed
      resource has one. */
  lemma OutageRatesMeaning(recs: seq<Record>, ids: seq<string>, t: Calendar.Instant)
    ensures OutageRates(recs, ids, t).Ok? <==>
      ForcedOutages(recs, t).Ok? && exists id :: id in ids && HasOutage(ForcedOutages(recs, t).value, id)
    ensures OutageRates(recs, ids, t).Ok? ==>
      RatesReport(OutageRates(recs, ids, t).value, ForcedOutages(recs, t).value, ids, StartOfMonth(t))
  {
    if ForcedOutages(recs, t).Ok? {
      var ds := ForcedOutages(recs, t).value;
      ForcedOutagesInMonth(recs, t);
      MonthRates(ds, ids, t);
    }
  }

  /** The rate rows `out` report the outages `ds` of the listed resources
      `ids` in the month starting at `month`: each row is a listed resource
      with an outage, in the month, with a time rate no larger than its number
      of outages; every listed resource with an outage has a row and no other
      resource does. */
  ghost predicate RatesReport(out: seq<OutageRate>, ds: seq<CurtailmentEvents.Report>, ids: seq<string>,
                        month: Calendar.Instant)
  {
    && (forall i :: 0 <= i < |out| ==>
          && out[i].resourceId in ids && HasOutage(ds, out[i].resourceId) && out[i].month == month
          && out[i].rateByTime <= |OfResource(ds, out[i].resourceId)| as real)
    && (forall id :: id in ids && HasOutage(ds, id) ==> exists i :: 0 <= i < |out| && out[i].resourceId == id)
    && (forall id :: !HasOutage(ds, id) ==> forall i :: 0 <= i < |out| ==> out[i].resourceId != id)
  }

  /** The rates of outages that all lie in the month of `t`. */
  lemma MonthRates(ds: seq<CurtailmentEvents.Report>, ids: seq<string>, t: Calendar.Instant)
    requires forall r :: r in ds ==> Within(r, StartOfMonth(t), EndOfMonth(t))
    ensures var out := RatesOf(ds, ids, StartOfMonth(t), MonthDuration(t));
      && (out == [] <==> forall id :: id in ids ==> !HasOutage(ds, id))
      && RatesReport(out, ds, ids, StartOfMonth(t))
  {
    var som := StartOfMonth(t);
    var d := MonthDuration(t);
    MonthOrder(t);
    RatesOfRows(ds, ids, som, EndOfMonth(t), d);
    RatesOfEmpty(ds, ids, som, d);
  }

  /** RatesOfMeaning with each row's month and time-rate bound. */
  lemma RatesOfRows(ds: seq<CurtailmentEvents.Report>, ids: seq<string>, som: Calendar.Instant, eom: Calendar.Instant,
                    d: nat)
    requires som <= eom && 0 < d && eom - som <= d
    requires forall r :: r in ds ==> Within(r, som, eom)
    ensures RatesReport(RatesOf(ds, ids, som, d), ds, ids, som)
  {
    RatesOfMeaning(ds, ids, som, d);
    forall id ensures RateOf(ds, id, som, d).month == som
                      && RateOf(ds, id, som, d).rateByTime <= |OfResource(ds, id)| as real {
      RateOfMeaning(ds, id, som, eom, d);
    }
  }

  /** The rate by energy: NaN without a capacity, otherwise the MWh over the
      capacity times the month's hours. */
  predicate EnergyRate(rate: Floats.Float, mwh: real, capacity: Option<real>, duration: nat)
  {
    && (capacity.None? ==> rate.NaN?)
    && (capacity.Some? && capacity.value != 0.0 && duration > 0 ==> rate == Floats.Finite(mwh / (capacity.value * Hours(duration))))
  }

  /** rate is total over duration, and at most n. */
  predicate ShareOf(rate: real, total: int, duration: nat, n: nat)
  {
    rate * duration as real == total as real && rate <= n as real
  }

  /** A total of at most n spans, each no longer than d, is at most n times d. */
  lemma RatioBound(total: int, n: nat, span: nat, d: nat)
    requires 0 < d && span <= d && total <= n * span
    ensures (total as real / d as real) * d as real == total as real
    ensures total as real / d as real <= n as real
  {
    assert n * span <= n * d by {
      assert n * d == n * span + n * (d - span);
    }
    assert (n * d) as real == n as real * d as real;
  }

  lemma ProductNonZero(a: real, b: real)
    requires a != 0.0 && b > 0.0
    ensures a * b != 0.0
  {
  }

  /** The OUTAGE TYPE filter keeps only records whose outage type is FORCED. */
  lemma ForcedFilterKeepsForced(paths: seq<FilePath>, books: map<FilePath, Worksheet>, r: Record)
    requires ExtractedByColumns(paths, [ForcedFilter], books, |paths|).Ok?
    requires r in ExtractedByColumns(paths, [ForcedFilter], books, |paths|).value
    ensures CellValue(r, 3) == Some(Text("FORCED"))
  {
    OutageTypeColumn();
    assert KnownColumns([ForcedFilter]);
    ExtractedByColumnsMeaning(paths, [ForcedFilter], books, |paths|, r);
    var j, i :| 0 <= j < |paths| && FirstDataRow <= i < |books[paths[j]]| && |books[paths[j]][i]| > 0
                && r == Project(books[paths[j]][i]) && MatchesAll(r, [ForcedFilter]);
    assert MatchesPair(r, [ForcedFilter][0]);
    assert CellEquals(r[3], Text("FORCED"));
    CellEqualsText(r[3], "FORCED");
  }

  /** Only a text cell equals a text value. */
  lemma CellEqualsText(c: Option<Cell>, s: string)
    ensures CellEquals(c, Text(s)) <==> c == Some(Text(s))
  {
  }

  /** OUTAGE TYPE is the fourth extracted column. */
  lemma OutageTypeColumn()
    ensures IndexOf(FilterColumns, "OUTAGE TYPE") == Some(3)
  {
    var x := "OUTAGE TYPE";
    assert FilterColumns[3] == x;
    assert FilterColumns[0][7] != x[7] && FilterColumns[1][0] != x[0] && FilterColumns[2][0] != x[0];
  }

  /** Every outage entering the monthly rates is a FORCED outage lying within
      the month. */
  lemma MonthlyOutagesForcedInMonth(paths: seq<FilePath>, books: map<FilePath, Worksheet>, t: Calendar.Instant)
    ensures var recs := ExtractedByColumns(paths, [ForcedFilter], books, |paths|);
      recs.Ok? && ForcedOutages(recs.value, t).Ok? ==>
        forall r :: r in ForcedOutages(recs.value, t).value ==>
          r.outageType == Some("FORCED") && Within(r, StartOfMonth(t), EndOfMonth(t))
  {
    var recs := ExtractedByColumns(paths, [ForcedFilter], books, |paths|);
    if recs.Ok? {
      forall r | r in recs.value ensures CellValue(r, 3) == Some(Text("FORCED")) {
        ForcedFilterKeepsForced(paths, books, r);
      }
      ForcedOutagesInMonth(recs.value, t);
    }
  }
}
