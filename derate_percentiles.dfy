/** Monthly percentiles of weather derate factors
    (scripts/derate_percentiles.py).

    Each derate file holds one weather year of hourly weather factors; the
    year comes from the file name and each hour's month from the hour of the
    year.  The result is a table with one row per calendar month and one
    column per requested percentile, each cell the percentile of that
    month's weather factors.  Derate file names of the form
    `<unit type>-<station>_<year>.csv` also give the resource classes, the
    distinct (unit type, station) pairs. */
module DeratePercentiles {
  import opened Wrappers
  import Calendar
  import Text
  import Frames
  import Grouping

  // ---- calculate_month ----------------------------------------------------

  /** Whether Jan 1 00:00 of year y plus (hour - 1) hours lies in the
      calendar of this model (from 1970 on). */
  predicate InCalendar(y: int, hour: int)
  {
    y >= Calendar.EpochYear && Calendar.JanFirst(y) + (hour - 1) * Calendar.MicrosPerHour >= 0
  }

  function HourInstant(y: int, hour: int): Calendar.Instant
    requires InCalendar(y, hour)
  {
    Calendar.JanFirst(y) + (hour - 1) * Calendar.MicrosPerHour
  }

  /** `calculate_month`: the month of Jan 1 00:00 of the file's year plus
      (Hour - 1) hours; None outside the calendar of this model. */
  function CalculateMonth(y: int, hour: int): (m: Option<int>)
    ensures m.Some? <==> InCalendar(y, hour)
    ensures m.Some? ==> 1 <= m.value <= 12
  {
    if InCalendar(y, hour) then Some(Calendar.MonthOf(HourInstant(y, hour))) else None
  }

  /** Hour 1 is in January. */
  lemma FirstHourInJanuary(y: int)
    requires y >= Calendar.EpochYear
    ensures CalculateMonth(y, 1) == Some(1)
  {
    Calendar.MidnightDate(Calendar.Date(y, 1, 1));
  }

  /** The hours 1 .. 24 * (days in the year) lie in the file's year. */
  lemma HourInYear(y: int, hour: int)
    requires y >= Calendar.EpochYear && 1 <= hour <= 24 * Calendar.DaysInYear(y)
    ensures InCalendar(y, hour) && Calendar.YearOf(HourInstant(y, hour)) == y
  {
    var d := Calendar.DaysInYear(y);
    HoursBelowYear(hour - 1, d);
    Calendar.InYear(HourInstant(y, hour), y);
  }

  lemma HoursBelowYear(h: nat, d: nat)
    requires h < 24 * d
    ensures h * Calendar.MicrosPerHour < d * Calendar.MicrosPerDay
  {
    assert h + 1 <= 24 * d;
    assert (h + 1) * Calendar.MicrosPerHour <= 24 * d * Calendar.MicrosPerHour;
  }

  /** Within the year, a later hour never has an earlier month. */
  lemma CalculateMonthMonotone(y: int, h1: int, h2: int)
    requires y >= Calendar.EpochYear && 1 <= h1 <= h2 <= 24 * Calendar.DaysInYear(y)
    ensures CalculateMonth(y, h1).Some? && CalculateMonth(y, h2).Some?
    ensures CalculateMonth(y, h1).value <= CalculateMonth(y, h2).value
  {
    HourInYear(y, h1);
    HourInYear(y, h2);
    assert (h1 - 1) * Calendar.MicrosPerHour <= (h2 - 1) * Calendar.MicrosPerHour;
    Calendar.MonthOrder(HourInstant(y, h1), HourInstant(y, h2));
  }

  /** Round trip with the hour of the year: the month computed from an
      instant's year and hour of the year is the instant's month. */
  lemma CalculateMonthRoundTrip(t: Calendar.Instant)
    ensures CalculateMonth(Calendar.YearOf(t), Calendar.HourOfYear(t)) == Some(Calendar.MonthOf(t))
  {
    Calendar.YearBounds(t);
    Calendar.HourStartOfHourOfYear(t);
  }

  // ---- the year in a file name ------------------------------------------

  /** The part of a name that `.` can match: up to the first newline. */
  function FirstLine(s: string): (r: string)
    ensures |r| <= |s| && r == s[..|r|]
    ensures forall i :: 0 <= i < |r| ==> r[i] != '\n'
    ensures |r| < |s| ==> s[|r|] == '\n'
  {
    if s == [] || s[0] == '\n' then [] else [s[0]] + FirstLine(s[1..])
  }

  lemma {:induction false} FirstLineWhole(s: string)
    requires forall i :: 0 <= i < |s| ==> s[i] != '\n'
    ensures FirstLine(s) == s
  {
    var r := FirstLine(s);
    if |r| < |s| {
      assert false;
    }
  }

  predicate DigitRunAt(s: string, i: nat)
    requires i + 4 <= |s|
  {
    Text.AllDigits(s[i..i + 4])
  }

  /** Where the greedy `.*(\d{4})` takes its four digits: the last run of
      four digits. */
  function LastDigitRun(s: string): (r: Option<nat>)
    ensures r.Some? ==> r.value + 4 <= |s| && DigitRunAt(s, r.value)
  {
    if |s| < 4 then None
    else if DigitRunAt(s, |s| - 4) then Some(|s| - 4)
    else
      var r := LastDigitRun(s[..|s| - 1]);
      if r.Some? then
        assert s[..|s| - 1][r.value..r.value + 4] == s[r.value..r.value + 4];
        r
      else r
  }

  /** The run found is the last one, and None means there is none. */
  lemma {:induction false} LastDigitRunMeaning(s: string)
    ensures LastDigitRun(s).Some? ==>
              forall j :: LastDigitRun(s).value < j && j + 4 <= |s| ==> !DigitRunAt(s, j)
    ensures LastDigitRun(s).None? ==> forall j :: 0 <= j && j + 4 <= |s| ==> !DigitRunAt(s, j)
  {
    if |s| >= 4 && !DigitRunAt(s, |s| - 4) {
      var init := s[..|s| - 1];
      LastDigitRunMeaning(init);
      forall j | 0 <= j && j + 4 <= |init|
        ensures DigitRunAt(s, j) == DigitRunAt(init, j)
      {
        assert init[j..j + 4] == s[j..j + 4];
      }
    }
  }

  /** `int(get_year.match(name).groups()[0])`; None where the pattern does
      not match, which raises AttributeError. */
  function YearFromName(name: string): (y: Option<nat>)
    ensures y.Some? ==> y.value < 10000
  {
    var line := FirstLine(name);
    match LastDigitRun(line)
    case None => None
    case Some(i) =>
      Text.ParseNatBound(line[i..i + 4]);
      assert Text.Pow10(4) == 10000;
      Some(Text.ParseNat(line[i..i + 4]))
  }

  /** A name with four digits followed only by non-digits gives those digits
      as the year, whatever digits come before them. */
  lemma YearFromNameRoundTrip(prefix: string, y: nat, suffix: string)
    requires y < 10000
    requires forall i :: 0 <= i < |prefix| ==> prefix[i] != '\n'
    requires forall i :: 0 <= i < |suffix| ==> suffix[i] != '\n' && !Text.IsDigit(suffix[i])
    ensures YearFromName(prefix + Text.Digits(y, 4) + suffix) == Some(y)
  {
    var ds := Text.Digits(y, 4);
    var name := prefix + ds + suffix;
    var n := |prefix|;
    forall i | 0 <= i < |name| ensures name[i] != '\n' {
      if i < n { assert name[i] == prefix[i]; }
      else if i < n + 4 { assert name[i] == ds[i - n]; }
      else { assert name[i] == suffix[i - n - 4]; }
    }
    FirstLineWhole(name);
    assert name[n..n + 4] == ds;
    assert DigitRunAt(name, n);
    LastDigitRunMeaning(name);
    forall j | n < j && j + 4 <= |name| ensures !DigitRunAt(name, j) {
      var q := if j <= n + 3 then n + 4 else j;
      assert name[q] == suffix[q - n - 4];
      assert name[j..j + 4][q - j] == name[q];
    }
    Text.ParseDigits(y, 4);
  }

  // ---- percentile labels -------------------------------------------------

  /** Python's rounding to an integer: to the nearest, ties to even. */
  function RoundHalfEven(x: real): (n: int)
    ensures x - 0.5 <= n as real <= x + 0.5
    ensures (n as real == x - 0.5 || n as real == x + 0.5) ==> n % 2 == 0
  {
    var f := x.Floor;
    var frac := x - f as real;
    if frac < 0.5 then f
    else if frac > 0.5 then f + 1
    else if f % 2 == 0 then f
    else f + 1
  }

  /** `f'{x:.0f}'`: the rounded value in decimal, keeping the minus sign of
      a negative x even where it rounds to 0. */
  function FormatWhole(x: real): string
  {
    if x < 0.0 then "-" + Text.Digits(RoundHalfEven(-x) as nat, 1)
    else Text.Digits(RoundHalfEven(x) as nat, 1)
  }

  /** `f'Percentile {100*p:.0f}'`. */
  function PercentileLabel(p: real): string
  {
    "Percentile " + FormatWhole(100.0 * p)
  }

  /** The label reads back as 100 p rounded. */
  lemma PercentileLabelRoundTrip(p: real)
    requires 0.0 <= p
    ensures var s := PercentileLabel(p)[11..];
            Text.AllDigits(s) && Text.ParseNat(s) == RoundHalfEven(100.0 * p)
  {
    Text.ParseDigits(RoundHalfEven(100.0 * p) as nat, 1);
  }

  /** Percentiles more than 1/100 apart get different labels. */
  lemma PercentileLabelsDistinct(p: real, q: real)
    requires 0.0 <= p && p + 0.01 < q
    ensures PercentileLabel(p) != PercentileLabel(q)
  {
    PercentileLabelRoundTrip(p);
    PercentileLabelRoundTrip(q);
  }

  // ---- Series.quantile ----------------------------------------------------

  predicate ValidPercentile(p: real)
  {
    0.0 <= p <= 1.0
  }

  /** Every requested percentile is in [0, 1]. */
  predicate AllValid(ps: seq<real>)
  {
    forall k :: 0 <= k < |ps| ==> ValidPercentile(ps[k])
  }

  predicate SortedReals(s: seq<real>)
  {
    forall i, j :: 0 <= i < j < |s| ==> s[i] <= s[j]
  }

  function InsertSorted(x: real, s: seq<real>): (r: seq<real>)
    ensures |r| == |s| + 1
  {
    if s == [] || x <= s[0] then [x] + s else [s[0]] + InsertSorted(x, s[1..])
  }

  /** Inserting into ascending values keeps them ascending. */
  lemma {:induction false} InsertSortedSorted(x: real, s: seq<real>)
    requires SortedReals(s)
    ensures SortedReals(InsertSorted(x, s))
    ensures InsertSorted(x, s)[0] == x || (s != [] && InsertSorted(x, s)[0] == s[0])
  {
    if s != [] && x > s[0] {
      var t := InsertSorted(x, s[1..]);
      InsertSortedSorted(x, s[1..]);
      assert s[0] <= t[0];
      forall i, j | 0 <= i < j < |t| + 1 ensures ([s[0]] + t)[i] <= ([s[0]] + t)[j] {
        if i > 0 {
          assert ([s[0]] + t)[i] == t[i - 1] && ([s[0]] + t)[j] == t[j - 1];
        } else {
          assert t[0] <= t[j - 1];
        }
      }
    }
  }

  /** Inserting adds exactly the new value. */
  lemma {:induction false} InsertSortedMultiset(x: real, s: seq<real>)
    ensures multiset(InsertSorted(x, s)) == multiset(s) + multiset{x}
  {
    if s != [] && x > s[0] {
      InsertSortedMultiset(x, s[1..]);
      assert s == [s[0]] + s[1..];
    }
  }

  /** The values in ascending order. */
  function SortReals(xs: seq<real>): (r: seq<real>)
    ensures |r| == |xs|
  {
    if xs == [] then [] else InsertSorted(xs[|xs| - 1], SortReals(xs[..|xs| - 1]))
  }

  /** Sorting gives ascending values that are a permutation of the input. */
  lemma {:induction false} SortRealsMeaning(xs: seq<real>)
    ensures SortedReals(SortReals(xs)) && multiset(SortReals(xs)) == multiset(xs)
  {
    if xs != [] {
      var init := xs[..|xs| - 1];
      SortRealsMeaning(init);
      InsertSortedSorted(xs[|xs| - 1], SortReals(init));
      InsertSortedMultiset(xs[|xs| - 1], SortReals(init));
      assert xs == init + [xs[|xs| - 1]];
    }
  }

  /** `Series.quantile(p)` with its default linear interpolation; None
      (NaN) for no values. */
  function Quantile(xs: seq<real>, p: real): (q: Option<real>)
    requires ValidPercentile(p)
    ensures q.None? <==> xs == []
  {
    if xs == [] then None else Some(Interpolate(SortReals(xs), p))
  }

  /** The value at position (n - 1) p of ascending values, interpolated
      between its neighbours. */
  function Interpolate(s: seq<real>, p: real): real
    requires s != [] && ValidPercentile(p)
  {
    var r := Position(|s|, p);
    if r.0 + 1 < |s| then Lerp(s[r.0], s[r.0 + 1], r.1) else s[r.0]
  }

  function Lerp(a: real, b: real, t: real): real
  {
    a + t * (b - a)
  }

  /** The whole and fractional parts of (n - 1) p. */
  function Position(n: nat, p: real): (r: (nat, real))
    requires n >= 1 && ValidPercentile(p)
    ensures r.0 < n && 0.0 <= r.1 < 1.0
    ensures r.0 as real + r.1 == (n - 1) as real * p
  {
    var c := (n - 1) as real;
    var h := c * p;
    assert 0.0 <= h <= c by {
      ScaleMonotone(c, 0.0, p);
      ScaleMonotone(c, p, 1.0);
      assert c * 0.0 == 0.0 && c * 1.0 == c;
    }
    (h.Floor as nat, h - h.Floor as real)
  }

  /** A larger percentile has a later position. */
  lemma PositionMonotone(n: nat, p1: real, p2: real)
    requires n >= 1 && ValidPercentile(p1) && ValidPercentile(p2) && p1 <= p2
    ensures Position(n, p1).0 <= Position(n, p2).0
    ensures Position(n, p1).0 == Position(n, p2).0 ==> Position(n, p1).1 <= Position(n, p2).1
  {
    var c := (n - 1) as real;
    ScaleMonotone(c, p1, p2);
    FloorMonotone(c * p1, c * p2);
  }

  /** Whole and fractional parts of two ordered reals are ordered. */
  lemma FloorMonotone(x: real, y: real)
    requires x <= y
    ensures x.Floor <= y.Floor
    ensures x.Floor == y.Floor ==> x - x.Floor as real <= y - y.Floor as real
  {
    assert x.Floor as real <= x && y < y.Floor as real + 1.0;
    assert x.Floor as real < (y.Floor + 1) as real;
  }

  lemma ScaleMonotone(c: real, a: real, b: real)
    requires c >= 0.0 && a <= b
    ensures c * a <= c * b
  {
  }

  /** Interpolating further along never goes down. */
  lemma LerpMonotone(a: real, b: real, t1: real, t2: real)
    requires a <= b && t1 <= t2
    ensures Lerp(a, b, t1) <= Lerp(a, b, t2)
  {
    ScaleMonotone(b - a, t1, t2);
    assert (b - a) * t1 == t1 * (b - a) && (b - a) * t2 == t2 * (b - a);
  }

  /** Linear interpolation stays between its ends. */
  lemma Between(a: real, b: real, t: real)
    requires a <= b && 0.0 <= t <= 1.0
    ensures a <= Lerp(a, b, t) <= b
  {
    ScaleMonotone(b - a, 0.0, t);
    ScaleMonotone(b - a, t, 1.0);
    assert (b - a) * t == t * (b - a);
  }

  /** Interpolation in ascending values stays between the first and the last. */
  lemma InterpolateWithin(s: seq<real>, p: real)
    requires s != [] && ValidPercentile(p) && SortedReals(s)
    ensures s[0] <= Interpolate(s, p) <= s[|s| - 1]
  {
    var r := Position(|s|, p);
    assert s[0] <= s[r.0];
    if r.0 + 1 < |s| {
      assert s[r.0 + 1] <= s[|s| - 1];
      Between(s[r.0], s[r.0 + 1], r.1);
    }
  }

  /** Interpolation in ascending values is non-decreasing in p. */
  lemma InterpolateMonotone(s: seq<real>, p1: real, p2: real)
    requires s != [] && ValidPercentile(p1) && ValidPercentile(p2) && p1 <= p2 && SortedReals(s)
    ensures Interpolate(s, p1) <= Interpolate(s, p2)
  {
    var n := |s|;
    var r1 := Position(n, p1);
    var r2 := Position(n, p2);
    PositionMonotone(n, p1, p2);
    if r1.0 == r2.0 {
      if r1.0 + 1 < n {
        LerpMonotone(s[r1.0], s[r1.0 + 1], r1.1, r2.1);
      }
    } else {
      Between(s[r1.0], s[r1.0 + 1], r1.1);
      assert s[r1.0 + 1] <= s[r2.0];
      if r2.0 + 1 < n {
        Between(s[r2.0], s[r2.0 + 1], r2.1);
      }
    }
  }

  /** The ends of ascending values that permute xs are a smallest and a
      largest value of xs. */
  lemma SortedEnds(xs: seq<real>, s: seq<real>)
    requires xs != [] && SortedReals(s) && multiset(s) == multiset(xs)
    ensures |s| == |xs| && s[0] in xs && s[|s| - 1] in xs
    ensures forall j :: 0 <= j < |xs| ==> s[0] <= xs[j] <= s[|s| - 1]
  {
    assert |s| == |multiset(s)| == |xs|;
    assert s[0] in multiset(s) && s[|s| - 1] in multiset(s);
    forall j | 0 <= j < |xs| ensures s[0] <= xs[j] <= s[|s| - 1] {
      assert xs[j] in multiset(xs);
      var k :| 0 <= k < |s| && s[k] == xs[j];
    }
  }

  /** A percentile lies between the smallest and the largest value. */
  lemma QuantileWithin(xs: seq<real>, p: real, lo: real, hi: real)
    requires ValidPercentile(p)
    requires forall j :: 0 <= j < |xs| ==> lo <= xs[j] <= hi
    ensures Quantile(xs, p).Some? ==> lo <= Quantile(xs, p).value <= hi
  {
    if xs != [] {
      SortRealsMeaning(xs);
      SortedEnds(xs, SortReals(xs));
      InterpolateWithin(SortReals(xs), p);
    }
  }

  /** The 0th percentile is the smallest value and the 100th the largest. */
  lemma QuantileEnds(xs: seq<real>)
    requires xs != []
    ensures Quantile(xs, 0.0).value in xs && forall j :: 0 <= j < |xs| ==> Quantile(xs, 0.0).value <= xs[j]
    ensures Quantile(xs, 1.0).value in xs && forall j :: 0 <= j < |xs| ==> xs[j] <= Quantile(xs, 1.0).value
  {
    var s := SortReals(xs);
    SortRealsMeaning(xs);
    SortedEnds(xs, s);
    assert Interpolate(s, 0.0) == s[0];
    assert Interpolate(s, 1.0) == s[|s| - 1];
  }

  /** A higher percentile is never smaller. */
  lemma QuantileMonotone(xs: seq<real>, p1: real, p2: real)
    requires ValidPercentile(p1) && ValidPercentile(p2) && p1 <= p2 && xs != []
    ensures Quantile(xs, p1).value <= Quantile(xs, p2).value
  {
    SortRealsMeaning(xs);
    InterpolateMonotone(SortReals(xs), p1, p2);
  }

  // ---- calculate_derate_percentiles ----------------------------------------

  function Percentiles(xs: seq<real>, ps: seq<real>): (r: seq<Option<real>>)
    requires AllValid(ps)
    ensures |r| == |ps| && forall k :: 0 <= k < |ps| ==> r[k] == Quantile(xs, ps[k])
  {
    if ps == [] then [] else Percentiles(xs, ps[..|ps| - 1]) + [Quantile(xs, ps[|ps| - 1])]
  }

  /** `calculate_derate_percentiles`: the requested percentiles of one file's
      weather factors, in the order requested; `quantile` raises for a
      percentile outside [0, 1]. */
  method CalculateDeratePercentiles(factors: seq<real>, ps: seq<real>) returns (r: Result<seq<Option<real>>, string>)
    ensures r.Ok? <==> AllValid(ps)
    ensures r.Ok? ==> r.value == Percentiles(factors, ps)
  {
    var values: seq<Option<real>> := [];
    var k := 0;
    while k < |ps|
      invariant k <= |ps|
      invariant forall j :: 0 <= j < k ==> ValidPercentile(ps[j])
      invariant values == Percentiles(factors, ps[..k])
    {
      if !ValidPercentile(ps[k]) {
        return Err("percentiles should all be in the interval [0, 1]");
      }
      assert ps[..k + 1][..k] == ps[..k];
      values := values + [Quantile(factors, ps[k])];
      k := k + 1;
    }
    assert ps[..k] == ps;
    r := Ok(values);
  }

  // ---- calculate_monthly_derate_percentiles --------------------------------

  datatype DerateRow = DerateRow(hour: int, weatherFactor: real)

  /** A derate file: its name and its rows. */
  datatype DerateFile = DerateFile(name: string, rows: seq<DerateRow>)

  /** A row of the combined `derates` frame: the file's year, the row's
      month and its weather factor. */
  datatype DerateRecord = DerateRecord(year: int, month: int, weatherFactor: real)

  /** One row of the result: the month and a cell per column label. */
  datatype MonthRow = MonthRow(month: int, cells: map<string, Option<real>>)

  datatype PercentileTable = PercentileTable(columns: seq<string>, rows: seq<MonthRow>)

  /** The Month column of one file's rows, `apply(calculate_month)` row by
      row, with the file's year. */
  function RowRecords(y: int, rows: seq<DerateRow>): (r: Result<seq<DerateRecord>, string>)
    ensures r.Ok? <==> forall j :: 0 <= j < |rows| ==> InCalendar(y, rows[j].hour)
    ensures r.Ok? ==> |r.value| == |rows|
    ensures r.Ok? ==> forall j :: 0 <= j < |rows| ==>
              r.value[j] == DerateRecord(y, CalculateMonth(y, rows[j].hour).value, rows[j].weatherFactor)
  {
    if rows == [] then Ok([])
    else
      var last := rows[|rows| - 1];
      match RowRecords(y, rows[..|rows| - 1])
      case Err(e) => Err(e)
      case Ok(rs) =>
        match CalculateMonth(y, last.hour)
        case None => Err("hour outside the calendar")
        case Some(m) => Ok(rs + [DerateRecord(y, m, last.weatherFactor)])
  }

  /** A file that reads: its name holds a year, it has a row, and every
      hour lies within the calendar from that year's start. */
  predicate FileReadable(f: DerateFile)
  {
    && YearFromName(f.name).Some? && f.rows != []
    && forall j :: 0 <= j < |f.rows| ==> InCalendar(YearFromName(f.name).value, f.rows[j].hour)
  }

  /** One file's records.  The Year column is set to a scalar, which pandas
      refuses on a frame without rows, so a file holding only its header
      fails with a ValueError. */
  function FileRecords(f: DerateFile): (r: Result<seq<DerateRecord>, string>)
    ensures r.Ok? <==> FileReadable(f)
    ensures r.Ok? ==> |r.value| == |f.rows|
    ensures r.Ok? ==> forall j :: 0 <= j < |f.rows| ==>
              r.value[j] == DerateRecord(YearFromName(f.name).value,
                                         CalculateMonth(YearFromName(f.name).value, f.rows[j].hour).value,
                                         f.rows[j].weatherFactor)
  {
    match YearFromName(f.name)
    case None => Err("no four-digit year in the file name")
    case Some(y) =>
      if f.rows == [] then Err("ValueError") else RowRecords(y, f.rows)
  }

  /** Reading succeeds exactly when every file reads. */
  lemma {:induction false} AllRecordsOk(files: seq<DerateFile>)
    ensures AllRecords(files).Ok? <==> forall i :: 0 <= i < |files| ==> FileReadable(files[i])
  {
    if files != [] {
      AllRecordsOk(files[..|files| - 1]);
      AllRecordsOkStep(files);
      AllReadableStep(files);
    }
  }

  /** Every file reads. */
  predicate AllReadable(files: seq<DerateFile>)
  {
    forall i :: 0 <= i < |files| ==> FileReadable(files[i])
  }

  /** One more file reads on top of the others exactly when they do and it
      does. */
  lemma AllRecordsOkStep(files: seq<DerateFile>)
    requires files != []
    ensures AllRecords(files).Ok? <==> AllRecords(files[..|files| - 1]).Ok? && FileReadable(files[|files| - 1])
  {
  }

  /** Every file of one more reads exactly when the earlier ones do and it
      does. */
  lemma AllReadableStep(files: seq<DerateFile>)
    requires files != []
    ensures AllReadable(files) <==> AllReadable(files[..|files| - 1]) && FileReadable(files[|files| - 1])
  {
    var init := files[..|files| - 1];
    assert forall i :: 0 <= i < |init| ==> init[i] == files[i];
  }

  /** The `derates` frame: every file's records, file after file; the first
      failure stops the reading. */
  function AllRecords(files: seq<DerateFile>): Result<seq<DerateRecord>, string>
  {
    if files == [] then Ok([])
    else
      match AllRecords(files[..|files| - 1])
      case Err(e) => Err(e)
      case Ok(rs) =>
        match FileRecords(files[|files| - 1])
        case Err(e) => Err(e)
        case Ok(more) => Ok(rs + more)
  }

  /** Every record read has a month in 1..12. */
  lemma {:induction false} RecordMonths(files: seq<DerateFile>)
    ensures AllRecords(files).Ok? ==>
              forall j :: 0 <= j < |AllRecords(files).value| ==> 1 <= AllRecords(files).value[j].month <= 12
  {
    if files != [] {
      RecordMonths(files[..|files| - 1]);
    }
  }

  /** A failure in the files read so far is the final result. */
  lemma {:induction false} AllRecordsFailed(files: seq<DerateFile>, i: nat)
    requires i <= |files| && AllRecords(files[..i]).Err?
    ensures AllRecords(files) == AllRecords(files[..i])
    decreases |files| - i
  {
    if i < |files| {
      assert files[..i + 1][..i] == files[..i];
      AllRecordsFailed(files, i + 1);
    } else {
      assert files[..i] == files;
    }
  }

  /** The weather factors of one month's records
      (`derates.loc[derates.Month == month, 'Weather Factor']`). */
  function MonthFactors(rs: seq<DerateRecord>, m: int): seq<real>
  {
    if rs == [] then []
    else if rs[|rs| - 1].month == m then MonthFactors(rs[..|rs| - 1], m) + [rs[|rs| - 1].weatherFactor]
    else MonthFactors(rs[..|rs| - 1], m)
  }

  /** A month's factors are those of the records of that month, in order. */
  lemma {:induction false} MonthFactorsMeaning(rs: seq<DerateRecord>, m: int)
    ensures MonthFactors(rs, m) == Frames.Column(Frames.Filter(rs, (r: DerateRecord) => r.month == m), (r: DerateRecord) => r.weatherFactor)
  {
    if rs != [] {
      MonthFactorsMeaning(rs[..|rs| - 1], m);
    }
  }

  /** Records of other months leave a month's factors unchanged. */
  lemma {:induction false} OtherMonthsIgnored(rs: seq<DerateRecord>, others: seq<DerateRecord>, m: int)
    requires forall j :: 0 <= j < |others| ==> others[j].month != m
    ensures MonthFactors(rs + others, m) == MonthFactors(rs, m)
  {
    if others != [] {
      var init := others[..|others| - 1];
      assert (rs + others)[..|rs + others| - 1] == rs + init;
      OtherMonthsIgnored(rs, init, m);
    } else {
      assert rs + others == rs;
    }
  }

  /** The labels of the percentile columns, in order. */
  function Labels(ps: seq<real>): seq<string>
  {
    Frames.MapValues(ps, PercentileLabel)
  }

  /** One month's cells, written percentile after percentile; a label that
      repeats keeps the last value written. */
  function Cells(factors: seq<real>, ps: seq<real>): map<string, Option<real>>
    requires AllValid(ps)
  {
    if ps == [] then map[]
    else Cells(factors, ps[..|ps| - 1])[PercentileLabel(ps[|ps| - 1]) := Quantile(factors, ps[|ps| - 1])]
  }

  /** Each label holds the percentile of its last occurrence among the
      requested percentiles, and there is a cell for every label and only
      those. */
  lemma {:induction false} CellsMeaning(factors: seq<real>, ps: seq<real>, k: nat)
    requires AllValid(ps)
    requires k < |ps| && forall j :: k < j < |ps| ==> PercentileLabel(ps[j]) != PercentileLabel(ps[k])
    ensures PercentileLabel(ps[k]) in Cells(factors, ps)
    ensures Cells(factors, ps)[PercentileLabel(ps[k])] == Quantile(factors, ps[k])
  {
    if k < |ps| - 1 {
      CellsMeaning(factors, ps[..|ps| - 1], k);
    }
  }

  /** Writing one more percentile's cell. */
  lemma CellsStep(factors: seq<real>, ps: seq<real>, k: nat)
    requires k < |ps| && AllValid(ps[..k]) && ValidPercentile(ps[k])
    ensures AllValid(ps[..k + 1])
    ensures Cells(factors, ps[..k + 1]) == Cells(factors, ps[..k])[PercentileLabel(ps[k]) := Quantile(factors, ps[k])]
  {
    assert ps[..k + 1][..k] == ps[..k];
  }

  /** A month has a cell for every label and only those. */
  lemma {:induction false} CellsKeys(factors: seq<real>, ps: seq<real>)
    requires AllValid(ps)
    ensures Cells(factors, ps).Keys == set l | l in Labels(ps)
  {
    if ps != [] {
      var init := ps[..|ps| - 1];
      CellsKeys(factors, init);
      assert Labels(ps) == Labels(init) + [PercentileLabel(ps[|ps| - 1])];
      ElementsAppend(Labels(init), PercentileLabel(ps[|ps| - 1]));
    }
  }

  lemma ElementsAppend<T>(xs: seq<T>, x: T)
    ensures (set y | y in xs + [x]) == (set y | y in xs) + {x}
  {
  }

  function MonthRowOf(rs: seq<DerateRecord>, ps: seq<real>, m: int): MonthRow
    requires AllValid(ps)
  {
    MonthRow(m, Cells(MonthFactors(rs, m), ps))
  }

  /** The months of a year, one row each. */
  const MonthCount: nat := 12

  /** The rows for months 1..n. */
  function MonthRows(rs: seq<DerateRecord>, ps: seq<real>, n: nat): (rows: seq<MonthRow>)
    requires AllValid(ps)
    ensures |rows| == n && forall i :: 0 <= i < n ==> rows[i] == MonthRowOf(rs, ps, i + 1)
  {
    if n == 0 then [] else MonthRows(rs, ps, n - 1) + [MonthRowOf(rs, ps, n)]
  }

  /** `calculate_monthly_derate_percentiles`: the records of all files, then
      a table with columns 'Month' and the percentile labels and a row per
      month 1..12.  Reading fails on a name without a year; `quantile`
      fails on a percentile outside [0, 1]. */
  function MonthlyTable(files: seq<DerateFile>, ps: seq<real>): Result<PercentileTable, string>
  {
    match AllRecords(files)
    case Err(e) => Err(e)
    case Ok(rs) =>
      if AllValid(ps) then
        Ok(PercentileTable(["Month"] + Labels(ps), MonthRows(rs, ps, MonthCount)))
      else Err("percentiles should all be in the interval [0, 1]")
  }

  /** What the table promises: twelve rows for months 1..12 in order, the
      'Month' column then one column per requested percentile, and in each
      row the percentile of that month's weather factors under every label
      whose percentile is not requested again later. */
  lemma MonthlyTableMeaning(files: seq<DerateFile>, ps: seq<real>, i: nat, k: nat)
    requires MonthlyTable(files, ps).Ok? && i < MonthCount && k < |ps|
    requires forall j :: k < j < |ps| ==> PercentileLabel(ps[j]) != PercentileLabel(ps[k])
    ensures var t := MonthlyTable(files, ps).value;
            |t.rows| == MonthCount && t.rows[i].month == i + 1
            && t.columns == ["Month"] + Labels(ps)
            && PercentileLabel(ps[k]) in t.rows[i].cells
            && t.rows[i].cells[PercentileLabel(ps[k])]
               == Quantile(MonthFactors(AllRecords(files).value, i + 1), ps[k])
  {
    CellsMeaning(MonthFactors(AllRecords(files).value, i + 1), ps, k);
  }

  /** The whole table fails exactly when some file does not read (no year in
      its name, no rows, or an hour outside the calendar) or a percentile is
      outside [0, 1]. */
  lemma MonthlyTableFails(files: seq<DerateFile>, ps: seq<real>)
    ensures MonthlyTable(files, ps).Err? <==>
              (exists i :: 0 <= i < |files| && !FileReadable(files[i]))
              || exists k :: 0 <= k < |ps| && !ValidPercentile(ps[k])
  {
    AllRecordsOk(files);
  }

  /** Reading the files, as the first loop does. */
  method ReadDerates(files: seq<DerateFile>) returns (r: Result<seq<DerateRecord>, string>)
    ensures r == AllRecords(files)
  {
    var derates: seq<DerateRecord> := [];
    var i := 0;
    while i < |files|
      invariant i <= |files|
      invariant AllRecords(files[..i]) == Ok(derates)
    {
      ReadStep(files, i, derates);
      var year := YearFromName(files[i].name);
      if year.None? {
        AllRecordsFailed(files, i + 1);
        return Err("no four-digit year in the file name");
      }
      if files[i].rows == [] {
        AllRecordsFailed(files, i + 1);
        return Err("ValueError");
      }
      var fileRecords := FileMonths(year.value, files[i].rows);
      if fileRecords.Err? {
        AllRecordsFailed(files, i + 1);
        return fileRecords;
      }
      derates := derates + fileRecords.value;
      i := i + 1;
    }
    assert files[..i] == files;
    r := Ok(derates);
  }

  /** Reading one more file after the first i read: the first i records
      followed by the file's, or the file's error. */
  lemma ReadStep(files: seq<DerateFile>, i: nat, derates: seq<DerateRecord>)
    requires i < |files| && AllRecords(files[..i]) == Ok(derates)
    ensures AllRecords(files[..i + 1]) ==
      match FileRecords(files[i])
      case Err(e) => Err(e)
      case Ok(more) => Ok(derates + more)
  {
    assert files[..i + 1][..i] == files[..i];
  }

  /** The Month column of one file, `apply(calculate_month)` row by row. */
  method FileMonths(y: int, rows: seq<DerateRow>) returns (r: Result<seq<DerateRecord>, string>)
    ensures r == RowRecords(y, rows)
  {
    var records: seq<DerateRecord> := [];
    var j := 0;
    while j < |rows|
      invariant j <= |rows|
      invariant RowRecords(y, rows[..j]) == Ok(records)
    {
      assert rows[..j + 1][..j] == rows[..j];
      var m := CalculateMonth(y, rows[j].hour);
      if m.None? {
        RowRecordsFailed(y, rows, j + 1);
        return Err("hour outside the calendar");
      }
      records := records + [DerateRecord(y, m.value, rows[j].weatherFactor)];
      j := j + 1;
    }
    assert rows[..j] == rows;
    r := Ok(records);
  }

  lemma {:induction false} RowRecordsFailed(y: int, rows: seq<DerateRow>, j: nat)
    requires j <= |rows| && RowRecords(y, rows[..j]).Err?
    ensures RowRecords(y, rows) == RowRecords(y, rows[..j])
    decreases |rows| - j
  {
    if j < |rows| {
      assert rows[..j + 1][..j] == rows[..j];
      RowRecordsFailed(y, rows, j + 1);
    } else {
      assert rows[..j] == rows;
    }
  }

  /** One month's cells, as the inner loop writes them. */
  method FillMonth(factors: seq<real>, ps: seq<real>) returns (r: Option<map<string, Option<real>>>)
    ensures r.Some? <==> AllValid(ps)
    ensures r.Some? ==> r.value == Cells(factors, ps)
  {
    var cells: map<string, Option<real>> := map[];
    var k := 0;
    while k < |ps|
      invariant k <= |ps|
      invariant AllValid(ps[..k])
      invariant cells == Cells(factors, ps[..k])
    {
      if !ValidPercentile(ps[k]) {
        return None;
      }
      CellsStep(factors, ps, k);
      cells := cells[PercentileLabel(ps[k]) := Quantile(factors, ps[k])];
      k := k + 1;
    }
    assert ps[..k] == ps;
    r := Some(cells);
  }

  /** `calculate_monthly_derate_percentiles`. */
  method CalculateMonthlyDeratePercentiles(files: seq<DerateFile>, ps: seq<real>)
    returns (r: Result<PercentileTable, string>)
    ensures r == MonthlyTable(files, ps)
  {
    var derates := ReadDerates(files);
    if derates.Err? {
      return Err(derates.error);
    }
    var rs := derates.value;
    var columns := ["Month"] + Labels(ps);
    var rows: seq<MonthRow> := [];
    var month := 1;
    while month <= MonthCount
      invariant 1 <= month <= MonthCount + 1
      invariant month == 1 ==> rows == []
      invariant month > 1 ==> AllValid(ps) && rows == MonthRows(rs, ps, month - 1)
    {
      var cells := FillMonth(MonthFactors(rs, month), ps);
      if cells.None? {
        return Err("percentiles should all be in the interval [0, 1]");
      }
      MonthRowsStep(rs, ps, month);
      rows := rows + [MonthRow(month, cells.value)];
      month := month + 1;
    }
    r := Ok(PercentileTable(columns, rows));
  }

  /** The rows for months 1..n are those for 1..n-1 and month n's row. */
  lemma MonthRowsStep(rs: seq<DerateRecord>, ps: seq<real>, n: nat)
    requires AllValid(ps) && n > 0
    ensures MonthRows(rs, ps, n) == MonthRows(rs, ps, n - 1) + [MonthRow(n, Cells(MonthFactors(rs, n), ps))]
  {
  }

  // ---- derate file names and resource classes --------------------------

  /** The parts of a derate file name: unit type, weather station and year. */
  datatype DerateName = DerateName(unitType: string, station: string, year: string)

  /** The length of the longest prefix of word characters. */
  function WordPrefix(s: string): (n: nat)
    ensures n <= |s| && (forall i :: 0 <= i < n ==> Text.IsWordChar(s[i]))
    ensures n < |s| ==> !Text.IsWordChar(s[n])
  {
    if s == [] || !Text.IsWordChar(s[0]) then 0 else 1 + WordPrefix(s[1..])
  }

  predicate AllWordChars(s: string)
  {
    forall i :: 0 <= i < |s| ==> Text.IsWordChar(s[i])
  }

  /** `re.match(r'(\w*)-(\w{4})_(\d{4}).csv', name)`: the unit type runs up
      to the first non-word character, which must be '-'; then four word
      characters, '_', four digits, any character but a newline and "csv";
      anything may follow. */
  function ParseDerateFileName(name: string): (r: Option<DerateName>)
    ensures r.Some? ==> AllWordChars(r.value.unitType) && |r.value.station| == 4
                        && AllWordChars(r.value.station) && |r.value.year| == 4 && Text.AllDigits(r.value.year)
  {
    var n := WordPrefix(name);
    if n + 14 <= |name| && name[n] == '-' && AllWordChars(name[n + 1..n + 5]) && name[n + 5] == '_'
       && Text.AllDigits(name[n + 6..n + 10]) && name[n + 10] != '\n' && name[n + 11..n + 14] == "csv"
    then Some(DerateName(name[..n], name[n + 1..n + 5], name[n + 6..n + 10]))
    else None
  }

  /** The names the derate files are written under. */
  function DerateFileName(unitType: string, station: string, year: nat): string
  {
    unitType + "-" + station + "_" + Text.Digits(year, 4) + ".csv"
  }

  /** Round trip: a name written from a unit type, a station and a year
      parses back to them. */
  lemma DerateFileNameRoundTrip(unitType: string, station: string, year: nat)
    requires AllWordChars(unitType) && |station| == 4 && AllWordChars(station) && year < 10000
    ensures var d := ParseDerateFileName(DerateFileName(unitType, station, year));
            d.Some? && d.value.unitType == unitType && d.value.station == station
            && Text.ParseNat(d.value.year) == year
  {
    Text.ParseDigits(year, 4);
    ParseNameParts(unitType, station, Text.Digits(year, 4));
  }

  lemma ParseNameParts(unitType: string, station: string, ys: string)
    requires AllWordChars(unitType) && |station| == 4 && AllWordChars(station)
    requires |ys| == 4 && Text.AllDigits(ys)
    ensures ParseDerateFileName(unitType + "-" + station + "_" + ys + ".csv")
            == Some(DerateName(unitType, station, ys))
  {
    var n := |unitType|;
    var rest := "-" + station + "_" + ys + ".csv";
    assert |rest| == 14 && rest[0] == '-' && rest[5] == '_' && rest[10] == '.';
    assert rest[1..5] == station && rest[6..10] == ys && rest[11..] == "csv";
    var name := unitType + rest;
    assert unitType + "-" + station + "_" + ys + ".csv" == name;
    PrefixBeforeDash(unitType, rest);
    assert name[..n] == unitType;
    assert name[n + 1..n + 5] == station;
    assert name[n + 6..n + 10] == ys;
    assert name[n + 11..n + 14] == "csv";
  }

  lemma {:induction false} PrefixBeforeDash(w: string, rest: string)
    requires AllWordChars(w) && rest != [] && rest[0] == '-'
    ensures WordPrefix(w + rest) == |w|
  {
    if w != [] {
      assert (w + rest)[1..] == w[1..] + rest;
      PrefixBeforeDash(w[1..], rest);
    }
  }

  /** A (unit type, station) pair keyed for sorting by unit type then
      station. */
  function ClassKey(c: (string, string)): Grouping.Key
  {
    [Grouping.Str(c.0), Grouping.Str(c.1)]
  }

  function ClassOf(d: DerateName): (string, string)
  {
    (d.unitType, d.station)
  }

  /** The parsed classes of the matching names, in order (the loop that
      concatenates one row per matching file). */
  function ClassEntries(names: seq<string>): (es: seq<(Grouping.Key, (string, string))>)
    ensures forall j :: 0 <= j < |es| ==> es[j].0 == ClassKey(es[j].1)
  {
    if names == [] then []
    else
      var d := ParseDerateFileName(names[|names| - 1]);
      if d.Some? then ClassEntries(names[..|names| - 1]) + [(ClassKey(ClassOf(d.value)), ClassOf(d.value))]
      else ClassEntries(names[..|names| - 1])
  }

  /** `groupby(['UnitType','WeatherStation']).size()` with the counts
      dropped: the distinct classes in ascending order. */
  function ResourceClasses(names: seq<string>): seq<(string, string)>
  {
    Frames.Column(Grouping.GroupBy(ClassEntries(names), Grouping.KeepLast), (e: (Grouping.Key, (string, string))) => e.1)
  }

  /** Every matching name has its class among the entries. */
  lemma {:induction false} EntryOfName(names: seq<string>, i: nat) returns (j: nat)
    requires i < |names| && ParseDerateFileName(names[i]).Some?
    ensures j < |ClassEntries(names)| && ClassEntries(names)[j].1 == ClassOf(ParseDerateFileName(names[i]).value)
  {
    var init := names[..|names| - 1];
    if i < |init| {
      assert init[i] == names[i];
      j := EntryOfName(init, i);
      assert ClassEntries(names)[j] == ClassEntries(init)[j];
    } else {
      j := |ClassEntries(names)| - 1;
    }
  }

  /** Every entry is the class of some matching name. */
  lemma {:induction false} NameOfEntry(names: seq<string>, j: nat) returns (i: nat)
    requires j < |ClassEntries(names)|
    ensures i < |names| && ParseDerateFileName(names[i]).Some?
            && ClassOf(ParseDerateFileName(names[i]).value) == ClassEntries(names)[j].1
  {
    var init := names[..|names| - 1];
    var es0 := ClassEntries(init);
    if j < |es0| {
      assert ClassEntries(names)[j] == es0[j];
      i := NameOfEntry(init, j);
      assert init[i] == names[i];
    } else {
      i := |names| - 1;
    }
  }

  /** The resource classes are the distinct classes of the matching names,
      each once, in ascending order of unit type then station. */
  lemma ResourceClassesMeaning(names: seq<string>)
    ensures ClassesOf(ResourceClasses(names), names)
  {
    var es := ClassEntries(names);
    var groups := Grouping.GroupBy(es, Grouping.KeepLast);
    var cs := ResourceClasses(names);
    forall i | 0 <= i < |groups| ensures groups[i].0 == ClassKey(groups[i].1) {
      Grouping.GroupValueKeys(es, Grouping.KeepLast, ClassKey, i);
    }
    forall c | c in ParsedClasses(names) ensures c in ClassSet(cs) {
      var n :| 0 <= n < |names| && ParseDerateFileName(names[n]).Some?
               && ClassOf(ParseDerateFileName(names[n]).value) == c;
      var j := EntryOfName(names, n);
      var i := GroupOfClass(es, j);
      assert cs[i] == c;
    }
    forall c | c in ClassSet(cs) ensures c in ParsedClasses(names) {
      var i :| 0 <= i < |cs| && cs[i] == c;
      var j := ClassOfGroup(es, i);
      var n := NameOfEntry(names, j);
    }
  }

  /** What the resource classes promise: ascending by unit type then
      station, each class once, and exactly the classes of the matching
      names. */
  predicate ClassesOf(cs: seq<(string, string)>, names: seq<string>)
  {
    (forall i, j :: 0 <= i < j < |cs| ==> Grouping.KeyLess(ClassKey(cs[i]), ClassKey(cs[j])))
    && ClassSet(cs) == ParsedClasses(names)
  }

  function ClassSet(cs: seq<(string, string)>): set<(string, string)>
  {
    set i | 0 <= i < |cs| :: cs[i]
  }

  /** The classes of the matching names. */
  function ParsedClasses(names: seq<string>): set<(string, string)>
  {
    set i | 0 <= i < |names| && ParseDerateFileName(names[i]).Some? :: ClassOf(ParseDerateFileName(names[i]).value)
  }

  /** The group row that an entry's class lands in. */
  lemma GroupOfClass(es: seq<(Grouping.Key, (string, string))>, j: nat) returns (i: nat)
    requires j < |es| && forall m :: 0 <= m < |es| ==> es[m].0 == ClassKey(es[m].1)
    ensures var groups := Grouping.GroupBy(es, Grouping.KeepLast);
            i < |groups| && groups[i].1 == es[j].1
  {
    var groups := Grouping.GroupBy(es, Grouping.KeepLast);
    var k := es[j].0;
    Grouping.FoldKeyPresent(es, k, Grouping.KeepLast);
    Grouping.LookupFound(groups, k);
    i :| 0 <= i < |groups| && groups[i] == (k, Grouping.Lookup(groups, k).value);
    Grouping.GroupValueKeys(es, Grouping.KeepLast, ClassKey, i);
    ClassKeyInjective(groups[i].1, es[j].1);
  }

  /** The entry a group row's class comes from. */
  lemma ClassOfGroup(es: seq<(Grouping.Key, (string, string))>, i: nat) returns (j: nat)
    requires forall m :: 0 <= m < |es| ==> es[m].0 == ClassKey(es[m].1)
    requires i < |Grouping.GroupBy(es, Grouping.KeepLast)|
    ensures j < |es| && es[j].1 == Grouping.GroupBy(es, Grouping.KeepLast)[i].1
  {
    var groups := Grouping.GroupBy(es, Grouping.KeepLast);
    var k := groups[i].0;
    Grouping.LookupEntry(groups, i);
    Grouping.FoldKeyPresent(es, k, Grouping.KeepLast);
    j :| 0 <= j < |es| && es[j].0 == k;
    Grouping.GroupValueKeys(es, Grouping.KeepLast, ClassKey, i);
    ClassKeyInjective(groups[i].1, es[j].1);
  }

  lemma ClassKeyInjective(a: (string, string), b: (string, string))
    requires ClassKey(a) == ClassKey(b)
    ensures a == b
  {
    assert ClassKey(a)[0] == ClassKey(b)[0] && ClassKey(a)[1] == ClassKey(b)[1];
  }

  // ---- the files of one resource class -------------------------------------

  /** Whether a file name parses and belongs to class c. */
  predicate OfClass(name: string, c: (string, string))
  {
    ParseDerateFileName(name).Some? && ClassOf(ParseDerateFileName(name).value) == c
  }

  /** The per-class file selection as written: the class of EVERY name in the
      directory is read off its parse, so a name that does not parse raises
      (None) instead of being skipped. */
  function FilesOfClassAsWritten(names: seq<string>, c: (string, string)): (r: Option<seq<string>>)
    ensures r.Some? <==> forall i :: 0 <= i < |names| ==> ParseDerateFileName(names[i]).Some?
  {
    if names == [] then Some([])
    else
      var prev := FilesOfClassAsWritten(names[..|names| - 1], c);
      var last := names[|names| - 1];
      if ParseDerateFileName(last).None? || prev.None? then None
      else if ClassOf(ParseDerateFileName(last).value) == c then Some(prev.value + [last])
      else prev
  }

  /** The selection as intended: the names of class c, in directory order,
      names that do not parse left out as the class listing leaves them out. */
  function FilesOfClass(names: seq<string>, c: (string, string)): (r: seq<string>)
    ensures forall x :: x in r <==> x in names && OfClass(x, c)
  {
    Frames.Filter(names, (x: string) => OfClass(x, c))
  }

  /** Where the names all parse, the code as written selects what the
      corrected selection does. */
  lemma {:induction false} FilesOfClassAgree(names: seq<string>, c: (string, string))
    requires forall i :: 0 <= i < |names| ==> ParseDerateFileName(names[i]).Some?
    ensures FilesOfClassAsWritten(names, c) == Some(FilesOfClass(names, c))
  {
    if names != [] {
      var init := names[..|names| - 1];
      FilesOfClassAgree(init, c);
      assert names == init + [names[|names| - 1]];
      Frames.FilterSnoc(init, names[|names| - 1], (x: string) => OfClass(x, c));
    }
  }

  /** Every resource class that the directory listing yields has at least
      one file to read. */
  lemma ClassHasFiles(names: seq<string>, i: nat)
    requires i < |ResourceClasses(names)|
    ensures FilesOfClass(names, ResourceClasses(names)[i]) != []
  {
    var cs := ResourceClasses(names);
    ResourceClassesMeaning(names);
    assert cs[i] in ClassSet(cs);
    var n :| 0 <= n < |names| && ParseDerateFileName(names[n]).Some?
             && ClassOf(ParseDerateFileName(names[n]).value) == cs[i];
    assert names[n] in FilesOfClass(names, cs[i]);
  }

  /** A directory holding one derate file and one other file: the class
      ("GT", "KSAC") is listed, and the selection as written raises on
      "notes.txt" while the corrected one finds the derate file. */
  lemma StrayFileRaises()
    ensures OfClass("GT-KSAC_2020.csv", ("GT", "KSAC"))
    ensures FilesOfClassAsWritten(["notes.txt", "GT-KSAC_2020.csv"], ("GT", "KSAC")).None?
    ensures FilesOfClass(["notes.txt", "GT-KSAC_2020.csv"], ("GT", "KSAC")) == ["GT-KSAC_2020.csv"]
  {
    var names := ["notes.txt", "GT-KSAC_2020.csv"];
    NotesDoesNotParse();
    DerateNameParses();
    assert names[..1] == ["notes.txt"];
    assert FilesOfClassAsWritten(["notes.txt"], ("GT", "KSAC")).None? by {
      assert ["notes.txt"][..0] == [];
    }
    Frames.FilterSnoc(["notes.txt"], "GT-KSAC_2020.csv", (x: string) => OfClass(x, ("GT", "KSAC")));
    Frames.FilterSnoc([], "notes.txt", (x: string) => OfClass(x, ("GT", "KSAC")));
    assert [] + ["notes.txt"] == ["notes.txt"] && ["notes.txt"] + ["GT-KSAC_2020.csv"] == names;
  }

  lemma NotesDoesNotParse()
    ensures ParseDerateFileName("notes.txt").None?
  {
    // too short to hold the fourteen characters after the unit type
    assert |"notes.txt"| < 14;
  }

  lemma DerateNameParses()
    ensures ParseDerateFileName("GT-KSAC_2020.csv") == Some(DerateName("GT", "KSAC", "2020"))
  {
    assert Text.AllDigits("2020") by {
      assert forall i :: 0 <= i < 4 ==> Text.IsDigit("2020"[i]);
    }
    ParseNameParts("GT", "KSAC", "2020");
    assert "GT" + "-" + "KSAC" + "_" + "2020" + ".csv" == "GT-KSAC_2020.csv";
  }
}
