/** Loading of the extracted prior-trade-day curtailment reports
    (`load_resource_curtailments` of the multilinear modeller): the last report
    per (OUTAGE MRID, start), rows without an id, outage type, nature of work,
    start, end or MW dropped, and each event expanded into whole-hour stamps. */
module CurtailmentEvents {
  import opened Wrappers
  import Calendar
  import Grouping
  import Frames

  /** One row of the extracted report file, nulls as None.  The columns the
      loader drops right after deduplication (net qualifying capacity, outage
      status, resource type, market organisation, balancing area) are not
      modelled. */
  datatype Report = Report(
    mrid: Option<int>, resourceName: Option<string>, resourceId: Option<string>,
    outageType: Option<string>, natureOfWork: Option<string>,
    start: Option<Calendar.Instant>, end: Option<Calendar.Instant>,
    mw: Option<real>, pmax: Option<real>)

  /** A report with every column the loader requires. */
  datatype Event = Event(
    resourceName: Option<string>, resourceId: string, outageType: string, natureOfWork: string,
    start: Calendar.Instant, end: Calendar.Instant, mw: real, pmax: Option<real>)

  /** One exploded row: an event at one of its hour stamps. */
  datatype HourlyCurtailment = HourlyCurtailment(
    resourceName: Option<string>, resourceId: string, outageType: string, natureOfWork: string,
    mw: real, pmax: Option<real>, datetime: Calendar.Instant)

  // ---- deduplication ---------------------------------------------------------

  /** The group key (OUTAGE MRID, CURTAILMENT START DATE TIME). */
  function ReportKey(mrid: int, start: Calendar.Instant): Grouping.Key
  {
    [Grouping.Num(mrid), Grouping.Num(start)]
  }

  /** The reports entering `groupby`, keyed: a row with a null key is dropped. */
  function KeyedReports(rs: seq<Report>): (ks: seq<(Grouping.Key, Report)>)
    ensures forall e :: e in ks ==>
      e.1 in rs && e.1.mrid.Some? && e.1.start.Some? && e.0 == ReportKey(e.1.mrid.value, e.1.start.value)
    ensures forall r :: r in rs && r.mrid.Some? && r.start.Some? ==> (ReportKey(r.mrid.value, r.start.value), r) in ks
  {
    if rs == [] then []
    else
      var init := KeyedReports(rs[..|rs| - 1]);
      var r := rs[|rs| - 1];
      assert forall x :: x in rs <==> x in rs[..|rs| - 1] || x == r;
      if r.mrid.Some? && r.start.Some? then init + [(ReportKey(r.mrid.value, r.start.value), r)] else init
  }

  /** The combining step of `.last()`: column by column, the newer value
      unless it is null. */
  function NewerColumns(a: Report, b: Report): Report
  {
    Report(
      Frames.Newer(a.mrid, b.mrid), Frames.Newer(a.resourceName, b.resourceName),
      Frames.Newer(a.resourceId, b.resourceId), Frames.Newer(a.outageType, b.outageType),
      Frames.Newer(a.natureOfWork, b.natureOfWork), Frames.Newer(a.start, b.start),
      Frames.Newer(a.end, b.end), Frames.Newer(a.mw, b.mw), Frames.Newer(a.pmax, b.pmax))
  }

  /** `groupby(['OUTAGE MRID', 'CURTAILMENT START DATE TIME']).last()`. */
  function Dedup(rs: seq<Report>): seq<Report>
  {
    var g := Grouping.GroupBy(KeyedReports(rs), NewerColumns);
    seq(|g|, i requires 0 <= i < |g| => g[i].1)
  }

  function MridOf(r: Report): Option<int> { r.mrid }
  function NameOf(r: Report): Option<string> { r.resourceName }
  function IdOf(r: Report): Option<string> { r.resourceId }
  function OutageTypeOf(r: Report): Option<string> { r.outageType }
  function NatureOf(r: Report): Option<string> { r.natureOfWork }
  function StartOf(r: Report): Option<Calendar.Instant> { r.start }
  function EndOf(r: Report): Option<Calendar.Instant> { r.end }
  function MwOf(r: Report): Option<real> { r.mw }
  function PmaxOf(r: Report): Option<real> { r.pmax }

  /** A group's key column holds the key itself. */
  lemma GroupKeyColumns(rs: seq<Report>, i: nat)
    requires i < |Grouping.GroupBy(KeyedReports(rs), NewerColumns)|
    ensures var e := Grouping.GroupBy(KeyedReports(rs), NewerColumns)[i];
      e.1.mrid.Some? && e.1.start.Some? && e.0 == ReportKey(e.1.mrid.value, e.1.start.value)
  {
    var rows := KeyedReports(rs);
    var g := Grouping.GroupBy(rows, NewerColumns);
    var k := g[i].0;
    Grouping.LookupEntry(g, i);
    Grouping.FoldKeyPresent(rows, k, NewerColumns);
    Grouping.FoldKeyColumn(rows, k, NewerColumns, MridOf);
    Grouping.FoldKeyColumn(rows, k, NewerColumns, StartOf);
    Grouping.LastSomeOfFound(rows, k, MridOf);
    Grouping.LastSomeOfFound(rows, k, StartOf);
    var a :| 0 <= a < |rows| && rows[a].0 == k && MridOf(rows[a].1) == Grouping.LastSomeOf(rows, k, MridOf);
    var b :| 0 <= b < |rows| && rows[b].0 == k && StartOf(rows[b].1) == Grouping.LastSomeOf(rows, k, StartOf);
    assert rows[a] in rows && rows[b] in rows;
  }

  /** Deduplication leaves at most one report per (MRID, start), in ascending
      key order. */
  lemma DedupUnique(rs: seq<Report>)
    ensures var out := Dedup(rs);
      && (forall i :: 0 <= i < |out| ==> out[i].mrid.Some? && out[i].start.Some?)
      && forall i, j :: 0 <= i < j < |out| ==>
           Grouping.KeyLess(ReportKey(out[i].mrid.value, out[i].start.value), ReportKey(out[j].mrid.value, out[j].start.value))
  {
    var g := Grouping.GroupBy(KeyedReports(rs), NewerColumns);
    forall i | 0 <= i < |g|
      ensures g[i].1.mrid.Some? && g[i].1.start.Some? && g[i].0 == ReportKey(g[i].1.mrid.value, g[i].1.start.value)
    {
      GroupKeyColumns(rs, i);
    }
  }

  /** Each column of a deduplicated report is the last non-null value of that
      column among the reports sharing its key. */
  lemma DedupColumnsAreLast(rs: seq<Report>, i: nat)
    requires i < |Dedup(rs)|
    ensures var r := Dedup(rs)[i];
      var rows := KeyedReports(rs);
      var k := Grouping.GroupBy(rows, NewerColumns)[i].0;
      && r.resourceName == Grouping.LastSomeOf(rows, k, NameOf) && r.resourceId == Grouping.LastSomeOf(rows, k, IdOf)
      && r.outageType == Grouping.LastSomeOf(rows, k, OutageTypeOf) && r.natureOfWork == Grouping.LastSomeOf(rows, k, NatureOf)
      && r.end == Grouping.LastSomeOf(rows, k, EndOf) && r.mw == Grouping.LastSomeOf(rows, k, MwOf)
      && r.pmax == Grouping.LastSomeOf(rows, k, PmaxOf)
  {
    var rows := KeyedReports(rs);
    var g := Grouping.GroupBy(rows, NewerColumns);
    var k := g[i].0;
    Grouping.LookupEntry(g, i);
    Grouping.FoldKeyColumn(rows, k, NewerColumns, NameOf);
    Grouping.FoldKeyColumn(rows, k, NewerColumns, IdOf);
    Grouping.FoldKeyColumn(rows, k, NewerColumns, OutageTypeOf);
    Grouping.FoldKeyColumn(rows, k, NewerColumns, NatureOf);
    Grouping.FoldKeyColumn(rows, k, NewerColumns, EndOf);
    Grouping.FoldKeyColumn(rows, k, NewerColumns, MwOf);
    Grouping.FoldKeyColumn(rows, k, NewerColumns, PmaxOf);
  }

  /** Every report with both key columns is represented by a group. */
  lemma DedupCovers(rs: seq<Report>, r: Report)
    requires r in rs && r.mrid.Some? && r.start.Some?
    ensures exists i :: 0 <= i < |Dedup(rs)| && Dedup(rs)[i].mrid == r.mrid && Dedup(rs)[i].start == r.start
  {
    var rows := KeyedReports(rs);
    var g := Grouping.GroupBy(rows, NewerColumns);
    var k := ReportKey(r.mrid.value, r.start.value);
    var e :| 0 <= e < |rows| && rows[e] == (k, r);
    Grouping.GroupByEntries(rows, NewerColumns);
    var i :| 0 <= i < |g| && g[i].0 == rows[e].0;
    GroupKeyColumns(rs, i);
    assert Dedup(rs)[i] == g[i].1;
  }

  /** A deduplicated report's start, end and outage type are values some
      input report carries; an end and an outage type present in every input
      report are present in every group. */
  lemma DedupValuesFrom(rs: seq<Report>, i: nat)
    requires i < |Dedup(rs)|
    ensures exists a :: a in rs && a.start == Dedup(rs)[i].start
    ensures Dedup(rs)[i].end.Some? ==> exists b :: b in rs && b.end == Dedup(rs)[i].end
    ensures Dedup(rs)[i].outageType.Some? ==> exists c :: c in rs && c.outageType == Dedup(rs)[i].outageType
    ensures (forall r :: r in rs ==> r.end.Some?) ==> Dedup(rs)[i].end.Some?
    ensures (forall r :: r in rs ==> r.outageType.Some?) ==> Dedup(rs)[i].outageType.Some?
  {
    var rows := KeyedReports(rs);
    var g := Grouping.GroupBy(rows, NewerColumns);
    var k := g[i].0;
    assert Dedup(rs)[i] == g[i].1;
    Grouping.LookupEntry(g, i);
    Grouping.FoldKeyPresent(rows, k, NewerColumns);
    Grouping.FoldKeyColumn(rows, k, NewerColumns, StartOf);
    Grouping.FoldKeyColumn(rows, k, NewerColumns, EndOf);
    Grouping.FoldKeyColumn(rows, k, NewerColumns, OutageTypeOf);
    Grouping.LastSomeOfFound(rows, k, StartOf);
    Grouping.LastSomeOfFound(rows, k, EndOf);
    Grouping.LastSomeOfFound(rows, k, OutageTypeOf);
    GroupKeyColumns(rs, i);
    var a :| 0 <= a < |rows| && rows[a].0 == k && StartOf(rows[a].1) == Grouping.LastSomeOf(rows, k, StartOf);
    assert rows[a] in rows;
    if Dedup(rs)[i].end.Some? {
      var b :| 0 <= b < |rows| && rows[b].0 == k && EndOf(rows[b].1) == Grouping.LastSomeOf(rows, k, EndOf);
      assert rows[b] in rows;
    }
    if Dedup(rs)[i].outageType.Some? {
      var c :| 0 <= c < |rows| && rows[c].0 == k && OutageTypeOf(rows[c].1) == Grouping.LastSomeOf(rows, k, OutageTypeOf);
      assert rows[c] in rows;
    }
    var j :| 0 <= j < |rows| && rows[j].0 == k;
    assert rows[j] in rows;
  }

  // ---- required columns ------------------------------------------------------

  /** `dropna(how='any', subset=...)` on one report: kept exactly when the id,
      outage type, nature of work, start, end and MW are present; the name and
      pmax may be null. */
  function ToEvent(r: Report): (e: Option<Event>)
    ensures e.Some? <==> r.resourceId.Some? && r.outageType.Some? && r.natureOfWork.Some?
                         && r.start.Some? && r.end.Some? && r.mw.Some?
    ensures e.Some? ==> && r.resourceId == Some(e.value.resourceId) && r.outageType == Some(e.value.outageType)
                        && r.natureOfWork == Some(e.value.natureOfWork) && r.start == Some(e.value.start)
                        && r.end == Some(e.value.end) && r.mw == Some(e.value.mw)
                        && e.value.resourceName == r.resourceName && e.value.pmax == r.pmax
  {
    match (r.resourceId, r.outageType, r.natureOfWork, r.start, r.end, r.mw)
    case (Some(id), Some(ot), Some(nw), Some(s), Some(t), Some(mw)) =>
      Some(Event(r.resourceName, id, ot, nw, s, t, mw, r.pmax))
    case _ => None
  }

  /** The complete reports as events, in order. */
  function Complete(rs: seq<Report>): (es: seq<Event>)
    ensures |es| <= |rs|
    ensures forall e :: e in es <==> exists r :: r in rs && ToEvent(r) == Some(e)
  {
    if rs == [] then []
    else
      var init := Complete(rs[..|rs| - 1]);
      var r := rs[|rs| - 1];
      assert forall x :: x in rs <==> x in rs[..|rs| - 1] || x == r;
      match ToEvent(r)
      case Some(e) => init + [e]
      case None => init
  }

  // ---- hour expansion --------------------------------------------------------

  /** `Timedelta.seconds`: the whole seconds of the part of a duration below one
      day.  pandas normalises a negative duration to negative days plus a
      non-negative remainder, so the result is in [0, 86400) for every
      duration. */
  function DaySeconds(delta: int): (s: nat)
    ensures s < 86400
  {
    (delta % Calendar.MicrosPerDay) / Calendar.MicrosPerSecond
  }

  /** `max(int(delta.seconds / 3600), 1)` with delta = end - floor(start). */
  function HourCount(start: Calendar.Instant, end: Calendar.Instant): (n: nat)
    ensures 1 <= n <= 23
  {
    var h := DaySeconds(end - Calendar.FloorHour(start)) / 3600;
    if h < 1 then 1 else h
  }

  /** `expand_hours`: consecutive hour stamps from the start's hour. */
  function ExpandHours(start: Calendar.Instant, end: Calendar.Instant): (hs: seq<Calendar.Instant>)
    ensures 1 <= |hs| <= 23 && hs[0] == Calendar.FloorHour(start)
    ensures forall k :: 0 < k < |hs| ==> hs[k] == hs[k - 1] + Calendar.MicrosPerHour
  {
    var fs := Calendar.FloorHour(start);
    seq(HourCount(start, end), k requires 0 <= k => fs + k * Calendar.MicrosPerHour)
  }

  /** For an event shorter than a day that does not end before its start hour,
      the stamps are the hours lying wholly before the end, counted from the
      start's hour, or just the start's hour when there is none. */
  lemma ExpandHoursWithinDay(start: Calendar.Instant, end: Calendar.Instant)
    requires Calendar.FloorHour(start) <= end < Calendar.FloorHour(start) + Calendar.MicrosPerDay
    ensures var hs := ExpandHours(start, end);
      var fs := Calendar.FloorHour(start);
      && (end - fs >= Calendar.MicrosPerHour ==> |hs| == (end - fs) / Calendar.MicrosPerHour)
      && (end - fs < Calendar.MicrosPerHour ==> |hs| == 1)
      && (end - fs >= Calendar.MicrosPerHour ==>
            forall k :: 0 <= k < |hs| ==> hs[k] + Calendar.MicrosPerHour <= end)
  {
    var fs := Calendar.FloorHour(start);
    var d := end - fs;
    assert d % Calendar.MicrosPerDay == d;
    assert DaySeconds(d) / 3600 == d / Calendar.MicrosPerHour by {
      DivDiv(d, Calendar.MicrosPerSecond, 3600);
    }
    var hs := ExpandHours(start, end);
    if d >= Calendar.MicrosPerHour {
      forall k | 0 <= k < |hs| ensures hs[k] + Calendar.MicrosPerHour <= end {
        assert (k + 1) * Calendar.MicrosPerHour <= d;
      }
    }
  }

  lemma DivDiv(x: nat, a: nat, b: nat)
    requires a > 0 && b > 0
    ensures x / a / b == x / (a * b)
  {
    var q := x / (a * b);
    var r := x % (a * b);
    var s := r / a;
    assert r == s * a + r % a;
    assert s < b;
    assert x == (q * b + s) * a + r % a by {
      assert x == q * (a * b) + r;
      assert q * (a * b) == (q * b) * a;
    }
    DivUnique(x, a, q * b + s, r % a);
    DivUnique(q * b + s, b, q, s);
  }

  lemma DivUnique(x: int, d: int, q: int, r: int)
    requires d > 0 && 0 <= r < d && x == q * d + r
    ensures x / d == q
  {
    var q' := x / d;
    var r' := x % d;
    assert x == q' * d + r';
    if q' > q {
      MulMono(q + 1, q', d);
      assert false;
    } else if q' < q {
      MulMono(q' + 1, q, d);
      assert false;
    }
  }

  lemma MulMono(a: int, b: int, d: nat)
    requires a <= b
    ensures a * d <= b * d
  {
    assert b * d == a * d + (b - a) * d;
  }

  /** Whole days are lost: an event of one day and two hours from an hour
      boundary yields two stamps. */
  lemma ExpandHoursDropsDays(start: Calendar.Instant)
    requires start % Calendar.MicrosPerHour == 0
    ensures |ExpandHours(start, start + Calendar.MicrosPerDay + 2 * Calendar.MicrosPerHour)| == 2
  {
    var d := Calendar.MicrosPerDay + 2 * Calendar.MicrosPerHour;
    assert Calendar.FloorHour(start) == start;
    assert d % Calendar.MicrosPerDay == 2 * Calendar.MicrosPerHour;
  }

  /** An end one hour before the start's hour (a negative duration) yields the
      largest count, 23 stamps. */
  lemma ExpandHoursNegative(start: Calendar.Instant)
    requires start >= Calendar.MicrosPerHour
    ensures |ExpandHours(start, Calendar.FloorHour(start) - Calendar.MicrosPerHour)| == 23
  {
    var d: int := -(Calendar.MicrosPerHour as int);
    assert d % Calendar.MicrosPerDay == 23 * Calendar.MicrosPerHour;
  }

  // ---- explosion -------------------------------------------------------------

  function AtHour(e: Event, t: Calendar.Instant): HourlyCurtailment
  {
    HourlyCurtailment(e.resourceName, e.resourceId, e.outageType, e.natureOfWork, e.mw, e.pmax, t)
  }

  /** The rows of one event, one per stamp. */
  function Stamped(e: Event, ts: seq<Calendar.Instant>): (hs: seq<HourlyCurtailment>)
    ensures forall h :: h in hs <==> h.datetime in ts && h == AtHour(e, h.datetime)
  {
    if ts == [] then []
    else
      assert forall t :: t in ts <==> t in ts[..|ts| - 1] || t == ts[|ts| - 1];
      Stamped(e, ts[..|ts| - 1]) + [AtHour(e, ts[|ts| - 1])]
  }

  /** `df.explode('DATETIME')`: every event once per stamp, in event order. */
  function Explode(es: seq<Event>): (hs: seq<HourlyCurtailment>)
    ensures forall h :: h in hs <==>
      exists e :: e in es && h.datetime in ExpandHours(e.start, e.end) && h == AtHour(e, h.datetime)
  {
    if es == [] then []
    else
      var e := es[|es| - 1];
      assert forall x :: x in es <==> x in es[..|es| - 1] || x == e;
      Explode(es[..|es| - 1]) + Stamped(e, ExpandHours(e.start, e.end))
  }

  /** The whole loader: deduplicate, drop incomplete reports, expand.  With
      no complete report left, `apply` on the empty frame cannot probe
      `expand_hours` and returns a copy of the frame, which cannot be stored
      as the single DATETIME column: the load fails with a ValueError. */
  function LoadResourceCurtailments(rs: seq<Report>): (r: Result<seq<HourlyCurtailment>, string>)
    ensures r.Ok? <==> exists x :: x in Dedup(rs) && ToEvent(x).Some?
  {
    var es := Complete(Dedup(rs));
    CompleteEmpty(Dedup(rs));
    if es == [] then Err("ValueError") else Ok(Explode(es))
  }

  /** No event is left exactly when no report is complete. */
  lemma CompleteEmpty(rs: seq<Report>)
    ensures Complete(rs) == [] <==> forall x :: x in rs ==> ToEvent(x).None?
  {
    forall x | x in rs && ToEvent(x).Some? ensures Complete(rs) != [] {
      assert ToEvent(x).value in Complete(rs);
    }
    if Complete(rs) != [] {
      assert Complete(rs)[0] in Complete(rs);
    }
  }

  /** Every loaded row is a complete deduplicated report at one of its hour
      stamps, on an hour boundary. */
  lemma LoadedRowsMeaning(rs: seq<Report>, h: HourlyCurtailment)
    requires LoadResourceCurtailments(rs).Ok? && h in LoadResourceCurtailments(rs).value
    ensures exists r :: r in Dedup(rs) && ToEvent(r).Some? && h == AtHour(ToEvent(r).value, h.datetime)
              && h.datetime in ExpandHours(ToEvent(r).value.start, ToEvent(r).value.end)
    ensures h.datetime % Calendar.MicrosPerHour == 0
  {
    var e :| e in Complete(Dedup(rs)) && h.datetime in ExpandHours(e.start, e.end) && h == AtHour(e, h.datetime);
    var r :| r in Dedup(rs) && ToEvent(r) == Some(e);
    var ts := ExpandHours(e.start, e.end);
    var k :| 0 <= k < |ts| && ts[k] == h.datetime;
    StampOnHour(e.start, e.end, k);
  }

  lemma StampOnHour(start: Calendar.Instant, end: Calendar.Instant, k: nat)
    requires k < |ExpandHours(start, end)|
    ensures ExpandHours(start, end)[k] % Calendar.MicrosPerHour == 0
  {
    var fs := Calendar.FloorHour(start);
    assert ExpandHours(start, end)[k] == fs + k * Calendar.MicrosPerHour;
  }
}
