/** Zero-curtailment imputation (`impute_zero_curtailments`, and the same steps
    inline in the multilinear modeller's `regress`): every resource is given a
    row for every hour between the earliest and the latest reported hour; hours
    without a report count as a forced outage due to ambient temperature with
    zero MW; rows are joined to the resource's weather station and to that
    station's reading for the hour; only rows with a reading that are forced
    outages due to temperature are kept. */
module Imputation {
  import opened Wrappers
  import Calendar
  import Grouping
  import Frames
  import IsdWeather
  import CurtailmentEvents

  type Hourly = CurtailmentEvents.HourlyCurtailment

  const Forced := "FORCED"
  const AmbientDueToTemp := "AMBIENT_DUE_TO_TEMP"

  /** A row of the resource-to-weather-station map (ResourceID, UnitType,
      WeatherStationID). */
  datatype StationLink = StationLink(resourceId: string, unitType: Option<string>, stationId: Option<string>)

  /** A cell of the resource-by-hour grid after the left merge with the
      reports; a cell without a report has nulls in the report's columns. */
  datatype GridRow = GridRow(
    datetime: Calendar.Instant, resourceId: string, resourceName: Option<string>,
    outageType: Option<string>, natureOfWork: Option<string>, mw: Option<real>, pmax: Option<real>)

  /** A row of the merged curtailment-and-temperature table (DATETIME,
      RESOURCE ID, RESOURCE NAME, UnitType, CURTAILMENT MW, RESOURCE PMAX MW,
      WeatherStationID, DRY BULB TEMPERATURE in degrees Celsius). */
  datatype MergedRow = MergedRow(
    datetime: Calendar.Instant, resourceId: string, resourceName: Option<string>, unitType: Option<string>,
    mw: real, pmax: Option<real>, stationId: string, dryBulb: real)

  // ---- the hour grid ---------------------------------------------------------

  function EarliestHour(hs: seq<Hourly>): (t: Calendar.Instant)
    requires hs != []
    ensures exists h :: h in hs && h.datetime == t
    ensures forall h :: h in hs ==> t <= h.datetime
  {
    if |hs| == 1 then hs[0].datetime
    else
      var t := EarliestHour(hs[..|hs| - 1]);
      assert forall x :: x in hs <==> x in hs[..|hs| - 1] || x == hs[|hs| - 1];
      if hs[|hs| - 1].datetime < t then hs[|hs| - 1].datetime else t
  }

  function LatestHour(hs: seq<Hourly>): (t: Calendar.Instant)
    requires hs != []
    ensures exists h :: h in hs && h.datetime == t
    ensures forall h :: h in hs ==> h.datetime <= t
  {
    if |hs| == 1 then hs[0].datetime
    else
      var t := LatestHour(hs[..|hs| - 1]);
      assert forall x :: x in hs <==> x in hs[..|hs| - 1] || x == hs[|hs| - 1];
      if hs[|hs| - 1].datetime > t then hs[|hs| - 1].datetime else t
  }

  /** `[min + td(hours=k) for k in range(int((max - min).total_seconds() / 3600))]`. */
  function GridHours(hs: seq<Hourly>): (ts: seq<Calendar.Instant>)
    requires hs != []
    ensures |ts| == (LatestHour(hs) - EarliestHour(hs)) / Calendar.MicrosPerHour
    ensures forall k :: 0 <= k < |ts| ==> ts[k] == EarliestHour(hs) + k * Calendar.MicrosPerHour
  {
    var lo := EarliestHour(hs);
    seq((LatestHour(hs) - lo) / Calendar.MicrosPerHour, k requires 0 <= k => lo + k * Calendar.MicrosPerHour)
  }

  /** The distinct resource ids, in order of first appearance (`unique()`). */
  function ResourceIds(hs: seq<Hourly>): (ids: seq<string>)
    ensures forall id :: id in ids <==> exists h :: h in hs && h.resourceId == id
  {
    Frames.Distinct(IdsOf(hs))
  }

  function IdsOf(hs: seq<Hourly>): (ids: seq<string>)
    ensures forall id :: id in ids <==> exists h :: h in hs && h.resourceId == id
  {
    if hs == [] then []
    else
      assert forall x :: x in hs <==> x in hs[..|hs| - 1] || x == hs[|hs| - 1];
      IdsOf(hs[..|hs| - 1]) + [hs[|hs| - 1].resourceId]
  }

  /** `datetimes.merge(ids, how='cross')`: hour-major pairs. */
  function Cross(ts: seq<Calendar.Instant>, ids: seq<string>): (cs: seq<(Calendar.Instant, string)>)
    ensures forall t, id :: (t, id) in cs <==> t in ts && id in ids
  {
    if ts == [] then []
    else
      assert forall x :: x in ts <==> x in ts[..|ts| - 1] || x == ts[|ts| - 1];
      Cross(ts[..|ts| - 1], ids) + WithTime(ts[|ts| - 1], ids)
  }

  function WithTime(t: Calendar.Instant, ids: seq<string>): (cs: seq<(Calendar.Instant, string)>)
    ensures forall c :: c in cs <==> c.0 == t && c.1 in ids
  {
    if ids == [] then []
    else
      assert forall x :: x in ids <==> x in ids[..|ids| - 1] || x == ids[|ids| - 1];
      WithTime(t, ids[..|ids| - 1]) + [(t, ids[|ids| - 1])]
  }

  function Grid(hs: seq<Hourly>): seq<(Calendar.Instant, string)>
    requires hs != []
  {
    Cross(GridHours(hs), ResourceIds(hs))
  }

  /** With every reported hour on an hour boundary, the grid pairs every
      resource with every hour from the earliest reported hour up to, but not
      including, the latest one. */
  lemma GridMeaning(hs: seq<Hourly>, t: Calendar.Instant, id: string)
    requires hs != []
    requires forall h :: h in hs ==> h.datetime % Calendar.MicrosPerHour == 0
    ensures (t, id) in Grid(hs) <==>
      && (exists h :: h in hs && h.resourceId == id)
      && EarliestHour(hs) <= t < LatestHour(hs) && t % Calendar.MicrosPerHour == 0
  {
    GridHoursMeaning(hs, t);
    assert (t, id) in Grid(hs) <==> t in GridHours(hs) && id in ResourceIds(hs);
  }

  /** The hours of the grid are the hour boundaries from the earliest
      reported hour up to, but not including, the latest one. */
  lemma GridHoursMeaning(hs: seq<Hourly>, t: Calendar.Instant)
    requires hs != []
    requires forall h :: h in hs ==> h.datetime % Calendar.MicrosPerHour == 0
    ensures t in GridHours(hs) <==>
      EarliestHour(hs) <= t < LatestHour(hs) && t % Calendar.MicrosPerHour == 0
  {
    var lo := EarliestHour(hs);
    var hi := LatestHour(hs);
    var ts := GridHours(hs);
    var H := Calendar.MicrosPerHour;
    var q := (hi - lo) / H;
    assert hi - lo == q * H by {
      assert lo % H == 0 && hi % H == 0;
      HourMultiple(lo, hi);
    }
    if t in ts {
      var k :| 0 <= k < |ts| && ts[k] == t;
      CurtailmentEvents.MulMono(k + 1, q, H);
      OnBoundary(lo, k);
    }
    if lo <= t < hi && t % H == 0 {
      var k := (t - lo) / H;
      HourMultiple(lo, t);
      assert t == lo + k * H;
      MulMonoWhen(q, k, H);
      assert ts[k] == t;
    }
  }

  lemma MulMonoWhen(a: int, b: int, d: nat)
    ensures a <= b ==> a * d <= b * d
  {
    assert b * d == a * d + (b - a) * d;
  }

  lemma HourMultiple(a: nat, b: nat)
    requires a <= b && a % Calendar.MicrosPerHour == 0 && b % Calendar.MicrosPerHour == 0
    ensures b - a == ((b - a) / Calendar.MicrosPerHour) * Calendar.MicrosPerHour
  {
    var H := Calendar.MicrosPerHour;
    assert a == (a / H) * H && b == (b / H) * H;
    assert b - a == (b / H - a / H) * H;
    CurtailmentEvents.DivUnique(b - a, H, b / H - a / H, 0);
  }

  lemma OnBoundary(lo: nat, k: nat)
    requires lo % Calendar.MicrosPerHour == 0
    ensures (lo + k * Calendar.MicrosPerHour) % Calendar.MicrosPerHour == 0
  {
    var H := Calendar.MicrosPerHour;
    assert lo + k * H == (lo / H + k) * H;
  }

  // ---- left merge with the reports -------------------------------------------

  function CellKey(id: string, t: Calendar.Instant): Grouping.Key
  {
    [Grouping.Str(id), Grouping.Num(t)]
  }

  function KeyedHours(hs: seq<Hourly>): seq<(Grouping.Key, Hourly)>
  {
    seq(|hs|, i requires 0 <= i < |hs| => (CellKey(hs[i].resourceId, hs[i].datetime), hs[i]))
  }

  /** The combining step of `.last()` on the exploded reports: the id, outage
      type, nature of work and MW are never null, so the newer row's values;
      the name and pmax: the newer value unless null. */
  function NewerHour(a: Hourly, b: Hourly): Hourly
  {
    b.(resourceName := Frames.Newer(a.resourceName, b.resourceName), pmax := Frames.Newer(a.pmax, b.pmax))
  }

  /** `groupby(['RESOURCE ID', 'DATETIME']).last()`. */
  function LastPerCell(hs: seq<Hourly>): seq<(Grouping.Key, Hourly)>
  {
    Grouping.GroupBy(KeyedHours(hs), NewerHour)
  }

  function GridKey(c: (Calendar.Instant, string)): Grouping.Key { CellKey(c.1, c.0) }

  /** A grid cell with its report row, or with nulls. */
  function Joined(c: (Calendar.Instant, string), m: Option<(Grouping.Key, Hourly)>): (r: GridRow)
    ensures r.datetime == c.0 && r.resourceId == c.1
  {
    match m
    case Some(e) =>
      GridRow(c.0, c.1, e.1.resourceName, Some(e.1.outageType), Some(e.1.natureOfWork), Some(e.1.mw), e.1.pmax)
    case None => GridRow(c.0, c.1, None, None, None, None, None)
  }

  /** `grid.merge(last, how='left', on=['RESOURCE ID', 'DATETIME'])`. */
  function Cells(hs: seq<Hourly>): seq<GridRow>
    requires hs != []
  {
    var j := Frames.LeftJoin(Grid(hs), LastPerCell(hs), GridKey, Grouping.EntryKey);
    seq(|j|, i requires 0 <= i < |j| => Joined(j[i].0, j[i].1))
  }

  /** The reports of a cell folded by `.last()`, keyed, or None. */
  function CellReport(hs: seq<Hourly>, c: (Calendar.Instant, string)): Option<(Grouping.Key, Hourly)>
  {
    match Grouping.FoldKey(KeyedHours(hs), GridKey(c), NewerHour)
    case Some(v) => Some((GridKey(c), v))
    case None => None
  }

  /** The merge keeps the grid one row per cell: a cell with reports carries
      the fold of its reports, a cell without any has nulls. */
  lemma CellsLength(hs: seq<Hourly>)
    requires hs != []
    ensures |Cells(hs)| == |Grid(hs)|
  {
    Grouping.SortedEntries(LastPerCell(hs));
    Frames.LeftJoinUnique(Grid(hs), LastPerCell(hs), GridKey, Grouping.EntryKey);
  }

  lemma CellsMeaning(hs: seq<Hourly>, i: nat)
    requires hs != [] && i < |Grid(hs)|
    ensures |Cells(hs)| == |Grid(hs)|
    ensures Cells(hs)[i] == Joined(Grid(hs)[i], CellReport(hs, Grid(hs)[i]))
  {
    Grouping.LeftMergeGroups(Grid(hs), LastPerCell(hs), GridKey, i);
  }

  function OutageTypeOf(h: Hourly): Option<string> { Some(h.outageType) }
  function NatureOf(h: Hourly): Option<string> { Some(h.natureOfWork) }
  function MwOf(h: Hourly): Option<real> { Some(h.mw) }
  function NameOf(h: Hourly): Option<string> { h.resourceName }
  function PmaxOf(h: Hourly): Option<real> { h.pmax }

  /** A reported cell carries the outage type, nature of work and MW of its
      last report, and the last non-null name and pmax among its reports. */
  lemma ReportedCellValues(hs: seq<Hourly>, k: Grouping.Key)
    requires Grouping.FoldKey(KeyedHours(hs), k, NewerHour).Some?
    ensures var v := Grouping.FoldKey(KeyedHours(hs), k, NewerHour).value;
      var rows := KeyedHours(hs);
      && Some(v.outageType) == Grouping.LastSomeOf(rows, k, OutageTypeOf)
      && Some(v.natureOfWork) == Grouping.LastSomeOf(rows, k, NatureOf)
      && Some(v.mw) == Grouping.LastSomeOf(rows, k, MwOf)
      && v.resourceName == Grouping.LastSomeOf(rows, k, NameOf)
      && v.pmax == Grouping.LastSomeOf(rows, k, PmaxOf)
  {
    var rows := KeyedHours(hs);
    Grouping.FoldKeyColumn(rows, k, NewerHour, OutageTypeOf);
    Grouping.FoldKeyColumn(rows, k, NewerHour, NatureOf);
    Grouping.FoldKeyColumn(rows, k, NewerHour, MwOf);
    Grouping.FoldKeyColumn(rows, k, NewerHour, NameOf);
    Grouping.FoldKeyColumn(rows, k, NewerHour, PmaxOf);
  }

  /** A cell has a report exactly when some exploded report has its resource
      and hour. */
  lemma ReportedCell(hs: seq<Hourly>, id: string, t: Calendar.Instant)
    ensures Grouping.FoldKey(KeyedHours(hs), CellKey(id, t), NewerHour).Some? <==>
      exists h :: h in hs && h.resourceId == id && h.datetime == t
  {
    var rows := KeyedHours(hs);
    Grouping.FoldKeyPresent(rows, CellKey(id, t), NewerHour);
    if exists h :: h in hs && h.resourceId == id && h.datetime == t {
      var h :| h in hs && h.resourceId == id && h.datetime == t;
      var i :| 0 <= i < |hs| && hs[i] == h;
      assert rows[i].0 == CellKey(id, t);
    }
    if exists i :: 0 <= i < |rows| && rows[i].0 == CellKey(id, t) {
      var i :| 0 <= i < |rows| && rows[i].0 == CellKey(id, t);
      assert hs[i] in hs;
    }
  }

  // ---- backfilling names and pmax ---------------------------------------------

  /** `groupby('RESOURCE ID').first()` of the names: the first non-null name
      among the resource's reports. */
  function FirstName(hs: seq<Hourly>, id: string): Option<string>
  {
    if hs == [] then None
    else if hs[0].resourceId == id && hs[0].resourceName.Some? then hs[0].resourceName
    else FirstName(hs[1..], id)
  }

  lemma {:induction false} FirstNameMeaning(hs: seq<Hourly>, id: string)
    ensures FirstName(hs, id).Some? ==>
      exists i :: && 0 <= i < |hs| && hs[i].resourceId == id && hs[i].resourceName == FirstName(hs, id)
                  && forall j :: 0 <= j < i && hs[j].resourceId == id ==> hs[j].resourceName.None?
    ensures FirstName(hs, id).None? ==> forall h :: h in hs && h.resourceId == id ==> h.resourceName.None?
  {
    if hs != [] && !(hs[0].resourceId == id && hs[0].resourceName.Some?) {
      FirstNameMeaning(hs[1..], id);
      if FirstName(hs, id).Some? {
        var i :| && 0 <= i < |hs[1..]| && hs[1..][i].resourceId == id && hs[1..][i].resourceName == FirstName(hs, id)
                 && forall j :: 0 <= j < i && hs[1..][j].resourceId == id ==> hs[1..][j].resourceName.None?;
        assert hs[i + 1] == hs[1..][i];
        forall j | 0 <= j < i + 1 && hs[j].resourceId == id ensures hs[j].resourceName.None? {
          if j > 0 {
            assert hs[j] == hs[1..][j - 1];
          }
        }
      } else {
        assert forall h :: h in hs ==> h == hs[0] || h in hs[1..];
      }
    }
  }

  function PmaxSum(hs: seq<Hourly>, id: string): real
  {
    if hs == [] then 0.0
    else PmaxSum(hs[..|hs| - 1], id)
         + (if hs[|hs| - 1].resourceId == id && hs[|hs| - 1].pmax.Some? then hs[|hs| - 1].pmax.value else 0.0)
  }

  function PmaxCount(hs: seq<Hourly>, id: string): nat
  {
    if hs == [] then 0
    else PmaxCount(hs[..|hs| - 1], id) + (if hs[|hs| - 1].resourceId == id && hs[|hs| - 1].pmax.Some? then 1 else 0)
  }

  /** `groupby('RESOURCE ID').mean()` of pmax: the mean of the resource's
      non-null values, null when there are none. */
  function MeanPmax(hs: seq<Hourly>, id: string): Option<real>
  {
    var n := PmaxCount(hs, id);
    if n == 0 then None else Some(PmaxSum(hs, id) / n as real)
  }

  /** When a resource reports one pmax throughout, its mean is that pmax. */
  lemma MeanOfConstantPmax(hs: seq<Hourly>, id: string, p: real)
    requires exists h :: h in hs && h.resourceId == id && h.pmax.Some?
    requires forall h :: h in hs && h.resourceId == id && h.pmax.Some? ==> h.pmax.value == p
    ensures MeanPmax(hs, id) == Some(p)
  {
    ConstantSum(hs, id, p);
    var h :| h in hs && h.resourceId == id && h.pmax.Some?;
    CountPositive(hs, id, h);
    var n := PmaxCount(hs, id);
    TimesMeaning(n, p);
    var r := n as real;
    DivideBack(r, p);
    var sum := PmaxSum(hs, id);
    assert sum == r * p;
    assert sum / r == p;
  }

  /** p added to itself n times. */
  function Times(n: nat, p: real): real
  {
    if n == 0 then 0.0 else Times(n - 1, p) + p
  }

  lemma {:induction false} TimesMeaning(n: nat, p: real)
    ensures Times(n, p) == n as real * p
  {
    if n > 0 {
      TimesMeaning(n - 1, p);
      assert n as real * p == (n - 1) as real * p + p;
    }
  }

  lemma DivideBack(n: real, p: real)
    requires n > 0.0
    ensures (n * p) / n == p
  {
  }

  lemma {:induction false} ConstantSum(hs: seq<Hourly>, id: string, p: real)
    requires forall h :: h in hs && h.resourceId == id && h.pmax.Some? ==> h.pmax.value == p
    ensures PmaxSum(hs, id) == Times(PmaxCount(hs, id), p)
  {
    if hs != [] {
      var init := hs[..|hs| - 1];
      assert forall h :: h in init ==> h in hs;
      assert hs[|hs| - 1] in hs;
      ConstantSum(init, id, p);
    }
  }

  lemma {:induction false} CountPositive(hs: seq<Hourly>, id: string, h: Hourly)
    requires h in hs && h.resourceId == id && h.pmax.Some?
    ensures PmaxCount(hs, id) > 0
  {
    if hs[|hs| - 1] != h {
      assert h in hs[..|hs| - 1] by {
        var i :| 0 <= i < |hs| && hs[i] == h;
        assert hs[..|hs| - 1][i] == h;
      }
      CountPositive(hs[..|hs| - 1], id, h);
    }
  }

  /** The intended backfill of one grid row from its own resource's first name
      and mean pmax. */
  function Backfill(hs: seq<Hourly>, r: GridRow): (b: GridRow)
    ensures b.resourceName == (if r.resourceName.Some? then r.resourceName else FirstName(hs, r.resourceId))
    ensures b.pmax == (if r.pmax.Some? then r.pmax else MeanPmax(hs, r.resourceId))
    ensures b.(resourceName := r.resourceName, pmax := r.pmax) == r
  {
    r.(resourceName := if r.resourceName.Some? then r.resourceName else FirstName(hs, r.resourceId),
       pmax := if r.pmax.Some? then r.pmax else MeanPmax(hs, r.resourceId))
  }

  function Backfilled(hs: seq<Hourly>, rows: seq<GridRow>): (bs: seq<GridRow>)
    ensures |bs| == |rows| && forall i :: 0 <= i < |rows| ==> bs[i] == Backfill(hs, rows[i])
  {
    seq(|rows|, i requires 0 <= i < |rows| => Backfill(hs, rows[i]))
  }

  /** The ids of the rows whose column is null, in row order: the frame the
      source merges and whose fresh 0-based index it then assigns by. */
  function MaskedIds<T>(col: seq<Option<T>>, ids: seq<string>): (ms: seq<string>)
    requires |col| == |ids|
    ensures |ms| <= |col|
  {
    if col == [] then []
    else MaskedIds(col[..|col| - 1], ids[..|ids| - 1]) + (if col[|col| - 1].None? then [ids[|ids| - 1]] else [])
  }

  /** `df.loc[df[c].isna(), c] = df.loc[df[c].isna(), ['RESOURCE ID']].merge(t,
      how='left').loc[:, c]` as pandas runs it: the right-hand side is indexed
      0..m-1, so the null row at position i receives the value looked up for
      the i-th null row, or null when i >= m. */
  function AlignedAsWritten<T>(col: seq<Option<T>>, ids: seq<string>, lookup: string -> Option<T>): (r: seq<Option<T>>)
    requires |col| == |ids|
    ensures |r| == |col|
  {
    var ms := MaskedIds(col, ids);
    seq(|col|, i requires 0 <= i < |col| =>
      if col[i].Some? then col[i] else if i < |ms| then lookup(ms[i]) else None)
  }

  /** The intended assignment: each null row receives its own resource's
      value. */
  function AlignedIntended<T>(col: seq<Option<T>>, ids: seq<string>, lookup: string -> Option<T>): (r: seq<Option<T>>)
    requires |col| == |ids|
    ensures |r| == |col|
  {
    seq(|col|, i requires 0 <= i < |col| => if col[i].Some? then col[i] else lookup(ids[i]))
  }

  /** The two agree when the null rows come first. */
  lemma {:induction false} AlignedAgreeOnPrefix<T>(col: seq<Option<T>>, ids: seq<string>, lookup: string -> Option<T>, m: nat)
    requires |col| == |ids| && m <= |col|
    requires forall i :: 0 <= i < |col| ==> (col[i].None? <==> i < m)
    ensures AlignedAsWritten(col, ids, lookup) == AlignedIntended(col, ids, lookup)
  {
    MaskedPrefix(col, ids, m);
  }

  lemma {:induction false} MaskedPrefix<T>(col: seq<Option<T>>, ids: seq<string>, m: nat)
    requires |col| == |ids| && m <= |col|
    requires forall i :: 0 <= i < |col| ==> (col[i].None? <==> i < m)
    ensures MaskedIds(col, ids) == ids[..m]
  {
    if col != [] {
      var n := |col| - 1;
      if m == |col| {
        MaskedPrefix(col[..n], ids[..n], n);
        assert ids[..n] + [ids[n]] == ids[..m];
      } else {
        MaskedPrefix(col[..n], ids[..n], m);
        assert ids[..n][..m] == ids[..m];
      }
    }
  }

  /** The discrepancy: resource B's row follows a row with a name, so its null
      name is assigned from position 1 of a one-row frame and stays null,
      although B reports the name "Beta". */
  lemma BackfillMisaligned()
    ensures var col := [Some("Alpha"), None];
      var ids := ["A", "B"];
      var lookup := (id: string) => if id == "B" then Some("Beta") else Some("Alpha");
      && AlignedAsWritten(col, ids, lookup)[1] == None
      && AlignedIntended(col, ids, lookup)[1] == Some("Beta")
  {
    var col: seq<Option<string>> := [Some("Alpha"), None];
    var ids := ["A", "B"];
    assert col[..1] == [Some("Alpha")] && ids[..1] == ["A"];
    assert MaskedIds(col, ids) == ["B"];
  }

  /** The backfill as written, on whole rows. */
  function BackfilledAsWritten(hs: seq<Hourly>, rows: seq<GridRow>): (bs: seq<GridRow>)
    ensures |bs| == |rows|
  {
    var ids := seq(|rows|, i requires 0 <= i < |rows| => rows[i].resourceId);
    var names := AlignedAsWritten(seq(|rows|, i requires 0 <= i < |rows| => rows[i].resourceName), ids,
                                  id => FirstName(hs, id));
    var pmaxes := AlignedAsWritten(seq(|rows|, i requires 0 <= i < |rows| => rows[i].pmax), ids,
                                   id => MeanPmax(hs, id));
    seq(|rows|, i requires 0 <= i < |rows| => rows[i].(resourceName := names[i], pmax := pmaxes[i]))
  }

  // ---- default values for unreported hours ------------------------------------

  /** `fillna` of the MW, outage type and nature of work. */
  function FillDefaults(r: GridRow): (f: GridRow)
    ensures f.mw == (if r.mw.Some? then r.mw else Some(0.0))
    ensures f.outageType == (if r.outageType.Some? then r.outageType else Some(Forced))
    ensures f.natureOfWork == (if r.natureOfWork.Some? then r.natureOfWork else Some(AmbientDueToTemp))
    ensures f.(mw := r.mw, outageType := r.outageType, natureOfWork := r.natureOfWork) == r
  {
    r.(mw := Some(Frames.FillNull(r.mw, 0.0)),
       outageType := Some(Frames.FillNull(r.outageType, Forced)),
       natureOfWork := Some(Frames.FillNull(r.natureOfWork, AmbientDueToTemp)))
  }

  /** The three in-place column writes, one row at a time. */
  method FillUnreported(rows: array<GridRow>)
    modifies rows
    ensures forall i :: 0 <= i < rows.Length ==> rows[i] == FillDefaults(old(rows[i]))
  {
    var i := 0;
    while i < rows.Length
      invariant 0 <= i <= rows.Length
      invariant forall k :: 0 <= k < i ==> rows[k] == FillDefaults(old(rows[k]))
      invariant forall k :: i <= k < rows.Length ==> rows[k] == old(rows[k])
    {
      rows[i] := FillDefaults(rows[i]);
      i := i + 1;
    }
  }

  function Filled(rows: seq<GridRow>): (fs: seq<GridRow>)
    ensures |fs| == |rows| && forall i :: 0 <= i < |rows| ==> fs[i] == FillDefaults(rows[i])
  {
    seq(|rows|, i requires 0 <= i < |rows| => FillDefaults(rows[i]))
  }

  /** An unreported cell becomes a zero-MW forced outage due to ambient
      temperature, with its resource's first name and mean pmax. */
  lemma UnreportedCell(hs: seq<Hourly>, c: (Calendar.Instant, string))
    ensures var r := FillDefaults(Backfill(hs, Joined(c, None)));
      && r.datetime == c.0 && r.resourceId == c.1 && r.mw == Some(0.0)
      && r.outageType == Some(Forced) && r.natureOfWork == Some(AmbientDueToTemp)
      && r.resourceName == FirstName(hs, c.1) && r.pmax == MeanPmax(hs, c.1)
  {
  }

  // ---- stations and weather ----------------------------------------------------

  function RowId(r: GridRow): string { r.resourceId }
  function LinkId(l: StationLink): string { l.resourceId }

  /** The left key of the weather merge, (WeatherStationID, DATETIME); a row
      without a station has a null key, which no reading matches. */
  function StationHourOf(x: (GridRow, Option<StationLink>)): (Option<string>, Calendar.Instant)
  {
    (if x.1.Some? then x.1.value.stationId else None, x.0.datetime)
  }

  function ReadingKey(w: IsdWeather.Reading): (Option<string>, Calendar.Instant)
  {
    (Some(w.callSign), w.hour)
  }

  /** Degrees Celsius from tenths. */
  function Celsius(tenths: int): real
  {
    tenths as real / 10.0
  }

  function Merge(r: GridRow, l: StationLink, w: IsdWeather.Reading): MergedRow
  {
    MergedRow(r.datetime, r.resourceId, r.resourceName, l.unitType, Frames.FillNull(r.mw, 0.0), r.pmax,
              w.callSign, Celsius(w.dryBulb))
  }

  /** The row kept by `dropna(subset=['DRY BULB TEMPERATURE'])` and the filter
      on FORCED and AMBIENT_DUE_TO_TEMP, with its selected columns. */
  function Kept(x: ((GridRow, Option<StationLink>), Option<IsdWeather.Reading>)): Option<MergedRow>
  {
    match x
    case ((r, Some(l)), Some(w)) =>
      if r.outageType == Some(Forced) && r.natureOfWork == Some(AmbientDueToTemp) then Some(Merge(r, l, w)) else None
    case _ => None
  }

  function Select(xs: seq<((GridRow, Option<StationLink>), Option<IsdWeather.Reading>)>): (ms: seq<MergedRow>)
    ensures forall m :: m in ms <==> exists x :: x in xs && Kept(x) == Some(m)
  {
    if xs == [] then []
    else
      var x := xs[|xs| - 1];
      assert forall y :: y in xs <==> y in xs[..|xs| - 1] || y == x;
      Select(xs[..|xs| - 1]) + (if Kept(x).Some? then [Kept(x).value] else [])
  }

  /** The joins and the final selection, after the grid has been filled. */
  function JoinWeather(rows: seq<GridRow>, links: seq<StationLink>, weather: seq<IsdWeather.Reading>): seq<MergedRow>
  {
    var withStations := Frames.LeftJoin(rows, links, RowId, LinkId);
    Select(Frames.LeftJoin(withStations, weather, StationHourOf, ReadingKey))
  }

  /** `impute_zero_curtailments`, with the backfill as intended. */
  function ImputeZeroCurtailments(hs: seq<Hourly>, links: seq<StationLink>, weather: seq<IsdWeather.Reading>): seq<MergedRow>
    requires hs != []
  {
    JoinWeather(Filled(Backfilled(hs, Cells(hs))), links, weather)
  }

  /** A grid row, a station link and a reading that the joins put together
      and the selection keeps. */
  predicate Survives(r: GridRow, l: StationLink, w: IsdWeather.Reading)
  {
    && l.resourceId == r.resourceId && l.stationId == Some(w.callSign) && w.hour == r.datetime
    && r.outageType == Some(Forced) && r.natureOfWork == Some(AmbientDueToTemp)
  }

  /** A row survives the joins and the selection exactly when it is a forced
      outage due to temperature, a link maps its resource to a station, and
      that station has a reading at the row's hour; its temperature is that
      reading's dry bulb. */
  lemma JoinWeatherMeaning(rows: seq<GridRow>, links: seq<StationLink>, weather: seq<IsdWeather.Reading>, m: MergedRow)
    ensures m in JoinWeather(rows, links, weather) <==>
      exists r, l, w :: r in rows && l in links && w in weather && Survives(r, l, w) && m == Merge(r, l, w)
  {
    if m in JoinWeather(rows, links, weather) {
      JoinWeatherSound(rows, links, weather, m);
    }
    if exists r, l, w :: r in rows && l in links && w in weather && Survives(r, l, w) && m == Merge(r, l, w) {
      var r, l, w :| r in rows && l in links && w in weather && Survives(r, l, w) && m == Merge(r, l, w);
      JoinWeatherComplete(rows, links, weather, r, l, w);
    }
  }

  lemma JoinWeatherSound(rows: seq<GridRow>, links: seq<StationLink>, weather: seq<IsdWeather.Reading>, m: MergedRow)
    requires m in JoinWeather(rows, links, weather)
    ensures exists r, l, w :: r in rows && l in links && w in weather && Survives(r, l, w) && m == Merge(r, l, w)
  {
    var withStations := Frames.LeftJoin(rows, links, RowId, LinkId);
    var all := Frames.LeftJoin(withStations, weather, StationHourOf, ReadingKey);
    var x :| x in all && Kept(x) == Some(m);
    KeptMeaning(x);
    var r, l, w := x.0.0, x.0.1.value, x.1.value;
    assert x == ((r, Some(l)), Some(w));
    Frames.LeftJoinMatched(withStations, weather, StationHourOf, ReadingKey, (r, Some(l)), w);
    Frames.LeftJoinMatched(rows, links, RowId, LinkId, r, l);
    assert Survives(r, l, w);
    assert m == Merge(r, l, w);
  }

  lemma KeptMeaning(x: ((GridRow, Option<StationLink>), Option<IsdWeather.Reading>))
    requires Kept(x).Some?
    ensures x.0.1.Some? && x.1.Some?
    ensures var r, l, w := x.0.0, x.0.1.value, x.1.value;
      && r.outageType == Some(Forced) && r.natureOfWork == Some(AmbientDueToTemp)
      && Kept(x) == Some(Merge(r, l, w))
  {
  }

  lemma JoinWeatherComplete(rows: seq<GridRow>, links: seq<StationLink>, weather: seq<IsdWeather.Reading>,
                            r: GridRow, l: StationLink, w: IsdWeather.Reading)
    requires r in rows && l in links && w in weather && Survives(r, l, w)
    ensures Merge(r, l, w) in JoinWeather(rows, links, weather)
  {
    var withStations := Frames.LeftJoin(rows, links, RowId, LinkId);
    var all := Frames.LeftJoin(withStations, weather, StationHourOf, ReadingKey);
    assert (r, Some(l)) in withStations;
    assert ((r, Some(l)), Some(w)) in all;
    assert Kept(((r, Some(l)), Some(w))) == Some(Merge(r, l, w));
  }

  /** The rows entering the joins are the grid's cells. */
  lemma FilledRowOnGrid(hs: seq<Hourly>, r: GridRow)
    requires hs != [] && r in Filled(Backfilled(hs, Cells(hs)))
    ensures (r.datetime, r.resourceId) in Grid(hs)
  {
    var cells := Cells(hs);
    var rows := Filled(Backfilled(hs, cells));
    var i :| 0 <= i < |rows| && rows[i] == r;
    CellsLength(hs);
    CellsMeaning(hs, i);
    var grid := Grid(hs);
    var c := cells[i];
    assert c == Joined(grid[i], CellReport(hs, grid[i]));
    assert r == FillDefaults(Backfill(hs, c));
    assert r.datetime == c.datetime && r.resourceId == c.resourceId;
    assert grid[i] in grid;
  }

  /** Every imputed row is a forced outage due to temperature at a grid hour
      with a reading of its resource's station at that hour. */
  lemma ImputedRowMeaning(hs: seq<Hourly>, links: seq<StationLink>, weather: seq<IsdWeather.Reading>, m: MergedRow)
    requires hs != []
    requires m in ImputeZeroCurtailments(hs, links, weather)
    ensures (m.datetime, m.resourceId) in Grid(hs)
    ensures exists l, w :: && l in links && w in weather && l.resourceId == m.resourceId
                           && l.stationId == Some(m.stationId) && w.callSign == m.stationId
                           && w.hour == m.datetime && m.dryBulb == Celsius(w.dryBulb)
  {
    var rows := Filled(Backfilled(hs, Cells(hs)));
    JoinWeatherSound(rows, links, weather, m);
    var r, l, w :| r in rows && l in links && w in weather && Survives(r, l, w) && m == Merge(r, l, w);
    FilledRowOnGrid(hs, r);
  }
}
