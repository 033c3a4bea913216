/** The regression stage of the curtailment modeller (`regress` and
    `multilinear_regress`): the merged curtailment-and-temperature rows are
    restricted to the requested unit types and to plausible values, each
    resource gets a straight-line fit of percent curtailment against dry-bulb
    temperature, temperatures are shifted by the resource's fit so that its
    lines meet at a target curtailment, and one line is fitted per unit type.
    The fitting, correlation and covariance routines are library numerics and
    are taken as given functions; only the rows they receive, the errors they
    raise and the NaN fallback for an empty selection are modelled. */
module Regression {
  import opened Wrappers
  import opened Floats
  import Calendar
  import Frames
  import IsdWeather
  import CurtailmentEvents
  import Imputation

  type Hourly = CurtailmentEvents.HourlyCurtailment
  type MergedRow = Imputation.MergedRow

  // ---- library numerics ------------------------------------------------------

  /** Slope, intercept and R² of a fitted line. */
  datatype LineFit = LineFit(slope: Float, intercept: Float, rsquared: Float)

  /** The result recorded for a unit type without rows. */
  const NoFit := LineFit(NaN, NaN, NaN)

  /** `LinearRegression().fit(...)` with `score` on one predictor and on
      several (the slope is the first coefficient), and the per-group
      `corr` and `cov` of temperature against percent curtailment. */
  datatype Numerics = Numerics(
    fit: seq<(real, real)> -> LineFit,
    fitMany: seq<(seq<real>, real)> -> LineFit,
    corr: seq<(real, Float)> -> Float,
    cov: seq<(real, Float)> -> Float)

  predicate FinitePoints(ps: seq<(Float, Float)>)
  {
    forall i :: 0 <= i < |ps| ==> ps[i].0.Finite? && ps[i].1.Finite?
  }

  function Reals(ps: seq<(Float, Float)>): (rs: seq<(real, real)>)
    requires FinitePoints(ps)
    ensures |rs| == |ps|
    ensures forall i :: 0 <= i < |ps| ==> rs[i] == (ps[i].0.v, ps[i].1.v)
  {
    seq(|ps|, i requires 0 <= i < |ps| && ps[i].0.Finite? && ps[i].1.Finite? => (ps[i].0.v, ps[i].1.v))
  }

  /** A least-squares fit as scikit-learn runs it: it raises on an empty
      sample and on any NaN or infinite value. */
  function Fit(ps: seq<(Float, Float)>, fit: seq<(real, real)> -> LineFit): (r: Result<LineFit, string>)
    ensures r.Ok? <==> ps != [] && FinitePoints(ps)
    ensures r.Ok? ==> r.value == fit(Reals(ps))
  {
    if ps == [] then Err("Found array with 0 sample(s)")
    else if !FinitePoints(ps) then Err("Input contains NaN or infinity")
    else Ok(fit(Reals(ps)))
  }

  // ---- the merged rows -------------------------------------------------------

  /** A merged row with its PERCENT CURTAILMENT. */
  datatype Sample = Sample(row: MergedRow, percent: Float)

  /** CURTAILMENT MW / RESOURCE PMAX MW, NaN when the capacity is missing. */
  function Percent(m: MergedRow): (p: Float)
    ensures m.pmax.None? ==> p.NaN?
    ensures m.pmax.Some? && m.pmax.value != 0.0 ==> p == Finite(m.mw / m.pmax.value)
    ensures m.pmax == Some(0.0) ==> (p.NaN? <==> m.mw == 0.0)
  {
    Div(Finite(m.mw), if m.pmax.Some? then Finite(m.pmax.value) else NaN)
  }

  function Sampled(m: MergedRow): Sample { Sample(m, Percent(m)) }

  /** A row whose unit type is one of the requested ones; no list means no
      restriction.  A missing unit type equals no listed one. */
  predicate Listed(m: MergedRow, unitTypes: Option<seq<string>>)
  {
    unitTypes.None? || (m.unitType.Some? && m.unitType.value in unitTypes.value)
  }

  /** The unit-type restriction; `reduce` over an empty list of masks raises. */
  function UnitTypeFilter(rows: seq<MergedRow>, unitTypes: Option<seq<string>>): (r: Result<seq<MergedRow>, string>)
    ensures r.Err? <==> unitTypes == Some([])
    ensures r.Ok? ==> forall m :: m in r.value <==> m in rows && Listed(m, unitTypes)
  {
    if unitTypes == Some([]) then Err("reduce() of empty iterable with no initial value")
    else Ok(Frames.Filter(rows, m => Listed(m, unitTypes)))
  }

  /** Temperature at most 100 and a percent that is not NaN (infinite
      percents, from a zero capacity, are kept). */
  predicate Plausible(s: Sample)
  {
    s.row.dryBulb <= 100.0 && !s.percent.NaN?
  }

  /** The unit-type restriction, the percent column and the plausibility
      filters applied to freshly merged rows. */
  function Prepare(rows: seq<MergedRow>, unitTypes: Option<seq<string>>): (r: Result<seq<Sample>, string>)
    ensures r.Err? <==> unitTypes == Some([])
  {
    var listed := UnitTypeFilter(rows, unitTypes);
    if listed.Err? then Err(listed.error)
    else Ok(Frames.Filter(Frames.Column(listed.value, Sampled), Plausible))
  }

  /** A prepared row is a listed merged row with its percent, with a
      temperature of at most 100 and a percent that is not NaN. */
  lemma PrepareMeaning(rows: seq<MergedRow>, unitTypes: Option<seq<string>>, s: Sample)
    ensures Prepare(rows, unitTypes).Ok? ==>
      (s in Prepare(rows, unitTypes).value <==>
         && s.row in rows && Listed(s.row, unitTypes) && s.percent == Percent(s.row)
         && s.row.dryBulb <= 100.0 && !s.percent.NaN?)
  {
    var listed := UnitTypeFilter(rows, unitTypes);
    if listed.Ok? {
      var withPercent := Frames.Column(listed.value, Sampled);
      assert s in withPercent <==> s.row in listed.value && s == Sampled(s.row);
    }
  }

  /** The merges of the hourly curtailments with the station map and the
      readings, keeping only hours with a reading (no imputation). */
  function HourId(h: Hourly): string { h.resourceId }

  function ReportedStationHour(x: (Hourly, Imputation.StationLink)): (Option<string>, Calendar.Instant)
  {
    (x.1.stationId, x.0.datetime)
  }

  function MergeReported(x: ((Hourly, Imputation.StationLink), IsdWeather.Reading)): MergedRow
  {
    var h, l, w := x.0.0, x.0.1, x.1;
    Imputation.MergedRow(h.datetime, h.resourceId, h.resourceName, l.unitType, h.mw, h.pmax,
                         w.callSign, Imputation.Celsius(w.dryBulb))
  }

  function JoinReported(hs: seq<Hourly>, links: seq<Imputation.StationLink>, weather: seq<IsdWeather.Reading>): seq<MergedRow>
  {
    var withStations := Frames.InnerJoin(hs, links, HourId, Imputation.LinkId);
    Frames.Column(Frames.InnerJoin(withStations, weather, ReportedStationHour, Imputation.ReadingKey), MergeReported)
  }

  /** A reported row survives the merges exactly when a link maps its resource
      to a station that has a reading at the row's hour. */
  lemma JoinReportedMeaning(hs: seq<Hourly>, links: seq<Imputation.StationLink>, weather: seq<IsdWeather.Reading>, m: MergedRow)
    ensures m in JoinReported(hs, links, weather) <==>
      exists h, l, w :: && h in hs && l in links && w in weather
                        && l.resourceId == h.resourceId && l.stationId == Some(w.callSign) && w.hour == h.datetime
                        && m == MergeReported(((h, l), w))
  {
    var withStations := Frames.InnerJoin(hs, links, HourId, Imputation.LinkId);
    var all := Frames.InnerJoin(withStations, weather, ReportedStationHour, Imputation.ReadingKey);
    if m in JoinReported(hs, links, weather) {
      var x :| x in all && m == MergeReported(x);
      assert x.0 in withStations;
    }
    if exists h, l, w :: && h in hs && l in links && w in weather
                         && l.resourceId == h.resourceId && l.stationId == Some(w.callSign) && w.hour == h.datetime
                         && m == MergeReported(((h, l), w)) {
      var h, l, w :| && h in hs && l in links && w in weather
                     && l.resourceId == h.resourceId && l.stationId == Some(w.callSign) && w.hour == h.datetime
                     && m == MergeReported(((h, l), w));
      assert (h, l) in withStations;
      assert ((h, l), w) in all;
    }
  }

  /** Where the regression rows come from: the saved merged file, the
      imputed grid, or the reported hours only. */
  datatype Source = Processed(samples: seq<Sample>) | Imputed | Reported

  /** The rows a regression starts from.  The saved file is used as read; the
      other two are merged, restricted and filtered.  Imputation over no
      curtailments raises when the empty hour range is converted. */
  function Load(source: Source, hs: seq<Hourly>, links: seq<Imputation.StationLink>,
                weather: seq<IsdWeather.Reading>, unitTypes: Option<seq<string>>): (r: Result<seq<Sample>, string>)
    ensures source.Processed? ==> r == Ok(source.samples)
    ensures source.Imputed? ==> (r.Err? <==> hs == [] || unitTypes == Some([]))
    ensures source.Reported? ==> (r.Err? <==> unitTypes == Some([]))
  {
    match source
    case Processed(ss) => Ok(ss)
    case Imputed =>
      if hs == [] then Err("cannot convert float NaN to integer")
      else Prepare(Imputation.ImputeZeroCurtailments(hs, links, weather), unitTypes)
    case Reported => Prepare(JoinReported(hs, links, weather), unitTypes)
  }

  /** `regress` as written on the reported-hours path: `.loc` is given eight
      bare column names, which pandas reads as too many indexers. */
  function LoadAsWritten(source: Source, hs: seq<Hourly>, links: seq<Imputation.StationLink>,
                         weather: seq<IsdWeather.Reading>, unitTypes: Option<seq<string>>): Result<seq<Sample>, string>
  {
    if source.Reported? then Err("Too many indexers") else Load(source, hs, links, weather, unitTypes)
  }

  /** The reported-hours path of `regress` always raises, where the column
      selection that `multilinear_regress` writes yields the merged rows. */
  lemma ReportedPathRaises(hs: seq<Hourly>, links: seq<Imputation.StationLink>,
                           weather: seq<IsdWeather.Reading>, unitTypes: Option<seq<string>>)
    requires unitTypes != Some([])
    ensures LoadAsWritten(Reported, hs, links, weather, unitTypes).Err?
    ensures Load(Reported, hs, links, weather, unitTypes).Ok?
  {
  }

  // ---- per-resource fits -------------------------------------------------------

  function SampleId(s: Sample): string { s.row.resourceId }

  /** Rows used for correlation and covariance. */
  predicate LowCurtailment(s: Sample) { Lt(s.percent, Finite(0.3)) }

  predicate BelowMaximum(s: Sample, maximum: real) { Lt(s.percent, Finite(maximum)) }

  /** The resource has a row for the correlation; the inner merges with the
      correlation and covariance tables drop every other resource. */
  predicate HasLowRow(ss: seq<Sample>, id: string)
  {
    exists s :: s in ss && s.row.resourceId == id && LowCurtailment(s)
  }

  function TemperaturePoint(s: Sample): (Float, Float) { (Finite(s.row.dryBulb), s.percent) }

  function CorrelationPoint(s: Sample): (real, Float) { (s.row.dryBulb, s.percent) }

  /** `groupby(...).first()` of the unit type: the first one that is not null. */
  function FirstUnitType(ss: seq<Sample>): (u: Option<string>)
    ensures u.Some? ==> exists i :: 0 <= i < |ss| && ss[i].row.unitType == u
                                 && forall j :: 0 <= j < i ==> ss[j].row.unitType.None?
    ensures u.None? ==> forall s :: s in ss ==> s.row.unitType.None?
  {
    if ss == [] then None
    else if ss[0].row.unitType.Some? then ss[0].row.unitType
    else
      var u := FirstUnitType(ss[1..]);
      assert forall s :: s in ss ==> s == ss[0] || s in ss[1..];
      if u.Some? then
        var i :| 0 <= i < |ss[1..]| && ss[1..][i].row.unitType == u && forall j :: 0 <= j < i ==> ss[1..][j].row.unitType.None?;
        assert ss[i + 1].row.unitType == u;
        u
      else u
  }

  /** A row of the per-resource table. */
  datatype ResourceFit = ResourceFit(resourceId: string, unitType: Option<string>, observations: nat,
                                     correlation: Float, covariance: Float, fit: LineFit)

  function ResourceRows(ss: seq<Sample>, id: string): seq<Sample>
  {
    Frames.Matches(ss, SampleId, id)
  }

  /** The rows a resource's line is fitted to. */
  function FitRows(ss: seq<Sample>, id: string, maximum: real): (rs: seq<Sample>)
    ensures forall s :: s in rs <==> s in ss && s.row.resourceId == id && Lt(s.percent, Finite(maximum))
  {
    Frames.Filter(ResourceRows(ss, id), s => BelowMaximum(s, maximum))
  }

  function LowRows(ss: seq<Sample>, id: string): seq<Sample>
  {
    Frames.Filter(ResourceRows(ss, id), LowCurtailment)
  }

  function FitPoints(ss: seq<Sample>, id: string, maximum: real): seq<(Float, Float)>
  {
    Frames.Column(FitRows(ss, id, maximum), TemperaturePoint)
  }

  function FitResource(ss: seq<Sample>, id: string, maximum: real, num: Numerics): (r: Result<ResourceFit, string>)
    ensures r.Ok? <==> Fit(FitPoints(ss, id, maximum), num.fit).Ok?
    ensures r.Ok? ==> && r.value.resourceId == id && r.value.observations == |ResourceRows(ss, id)|
                      && r.value.unitType == FirstUnitType(ResourceRows(ss, id))
                      && r.value.fit == Fit(FitPoints(ss, id, maximum), num.fit).value
  {
    var f := Fit(FitPoints(ss, id, maximum), num.fit);
    if f.Err? then Err(f.error)
    else
      var low := Frames.Column(LowRows(ss, id), CorrelationPoint);
      Ok(ResourceFit(id, FirstUnitType(ResourceRows(ss, id)), |ResourceRows(ss, id)|, num.corr(low), num.cov(low), f.value))
  }

  /** The resources of the table, in order of first appearance. */
  function SurvivingIds(ss: seq<Sample>): (ids: seq<string>)
    ensures forall id :: id in ids <==> HasLowRow(ss, id)
    ensures forall i, j :: 0 <= i < j < |ids| ==> ids[i] != ids[j]
  {
    var all := Frames.Distinct(Frames.Column(ss, SampleId));
    Frames.FilterKeepsDistinct(all, id => HasLowRow(ss, id));
    Frames.Filter(all, id => HasLowRow(ss, id))
  }

  /** The per-resource table.  With no row below 30 % the grouped correlation
      is empty, its reset index has no `level_1` column, and selecting that
      column raises. */
  function ResourceTable(ss: seq<Sample>, maximum: real, num: Numerics): (r: Result<seq<ResourceFit>, string>)
    ensures SurvivingIds(ss) == [] ==> r.Err?
  {
    if SurvivingIds(ss) == [] then Err("KeyError: 'level_1'")
    else Frames.MapAll(SurvivingIds(ss), id => FitResource(ss, id, maximum, num))
  }

  /** The per-resource table has one row per resource with a row below 30 %
      curtailment, and each row counts the resource's rows, records its first
      unit type, and holds the line fitted to its rows below the maximum. */
  lemma ResourceTableMeaning(ss: seq<Sample>, maximum: real, num: Numerics)
    requires ResourceTable(ss, maximum, num).Ok?
    ensures var t := ResourceTable(ss, maximum, num).value;
      && (forall i, j :: 0 <= i < j < |t| ==> t[i].resourceId != t[j].resourceId)
      && (forall id :: (exists f :: f in t && f.resourceId == id) <==> HasLowRow(ss, id))
      && (forall f :: f in t ==>
            && f.observations == |ResourceRows(ss, f.resourceId)|
            && f.unitType == FirstUnitType(ResourceRows(ss, f.resourceId))
            && FinitePoints(FitPoints(ss, f.resourceId, maximum))
            && f.fit == num.fit(Reals(FitPoints(ss, f.resourceId, maximum))))
  {
    var ids := SurvivingIds(ss);
    var t := ResourceTable(ss, maximum, num).value;
    forall i | 0 <= i < |t|
      ensures t[i].resourceId == ids[i]
      ensures && t[i].observations == |ResourceRows(ss, ids[i])|
              && t[i].unitType == FirstUnitType(ResourceRows(ss, ids[i]))
              && FinitePoints(FitPoints(ss, ids[i], maximum))
              && t[i].fit == num.fit(Reals(FitPoints(ss, ids[i], maximum)))
    {
      ResourceTableAt(ss, maximum, num, i);
    }
    forall id | HasLowRow(ss, id) ensures exists f :: f in t && f.resourceId == id {
      var i :| 0 <= i < |ids| && ids[i] == id;
      assert t[i] in t;
    }
  }

  lemma ResourceTableAt(ss: seq<Sample>, maximum: real, num: Numerics, i: nat)
    requires ResourceTable(ss, maximum, num).Ok? && i < |ResourceTable(ss, maximum, num).value|
    ensures |ResourceTable(ss, maximum, num).value| == |SurvivingIds(ss)|
    ensures var f := ResourceTable(ss, maximum, num).value[i]; var id := SurvivingIds(ss)[i];
      && f.resourceId == id && f.observations == |ResourceRows(ss, id)|
      && f.unitType == FirstUnitType(ResourceRows(ss, id))
      && FinitePoints(FitPoints(ss, id, maximum))
      && f.fit == num.fit(Reals(FitPoints(ss, id, maximum)))
  {
    var ids := SurvivingIds(ss);
    var r := FitResource(ss, ids[i], maximum, num);
    assert r.Ok?;
  }

  /** Building the table raises exactly when no row is below 30 %
      curtailment, or some resource of the table has no row below the
      maximum, or one with an infinite percent. */
  lemma ResourceTableRaises(ss: seq<Sample>, maximum: real, num: Numerics)
    ensures ResourceTable(ss, maximum, num).Err? <==>
      || (forall s :: s in ss ==> !LowCurtailment(s))
      || exists id :: HasLowRow(ss, id) &&
           (FitRows(ss, id, maximum) == [] || exists s :: s in FitRows(ss, id, maximum) && !s.percent.Finite?)
  {
    var ids := SurvivingIds(ss);
    NoLowRows(ss);
    if ids == [] {
    } else if ResourceTable(ss, maximum, num).Err? {
      var i :| 0 <= i < |ids| && FitResource(ss, ids[i], maximum, num).Err?;
      assert ids[i] in ids;
      FitResourceRaises(ss, ids[i], maximum, num);
    } else {
      forall id | HasLowRow(ss, id)
        ensures !(FitRows(ss, id, maximum) == [] || exists s :: s in FitRows(ss, id, maximum) && !s.percent.Finite?)
      {
        assert id in ids;
        var i :| 0 <= i < |ids| && ids[i] == id;
        FitResourceRaises(ss, id, maximum, num);
      }
    }
  }

  /** No resource survives exactly when no row is below 30 % curtailment. */
  lemma NoLowRows(ss: seq<Sample>)
    ensures SurvivingIds(ss) == [] <==> forall s :: s in ss ==> !LowCurtailment(s)
  {
    var ids := SurvivingIds(ss);
    if ids != [] {
      assert ids[0] in ids;
    }
    forall s | s in ss && LowCurtailment(s) ensures ids != [] {
      assert HasLowRow(ss, s.row.resourceId);
      assert s.row.resourceId in ids;
    }
  }

  /** Fitting one resource raises exactly when it has no row below the
      maximum or one with an infinite percent. */
  lemma FitResourceRaises(ss: seq<Sample>, id: string, maximum: real, num: Numerics)
    ensures FitResource(ss, id, maximum, num).Err? <==>
      (FitRows(ss, id, maximum) == [] || exists s :: s in FitRows(ss, id, maximum) && !s.percent.Finite?)
  {
    FitPointsFinite(ss, id, maximum);
  }

  lemma FitPointsFinite(ss: seq<Sample>, id: string, maximum: real)
    ensures FinitePoints(FitPoints(ss, id, maximum)) <==> forall s :: s in FitRows(ss, id, maximum) ==> s.percent.Finite?
    ensures FitPoints(ss, id, maximum) == [] <==> FitRows(ss, id, maximum) == []
  {
    var rs := FitRows(ss, id, maximum);
    var ps := FitPoints(ss, id, maximum);
    if !FinitePoints(ps) {
      var i :| 0 <= i < |ps| && !(ps[i].0.Finite? && ps[i].1.Finite?);
      assert rs[i] in rs;
    }
  }

  /** The per-resource table as `regress` obtains it: the cached one when it
      has rows, otherwise a freshly built one. */
  function ResourceStage(cache: seq<ResourceFit>, ss: seq<Sample>, maximum: real, num: Numerics): (r: Result<seq<ResourceFit>, string>)
    ensures |cache| > 0 ==> r == Ok(cache)
    ensures |cache| == 0 ==> r == ResourceTable(ss, maximum, num)
  {
    if |cache| > 0 then Ok(cache) else ResourceTable(ss, maximum, num)
  }

  // ---- normalised temperatures -----------------------------------------------------

  /** A merged row joined with its resource's line and its normalised
      temperature. */
  datatype Normalized = Normalized(sample: Sample, fit: LineFit, temperature: Float)

  /** T + (intercept − target) / slope: the temperature at which the
      resource's line would read the target curtailment, shifted by T. */
  function NormalizedTemperature(t: real, fit: LineFit, target: real): Float
  {
    Add(Finite(t), Div(Sub(fit.intercept, Finite(target)), fit.slope))
  }

  /** With a non-zero slope, the normalised temperature on the target line
      reads what the resource's own line reads at T. */
  lemma NormalizationRoundTrip(t: real, slope: real, intercept: real, rsquared: Float, target: real)
    requires slope != 0.0
    ensures var n := NormalizedTemperature(t, LineFit(Finite(slope), Finite(intercept), rsquared), target);
      n.Finite? && slope * n.v + target == slope * t + intercept
  {
    var q := (intercept - target) / slope;
    assert slope * q == intercept - target;
    assert slope * (t + q) == slope * t + slope * q;
  }

  /** The fitting window on the predictor: strictly between −1e6 and 1e6. */
  predicate InWindow(v: Float)
  {
    Lt(Finite(-1000000.0), v) && Lt(v, Finite(1000000.0))
  }

  /** A zero or NaN slope gives an infinite or NaN normalised temperature,
      which the fitting window excludes. */
  lemma DegenerateSlopeOutsideWindow(t: real, fit: LineFit, target: real)
    requires fit.slope == Finite(0.0) || fit.slope.NaN?
    ensures !NormalizedTemperature(t, fit, target).Finite?
    ensures !InWindow(NormalizedTemperature(t, fit, target))
  {
  }

  function FitId(f: ResourceFit): string { f.resourceId }

  function NormalizedRow(x: (Sample, ResourceFit), target: real): Normalized
  {
    Normalized(x.0, x.1.fit, NormalizedTemperature(x.0.row.dryBulb, x.1.fit, target))
  }

  /** The inner merge of the rows with the per-resource table, and the
      normalised temperature of each. */
  function Normalize(ss: seq<Sample>, table: seq<ResourceFit>, target: real): seq<Normalized>
  {
    Frames.Column(Frames.InnerJoin(ss, table, SampleId, FitId), x => NormalizedRow(x, target))
  }

  /** A normalised row is a merged row with the line of its own resource;
      rows of resources missing from the table are dropped. */
  lemma NormalizeMeaning(ss: seq<Sample>, table: seq<ResourceFit>, target: real, n: Normalized)
    ensures n in Normalize(ss, table, target) <==>
      exists s, f :: && s in ss && f in table && f.resourceId == s.row.resourceId
                     && n == Normalized(s, f.fit, NormalizedTemperature(s.row.dryBulb, f.fit, target))
  {
    var joined := Frames.InnerJoin(ss, table, SampleId, FitId);
    if n in Normalize(ss, table, target) {
      var x :| x in joined && n == NormalizedRow(x, target);
      assert x.0 in ss && x.1 in table;
    }
    if exists s, f :: && s in ss && f in table && f.resourceId == s.row.resourceId
                      && n == Normalized(s, f.fit, NormalizedTemperature(s.row.dryBulb, f.fit, target)) {
      var s, f :| && s in ss && f in table && f.resourceId == s.row.resourceId
                  && n == Normalized(s, f.fit, NormalizedTemperature(s.row.dryBulb, f.fit, target));
      assert (s, f) in joined;
      assert n == NormalizedRow((s, f), target);
    }
  }

  // ---- per-unit-type fits ------------------------------------------------------

  /** The constants of a run: TARGET CURTAILMENT, MAXIMUM CURTAILMENT and
      MINIMUM RSQUARED. */
  datatype Settings = Settings(target: real, maximum: real, minimumRsquared: real)

  /** A row of the per-unit-type table. */
  datatype UnitFit = UnitFit(unitType: Option<string>, fit: LineFit, settings: Settings)

  /** The temperature column fitted: normalised or as measured. */
  function Predictor(n: Normalized, normalize: bool): Float
  {
    if normalize then n.temperature else Finite(n.sample.row.dryBulb)
  }

  /** The unit type matches (a null unit type matches none), the predictor is
      inside the window and the percent is below the maximum. */
  predicate UnitSelected(n: Normalized, u: Option<string>, normalize: bool, maximum: real)
  {
    u.Some? && n.sample.row.unitType == u && InWindow(Predictor(n, normalize)) && BelowMaximum(n.sample, maximum)
  }

  predicate WellFitted(n: Normalized, minimumRsquared: real)
  {
    Lt(Finite(minimumRsquared), n.fit.rsquared)
  }

  function UnitRows(ns: seq<Normalized>, u: Option<string>, normalize: bool, settings: Settings): (rs: seq<Normalized>)
    ensures forall n :: n in rs <==> n in ns && UnitSelected(n, u, normalize, settings.maximum)
                                     && WellFitted(n, settings.minimumRsquared)
  {
    Frames.Filter(Frames.Filter(ns, n => UnitSelected(n, u, normalize, settings.maximum)),
                  n => WellFitted(n, settings.minimumRsquared))
  }

  function UnitPoint(n: Normalized, normalize: bool): (Float, Float) { (Predictor(n, normalize), n.sample.percent) }

  function UnitPoints(ns: seq<Normalized>, u: Option<string>, normalize: bool, settings: Settings): seq<(Float, Float)>
  {
    Frames.Column(UnitRows(ns, u, normalize, settings), n => UnitPoint(n, normalize))
  }

  /** One unit type's line; no rows gives NaN slope, intercept and R². */
  function FitUnitType(ns: seq<Normalized>, u: Option<string>, normalize: bool, settings: Settings, num: Numerics): (r: Result<UnitFit, string>)
    ensures UnitRows(ns, u, normalize, settings) == [] ==> r == Ok(UnitFit(u, NoFit, settings))
    ensures UnitRows(ns, u, normalize, settings) != [] ==>
      (r.Ok? <==> FinitePoints(UnitPoints(ns, u, normalize, settings)))
    ensures r.Ok? && UnitRows(ns, u, normalize, settings) != [] ==>
      r.value == UnitFit(u, num.fit(Reals(UnitPoints(ns, u, normalize, settings))), settings)
  {
    var ps := UnitPoints(ns, u, normalize, settings);
    if ps == [] then Ok(UnitFit(u, NoFit, settings))
    else
      var f := Fit(ps, num.fit);
      if f.Err? then Err(f.error) else Ok(UnitFit(u, f.value, settings))
  }

  /** The points of a unit type's fit are exactly the (predictor, percent)
      pairs of its selected rows with a resource R² above the minimum. */
  lemma UnitPointsMeaning(ns: seq<Normalized>, u: Option<string>, normalize: bool, settings: Settings, p: (Float, Float))
    ensures p in UnitPoints(ns, u, normalize, settings) <==>
      exists n :: && n in ns && u.Some? && n.sample.row.unitType == u
                  && InWindow(Predictor(n, normalize)) && Lt(n.sample.percent, Finite(settings.maximum))
                  && Lt(Finite(settings.minimumRsquared), n.fit.rsquared)
                  && p == (Predictor(n, normalize), n.sample.percent)
  {
  }

  /** A normalised row whose resource has a zero or NaN slope never enters a
      normalised fit. */
  lemma DegenerateSlopeNotFitted(ns: seq<Normalized>, u: Option<string>, settings: Settings, n: Normalized)
    requires n.fit.slope == Finite(0.0) || n.fit.slope.NaN?
    requires n.temperature == NormalizedTemperature(n.sample.row.dryBulb, n.fit, settings.target)
    ensures n !in UnitRows(ns, u, true, settings)
  {
    DegenerateSlopeOutsideWindow(n.sample.row.dryBulb, n.fit, settings.target);
  }

  function UnitTypeOf(n: Normalized): Option<string> { n.sample.row.unitType }

  /** The unit types present, null included, in order of first appearance. */
  function UnitTypes(ns: seq<Normalized>): (us: seq<Option<string>>)
    ensures forall i, j :: 0 <= i < j < |us| ==> us[i] != us[j]
    ensures forall u :: u in us <==> exists n :: n in ns && UnitTypeOf(n) == u
  {
    Frames.Distinct(Frames.Column(ns, UnitTypeOf))
  }

  /** The per-unit-type table.  Without normalised rows (a cached
      per-resource table sharing no resource with the loaded rows) the table
      has no rows, and setting its constant columns to a scalar raises. */
  function UnitTable(ns: seq<Normalized>, normalize: bool, settings: Settings, num: Numerics): (r: Result<seq<UnitFit>, string>)
    ensures ns == [] ==> r.Err?
  {
    if ns == [] then Err("ValueError: cannot set a frame with no defined index and a scalar")
    else Frames.MapAll(UnitTypes(ns), u => FitUnitType(ns, u, normalize, settings, num))
  }

  /** The per-unit-type table raises exactly when there are no normalised
      rows or some unit type's fit raises. */
  lemma UnitTableRaises(ns: seq<Normalized>, normalize: bool, settings: Settings, num: Numerics)
    ensures UnitTable(ns, normalize, settings, num).Err? <==>
      ns == [] || exists i :: 0 <= i < |UnitTypes(ns)| && FitUnitType(ns, UnitTypes(ns)[i], normalize, settings, num).Err?
  {
  }

  /** The per-unit-type table has one row per unit type present, in order
      of first appearance, each recording the run's settings. */
  lemma UnitTableMeaning(ns: seq<Normalized>, normalize: bool, settings: Settings, num: Numerics)
    requires UnitTable(ns, normalize, settings, num).Ok?
    ensures var t := UnitTable(ns, normalize, settings, num).value;
      && |t| == |UnitTypes(ns)|
      && forall i :: 0 <= i < |t| ==> t[i].unitType == UnitTypes(ns)[i] && t[i].settings == settings
  {
    var t := UnitTable(ns, normalize, settings, num).value;
    forall i | 0 <= i < |t| ensures t[i].unitType == UnitTypes(ns)[i] && t[i].settings == settings {
      UnitTableAt(ns, normalize, settings, num, i);
    }
  }

  lemma UnitTableAt(ns: seq<Normalized>, normalize: bool, settings: Settings, num: Numerics, i: nat)
    requires UnitTable(ns, normalize, settings, num).Ok? && i < |UnitTable(ns, normalize, settings, num).value|
    ensures |UnitTable(ns, normalize, settings, num).value| == |UnitTypes(ns)|
    ensures UnitTable(ns, normalize, settings, num).value[i] == FitUnitType(ns, UnitTypes(ns)[i], normalize, settings, num).value
    ensures UnitTable(ns, normalize, settings, num).value[i].unitType == UnitTypes(ns)[i]
    ensures UnitTable(ns, normalize, settings, num).value[i].settings == settings
  {
    var r := FitUnitType(ns, UnitTypes(ns)[i], normalize, settings, num);
    assert r.Ok?;
  }

  // ---- the unit-type fit of the multilinear modeller's `regress` ---------------------

  /** The rows of a unit type before the R² filter, on the raw temperature. */
  function StationRows(ns: seq<Normalized>, u: Option<string>, maximum: real): seq<Normalized>
  {
    Frames.Filter(ns, n => UnitSelected(n, u, false, maximum))
  }

  /** As written: the station-indicator loop runs once per station of the
      selected rows, and each pass tests a whole boolean Series in an `if`,
      which pandas refuses; the loop runs whenever a row is selected. */
  function FitUnitTypeStationsAsWritten(ns: seq<Normalized>, u: Option<string>, settings: Settings, num: Numerics): Result<UnitFit, string>
  {
    if StationRows(ns, u, settings.maximum) != [] then Err("The truth value of a Series is ambiguous")
    else FitUnitType(ns, u, false, settings, num)
  }

  /** As written, a unit-type fit succeeds only for a unit type with no
      selected row, and then records NaN; the intended fit on the raw
      temperature is the one `FitUnitType` computes. */
  lemma StationIndicatorsRaise(ns: seq<Normalized>, u: Option<string>, settings: Settings, num: Numerics)
    ensures FitUnitTypeStationsAsWritten(ns, u, settings, num).Ok? ==>
      FitUnitTypeStationsAsWritten(ns, u, settings, num) == Ok(UnitFit(u, NoFit, settings))
    ensures (exists n :: n in ns && UnitSelected(n, u, false, settings.maximum)) ==>
      FitUnitTypeStationsAsWritten(ns, u, settings, num).Err?
  {
    if exists n :: n in ns && UnitSelected(n, u, false, settings.maximum) {
      var n :| n in ns && UnitSelected(n, u, false, settings.maximum);
      assert n in StationRows(ns, u, settings.maximum);
    }
  }

  /** A single selected row of a well-fitted resource: as written the fit
      raises, while the intended fit records the line through that row. */
  lemma StationIndicatorsCounterexample(n: Normalized, u: Option<string>, settings: Settings, num: Numerics)
    requires UnitSelected(n, u, false, settings.maximum) && WellFitted(n, settings.minimumRsquared)
    requires n.sample.percent.Finite?
    ensures FitUnitTypeStationsAsWritten([n], u, settings, num).Err?
    ensures FitUnitType([n], u, false, settings, num) ==
            Ok(UnitFit(u, num.fit([(n.sample.row.dryBulb, n.sample.percent.v)]), settings))
  {
    StationIndicatorsRaise([n], u, settings, num);
    var rows := UnitRows([n], u, false, settings);
    assert n in rows;
    assert rows == [n] by {
      assert forall m :: m in rows ==> m == n;
      assert |rows| <= 1;
    }
    var ps := UnitPoints([n], u, false, settings);
    assert ps == [(Finite(n.sample.row.dryBulb), n.sample.percent)];
    assert Reals(ps) == [(n.sample.row.dryBulb, n.sample.percent.v)];
  }

  // ---- `multilinear_regress`: one indicator column per resource ---------------------

  /** The resources of a unit type, in order of first appearance. */
  function ResourceColumns(ss: seq<Sample>, u: string): (cs: seq<string>)
    ensures forall i, j :: 0 <= i < j < |cs| ==> cs[i] != cs[j]
    ensures forall id :: id in cs <==> exists s :: s in ss && s.row.unitType == Some(u) && s.row.resourceId == id
  {
    Frames.Distinct(Frames.Column(Frames.Filter(ss, (s: Sample) => s.row.unitType == Some(u)), SampleId))
  }

  /** The indicator columns of one row: 1 under its own resource, 0 elsewhere. */
  function Indicators(id: string, cs: seq<string>): (xs: seq<real>)
    ensures |xs| == |cs|
    ensures forall j :: 0 <= j < |cs| ==> xs[j] == (if cs[j] == id then 1.0 else 0.0)
  {
    if cs == [] then [] else [if cs[0] == id then 1.0 else 0.0] + Indicators(id, cs[1..])
  }

  /** The number of entries equal to 1. */
  function Ones(xs: seq<real>): nat
  {
    if xs == [] then 0 else (if xs[0] == 1.0 then 1 else 0) + Ones(xs[1..])
  }

  lemma {:induction false} NoIndicator(id: string, cs: seq<string>)
    requires id !in cs
    ensures Ones(Indicators(id, cs)) == 0
  {
    if cs != [] {
      NoIndicator(id, cs[1..]);
      assert Indicators(id, cs)[1..] == Indicators(id, cs[1..]);
    }
  }

  /** Among distinct resource columns, a row of one of them has exactly one
      indicator equal to 1. */
  lemma {:induction false} OneIndicator(id: string, cs: seq<string>)
    requires forall i, j :: 0 <= i < j < |cs| ==> cs[i] != cs[j]
    requires id in cs
    ensures Ones(Indicators(id, cs)) == 1
  {
    assert Indicators(id, cs)[1..] == Indicators(id, cs[1..]);
    if cs[0] == id {
      assert id !in cs[1..];
      NoIndicator(id, cs[1..]);
    } else {
      OneIndicator(id, cs[1..]);
    }
  }

  /** The row is of the unit type, its raw temperature is inside the window
      and its percent is below the maximum. */
  predicate MultiSelected(s: Sample, u: string, maximum: real)
  {
    s.row.unitType == Some(u) && InWindow(Finite(s.row.dryBulb)) && BelowMaximum(s, maximum)
  }

  /** A row of the design matrix: the temperature, then the indicators. */
  function DesignRow(s: Sample, cs: seq<string>): seq<real>
  {
    [s.row.dryBulb] + Indicators(s.row.resourceId, cs)
  }

  /** Each design row has 1 + (resources of the unit type) entries: the
      temperature, then exactly one indicator equal to 1, the one under the
      row's own resource. */
  lemma DesignRowShape(ss: seq<Sample>, u: string, s: Sample)
    requires s in ss && s.row.unitType == Some(u)
    ensures var cs := ResourceColumns(ss, u); var row := DesignRow(s, cs);
      && |row| == 1 + |cs| && row[0] == s.row.dryBulb
      && Ones(row[1..]) == 1
      && forall j :: 0 <= j < |cs| ==> (row[j + 1] == 1.0 <==> cs[j] == s.row.resourceId)
  {
    var cs := ResourceColumns(ss, u);
    assert DesignRow(s, cs)[1..] == Indicators(s.row.resourceId, cs);
    OneIndicator(s.row.resourceId, cs);
  }

  function MultiRows(ss: seq<Sample>, u: string, maximum: real): (rs: seq<Sample>)
    ensures forall s :: s in rs <==> s in ss && MultiSelected(s, u, maximum)
  {
    Frames.Filter(ss, s => MultiSelected(s, u, maximum))
  }

  predicate FinitePercents(rs: seq<Sample>)
  {
    forall i :: 0 <= i < |rs| ==> rs[i].percent.Finite?
  }

  function Design(rs: seq<Sample>, cs: seq<string>): (d: seq<(seq<real>, real)>)
    requires FinitePercents(rs)
    ensures |d| == |rs|
    ensures forall i :: 0 <= i < |rs| ==> d[i] == (DesignRow(rs[i], cs), rs[i].percent.v)
  {
    seq(|rs|, i requires 0 <= i < |rs| && rs[i].percent.Finite? => (DesignRow(rs[i], cs), rs[i].percent.v))
  }

  /** One unit type's multilinear fit.  When the per-resource table was
      already cached the indicator columns were never added, and selecting
      them raises as soon as the unit type has a resource. */
  function FitMultilinear(ss: seq<Sample>, u: string, indicatorsBuilt: bool, settings: Settings, num: Numerics): (r: Result<UnitFit, string>)
    ensures !indicatorsBuilt && ResourceColumns(ss, u) != [] ==> r.Err?
    ensures (indicatorsBuilt || ResourceColumns(ss, u) == []) && MultiRows(ss, u, settings.maximum) == [] ==>
      r == Ok(UnitFit(Some(u), NoFit, settings))
    ensures indicatorsBuilt && MultiRows(ss, u, settings.maximum) != [] ==>
      (r.Ok? <==> FinitePercents(MultiRows(ss, u, settings.maximum)))
    ensures indicatorsBuilt && MultiRows(ss, u, settings.maximum) != [] && FinitePercents(MultiRows(ss, u, settings.maximum)) ==>
      r == Ok(UnitFit(Some(u), num.fitMany(Design(MultiRows(ss, u, settings.maximum), ResourceColumns(ss, u))), settings))
  {
    var cs := ResourceColumns(ss, u);
    if !indicatorsBuilt && cs != [] then Err("KeyError: resource columns not in index")
    else
      var rs := MultiRows(ss, u, settings.maximum);
      if rs == [] then Ok(UnitFit(Some(u), NoFit, settings))
      else if !FinitePercents(rs) then Err("Input contains NaN or infinity")
      else Ok(UnitFit(Some(u), num.fitMany(Design(rs, cs)), settings))
  }

  /** The rows fitted for a unit type are exactly its selected rows, each
      with 1 + (resources of the unit type) predictors of which exactly one
      indicator is 1. */
  lemma MultilinearDesign(ss: seq<Sample>, u: string, maximum: real, i: nat)
    requires FinitePercents(MultiRows(ss, u, maximum)) && i < |MultiRows(ss, u, maximum)|
    ensures var rs := MultiRows(ss, u, maximum); var cs := ResourceColumns(ss, u);
      var d := Design(rs, cs)[i];
      && rs[i] in ss && MultiSelected(rs[i], u, maximum)
      && |d.0| == 1 + |cs| && d.0[0] == rs[i].row.dryBulb && Ones(d.0[1..]) == 1
      && d.1 == rs[i].percent.v
  {
    var rs := MultiRows(ss, u, maximum);
    assert rs[i] in rs;
    DesignRowShape(ss, u, rs[i]);
  }

  /** The unit-type table of `multilinear_regress`: one fit per requested
      unit type.  No list cannot be made into a frame, and an empty list
      gives a table without rows whose constant columns cannot be set to a
      scalar; both raise. */
  function MultiTable(ss: seq<Sample>, unitTypes: Option<seq<string>>, indicatorsBuilt: bool, settings: Settings,
                      num: Numerics): (r: Result<seq<UnitFit>, string>)
    ensures unitTypes.None? || unitTypes == Some([]) ==> r.Err?
    ensures unitTypes.Some? && unitTypes.value != [] ==>
      (r.Ok? <==> forall i :: 0 <= i < |unitTypes.value| ==> FitMultilinear(ss, unitTypes.value[i], indicatorsBuilt, settings, num).Ok?)
    ensures r.Ok? ==> |r.value| == |unitTypes.value|
    ensures r.Ok? ==> forall i :: 0 <= i < |r.value| ==>
      && r.value[i] == FitMultilinear(ss, unitTypes.value[i], indicatorsBuilt, settings, num).value
      && r.value[i].unitType == Some(unitTypes.value[i]) && r.value[i].settings == settings
  {
    if unitTypes.None? then Err("If using all scalar values, you must pass an index")
    else if unitTypes.value == [] then Err("ValueError: cannot set a frame with no defined index and a scalar")
    else Frames.MapAll(unitTypes.value, u => FitMultilinear(ss, u, indicatorsBuilt, settings, num))
  }

  // ---- the modeller --------------------------------------------------------------

  /** The merged table the modeller keeps after a run. */
  datatype MergedTable =
    | NoTable
    | NormalizedTable(rows: seq<Normalized>)
    | IndicatorTable(samples: seq<Sample>, indicatorColumns: seq<string>)

  /** The modeller's three result tables. */
  datatype Tables = Tables(byResource: seq<ResourceFit>, byUnitType: seq<UnitFit>, merged: MergedTable)

  /** What the fitting part of `regress` leaves behind over loaded rows `ss`,
      starting from the tables `before`: the per-resource table is kept or
      built (and stored once built); a failure there or in the unit-type fits
      leaves the other two tables as they were; on success the unit-type
      table and the normalised rows are stored. */
  ghost predicate Fitted(before: Tables, ss: seq<Sample>, settings: Settings, normalize: bool, num: Numerics,
                         r: Result<(), string>, after: Tables)
  {
    var stage := ResourceStage(before.byResource, ss, settings.maximum, num);
    && after.byResource == (if stage.Ok? then stage.value else before.byResource)
    && (stage.Err? ==> r.Err? && after.byUnitType == before.byUnitType && after.merged == before.merged)
    && (stage.Ok? ==>
          var ns := Normalize(ss, stage.value, settings.target);
          var units := UnitTable(ns, normalize, settings, num);
          && (units.Err? ==> r.Err? && after.byUnitType == before.byUnitType && after.merged == before.merged)
          && (units.Ok? ==> r.Ok? && after.byUnitType == units.value && after.merged == NormalizedTable(ns)))
  }

  /** What the fitting part of `multilinear_regress` leaves behind over loaded
      rows `ss`: the per-resource table is never stored; without unit types,
      with an empty list of them, or when a unit type's fit raises, nothing
      else changes; otherwise the
      unit-type table and the rows with their indicator columns (one per
      resource, added only when no per-resource table was cached) are stored. */
  ghost predicate MultiFitted(before: Tables, ss: seq<Sample>, unitTypes: Option<seq<string>>, settings: Settings,
                              num: Numerics, r: Result<(), string>, after: Tables)
  {
    var built := |before.byResource| == 0;
    var units := MultiTable(ss, unitTypes, built, settings, num);
    && after.byResource == before.byResource
    && (units.Err? ==> r.Err? && after.byUnitType == before.byUnitType && after.merged == before.merged)
    && (units.Ok? ==>
          && r.Ok? && after.byUnitType == units.value
          && after.merged == IndicatorTable(ss, if built then Frames.Distinct(Frames.Column(ss, SampleId)) else []))
  }

  class CurtailmentModeller {
    var resourceCurtailments: seq<Hourly>
    var weatherStationMap: seq<Imputation.StationLink>
    var weatherData: seq<IsdWeather.Reading>
    var regressionByResource: seq<ResourceFit>
    var regressionByUnitType: seq<UnitFit>
    var curtailmentsAndTemperatures: MergedTable

    /** A modeller over loaded curtailments, station map and readings, with
        empty result tables. */
    constructor(hs: seq<Hourly>, links: seq<Imputation.StationLink>, weather: seq<IsdWeather.Reading>)
      ensures resourceCurtailments == hs && weatherStationMap == links && weatherData == weather
      ensures regressionByResource == [] && regressionByUnitType == [] && curtailmentsAndTemperatures == NoTable
    {
      resourceCurtailments := hs;
      weatherStationMap := links;
      weatherData := weather;
      regressionByResource := [];
      regressionByUnitType := [];
      curtailmentsAndTemperatures := NoTable;
    }

    /** `regress`: load the rows, build (or reuse) the per-resource table,
        normalise the temperatures and fit one line per unit type.  The
        per-resource table is stored as soon as it is built, so a failure in
        the unit-type fits leaves it in place. */
    method Regress(source: Source, settings: Settings, unitTypes: Option<seq<string>>, normalize: bool, num: Numerics)
      returns (r: Result<(), string>)
      modifies this
      ensures resourceCurtailments == old(resourceCurtailments) && weatherStationMap == old(weatherStationMap)
      ensures weatherData == old(weatherData)
      ensures var loaded := Load(source, old(resourceCurtailments), old(weatherStationMap), old(weatherData), unitTypes);
        && (loaded.Err? ==> r.Err? && Results() == old(Results()))
        && (loaded.Ok? ==> Fitted(old(Results()), loaded.value, settings, normalize, num, r, Results()))
    {
      var loaded := Load(source, resourceCurtailments, weatherStationMap, weatherData, unitTypes);
      if loaded.Err? {
        return Err(loaded.error);
      }
      r := FitLoaded(loaded.value, settings, normalize, num);
    }

    /** The three result tables. */
    function Results(): Tables
      reads this
    {
      Tables(regressionByResource, regressionByUnitType, curtailmentsAndTemperatures)
    }

    /** The part of `regress` after loading: the per-resource stage, the
        normalisation and the unit-type fits over the loaded rows `ss`. */
    method FitLoaded(ss: seq<Sample>, settings: Settings, normalize: bool, num: Numerics) returns (r: Result<(), string>)
      modifies this
      ensures resourceCurtailments == old(resourceCurtailments) && weatherStationMap == old(weatherStationMap)
      ensures weatherData == old(weatherData)
      ensures Fitted(old(Results()), ss, settings, normalize, num, r, Results())
    {
      var stage := RegressByResource(ss, settings.maximum, num);
      if stage.Err? {
        return Err(stage.error);
      }
      var ns := Normalize(ss, stage.value, settings.target);
      r := FitUnitTypes(ns, normalize, settings, num);
    }

    /** The unit-type fits of `regress` over the normalised rows `ns`: the
        unit-type table and the merged rows are stored only when every fit
        succeeds. */
    method FitUnitTypes(ns: seq<Normalized>, normalize: bool, settings: Settings, num: Numerics)
      returns (r: Result<(), string>)
      modifies this
      ensures resourceCurtailments == old(resourceCurtailments) && weatherStationMap == old(weatherStationMap)
      ensures weatherData == old(weatherData) && regressionByResource == old(regressionByResource)
      ensures var units := UnitTable(ns, normalize, settings, num);
        && (units.Err? ==> r.Err? && regressionByUnitType == old(regressionByUnitType)
                                  && curtailmentsAndTemperatures == old(curtailmentsAndTemperatures))
        && (units.Ok? ==> r.Ok? && regressionByUnitType == units.value
                                && curtailmentsAndTemperatures == NormalizedTable(ns))
    {
      var units := UnitTable(ns, normalize, settings, num);
      if units.Err? {
        return Err(units.error);
      }
      curtailmentsAndTemperatures := NormalizedTable(ns);
      regressionByUnitType := units.value;
      return Ok(());
    }

    /** The per-resource step of `regress`: the cached table when it has
        rows, otherwise a freshly built one, which is stored. */
    method RegressByResource(ss: seq<Sample>, maximum: real, num: Numerics) returns (r: Result<seq<ResourceFit>, string>)
      modifies this
      ensures r == ResourceStage(old(regressionByResource), ss, maximum, num)
      ensures regressionByResource == (if r.Ok? then r.value else old(regressionByResource))
      ensures resourceCurtailments == old(resourceCurtailments) && weatherStationMap == old(weatherStationMap)
      ensures weatherData == old(weatherData) && regressionByUnitType == old(regressionByUnitType)
      ensures curtailmentsAndTemperatures == old(curtailmentsAndTemperatures)
    {
      if |regressionByResource| > 0 {
        return Ok(regressionByResource);
      }
      r := ResourceTable(ss, maximum, num);
      if r.Ok? {
        regressionByResource := r.value;
      }
    }

    /** `multilinear_regress`: load the rows, add one indicator column per
        resource when no per-resource table is cached, and fit one
        multilinear model per requested unit type.  The per-resource table
        itself is never stored.  The minimum R² and target recorded are the
        module-level values the method reads. */
    method MultilinearRegress(source: Source, unitTypes: Option<seq<string>>, settings: Settings, num: Numerics)
      returns (r: Result<(), string>)
      modifies this
      ensures resourceCurtailments == old(resourceCurtailments) && weatherStationMap == old(weatherStationMap)
      ensures weatherData == old(weatherData)
      ensures var loaded := Load(source, old(resourceCurtailments), old(weatherStationMap), old(weatherData), unitTypes);
        && (loaded.Err? ==> r.Err? && Results() == old(Results()))
        && (loaded.Ok? ==> MultiFitted(old(Results()), loaded.value, unitTypes, settings, num, r, Results()))
    {
      var loaded := Load(source, resourceCurtailments, weatherStationMap, weatherData, unitTypes);
      if loaded.Err? {
        return Err(loaded.error);
      }
      r := FitMultilinearLoaded(loaded.value, unitTypes, settings, num);
    }

    /** The part of `multilinear_regress` after loading. */
    method FitMultilinearLoaded(ss: seq<Sample>, unitTypes: Option<seq<string>>, settings: Settings, num: Numerics)
      returns (r: Result<(), string>)
      modifies this
      ensures resourceCurtailments == old(resourceCurtailments) && weatherStationMap == old(weatherStationMap)
      ensures weatherData == old(weatherData)
      ensures MultiFitted(old(Results()), ss, unitTypes, settings, num, r, Results())
    {
      var built := |regressionByResource| == 0;
      var units := MultiTable(ss, unitTypes, built, settings, num);
      if units.Err? {
        return Err(units.error);
      }
      curtailmentsAndTemperatures := IndicatorTable(ss, if built then Frames.Distinct(Frames.Column(ss, SampleId)) else []);
      regressionByUnitType := units.value;
      return Ok(());
    }
  }
}
