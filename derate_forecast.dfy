/** The derate forecaster of scripts/forecast_curtailments.py: hourly ambient
    temperature derates for combined-cycle and combustion-turbine units, read
    off a line in temperature that is clamped to [0, 1] and pinned to 1 at a
    station's rated temperature, and written out as yearly hourly profiles. */
module DerateForecast {
  import opened Wrappers
  import Calendar
  import Text
  import Frames

  const CombinedCycle: string := "combined_cycle"
  const CombustionTurbine: string := "combustion_turbine"

  /** One weather observation: station, naive timestamp and temperature (°C). */
  datatype WeatherRow = WeatherRow(stationId: string, dateTime: Calendar.Instant, temp: real)

  /** The `derate_parameters` dictionary: a slope per unit type, intercepts per
      station and unit type, and a rated temperature per station. */
  datatype ParameterTable = ParameterTable(
    slopes: map<string, real>,
    intercepts: map<string, map<string, real>>,
    ratedTemperatures: map<string, real>)

  /** The table the class starts with (the 2024-01-04 multilinear fit). */
  const InitialParameters: ParameterTable := ParameterTable(
    map[
      CombinedCycle := -0.001103443043600427,
      CombustionTurbine := -0.0014410010374964729,
      "steam" := -0.0011541215631732035,
      "reciprocating_engine" := -0.0011576322644806548],
    map[
      "KABQ" := map[CombinedCycle := 0.9873827345897896, CombustionTurbine := 0.9881959092821242],
      "KACV" := map[CombinedCycle := 0.9981401856060664, CombustionTurbine := 0.9982600494551983],
      "KAKO" := map[CombinedCycle := 0.973149564870096, CombustionTurbine := 0.9748800582548305],
      "KBCE" := map[CombinedCycle := 0.9786222973899497, CombustionTurbine := 0.9800000766612551],
      "KBFL" := map[CombinedCycle := 1.003811095069536, CombustionTurbine := 1.0035654724278722],
      "KBLH" := map[CombinedCycle := 1.0032521344593373, CombustionTurbine := 1.0030425364717843],
      "KBOI" := map[CombinedCycle := 0.9820726087929028, CombustionTurbine := 0.9832280176992888],
      "KBOK" := map[CombinedCycle := 1.003320734170589, CombustionTurbine := 1.003106714975486],
      "KBUR" := map[CombinedCycle := 1.0067075273223833, CombustionTurbine := 1.0062752314730552],
      "KBZN" := map[CombinedCycle := 0.9585454485636342, CombustionTurbine := 0.961217167911224],
      "KCAG" := map[CombinedCycle := 0.9783010501875662, CombustionTurbine := 0.9796995336357649],
      "KCQT" := map[CombinedCycle := 0.9925652774912797, CombustionTurbine := 0.9930444406056363],
      "KCRQ" := map[CombinedCycle := 1.0169919785629176, CombustionTurbine := 1.0158968564036521],
      "KCYS" := map[CombinedCycle := 0.9756801319962678, CombustionTurbine := 0.9772475319469377],
      "KDNR" := map[CombinedCycle := 0.9770216374607446, CombustionTurbine := 0.9785025782415487]],
    map[
      "KABQ" := -10.345833333333333, "KACV" := -1.5250000000000001,
      "KAKO" := -22.016666666666666, "KBCE" := -17.529166666666665,
      "KBFL" := 3.125, "KBLH" := 2.6666666666666665,
      "KBOI" := -14.700000000000001, "KBOK" := 2.7229166666666664,
      "KBUR" := 5.5, "KBZN" := -33.99166666666667,
      "KCAG" := -17.792581115566897, "KCQT" := -6.0962813616139995,
      "KCRQ" := 13.932985674792661, "KCYS" := -19.941666666666666,
      "KDNR" := -18.841666666666665, "KEKA" := 2.960144927536232,
      "KEKO" := -16.45, "KELP" := -3.725,
      "KFAT" := 2.125, "KFLG" := -22.175,
      "KFSD" := -25.508333333333336, "KGEG" := -24.991666666666664,
      "KIDA" := -27.316666666666666, "KIGM" := -6.558333333333334])

  /** Every configured slope is negative: derates fall as it gets hotter. */
  lemma InitialSlopesNegative()
    ensures forall u :: u in InitialParameters.slopes ==> InitialParameters.slopes[u] < 0.0
  {
  }

  /** The `resource_class` dictionary. */
  datatype ResourceClass = ResourceClass(unitType: string, weatherStation: string)

  datatype DerateParameters = DerateParameters(slope: real, intercept: real, ratedTemperature: real)

  /** `get_derate_parameters`: the three lookups, each a KeyError when absent. */
  function GetDerateParameters(p: ParameterTable, rc: ResourceClass): (r: Result<DerateParameters, string>)
    ensures r.Ok? <==> rc.unitType in p.slopes && rc.weatherStation in p.intercepts
                       && rc.unitType in p.intercepts[rc.weatherStation]
                       && rc.weatherStation in p.ratedTemperatures
    ensures r.Ok? ==> r.value.slope == p.slopes[rc.unitType]
                      && r.value.intercept == p.intercepts[rc.weatherStation][rc.unitType]
                      && r.value.ratedTemperature == p.ratedTemperatures[rc.weatherStation]
  {
    if rc.unitType !in p.slopes then Err("KeyError: " + rc.unitType)
    else if rc.weatherStation !in p.intercepts then Err("KeyError: " + rc.weatherStation)
    else if rc.unitType !in p.intercepts[rc.weatherStation] then Err("KeyError: " + rc.unitType)
    else if rc.weatherStation !in p.ratedTemperatures then Err("KeyError: " + rc.weatherStation)
    else Ok(DerateParameters(p.slopes[rc.unitType], p.intercepts[rc.weatherStation][rc.unitType],
                             p.ratedTemperatures[rc.weatherStation]))
  }

  /** `max(min(1, x), 0)`. */
  function Clamp(x: real): (c: real)
    ensures 0.0 <= c <= 1.0
    ensures 0.0 <= x <= 1.0 ==> c == x
    ensures x > 1.0 ==> c == 1.0
    ensures x < 0.0 ==> c == 0.0
  {
    var upper := if x < 1.0 then x else 1.0;
    if upper > 0.0 then upper else 0.0
  }

  /** `max(min(1, slope * t + intercept), 0)`. */
  function Derate(slope: real, intercept: real, t: real): (d: real)
    ensures 0.0 <= d <= 1.0
    ensures 0.0 <= slope * t + intercept <= 1.0 ==> d == slope * t + intercept
    ensures slope * t + intercept > 1.0 ==> d == 1.0
    ensures slope * t + intercept < 0.0 ==> d == 0.0
  {
    Clamp(slope * t + intercept)
  }

  /** With a non-positive slope the derate never rises with temperature. */
  lemma DerateNonIncreasing(slope: real, intercept: real, t1: real, t2: real)
    requires slope <= 0.0 && t1 <= t2
    ensures Derate(slope, intercept, t2) <= Derate(slope, intercept, t1)
  {
    var gap := t2 - t1;
    assert (-slope) * gap >= 0.0;
    assert slope * t2 == slope * t1 + slope * gap;
    var x1, x2 := slope * t1 + intercept, slope * t2 + intercept;
    assert x2 <= x1;
    assert Clamp(x2) <= Clamp(x1);
  }

  /** The intercept that makes the line read 1 at the rated temperature. */
  function PinnedIntercept(slope: real, rated: real): (b: real)
    ensures slope * rated + b == 1.0
  {
    1.0 - slope * rated
  }

  /** A pinned line derates nothing at the rated temperature and, with a
      non-positive slope, nothing below it either. */
  lemma PinnedDerateAtRated(slope: real, rated: real, t: real)
    requires slope <= 0.0 && t <= rated
    ensures Derate(slope, PinnedIntercept(slope, rated), rated) == 1.0
    ensures Derate(slope, PinnedIntercept(slope, rated), t) == 1.0
  {
    DerateNonIncreasing(slope, PinnedIntercept(slope, rated), t, rated);
  }

  /** `calculate_derate`. */
  function CalculateDerate(p: ParameterTable, rc: ResourceClass, temperature: real): (r: Result<real, string>)
    ensures r.Ok? <==> GetDerateParameters(p, rc).Ok?
    ensures r.Ok? ==> 0.0 <= r.value <= 1.0
  {
    var params := GetDerateParameters(p, rc);
    if params.Err? then Err(params.error)
    else Ok(Derate(params.value.slope, params.value.intercept, temperature))
  }

  /** With the configured table, a resource's derate is non-increasing in
      temperature wherever it is defined. */
  lemma CalculateDerateNonIncreasing(rc: ResourceClass, t1: real, t2: real)
    requires t1 <= t2 && CalculateDerate(InitialParameters, rc, t1).Ok?
    ensures CalculateDerate(InitialParameters, rc, t2).Ok?
    ensures CalculateDerate(InitialParameters, rc, t2).value <= CalculateDerate(InitialParameters, rc, t1).value
  {
    InitialSlopesNegative();
    var params := GetDerateParameters(InitialParameters, rc).value;
    DerateNonIncreasing(params.slope, params.intercept, t1, t2);
  }

  // ---- rated temperatures -------------------------------------------------

  function StationOf(w: WeatherRow): string { w.stationId }
  function YearOfRow(w: WeatherRow): int { Calendar.YearOf(w.dateTime) }
  function DayOfRow(w: WeatherRow): nat { Calendar.DayIndex(w.dateTime) }
  function TempOf(w: WeatherRow): real { w.temp }

  predicate HasStation(rows: seq<WeatherRow>, s: string)
  {
    exists w :: w in rows && w.stationId == s
  }

  /** `weather_data['StationID'].unique()`. */
  function Stations(rows: seq<WeatherRow>): (ss: seq<string>)
    ensures forall s :: s in ss <==> HasStation(rows, s)
    ensures forall i, j :: 0 <= i < j < |ss| ==> ss[i] != ss[j]
  {
    Frames.Distinct(Frames.Column(rows, StationOf))
  }

  /** `.min()` of a non-empty column, under the column's total order `le`. */
  function Least<T(!new)>(xs: seq<T>, le: (T, T) -> bool): (m: T)
    requires xs != []
    requires forall a, b :: le(a, b) || le(b, a)
    requires forall a, b, c :: le(a, b) && le(b, c) ==> le(a, c)
    ensures m in xs && forall x :: x in xs ==> le(m, x)
  {
    if |xs| == 1 then xs[0]
    else
      var rest := Least(xs[1..], le);
      assert forall x :: x in xs ==> x == xs[0] || x in xs[1..];
      if le(xs[0], rest) then xs[0] else rest
  }

  predicate IntLe(a: int, b: int) { a <= b }

  predicate RealLe(a: real, b: real) { a <= b }

  function Sum(xs: seq<real>): real
  {
    if xs == [] then 0.0 else Sum(xs[..|xs| - 1]) + xs[|xs| - 1]
  }

  /** The years of the station's observations, in order. */
  function StationYears(rows: seq<WeatherRow>, s: string): seq<int>
  {
    Frames.Column(Frames.Matches(rows, StationOf, s), YearOfRow)
  }

  /** The station's first calendar year of data. */
  function FirstYear(rows: seq<WeatherRow>, s: string): int
    requires HasStation(rows, s)
  {
    StationYearsNonEmpty(rows, s);
    Least(StationYears(rows, s), IntLe)
  }

  lemma StationYearsNonEmpty(rows: seq<WeatherRow>, s: string)
    requires HasStation(rows, s)
    ensures StationYears(rows, s) != []
  {
    var w :| w in rows && w.stationId == s;
    StationYearsHas(rows, s, w);
  }

  lemma StationYearsHas(rows: seq<WeatherRow>, s: string, w: WeatherRow)
    requires w in rows && w.stationId == s
    ensures YearOfRow(w) in StationYears(rows, s)
  {
    var own := Frames.Matches(rows, StationOf, s);
    assert w in own;
    var j :| 0 <= j < |own| && own[j] == w;
    assert StationYears(rows, s)[j] == YearOfRow(w);
  }

  /** The first year is the earliest year of any of the station's
      observations. */
  lemma FirstYearMeaning(rows: seq<WeatherRow>, s: string)
    requires HasStation(rows, s)
    ensures forall w :: w in rows && w.stationId == s ==> FirstYear(rows, s) <= YearOfRow(w)
    ensures exists w :: w in rows && w.stationId == s && YearOfRow(w) == FirstYear(rows, s)
  {
    forall w | w in rows && w.stationId == s
      ensures FirstYear(rows, s) <= YearOfRow(w)
    {
      StationYearsHas(rows, s, w);
    }
  }

  /** The station's observations on one day (`groupby(['StationID', 'Year', 'Date'])`). */
  function DayRows(rows: seq<WeatherRow>, s: string, day: nat): (ds: seq<WeatherRow>)
    ensures forall w :: w in ds <==> w in rows && w.stationId == s && DayOfRow(w) == day
  {
    Frames.Filter(rows, (w: WeatherRow) => w.stationId == s && DayOfRow(w) == day)
  }

  /** `.mean()` of one day's temperatures. */
  function DailyMean(rows: seq<WeatherRow>, s: string, day: nat): real
  {
    var temps := Frames.Column(DayRows(rows, s, day), TempOf);
    if temps == [] then 0.0 else Sum(temps) / (|temps| as real)
  }

  /** The days of the station's first year that hold an observation, in
      order of first appearance. */
  function FirstYearDays(rows: seq<WeatherRow>, s: string): seq<nat>
    requires HasStation(rows, s)
  {
    var y := FirstYear(rows, s);
    Frames.Distinct(Frames.Column(Frames.Filter(rows, (w: WeatherRow) => w.stationId == s && YearOfRow(w) == y), DayOfRow))
  }

  lemma FirstYearDaysHas(rows: seq<WeatherRow>, s: string, w: WeatherRow)
    requires w in rows && w.stationId == s && YearOfRow(w) == FirstYear(rows, s)
    ensures DayOfRow(w) in FirstYearDays(rows, s)
  {
    var y := FirstYear(rows, s);
    var own := Frames.Filter(rows, (w: WeatherRow) => w.stationId == s && YearOfRow(w) == y);
    assert w in own;
    var j :| 0 <= j < |own| && own[j] == w;
    assert Frames.Column(own, DayOfRow)[j] == DayOfRow(w);
  }

  lemma FirstYearDaysNonEmpty(rows: seq<WeatherRow>, s: string)
    requires HasStation(rows, s)
    ensures FirstYearDays(rows, s) != []
  {
    FirstYearMeaning(rows, s);
    var w :| w in rows && w.stationId == s && YearOfRow(w) == FirstYear(rows, s);
    FirstYearDaysHas(rows, s, w);
  }

  /** The daily means of the station's first year, one per day. */
  function FirstYearMeans(rows: seq<WeatherRow>, s: string): seq<real>
    requires HasStation(rows, s)
  {
    DailyMeans(rows, s, FirstYearDays(rows, s))
  }

  function DailyMeans(rows: seq<WeatherRow>, s: string, days: seq<nat>): (ms: seq<real>)
    ensures |ms| == |days|
    ensures forall i :: 0 <= i < |days| ==> ms[i] == DailyMean(rows, s, days[i])
  {
    if days == [] then []
    else DailyMeans(rows, s, days[..|days| - 1]) + [DailyMean(rows, s, days[|days| - 1])]
  }

  /** The lowest daily mean temperature in the station's first year. */
  function RatedTemperature(rows: seq<WeatherRow>, s: string): real
    requires HasStation(rows, s)
  {
    FirstYearDaysNonEmpty(rows, s);
    Least(FirstYearMeans(rows, s), RealLe)
  }

  lemma FirstYearMeanAt(rows: seq<WeatherRow>, s: string, j: nat)
    requires HasStation(rows, s) && j < |FirstYearDays(rows, s)|
    ensures j < |FirstYearMeans(rows, s)|
    ensures FirstYearMeans(rows, s)[j] == DailyMean(rows, s, FirstYearDays(rows, s)[j])
    ensures RatedTemperature(rows, s) <= FirstYearMeans(rows, s)[j]
  {
    var ms := FirstYearMeans(rows, s);
    assert ms[j] in ms;
    FirstYearDaysNonEmpty(rows, s);
    assert RatedTemperature(rows, s) == Least(ms, RealLe);
  }

  lemma FirstYearDayWitness(rows: seq<WeatherRow>, s: string, d: nat)
    requires HasStation(rows, s) && d in FirstYearDays(rows, s)
    ensures exists w :: w in rows && w.stationId == s && YearOfRow(w) == FirstYear(rows, s) && DayOfRow(w) == d
  {
    var y := FirstYear(rows, s);
    var own := Frames.Filter(rows, (w: WeatherRow) => w.stationId == s && YearOfRow(w) == y);
    assert d in Frames.Column(own, DayOfRow);
    var w :| w in own && d == DayOfRow(w);
    assert w in rows && w.stationId == s && YearOfRow(w) == y;
  }

  /** The rated temperature is at most every daily mean of the station's first
      year, and is one of them. */
  lemma RatedTemperatureMeaning(rows: seq<WeatherRow>, s: string)
    requires HasStation(rows, s)
    ensures forall w :: w in rows && w.stationId == s && YearOfRow(w) == FirstYear(rows, s)
                        ==> RatedTemperature(rows, s) <= DailyMean(rows, s, DayOfRow(w))
    ensures exists w :: w in rows && w.stationId == s && YearOfRow(w) == FirstYear(rows, s)
                        && RatedTemperature(rows, s) == DailyMean(rows, s, DayOfRow(w))
  {
    var days := FirstYearDays(rows, s);
    forall w | w in rows && w.stationId == s && YearOfRow(w) == FirstYear(rows, s)
      ensures RatedTemperature(rows, s) <= DailyMean(rows, s, DayOfRow(w))
    {
      FirstYearDaysHas(rows, s, w);
      var j :| 0 <= j < |days| && days[j] == DayOfRow(w);
      FirstYearMeanAt(rows, s, j);
    }
    FirstYearDaysNonEmpty(rows, s);
    var means := FirstYearMeans(rows, s);
    var j :| 0 <= j < |means| && means[j] == RatedTemperature(rows, s);
    FirstYearMeanAt(rows, s, j);
    FirstYearDayWitness(rows, s, days[j]);
  }

  // ---- pinning the intercepts ----------------------------------------------

  predicate HasPinnedSlopes(p: ParameterTable)
  {
    CombinedCycle in p.slopes && CombustionTurbine in p.slopes
  }

  /** The intercept entry written for a station: combined-cycle and
      combustion-turbine only. */
  function PinnedIntercepts(slopes: map<string, real>, rated: real): map<string, real>
    requires CombinedCycle in slopes && CombustionTurbine in slopes
  {
    map[CombinedCycle := PinnedIntercept(slopes[CombinedCycle], rated),
        CombustionTurbine := PinnedIntercept(slopes[CombustionTurbine], rated)]
  }

  /** Every station's rated temperature. */
  function RatedTemperatures(rows: seq<WeatherRow>): (m: map<string, real>)
    ensures forall s :: s in m <==> HasStation(rows, s)
    ensures forall s :: s in m ==> m[s] == RatedTemperature(rows, s)
  {
    map s | s in Stations(rows) :: RatedTemperature(rows, s)
  }

  /** The table after the first n stations of ss have been processed, in
      order, with the given rated temperatures. */
  function PinStations(p: ParameterTable, rated: map<string, real>, ss: seq<string>, n: nat): (q: ParameterTable)
    requires HasPinnedSlopes(p) && n <= |ss|
    requires forall s :: s in ss ==> s in rated
    ensures q.slopes == p.slopes
  {
    if n == 0 then p
    else
      var q := PinStations(p, rated, ss, n - 1);
      var s := ss[n - 1];
      q.(ratedTemperatures := q.ratedTemperatures[s := rated[s]],
         intercepts := q.intercepts[s := PinnedIntercepts(q.slopes, rated[s])])
  }

  /** Processing stations keeps the slopes, gives each processed station its
      rated temperature and a pinned intercept entry, and keeps every other
      station's entries. */
  lemma {:induction false} PinStationsMeaning(p: ParameterTable, rated: map<string, real>, ss: seq<string>, n: nat)
    requires HasPinnedSlopes(p) && n <= |ss|
    requires forall s :: s in ss ==> s in rated
    ensures var q := PinStations(p, rated, ss, n);
            (forall s :: s in q.intercepts <==> s in p.intercepts || s in ss[..n])
            && (forall s :: s in q.ratedTemperatures <==> s in p.ratedTemperatures || s in ss[..n])
            && (forall s :: s in ss[..n] ==> q.ratedTemperatures[s] == rated[s])
            && (forall s :: s in ss[..n] ==> q.intercepts[s] == PinnedIntercepts(p.slopes, rated[s]))
            && (forall s :: s in p.intercepts && s !in ss[..n] ==> q.intercepts[s] == p.intercepts[s])
            && (forall s :: s in p.ratedTemperatures && s !in ss[..n] ==> q.ratedTemperatures[s] == p.ratedTemperatures[s])
  {
    if n > 0 {
      assert forall s :: s in ss[..n] <==> s in ss[..n - 1] || s == ss[n - 1];
      PinStationsMeaning(p, rated, ss, n - 1);
      var q0 := PinStations(p, rated, ss, n - 1);
      var q := PinStations(p, rated, ss, n);
      var last := ss[n - 1];
      var entry := PinnedIntercepts(p.slopes, rated[last]);
      assert q.intercepts == q0.intercepts[last := entry];
      forall s | s in ss[..n]
        ensures q.intercepts[s] == PinnedIntercepts(p.slopes, rated[s])
      {
        if s == last {
          assert q.intercepts[s] == entry;
        } else {
          assert q.intercepts[s] == q0.intercepts[s];
        }
      }
    }
  }

  /** The table after `calculate_derate_intercepts` on the given weather data. */
  function PinIntercepts(p: ParameterTable, rows: seq<WeatherRow>): ParameterTable
    requires HasPinnedSlopes(p)
  {
    PinStations(p, RatedTemperatures(rows), Stations(rows), |Stations(rows)|)
  }

  /** A pinned intercept entry covers the two derated unit types only, and
      reads a derate of exactly 1 at the rated temperature for both. */
  lemma PinnedEntryMeaning(q: ParameterTable, s: string, rated: real)
    requires HasPinnedSlopes(q) && s in q.intercepts && s in q.ratedTemperatures
    requires q.intercepts[s] == PinnedIntercepts(q.slopes, rated)
    ensures q.intercepts[s].Keys == {CombinedCycle, CombustionTurbine}
    ensures CalculateDerate(q, ResourceClass(CombinedCycle, s), rated) == Ok(1.0)
    ensures CalculateDerate(q, ResourceClass(CombustionTurbine, s), rated) == Ok(1.0)
  {
  }

  lemma FullPrefix<T>(xs: seq<T>)
    ensures forall x :: x in xs[..|xs|] <==> x in xs
  {
    assert xs[..|xs|] == xs;
  }

  /** After pinning, the slopes are as they were, exactly the stations of the
      data have been added to the intercepts and rated temperatures, and every
      other station's entries are as they were. */
  lemma PinInterceptsMeaning(p: ParameterTable, rows: seq<WeatherRow>)
    requires HasPinnedSlopes(p)
    ensures var q := PinIntercepts(p, rows);
            q.slopes == p.slopes
            && (forall s :: s in q.intercepts <==> s in p.intercepts || HasStation(rows, s))
            && (forall s :: s in q.ratedTemperatures <==> s in p.ratedTemperatures || HasStation(rows, s))
            && (forall s :: s in p.intercepts && !HasStation(rows, s) ==> q.intercepts[s] == p.intercepts[s])
            && (forall s :: s in p.ratedTemperatures && !HasStation(rows, s)
                  ==> q.ratedTemperatures[s] == p.ratedTemperatures[s])
  {
    var ss := Stations(rows);
    PinStationsMeaning(p, RatedTemperatures(rows), ss, |ss|);
    FullPrefix(ss);
  }

  lemma PinnedStationEntry(p: ParameterTable, rows: seq<WeatherRow>, s: string)
    requires HasPinnedSlopes(p) && HasStation(rows, s)
    ensures var q := PinIntercepts(p, rows);
            s in q.ratedTemperatures && q.ratedTemperatures[s] == RatedTemperature(rows, s)
            && s in q.intercepts && q.intercepts[s] == PinnedIntercepts(p.slopes, RatedTemperature(rows, s))
  {
    var ss := Stations(rows);
    PinStationsMeaning(p, RatedTemperatures(rows), ss, |ss|);
    FullPrefix(ss);
    assert s in ss[..|ss|];
  }

  /** After pinning, a station of the data has its rated temperature, an
      intercept entry for the two derated unit types only, and reads a derate
      of exactly 1 at its rated temperature for both. */
  lemma PinnedStationMeaning(p: ParameterTable, rows: seq<WeatherRow>, s: string)
    requires HasPinnedSlopes(p) && HasStation(rows, s)
    ensures var q := PinIntercepts(p, rows);
            s in q.ratedTemperatures && q.ratedTemperatures[s] == RatedTemperature(rows, s)
            && s in q.intercepts && q.intercepts[s].Keys == {CombinedCycle, CombustionTurbine}
            && CalculateDerate(q, ResourceClass(CombinedCycle, s), RatedTemperature(rows, s)) == Ok(1.0)
            && CalculateDerate(q, ResourceClass(CombustionTurbine, s), RatedTemperature(rows, s)) == Ok(1.0)
  {
    PinnedStationEntry(p, rows, s);
    PinnedEntryMeaning(PinIntercepts(p, rows), s, RatedTemperature(rows, s));
  }

  // ---- derates and profiles ------------------------------------------------

  /** A row of `derates`: the weather row with both unit types' derates. */
  datatype DerateRow = DerateRow(stationId: string, dateTime: Calendar.Instant, temp: real,
                                 combinedCycle: real, combustionTurbine: real)

  /** One row of the `apply` in `calculate_derates`. */
  function DerateRowOf(p: ParameterTable, w: WeatherRow): (r: Result<DerateRow, string>)
    ensures r.Ok? <==> CalculateDerate(p, ResourceClass(CombinedCycle, w.stationId), w.temp).Ok?
                       && CalculateDerate(p, ResourceClass(CombustionTurbine, w.stationId), w.temp).Ok?
    ensures r.Ok? ==> r.value.stationId == w.stationId && r.value.dateTime == w.dateTime && r.value.temp == w.temp
                      && r.value.combinedCycle == CalculateDerate(p, ResourceClass(CombinedCycle, w.stationId), w.temp).value
                      && r.value.combustionTurbine == CalculateDerate(p, ResourceClass(CombustionTurbine, w.stationId), w.temp).value
  {
    var cc := CalculateDerate(p, ResourceClass(CombinedCycle, w.stationId), w.temp);
    var ct := CalculateDerate(p, ResourceClass(CombustionTurbine, w.stationId), w.temp);
    if cc.Err? then Err(cc.error)
    else if ct.Err? then Err(ct.error)
    else Ok(DerateRow(w.stationId, w.dateTime, w.temp, cc.value, ct.value))
  }

  /** One row of the saved profile. */
  datatype ProfileRow = ProfileRow(weatherName: string, hour: int, weatherFactor: real, randomizeProfile: string)

  datatype ProfileFile = ProfileFile(fileName: string, rows: seq<ProfileRow>)

  /** `'{}-{}_{}.csv'.format(unit_type, weather_station, year)`. */
  function ProfileFileName(rc: ResourceClass, year: nat): string
  {
    rc.unitType + "-" + rc.weatherStation + "_" + Text.Digits(year, 1) + ".csv"
  }

  predicate InProfile(d: DerateRow, rc: ResourceClass, year: int)
  {
    d.stationId == rc.weatherStation && Calendar.YearOf(d.dateTime) == year
  }

  /** The derate column named by a unit type. */
  function Factor(d: DerateRow, unitType: string): real
    requires unitType == CombinedCycle || unitType == CombustionTurbine
  {
    if unitType == CombinedCycle then d.combinedCycle else d.combustionTurbine
  }

  function ProfileRowOf(d: DerateRow, rc: ResourceClass): ProfileRow
    requires rc.unitType == CombinedCycle || rc.unitType == CombustionTurbine
  {
    ProfileRow(rc.unitType + " " + rc.weatherStation, Calendar.HourOfYear(d.dateTime), Factor(d, rc.unitType), "FALSE")
  }

  /** `save_derates`: the requested station's rows of the requested year, in
      order, as (Weather Name, Hour, Weather Factor, Randomize Profile).  The
      derate columns are missing (a KeyError) when `calculate_derates` failed,
      and a unit type other than the two derated ones names no column. */
  function SaveDerates(derates: Option<seq<DerateRow>>, rc: ResourceClass, year: int): (r: Result<ProfileFile, string>)
    requires year >= Calendar.EpochYear
    ensures r.Err? <==> derates.None? || (rc.unitType != CombinedCycle && rc.unitType != CombustionTurbine)
    ensures r.Ok? ==> r.value.fileName == ProfileFileName(rc, year)
  {
    if derates.None? then Err("KeyError: " + rc.unitType)
    else if rc.unitType != CombinedCycle && rc.unitType != CombustionTurbine then Err("KeyError: " + rc.unitType)
    else
      var kept := Frames.Filter(derates.value, d => InProfile(d, rc, year));
      Ok(ProfileFile(ProfileFileName(rc, year), Frames.Column(kept, d => ProfileRowOf(d, rc))))
  }

  /** A saved profile row for each derate row of the station and year, and no
      other: named after the unit type and station, never randomised, indexed
      by the hour of the year and holding the unit type's derate. */
  lemma SaveDeratesMeaning(derates: seq<DerateRow>, rc: ResourceClass, year: int)
    requires year >= Calendar.EpochYear
    requires rc.unitType == CombinedCycle || rc.unitType == CombustionTurbine
    ensures SaveDerates(Some(derates), rc, year).Ok?
    ensures var out := SaveDerates(Some(derates), rc, year).value.rows;
            forall e :: e in out <==> exists d :: d in derates && InProfile(d, rc, year) && e == ProfileRowOf(d, rc)
    ensures var out := SaveDerates(Some(derates), rc, year).value.rows;
            forall e :: e in out ==> e.weatherName == rc.unitType + " " + rc.weatherStation
                                     && e.randomizeProfile == "FALSE"
                                     && 1 <= e.hour <= 24 * Calendar.DaysInYear(year)
  {
    var kept := Frames.Filter(derates, d => InProfile(d, rc, year));
    var out := Frames.Column(kept, d => ProfileRowOf(d, rc));
    assert SaveDerates(Some(derates), rc, year).value.rows == out;
  }

  /** The historic run: after pinning the intercepts and computing the
      derates, every row of the weather data gets both derates, and each is 1
      at its station's rated temperature. */
  lemma HistoricRunDeratesDefined(rows: seq<WeatherRow>, w: WeatherRow)
    requires w in rows
    ensures DerateRowOf(PinIntercepts(InitialParameters, rows), w).Ok?
    ensures var q := PinIntercepts(InitialParameters, rows);
            var r := RatedTemperature(rows, w.stationId);
            DerateRowOf(q, w.(temp := r)).value.combinedCycle == 1.0
            && DerateRowOf(q, w.(temp := r)).value.combustionTurbine == 1.0
  {
    assert HasStation(rows, w.stationId);
    PinnedStationMeaning(InitialParameters, rows, w.stationId);
  }
}

/** The stateful `DerateForecaster` object: the class-level parameter table it
    shares with every other forecaster, its weather data and derates, and the
    two methods that update them. */
module Forecaster {
  import opened Wrappers
  import opened DerateForecast
  import Frames

  /** The loop of `calculate_derate_intercepts`: each station in turn gets its
      rated temperature (the station's minimum, computed beforehand) and an
      intercept entry pinned to it. */
  method PinAll(p: ParameterTable, minTemps: map<string, real>, stations: seq<string>) returns (q: ParameterTable)
    requires HasPinnedSlopes(p)
    requires forall s :: s in stations ==> s in minTemps
    ensures q == PinStations(p, minTemps, stations, |stations|)
  {
    q := p;
    var i := 0;
    while i < |stations|
      invariant 0 <= i <= |stations|
      invariant q == PinStations(p, minTemps, stations, i)
    {
      var s := stations[i];
      q := q.(ratedTemperatures := q.ratedTemperatures[s := minTemps[s]],
              intercepts := q.intercepts[s := PinnedIntercepts(q.slopes, minTemps[s])]);
      i := i + 1;
    }
  }

  /** The class attribute `derate_parameters`: one table shared by every
      forecaster, which `calculate_derate_intercepts` updates in place, so a
      forecaster created later sees the intercepts pinned by an earlier one. */
  class ParameterStore {
    var table: ParameterTable

    /** The table as the class body configures it. */
    constructor()
      ensures table == InitialParameters
    {
      table := InitialParameters;
    }
  }

  class DerateForecaster {
    /** The class-level parameter table this forecaster reads and updates. */
    var parameters: ParameterStore
    var weatherData: seq<WeatherRow>
    /** `self.derates` with its derate columns, or None before they exist. */
    var derates: Option<seq<DerateRow>>

    /** A forecaster over the given weather, reading the class-level table
        as it stands, with no derates yet. */
    constructor(shared: ParameterStore, weatherData: seq<WeatherRow>)
      ensures this.parameters == shared
      ensures this.weatherData == weatherData && this.derates.None?
    {
      this.parameters := shared;
      this.weatherData := weatherData;
      this.derates := None;
    }

    /** `calculate_derate_intercepts`: each station of the weather data in turn
        gets its rated temperature and an intercept entry pinned to it, in the
        shared table. */
    method CalculateDerateIntercepts()
      requires HasPinnedSlopes(parameters.table)
      modifies parameters
      ensures parameters.table == PinIntercepts(old(parameters.table), weatherData)
    {
      var minTemps := RatedTemperatures(weatherData);
      parameters.table := PinAll(parameters.table, minTemps, Stations(weatherData));
    }

    /** `calculate_derates`: both derates for every weather row, in the
        weather data's order; a missing parameter leaves the derate columns
        absent. */
    method CalculateDerates() returns (r: Result<(), string>)
      modifies this
      ensures parameters == old(parameters) && parameters.table == old(parameters.table)
      ensures weatherData == old(weatherData)
      ensures r.Ok? <==> forall i :: 0 <= i < |weatherData| ==> DerateRowOf(parameters.table, weatherData[i]).Ok?
      ensures r.Ok? ==> derates.Some? && |derates.value| == |weatherData|
                        && forall i :: 0 <= i < |weatherData| ==> derates.value[i] == DerateRowOf(parameters.table, weatherData[i]).value
      ensures r.Err? ==> derates.None?
    {
      var p := parameters.table;
      var all := Frames.MapAll(weatherData, w => DerateRowOf(p, w));
      if all.Err? {
        derates := None;
        r := Err(all.error);
      } else {
        derates := Some(all.value);
        r := Ok(());
      }
    }

  }

}
