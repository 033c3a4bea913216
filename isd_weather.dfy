/** Hourly station weather from NOAA Integrated Surface Database (ISD) CSV rows:
    decoding of the TMP, DEW and MA1 tokens, repair of missing call signs, and
    reduction to one reading per (call sign, hour).  Temperatures are integer
    tenths of a degree Celsius and pressures integer hundredths of a kPa, so the
    source's float tests `== 999.9` and `== 999.99` are the raw values 9999 and
    99999. */
module IsdWeather {
  import opened Wrappers
  import Text
  import Calendar
  import Grouping
  import Frames

  /** A CSV cell: a string, or something else (pandas reads empty cells as NaN). */
  datatype Cell = Token(s: string) | NotText

  /** One ISD row as read: station id, call sign, observation time and the raw
      TMP, DEW and MA1 fields. */
  datatype Observation = Observation(
    station: string, callSign: string, date: Calendar.Instant, tmp: Cell, dew: Cell, ma1: Cell)

  /** One reduced hourly reading. */
  datatype Reading = Reading(
    callSign: string, hour: Calendar.Instant, dryBulb: int, dewPoint: int, pressure: int)

  const MissingCallSign := "99999"

  // ---- token decoding ----------------------------------------------------

  /** Quality codes accepted for temperatures and dew points. */
  predicate IsTemperatureQuality(c: char)
  {
    c in "01459ACIM"
  }

  /** Quality codes accepted for the station pressure of MA1. */
  predicate IsPressureQuality(c: char)
  {
    c in "01459"
  }

  /** The token without one final newline: Python's `$` matches at the end of
      the string and also just before a final newline, so a pattern anchored
      by `^...$` matches s exactly when it matches all of Chomp(s). */
  function Chomp(s: string): (r: string)
    ensures r == s || s == r + "\n"
  {
    if s != [] && s[|s| - 1] == '\n' then s[..|s| - 1] else s
  }

  /** `[+-]\d{4},[01459ACIM]` */
  predicate TemperatureCore(s: string)
  {
    |s| == 7 && (s[0] == '+' || s[0] == '-') && Text.AllDigits(s[1..5]) && s[5] == ','
    && IsTemperatureQuality(s[6])
  }

  /** `\d{5},[\d\w],\d{5},[01459]` */
  predicate PressureCore(s: string)
  {
    |s| == 15 && Text.AllDigits(s[..5]) && s[5] == ',' && Text.IsWordChar(s[6]) && s[7] == ','
    && Text.AllDigits(s[8..13]) && s[13] == ',' && IsPressureQuality(s[14])
  }

  /** `int(s)` of a sign followed by four digits. */
  function SignedGroup(s: string): (v: int)
    requires |s| == 5 && Text.AllDigits(s[1..])
    ensures -9999 <= v <= 9999
  {
    Text.ParseNatBound(s[1..]);
    assert Text.Pow10(4) == 10000;
    var m: int := Text.ParseNat(s[1..]);
    if s[0] == '-' then -m else m
  }

  /** `parse_temperature`: tenths of a degree, or None for a non-string, a token
      that does not match, or the missing value +9999. */
  function ParseTemperature(c: Cell): (r: Option<int>)
    ensures r.Some? <==> c.Token? && TemperatureCore(Chomp(c.s)) && Chomp(c.s)[..5] != "+9999"
    ensures r.Some? ==> -9999 <= r.value <= 9998 && r.value == SignedGroup(Chomp(c.s)[..5])
    ensures c.Token? && TemperatureCore(Chomp(c.s)) ==> (r.None? <==> SignedGroup(Chomp(c.s)[..5]) == 9999)
  {
    if c.Token? && TemperatureCore(Chomp(c.s)) then
      var g := Chomp(c.s)[..5];
      assert g[1..] == Chomp(c.s)[1..5];
      var v := SignedGroup(g);
      assert v == 9999 <==> g == "+9999" by {
        NinesOfWidth(g[1..], 4);
        assert Text.Pow10(4) == 10000;
        assert g == [g[0]] + g[1..];
      }
      if v == 9999 then None else Some(v)
    else None
  }

  /** Four digits read as 9999 exactly when they are "9999". */
  lemma NinesOfWidth(s: string, w: nat)
    requires |s| == w && Text.AllDigits(s) && (w == 4 || w == 5)
    ensures Text.ParseNat(s) == Text.Pow10(w) - 1 <==> s == (if w == 4 then "9999" else "99999")
  {
    Text.ParseNatAllNines(s);
    var n := if w == 4 then "9999" else "99999";
    if forall i :: 0 <= i < |s| ==> s[i] == '9' {
      assert forall i :: 0 <= i < |s| ==> s[i] == n[i];
    }
  }

  /** `parse_dew_point` applies the temperature rules unchanged. */
  function ParseDewPoint(c: Cell): (r: Option<int>)
    ensures r == ParseTemperature(c)
  {
    ParseTemperature(c)
  }

  /** `parse_pressure`: the second five-digit group of MA1 in hundredths of a
      kPa, or None for a non-string, a token that does not match, or 99999. */
  function ParsePressure(c: Cell): (r: Option<int>)
    ensures r.Some? <==> c.Token? && PressureCore(Chomp(c.s)) && Chomp(c.s)[8..13] != "99999"
    ensures r.Some? ==> 0 <= r.value < 99999 && r.value == Text.ParseNat(Chomp(c.s)[8..13])
  {
    if c.Token? && PressureCore(Chomp(c.s)) then
      var g := Chomp(c.s)[8..13];
      var v := Text.ParseNat(g);
      Text.ParseNatBound(g);
      assert Text.Pow10(5) == 100000;
      assert v == 99999 <==> g == "99999" by {
        NinesOfWidth(g, 5);
      }
      if v == 99999 then None else Some(v)
    else None
  }

  // ---- encoders, for the round trips -----------------------------------------

  /** The TMP/DEW token ISD writes for a value in tenths and a quality code. */
  function FormatTemperature(v: int, q: char): (s: string)
    requires -9999 <= v <= 9999
  {
    (if v < 0 then "-" else "+") + Text.Digits(if v < 0 then -v else v, 4) + "," + [q]
  }

  /** Round trip: an acceptable token decodes to its value, except that +9999 is
      the missing value; -9999 is kept. A trailing newline changes nothing. */
  lemma TemperatureRoundTrip(v: int, q: char, newline: bool)
    requires -9999 <= v <= 9999 && IsTemperatureQuality(q)
    ensures ParseTemperature(Token(FormatTemperature(v, q) + (if newline then "\n" else "")))
            == if v == 9999 then None else Some(v)
  {
    var s := FormatTemperature(v, q);
    var t := s + (if newline then "\n" else "");
    assert Chomp(t) == s by {
      if newline {
        assert t[..|t| - 1] == s;
      }
    }
    FormattedGroup(v, q);
  }

  /** A formatted token matches the pattern and its group reads back as v. */
  lemma FormattedGroup(v: int, q: char)
    requires -9999 <= v <= 9999 && IsTemperatureQuality(q)
    ensures TemperatureCore(FormatTemperature(v, q))
    ensures SignedGroup(FormatTemperature(v, q)[..5]) == v
  {
    var s := FormatTemperature(v, q);
    var m := if v < 0 then -v else v;
    assert s[1..5] == Text.Digits(m, 4);
    Text.ParseDigits(m, 4);
    assert s[..5][1..] == s[1..5];
  }

  /** A quality code outside {0,1,4,5,9,A,C,I,M} makes the token missing. */
  lemma TemperatureRejectsQuality(v: int, q: char)
    requires -9999 <= v <= 9999 && !IsTemperatureQuality(q)
    ensures ParseTemperature(Token(FormatTemperature(v, q))) == None
  {
  }

  /** The MA1 token for an altimeter group, its quality code, the station
      pressure in hundredths of a kPa and the pressure quality code. */
  function FormatPressure(altimeter: nat, altimeterQuality: char, p: nat, q: char): string
    requires altimeter < 100000 && p < 100000
  {
    Text.Digits(altimeter, 5) + "," + [altimeterQuality] + "," + Text.Digits(p, 5) + "," + [q]
  }

  /** Round trip for MA1; the altimeter quality only has to be a word character
      (`[\d\w]`), a looser test than the pressure quality code. */
  lemma PressureRoundTrip(altimeter: nat, altimeterQuality: char, p: nat, q: char)
    requires altimeter < 100000 && p < 100000
    requires Text.IsWordChar(altimeterQuality) && IsPressureQuality(q)
    ensures ParsePressure(Token(FormatPressure(altimeter, altimeterQuality, p, q)))
            == if p == 99999 then None else Some(p)
  {
    var s := FormatPressure(altimeter, altimeterQuality, p, q);
    Digits5(altimeter);
    Digits5(p);
    assert s[..5] == Text.Digits(altimeter, 5);
    assert s[8..13] == Text.Digits(p, 5);
    Text.ParseDigits(p, 5);
  }

  lemma Digits5(n: nat)
    requires n < 100000
    ensures |Text.Digits(n, 5)| == 5
  {
    var a := Text.Digits(n / 10, 4);
    assert |a| == 4;
  }

  // ---- call-sign repair ------------------------------------------------------

  /** The (station, call sign) pairs of rows whose call sign is not 99999. */
  function StationSigns(obs: seq<Observation>): seq<(string, string)>
  {
    Frames.Distinct(KnownSigns(obs))
  }

  function KnownSigns(obs: seq<Observation>): (ps: seq<(string, string)>)
    ensures forall p :: p in ps <==> exists o :: o in obs && o.callSign != MissingCallSign && p == (o.station, o.callSign)
  {
    if obs == [] then []
    else
      var o := obs[|obs| - 1];
      assert forall x :: x in obs <==> x in obs[..|obs| - 1] || x == o;
      KnownSigns(obs[..|obs| - 1]) + (if o.callSign != MissingCallSign then [(o.station, o.callSign)] else [])
  }

  /** The call sign a row ends up with after assigning, pair by pair, each
      pair's sign to every row of its station: the sign of the last pair for
      the row's station, or the row's own sign when no pair names it. */
  function AssignedSign(ps: seq<(string, string)>, station: string, sign: string): (r: string)
    ensures r == sign || (station, r) in ps
  {
    if ps == [] then sign
    else if ps[|ps| - 1].0 == station then ps[|ps| - 1].1
    else AssignedSign(ps[..|ps| - 1], station, sign)
  }

  /** A row after the pairs ps have been assigned. */
  function WithSigns(ps: seq<(string, string)>, o: Observation): Observation
  {
    o.(callSign := AssignedSign(ps, o.station, o.callSign))
  }

  lemma AssignedSignStep(ps: seq<(string, string)>, i: nat, o: Observation)
    requires i < |ps|
    ensures WithSigns(ps[..i + 1], o) == if ps[i].0 == o.station then o.(callSign := ps[i].1) else WithSigns(ps[..i], o)
  {
    assert ps[..i + 1][..i] == ps[..i];
  }

  /** The rows after the repair loop and `str.strip`. */
  function RepairedCallSigns(obs: seq<Observation>): (r: seq<Observation>)
    ensures |r| == |obs|
  {
    var ps := StationSigns(obs);
    seq(|obs|, i requires 0 <= i < |obs| => Stripped(WithSigns(ps, obs[i])))
  }

  function Stripped(o: Observation): Observation
  {
    o.(callSign := Text.Strip(o.callSign))
  }

  /** `df.loc[df['STATION'] == station, 'CALL_SIGN'] = sign`. */
  method AssignStationSign(rows: array<Observation>, station: string, sign: string)
    modifies rows
    ensures forall m :: 0 <= m < rows.Length ==>
      rows[m] == if old(rows[m]).station == station then old(rows[m]).(callSign := sign) else old(rows[m])
  {
    var k := 0;
    while k < rows.Length
      invariant 0 <= k <= rows.Length
      invariant forall m :: 0 <= m < k ==>
        rows[m] == if old(rows[m]).station == station then old(rows[m]).(callSign := sign) else old(rows[m])
      invariant forall m :: k <= m < rows.Length ==> rows[m] == old(rows[m])
    {
      if rows[k].station == station {
        rows[k] := rows[k].(callSign := sign);
      }
      k := k + 1;
    }
  }

  /** `df['CALL_SIGN'].map(str.strip)`, in place. */
  method StripCallSigns(rows: array<Observation>)
    modifies rows
    ensures forall m :: 0 <= m < rows.Length ==> rows[m] == Stripped(old(rows[m]))
  {
    var k := 0;
    while k < rows.Length
      invariant 0 <= k <= rows.Length
      invariant forall m :: 0 <= m < k ==> rows[m] == Stripped(old(rows[m]))
      invariant forall m :: k <= m < rows.Length ==> rows[m] == old(rows[m])
    {
      rows[k] := Stripped(rows[k]);
      k := k + 1;
    }
  }

  /** The repair loop of `load_weather`, in place: for each distinct (station,
      call sign) pair with a known sign, every row of that station takes that
      sign; then every call sign is stripped. */
  method RepairCallSigns(rows: array<Observation>)
    modifies rows
    ensures rows[..] == RepairedCallSigns(old(rows[..]))
  {
    ghost var original := rows[..];
    var ps := StationSigns(rows[..]);
    var i := 0;
    while i < |ps|
      invariant 0 <= i <= |ps|
      invariant forall k :: 0 <= k < rows.Length ==> rows[k] == WithSigns(ps[..i], original[k])
    {
      AssignStationSign(rows, ps[i].0, ps[i].1);
      forall k | 0 <= k < rows.Length ensures rows[k] == WithSigns(ps[..i + 1], original[k]) {
        AssignedSignStep(ps, i, original[k]);
      }
      i := i + 1;
    }
    assert ps[..|ps|] == ps;
    StripCallSigns(rows);
  }

  /** A station that has a known call sign in any row gets one known sign on
      all of its rows: the last distinct sign listed for it. */
  lemma RepairedSignsAgree(obs: seq<Observation>, i: nat, j: nat)
    requires i < |obs| && j < |obs| && obs[i].station == obs[j].station
    ensures RepairedCallSigns(obs)[i].callSign == RepairedCallSigns(obs)[j].callSign
            || forall o :: o in obs && o.station == obs[i].station ==> o.callSign == MissingCallSign
  {
    var ps := StationSigns(obs);
    if exists o :: o in obs && o.station == obs[i].station && o.callSign != MissingCallSign {
      var o :| o in obs && o.station == obs[i].station && o.callSign != MissingCallSign;
      assert (o.station, o.callSign) in ps;
      AssignedSignFound(ps, obs[i].station, obs[i].callSign, obs[j].callSign);
    }
  }

  /** When some pair names the station, the row's own sign is irrelevant. */
  lemma {:induction false} AssignedSignFound(ps: seq<(string, string)>, station: string, s1: string, s2: string)
    requires exists p :: p in ps && p.0 == station
    ensures AssignedSign(ps, station, s1) == AssignedSign(ps, station, s2)
    ensures (station, AssignedSign(ps, station, s1)) in ps
  {
    if ps[|ps| - 1].0 != station {
      var p :| p in ps && p.0 == station;
      assert p in ps[..|ps| - 1] by {
        var k :| 0 <= k < |ps| && ps[k] == p;
        assert k < |ps| - 1;
        assert ps[..|ps| - 1][k] == p;
      }
      AssignedSignFound(ps[..|ps| - 1], station, s1, s2);
    }
  }

  /** A repaired sign is known whenever the station has a known sign. */
  lemma RepairedSignKnown(obs: seq<Observation>, i: nat)
    requires i < |obs|
    requires exists o :: o in obs && o.station == obs[i].station && o.callSign != MissingCallSign
    ensures exists o :: o in obs && o.station == obs[i].station && o.callSign != MissingCallSign
              && RepairedCallSigns(obs)[i].callSign == Text.Strip(o.callSign)
  {
    var ps := StationSigns(obs);
    var o :| o in obs && o.station == obs[i].station && o.callSign != MissingCallSign;
    assert (o.station, o.callSign) in ps;
    AssignedSignFound(ps, obs[i].station, obs[i].callSign, obs[i].callSign);
    var s := AssignedSign(ps, obs[i].station, obs[i].callSign);
    assert (obs[i].station, s) in KnownSigns(obs);
  }

  // ---- reduction to station hours --------------------------------------------

  /** A row's decoded reading at the start of its hour, or None when the dry
      bulb temperature, dew point or pressure is missing (`dropna(how='any')`). */
  function Decode(o: Observation): Option<Reading>
  {
    match (ParseTemperature(o.tmp), ParseDewPoint(o.dew), ParsePressure(o.ma1))
    case (Some(t), Some(d), Some(p)) => Some(Reading(o.callSign, Calendar.FloorHour(o.date), t, d, p))
    case _ => None
  }

  /** A row survives exactly when all three values decode; it then keeps its
      call sign, its reading time floored to the hour (same date, at most one
      hour earlier) and its decoded values. */
  lemma DecodeMeaning(o: Observation)
    ensures Decode(o).Some? <==>
      ParseTemperature(o.tmp).Some? && ParseDewPoint(o.dew).Some? && ParsePressure(o.ma1).Some?
    ensures Decode(o).Some? ==>
      var r := Decode(o).value;
      && r.callSign == o.callSign && r.hour <= o.date && o.date - r.hour < Calendar.MicrosPerHour
      && r.hour % Calendar.MicrosPerHour == 0 && Calendar.DateOf(r.hour) == Calendar.DateOf(o.date)
      && Some(r.dryBulb) == ParseTemperature(o.tmp) && Some(r.dewPoint) == ParseDewPoint(o.dew)
      && Some(r.pressure) == ParsePressure(o.ma1)
  {
  }

  /** A decoded row is complete and falls in station hour k. */
  predicate Completes(d: Option<Reading>, k: Grouping.Key)
  {
    d.Some? && StationHour(d.value) == k
  }

  function StationHour(r: Reading): Grouping.Key
  {
    [Grouping.Str(r.callSign), Grouping.Num(r.hour)]
  }

  /** The decoded rows, in input order. */
  function DecodeAll(obs: seq<Observation>): (ds: seq<Option<Reading>>)
    ensures |ds| == |obs| && forall i :: 0 <= i < |obs| ==> ds[i] == Decode(obs[i])
  {
    seq(|obs|, i requires 0 <= i < |obs| => Decode(obs[i]))
  }

  /** The complete decoded rows, keyed by (call sign, hour), in input order. */
  function Keyed(ds: seq<Option<Reading>>): seq<(Grouping.Key, Reading)>
  {
    if ds == [] then []
    else
      var init := Keyed(ds[..|ds| - 1]);
      match ds[|ds| - 1]
      case Some(r) => init + [(StationHour(r), r)]
      case None => init
  }

  /** Reference: the last complete reading with key k. */
  function LastReading(ds: seq<Option<Reading>>, k: Grouping.Key): Option<Reading>
  {
    if ds == [] then None
    else if Completes(ds[|ds| - 1], k) then ds[|ds| - 1]
    else LastReading(ds[..|ds| - 1], k)
  }

  /** The weather table of `load_weather` from already-repaired rows:
      complete rows only, one reading per (call sign, hour). */
  function ReduceHours(obs: seq<Observation>): seq<Reading>
  {
    LastPerHour(DecodeAll(obs))
  }

  /** `groupby(['CALL_SIGN', 'DATE']).last()` of the decoded rows. */
  function LastPerHour(ds: seq<Option<Reading>>): seq<Reading>
  {
    var g := Grouping.GroupBy(Keyed(ds), Grouping.KeepLast);
    seq(|g|, i requires 0 <= i < |g| => g[i].1)
  }

  /** The whole of `load_weather` on raw rows. */
  function LoadWeather(obs: seq<Observation>): seq<Reading>
  {
    ReduceHours(RepairedCallSigns(obs))
  }

  lemma {:induction false} FoldIsLastReading(ds: seq<Option<Reading>>, k: Grouping.Key)
    ensures Grouping.FoldKey(Keyed(ds), k, Grouping.KeepLast) == LastReading(ds, k)
  {
    if ds != [] {
      var init := Keyed(ds[..|ds| - 1]);
      FoldIsLastReading(ds[..|ds| - 1], k);
      match ds[|ds| - 1]
      case Some(r) =>
        assert (init + [(StationHour(r), r)])[..|init|] == init;
      case None =>
    }
  }

  /** What LastReading means: a complete reading with key k that no later
      complete reading shares, and None only when no complete row has key k. */
  lemma {:induction false} LastReadingMeaning(ds: seq<Option<Reading>>, k: Grouping.Key)
    ensures LastReading(ds, k).Some? ==>
      exists i :: 0 <= i < |ds| && Completes(ds[i], k) && ds[i] == LastReading(ds, k)
        && forall j :: i < j < |ds| ==> !Completes(ds[j], k)
    ensures LastReading(ds, k).None? ==> forall i :: 0 <= i < |ds| ==> !Completes(ds[i], k)
  {
    if ds != [] {
      var init := ds[..|ds| - 1];
      LastReadingMeaning(init, k);
      if !Completes(ds[|ds| - 1], k) {
        if LastReading(init, k).Some? {
          var i :| 0 <= i < |init| && Completes(init[i], k) && init[i] == LastReading(init, k)
            && forall j :: i < j < |init| ==> !Completes(init[j], k);
          assert ds[i] == init[i];
          assert forall j :: i < j < |init| ==> ds[j] == init[j];
        } else {
          assert forall j :: 0 <= j < |init| ==> ds[j] == init[j];
        }
      }
    }
  }

  /** Each group of the reduction is the last complete reading of its key. */
  lemma GroupIsLast(ds: seq<Option<Reading>>, i: nat)
    requires i < |Grouping.GroupBy(Keyed(ds), Grouping.KeepLast)|
    ensures var e := Grouping.GroupBy(Keyed(ds), Grouping.KeepLast)[i];
      && e.0 == StationHour(e.1) && LastReading(ds, e.0) == Some(e.1)
  {
    var g := Grouping.GroupBy(Keyed(ds), Grouping.KeepLast);
    Grouping.LookupEntry(g, i);
    FoldIsLastReading(ds, g[i].0);
    LastReadingMeaning(ds, g[i].0);
  }

  /** The reduction holds one reading per station hour, in ascending
      (call sign, hour) order. */
  lemma LastPerHourSorted(ds: seq<Option<Reading>>)
    ensures var out := LastPerHour(ds);
      forall i, j :: 0 <= i < j < |out| ==> Grouping.KeyLess(StationHour(out[i]), StationHour(out[j]))
  {
    var g := Grouping.GroupBy(Keyed(ds), Grouping.KeepLast);
    forall i | 0 <= i < |g| ensures g[i].0 == StationHour(g[i].1) {
      GroupIsLast(ds, i);
    }
  }

  /** Each reading of the reduction is the last complete row of its station
      hour. */
  lemma LastPerHourIsLast(ds: seq<Option<Reading>>, i: nat)
    requires i < |LastPerHour(ds)|
    ensures var r := LastPerHour(ds)[i];
      exists m :: && 0 <= m < |ds| && ds[m] == Some(r)
                  && forall j :: m < j < |ds| ==> !Completes(ds[j], StationHour(r))
  {
    var g := Grouping.GroupBy(Keyed(ds), Grouping.KeepLast);
    GroupIsLast(ds, i);
    LastReadingMeaning(ds, g[i].0);
  }

  /** Every complete row's station hour appears in the reduction, holding the
      last complete reading of that hour. */
  lemma LastPerHourComplete(ds: seq<Option<Reading>>, m: nat)
    requires m < |ds| && ds[m].Some?
    ensures exists j :: 0 <= j < |LastPerHour(ds)| && Some(LastPerHour(ds)[j]) == LastReading(ds, StationHour(ds[m].value))
  {
    var rows := Keyed(ds);
    var g := Grouping.GroupBy(rows, Grouping.KeepLast);
    var k := StationHour(ds[m].value);
    assert Completes(ds[m], k);
    LastReadingMeaning(ds, k);
    FoldIsLastReading(ds, k);
    Grouping.FoldKeyPresent(rows, k, Grouping.KeepLast);
    Grouping.GroupByEntries(rows, Grouping.KeepLast);
    var e :| 0 <= e < |rows| && rows[e].0 == k;
    var j :| 0 <= j < |g| && g[j].0 == rows[e].0;
    GroupIsLast(ds, j);
    assert LastPerHour(ds)[j] == g[j].1;
  }
}
