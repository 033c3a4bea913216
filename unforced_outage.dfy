/** Monthly equivalent forced outage rates of storage resources
    (`calculate_unforced_outage_rates`): the first full month after start-up,
    curtailments cut into n-minute blocks, the last report per block, the
    equivalent forced derated hours (EFDH) of each block, and the monthly EFOR
    of every resource over every month from its first full month to the last
    full month of data. */
module UnforcedOutage {
  import opened Wrappers
  import Calendar
  import Frames
  import Grouping
  import Floats
  import CurtailmentReports

  // ---- first full month after start-up --------------------------------------------------

  /** The 1st of the month after t's, at t's time of day: `t + MonthBegin(1)`,
      and also `t + MonthEnd(0) + td(days=1)`. */
  function NextMonthBegin(t: Calendar.Instant): Calendar.Instant
  {
    CurtailmentReports.DayInstant(Calendar.DayNumber(CurtailmentReports.NextMonthFirst(t))) + Calendar.TimeOfDay(t)
  }

  /** `get_first_month`: t itself when it falls on the 1st of a month, at any
      time of day (`is_month_start` looks at the date only); otherwise the 1st
      of the following month at t's time of day. */
  function FirstMonth(t: Calendar.Instant): Calendar.Instant
  {
    if Calendar.DayOf(t) == 1 then t else NextMonthBegin(t)
  }

  /** The first month starts no earlier than t, on the 1st of a month at t's
      time of day; it is t exactly when t is on the 1st, and otherwise lies in
      the following month.  Applying it twice changes nothing. */
  lemma FirstMonthMeaning(t: Calendar.Instant)
    ensures var r := FirstMonth(t);
      && t <= r && Calendar.DayOf(r) == 1 && Calendar.TimeOfDay(r) == Calendar.TimeOfDay(t)
      && (r == t <==> Calendar.DayOf(t) == 1)
      && (Calendar.DayOf(t) != 1 ==>
            (Calendar.YearOf(r), Calendar.MonthOf(r)) == Calendar.NextMonth(Calendar.YearOf(t), Calendar.MonthOf(t)))
      && FirstMonth(r) == r
  {
    if Calendar.DayOf(t) != 1 {
      var next := CurtailmentReports.NextMonthFirst(t);
      var n := Calendar.DayNumber(next);
      var r := FirstMonth(t);
      NextMonthBeginMeaning(t);
    }
  }

  /** `t + MonthBegin(1)` is a later instant than t, on the 1st of the next
      month at t's time of day. */
  lemma NextMonthBeginMeaning(t: Calendar.Instant)
    ensures var n := Calendar.DayNumber(CurtailmentReports.NextMonthFirst(t));
      var r := NextMonthBegin(t);
      && Calendar.DayIndex(t) < n && t < r
      && Calendar.DayIndex(r) == n && Calendar.TimeOfDay(r) == Calendar.TimeOfDay(t)
      && Calendar.DateOf(r) == CurtailmentReports.NextMonthFirst(t)
  {
    var n := Calendar.DayNumber(CurtailmentReports.NextMonthFirst(t));
    var tod := Calendar.TimeOfDay(t);
    var first := CurtailmentReports.MonthFirst(t);
    assert Calendar.DayOf(t) <= Calendar.DaysInMonth(first.year, first.month);
    assert t == Calendar.DayIndex(t) * Calendar.MicrosPerDay + tod;
    var r := n * Calendar.MicrosPerDay + tod;
    assert r / Calendar.MicrosPerDay == n && r % Calendar.MicrosPerDay == tod;
    Calendar.DateOfDayNumber(CurtailmentReports.NextMonthFirst(t));
  }

  /** No instant between t and its first month at t's time of day is on the
      1st: the first month is the earliest such instant. */
  lemma FirstMonthEarliest(t: Calendar.Instant, s: Calendar.Instant)
    requires t <= s < FirstMonth(t) && Calendar.TimeOfDay(s) == Calendar.TimeOfDay(t)
    ensures Calendar.DayOf(s) != 1
  {
    var first := CurtailmentReports.MonthFirst(t);
    var n := Calendar.DayNumber(CurtailmentReports.NextMonthFirst(t));
    NextMonthBeginMeaning(t);
    var tod := Calendar.TimeOfDay(t);
    assert s == Calendar.DayIndex(s) * Calendar.MicrosPerDay + tod;
    assert t == Calendar.DayIndex(t) * Calendar.MicrosPerDay + tod;
    assert FirstMonth(t) == n * Calendar.MicrosPerDay + tod;
    assert Calendar.DayIndex(t) <= Calendar.DayIndex(s) < n;
    var k := Calendar.DayIndex(s) - Calendar.DayNumber(first);
    assert 1 <= k < Calendar.DaysInMonth(first.year, first.month);
    var d := Calendar.Date(first.year, first.month, k + 1);
    assert Calendar.DayNumber(d) == Calendar.DayIndex(s);
    Calendar.DateOfDayNumber(d);
  }

  // ---- n-minute blocks -------------------------------------------------------------------

  /** The length of an n-minute block in microseconds. */
  function BlockLength(n: nat): (u: nat)
    requires n > 0
    ensures u > 0 && u % 2 == 0
  {
    n * Calendar.MicrosPerMinute
  }

  /** The quotient and remainder of t by u are the only ones with
      `t == q * u + r` and `0 <= r < u`. */
  lemma DivUnique(t: int, u: int, q: int, r: int)
    requires u > 0 && t == q * u + r && 0 <= r < u
    ensures t / u == q && t % u == r
  {
    var q0 := t / u;
    var r0 := t % u;
    assert (q - q0) * u == r0 - r;
    if q > q0 {
      MulLe(1, q - q0, u);
    } else if q < q0 {
      MulLe(1, q0 - q, u);
    }
  }

  /** Multiplying by a non-negative factor keeps an order. */
  lemma MulLe(a: int, b: int, u: int)
    requires a <= b && u >= 0
    ensures a * u <= b * u
  {
    assert b * u == a * u + (b - a) * u;
  }

  /** t rounded to the nearest multiple of u, a tie going to the even
      multiple. */
  function RoundToMultiple(t: Calendar.Instant, u: nat): Calendar.Instant
    requires u > 0
  {
    var q := t / u;
    if t % u > u / 2 || (t % u == u / 2 && q % 2 == 1) then (q + 1) * u else q * u
  }

  /** `t.round(f'{n}min')`: the nearest multiple of n minutes since the epoch,
      a tie going to the even multiple (pandas rounds half to even). */
  function RoundToBlock(t: Calendar.Instant, n: nat): Calendar.Instant
    requires n > 0
  {
    RoundToMultiple(t, BlockLength(n))
  }

  lemma RoundToMultipleMeaning(t: Calendar.Instant, u: nat)
    requires u > 0 && u % 2 == 0
    ensures var r := RoundToMultiple(t, u);
      && r % u == 0
      && t - u / 2 <= r <= t + u / 2
      && ((r == t - u / 2 || r == t + u / 2) ==> (r / u) % 2 == 0)
      && (t % u == 0 ==> r == t)
  {
    var q, m := t / u, t % u;
    var lo := q * u;
    var hi := (q + 1) * u;
    assert hi == lo + u && t == lo + m;
    DivUnique(lo, u, q, 0);
    DivUnique(hi, u, q + 1, 0);
    assert RoundToMultiple(t, u) == if m > u / 2 || (m == u / 2 && q % 2 == 1) then hi else lo;
  }

  /** The rounded instant is a whole number of blocks, at most half a block
      from t, the even multiple on a tie, and t itself when t is already a
      whole number of blocks. */
  lemma RoundToBlockMeaning(t: Calendar.Instant, n: nat)
    requires n > 0
    ensures var u := BlockLength(n);
      var r := RoundToBlock(t, n);
      && r % u == 0
      && t - u / 2 <= r <= t + u / 2
      && ((r == t - u / 2 || r == t + u / 2) ==> (r / u) % 2 == 0)
      && (t % u == 0 ==> r == t)
  {
    RoundToMultipleMeaning(t, BlockLength(n));
  }

  lemma RoundToMultipleMonotone(t1: Calendar.Instant, t2: Calendar.Instant, u: nat)
    requires u > 0 && t1 <= t2
    ensures RoundToMultiple(t1, u) <= RoundToMultiple(t2, u)
  {
    var q1 := t1 / u;
    var q2 := t2 / u;
    RoundBetween(t1, u);
    RoundBetween(t2, u);
    if q1 < q2 {
      MulLe(q1 + 1, q2, u);
    } else if q1 > q2 {
      MulLe(q2 + 1, q1, u);
    } else {
      RoundSameQuotient(t1, t2, u);
    }
  }

  /** t lies in its u-interval, and its rounding is one of the interval's
      ends. */
  lemma RoundBetween(t: Calendar.Instant, u: nat)
    requires u > 0
    ensures var q := t / u;
      && q * u <= t < (q + 1) * u
      && q * u <= RoundToMultiple(t, u) <= (q + 1) * u
  {
    var q := t / u;
    assert t == q * u + t % u;
    assert (q + 1) * u == q * u + u;
  }

  /** Two instants in the same u-interval round in order. */
  lemma RoundSameQuotient(t1: Calendar.Instant, t2: Calendar.Instant, u: nat)
    requires u > 0 && t1 <= t2 && t1 / u == t2 / u
    ensures RoundToMultiple(t1, u) <= RoundToMultiple(t2, u)
  {
    var q := t1 / u;
    assert t1 == q * u + t1 % u && t2 == q * u + t2 % u;
    assert t1 % u <= t2 % u;
    assert (q + 1) * u == q * u + u;
  }

  /** Rounding to blocks keeps the order of instants. */
  lemma RoundToBlockMonotone(t1: Calendar.Instant, t2: Calendar.Instant, n: nat)
    requires n > 0 && t1 <= t2
    ensures RoundToBlock(t1, n) <= RoundToBlock(t2, n)
  {
    RoundToMultipleMonotone(t1, t2, BlockLength(n));
  }

  /** The rounded end of an outage: `max(start, end.round(...))` with the
      start already rounded; a null end (NaT) never compares greater, so the
      start is kept. */
  function RoundedEnd(start: Calendar.Instant, end: Option<Calendar.Instant>, n: nat): Calendar.Instant
    requires n > 0
  {
    match end
    case None => start
    case Some(e) => if RoundToBlock(e, n) > start then RoundToBlock(e, n) else start
  }

  /** `max(int(delta.seconds / (nminutes * 60)), 1)` as written: a Timedelta's
      `seconds` is only its seconds within the last day, so whole days of the
      outage are not counted. */
  function BlockCountAsWritten(delta: nat, n: nat): nat
    requires n > 0
  {
    var k := ((delta % Calendar.MicrosPerDay) / Calendar.MicrosPerSecond) / (60 * n);
    if k > 1 then k else 1
  }

  /** The count the loop evidently means: whole blocks in the outage's total
      seconds, and at least one. */
  function BlockCount(delta: nat, n: nat): nat
    requires n > 0
  {
    var k := (delta / Calendar.MicrosPerSecond) / (60 * n);
    if k > 1 then k else 1
  }

  /** The start of the x-th block of length u from s. */
  function BlockAt(s: Calendar.Instant, x: nat, u: nat): Calendar.Instant
  {
    s + x * u
  }

  /** The start of each of `count` consecutive n-minute blocks from s. */
  function Blocks(s: Calendar.Instant, count: nat, n: nat): (bs: seq<Calendar.Instant>)
    requires n > 0
    ensures |bs| == count
  {
    seq(count, x requires 0 <= x < count => BlockAt(s, x, BlockLength(n)))
  }

  /** `expand_hours` as written: the rounded start and the block count taken
      from `delta.seconds`. */
  function ExpandHoursAsWritten(start: Calendar.Instant, end: Option<Calendar.Instant>, n: nat): seq<Calendar.Instant>
    requires n > 0
  {
    var s := RoundToBlock(start, n);
    Blocks(s, BlockCountAsWritten(RoundedEnd(s, end, n) - s, n), n)
  }

  /** `expand_hours` with the count taken from the outage's total seconds. */
  function ExpandHours(start: Calendar.Instant, end: Option<Calendar.Instant>, n: nat): seq<Calendar.Instant>
    requires n > 0
  {
    var s := RoundToBlock(start, n);
    Blocks(s, BlockCount(RoundedEnd(s, end, n) - s, n), n)
  }

  /** A whole number k of blocks holds k * 60 * n whole seconds, so the
      intended count of its blocks is k. */
  lemma BlockSeconds(k: nat, n: nat)
    requires n > 0
    ensures ((k * BlockLength(n)) / Calendar.MicrosPerSecond) / (60 * n) == k
  {
    var v := 60 * n;
    assert BlockLength(n) == v * Calendar.MicrosPerSecond;
    assert k * BlockLength(n) == (k * v) * Calendar.MicrosPerSecond;
    DivUnique(k * BlockLength(n), Calendar.MicrosPerSecond, k * v, 0);
    DivUnique(k * v, v, k, 0);
  }

  /** Consecutive multiples of u from a multiple of u. */
  lemma BlocksOfMultiples(s: Calendar.Instant, count: nat, n: nat)
    requires n > 0 && s % BlockLength(n) == 0
    ensures var u := BlockLength(n);
      var bs := Blocks(s, count, n);
      && (count > 0 ==> bs[0] == s)
      && (forall i :: 0 <= i < count ==> bs[i] % u == 0)
      && (forall i :: 0 < i < count ==> bs[i] == bs[i - 1] + u)
      && (count > 0 ==> bs[count - 1] + u == s + count * u)
  {
    var u := BlockLength(n);
    var bs := Blocks(s, count, n);
    var q := s / u;
    forall i | 0 <= i < count ensures bs[i] % u == 0 {
      assert bs[i] == (q + i) * u;
      DivUnique(bs[i], u, q + i, 0);
    }
    forall i | 0 < i < count ensures bs[i] == bs[i - 1] + u {
      assert i * u == (i - 1) * u + u;
    }
    if count > 0 {
      assert count * u == (count - 1) * u + u;
    }
  }

  /** The expanded blocks tile the rounded outage: they start at the rounded
      start, each is a whole number of blocks and follows the previous one by
      one block, and the last one ends at the rounded end; an outage that
      rounds to nothing still gets its one block. */
  lemma ExpandHoursMeaning(start: Calendar.Instant, end: Option<Calendar.Instant>, n: nat)
    requires n > 0
    ensures var u := BlockLength(n);
      var s := RoundToBlock(start, n);
      var e := RoundedEnd(s, end, n);
      var bs := ExpandHours(start, end, n);
      && |bs| >= 1 && bs[0] == s && s <= e
      && (forall i :: 0 <= i < |bs| ==> bs[i] % u == 0)
      && (forall i :: 0 < i < |bs| ==> bs[i] == bs[i - 1] + u)
      && (e > s ==> bs[|bs| - 1] + u == e)
      && (e == s ==> |bs| == 1)
  {
    var u := BlockLength(n);
    var s := RoundToBlock(start, n);
    var e := RoundedEnd(s, end, n);
    RoundToBlockMeaning(start, n);
    if end.Some? {
      RoundToBlockMeaning(end.value, n);
    }
    var count := BlockCount(e - s, n);
    BlocksOfMultiples(s, count, n);
    if e > s {
      WholeBlocks(s, e, n);
    }
  }

  /** Between two distinct whole numbers of blocks the intended count is the
      number of blocks in between. */
  lemma WholeBlocks(s: Calendar.Instant, e: Calendar.Instant, n: nat)
    requires n > 0 && s < e && s % BlockLength(n) == 0 && e % BlockLength(n) == 0
    ensures BlockCount(e - s, n) * BlockLength(n) == e - s
  {
    var u := BlockLength(n);
    var k := e / u - s / u;
    assert e - s == k * u by {
      assert e == (e / u) * u && s == (s / u) * u;
      assert k * u == (e / u) * u - (s / u) * u;
    }
    assert k >= 1 by {
      if k <= 0 {
        MulLe(k, 0, u);
      }
    }
    BlockSeconds(k, n);
  }

  /** The written count never reaches a whole day of blocks, and agrees
      with the intended one for a duration under a day. */
  lemma BlockCountAsWrittenBound(delta: nat, n: nat)
    requires n > 0
    ensures (BlockCountAsWritten(delta, n) - 1) * BlockLength(n) < Calendar.MicrosPerDay
    ensures delta < Calendar.MicrosPerDay ==> BlockCountAsWritten(delta, n) == BlockCount(delta, n)
  {
    WrittenBlocksUnderDay(delta, n);
    if delta < Calendar.MicrosPerDay {
      assert delta % Calendar.MicrosPerDay == delta;
    }
  }

  /** The written count's blocks, less one, span less than a day. */
  lemma WrittenBlocksUnderDay(delta: nat, n: nat)
    requires n > 0
    ensures (BlockCountAsWritten(delta, n) - 1) * BlockLength(n) < Calendar.MicrosPerDay
  {
    var a := (delta % Calendar.MicrosPerDay) / Calendar.MicrosPerSecond;
    var v := 60 * n;
    var k := a / v;
    var u := BlockLength(n);
    assert k * v <= a;
    assert a < 86400;
    MulLe(k * v, a, Calendar.MicrosPerSecond);
    assert k * u == (k * v) * Calendar.MicrosPerSecond;
    var count := BlockCountAsWritten(delta, n);
    if k >= 1 {
      MulLe(count - 1, k, u);
    }
  }

  /** Under a day the written count agrees with the intended one, and it
      never reaches a whole day of blocks. */
  lemma ExpandHoursAsWrittenMeaning(start: Calendar.Instant, end: Option<Calendar.Instant>, n: nat)
    requires n > 0
    ensures var s := RoundToBlock(start, n);
      var bs := ExpandHoursAsWritten(start, end, n);
      && |bs| >= 1
      && (|bs| - 1) * BlockLength(n) < Calendar.MicrosPerDay
      && (RoundedEnd(s, end, n) - s < Calendar.MicrosPerDay ==> bs == ExpandHours(start, end, n))
  {
    var s := RoundToBlock(start, n);
    BlockCountAsWrittenBound(RoundedEnd(s, end, n) - s, n);
  }

  /** An outage of exactly one day at midnight becomes one five-minute block
      as written, where the day holds 288 of them. */
  lemma WholeDayOutageAsWritten(day: nat)
    ensures var t := CurtailmentReports.DayInstant(day);
      && |ExpandHoursAsWritten(t, Some(t + Calendar.MicrosPerDay), 5)| == 1
      && |ExpandHours(t, Some(t + Calendar.MicrosPerDay), 5)| == 288
  {
    var t := CurtailmentReports.DayInstant(day);
    var u := BlockLength(5);
    assert t == (day * 288) * u;
    assert t % u == 0;
    assert (t + Calendar.MicrosPerDay) == (day * 288 + 288) * u;
    assert (t + Calendar.MicrosPerDay) % u == 0;
    RoundToBlockMeaning(t, 5);
    RoundToBlockMeaning(t + Calendar.MicrosPerDay, 5);
  }

  // ---- input frames --------------------------------------------------------------------

  /** One row of the curtailments frame, restricted to the columns the
      calculation reads; nulls as None.  RESOURCE PMAX MW is selected but
      never read and is not modelled. */
  datatype Curtailment = Curtailment(
    resourceId: Option<string>, mrid: Option<int>, outageType: Option<string>, natureOfWork: Option<string>,
    start: Option<Calendar.Instant>, end: Option<Calendar.Instant>, mw: Option<real>)

  /** One row of the resource table: RESOURCE_ID, ENERGY_SOURCE, COD and
      NET_DEPENDABLE_CAPACITY. */
  datatype ResourceRow = ResourceRow(
    resourceId: Option<string>, energySource: Option<string>, cod: Option<Calendar.Instant>, ndc: Option<real>)

  /** A row of df0: a storage resource, its start-up date, net dependable
      capacity and first full month. */
  datatype Unit = Unit(resourceId: Option<string>, startup: Calendar.Instant, ndc: Option<real>, firstMonth: Calendar.Instant)

  /** `ENERGY_SOURCE == 'LESR'` and a start-up date present. */
  predicate IsStorage(r: ResourceRow)
  {
    r.energySource == Some("LESR") && r.cod.Some?
  }

  function UnitOf(r: ResourceRow): Unit
  {
    var t := r.cod.GetOr(0);
    Unit(r.resourceId, t, r.ndc, FirstMonth(t))
  }

  /** df0: the storage resources with a start-up date, each with its first
      full month. */
  function StorageUnits(rs: seq<ResourceRow>): seq<Unit>
  {
    Frames.Column(Frames.Filter(rs, IsStorage), UnitOf)
  }

  /** Exactly the LESR resources with a start-up date become units, each with
      the first full month of its start-up date. */
  lemma StorageUnitsMeaning(rs: seq<ResourceRow>)
    ensures forall u :: u in StorageUnits(rs) ==>
      exists r :: r in rs && r.energySource == Some("LESR") && r.cod.Some?
        && u == Unit(r.resourceId, r.cod.value, r.ndc, FirstMonth(r.cod.value))
    ensures forall r :: r in rs && r.energySource == Some("LESR") && r.cod.Some? ==>
      Unit(r.resourceId, r.cod.value, r.ndc, FirstMonth(r.cod.value)) in StorageUnits(rs)
  {
    var ks := Frames.Filter(rs, IsStorage);
    forall u | u in StorageUnits(rs)
      ensures exists r :: (r in rs && r.energySource == Some("LESR") && r.cod.Some?
        && u == Unit(r.resourceId, r.cod.value, r.ndc, FirstMonth(r.cod.value)))
    {
      var r :| r in ks && u == UnitOf(r);
      assert r in rs && IsStorage(r);
      assert u == Unit(r.resourceId, r.cod.value, r.ndc, FirstMonth(r.cod.value));
    }
    forall r | r in rs && r.energySource == Some("LESR") && r.cod.Some?
      ensures Unit(r.resourceId, r.cod.value, r.ndc, FirstMonth(r.cod.value)) in StorageUnits(rs)
    {
      assert r in ks;
      assert UnitOf(r) in StorageUnits(rs);
    }
  }

  // ---- the last report per (resource, MRID, type, nature of work, start) -------------------

  /** A report whose whole group key is present. */
  datatype Latest = Latest(
    resourceId: string, mrid: int, outageType: string, natureOfWork: string,
    start: Calendar.Instant, end: Option<Calendar.Instant>, mw: Option<real>)

  function LatestKey(l: Latest): Grouping.Key
  {
    [Grouping.Str(l.resourceId), Grouping.Num(l.mrid), Grouping.Str(l.outageType),
     Grouping.Str(l.natureOfWork), Grouping.Num(l.start)]
  }

  /** `groupby` drops rows with a null key. */
  predicate HasReportKey(c: Curtailment)
  {
    c.resourceId.Some? && c.mrid.Some? && c.outageType.Some? && c.natureOfWork.Some? && c.start.Some?
  }

  function ToLatest(c: Curtailment): Latest
    requires HasReportKey(c)
  {
    Latest(c.resourceId.value, c.mrid.value, c.outageType.value, c.natureOfWork.value, c.start.value, c.end, c.mw)
  }

  /** The curtailments entering the first `groupby`, keyed. */
  function KeyedCurtailments(cs: seq<Curtailment>): (ks: seq<(Grouping.Key, Latest)>)
    ensures forall j :: 0 <= j < |ks| ==> ks[j].0 == LatestKey(ks[j].1)
    ensures forall c :: c in cs && HasReportKey(c) ==> (LatestKey(ToLatest(c)), ToLatest(c)) in ks
  {
    if cs == [] then []
    else
      var init := KeyedCurtailments(cs[..|cs| - 1]);
      var c := cs[|cs| - 1];
      assert forall x :: x in cs <==> x in cs[..|cs| - 1] || x == c;
      if HasReportKey(c) then init + [(LatestKey(ToLatest(c)), ToLatest(c))] else init
  }

  /** The combining step of `.last()`: the key columns agree within a group,
      the others keep the newer value unless it is null. */
  function NewerReport(a: Latest, b: Latest): Latest
  {
    Latest(b.resourceId, b.mrid, b.outageType, b.natureOfWork, b.start, Frames.Newer(a.end, b.end), Frames.Newer(a.mw, b.mw))
  }

  /** `groupby(['RESOURCE ID', 'OUTAGE MRID', 'OUTAGE TYPE', 'NATURE OF WORK',
      'CURTAILMENT START DATE TIME']).last()`. */
  function LatestReports(cs: seq<Curtailment>): seq<Latest>
  {
    var g := Grouping.GroupBy(KeyedCurtailments(cs), NewerReport);
    seq(|g|, i requires 0 <= i < |g| => g[i].1)
  }

  /** At most one report per key remains, in ascending key order, and every
      curtailment with a complete key is represented by one. */
  lemma LatestReportsMeaning(cs: seq<Curtailment>)
    ensures var ls := LatestReports(cs);
      && (forall i, j :: 0 <= i < j < |ls| ==> Grouping.KeyLess(LatestKey(ls[i]), LatestKey(ls[j])))
      && (forall c :: c in cs && HasReportKey(c) ==>
            exists i :: 0 <= i < |ls| && LatestKey(ls[i]) == LatestKey(ToLatest(c)))
  {
    var rows := KeyedCurtailments(cs);
    var g := Grouping.GroupBy(rows, NewerReport);
    var ls := LatestReports(cs);
    forall i | 0 <= i < |g| ensures g[i].0 == LatestKey(ls[i]) {
      Grouping.GroupValueKeys(rows, NewerReport, LatestKey, i);
    }
    Grouping.GroupByEntries(rows, NewerReport);
    forall c | c in cs && HasReportKey(c)
      ensures exists i :: 0 <= i < |ls| && LatestKey(ls[i]) == LatestKey(ToLatest(c))
    {
      var j :| 0 <= j < |rows| && rows[j] == (LatestKey(ToLatest(c)), ToLatest(c));
      var i :| 0 <= i < |g| && g[i].0 == rows[j].0;
    }
  }

  // ---- last full month of data -----------------------------------------------------------

  /** `max()` of a column of instants, NaT skipped; None when all are NaT. */
  function MaxSome(xs: seq<Option<Calendar.Instant>>): Option<Calendar.Instant>
  {
    if xs == [] then None
    else
      var m := MaxSome(xs[..|xs| - 1]);
      match xs[|xs| - 1]
      case None => m
      case Some(x) => if m.Some? && m.value >= x then m else Some(x)
  }

  /** `min()` of a column of instants, NaT skipped; None when all are NaT. */
  function MinSome(xs: seq<Option<Calendar.Instant>>): Option<Calendar.Instant>
  {
    if xs == [] then None
    else
      var m := MinSome(xs[..|xs| - 1]);
      match xs[|xs| - 1]
      case None => m
      case Some(x) => if m.Some? && m.value <= x then m else Some(x)
  }

  /** The maximum is a present value no smaller than any present value, and
      there is none exactly when every value is null. */
  lemma {:induction false} MaxSomeMeaning(xs: seq<Option<Calendar.Instant>>)
    ensures MaxSome(xs).None? <==> forall i :: 0 <= i < |xs| ==> xs[i].None?
    ensures MaxSome(xs).Some? ==>
      (exists i :: 0 <= i < |xs| && xs[i] == MaxSome(xs))
      && forall i :: 0 <= i < |xs| && xs[i].Some? ==> xs[i].value <= MaxSome(xs).value
  {
    if xs != [] {
      var init := xs[..|xs| - 1];
      MaxSomeMeaning(init);
      assert forall i :: 0 <= i < |init| ==> xs[i] == init[i];
      if MaxSome(xs) == MaxSome(init) && MaxSome(init).Some? {
        var i :| 0 <= i < |init| && init[i] == MaxSome(init);
        assert xs[i] == MaxSome(xs);
      }
    }
  }

  /** The minimum is a present value no larger than any present value, and
      there is none exactly when every value is null. */
  lemma {:induction false} MinSomeMeaning(xs: seq<Option<Calendar.Instant>>)
    ensures MinSome(xs).None? <==> forall i :: 0 <= i < |xs| ==> xs[i].None?
    ensures MinSome(xs).Some? ==>
      (exists i :: 0 <= i < |xs| && xs[i] == MinSome(xs))
      && forall i :: 0 <= i < |xs| && xs[i].Some? ==> MinSome(xs).value <= xs[i].value
  {
    if xs != [] {
      var init := xs[..|xs| - 1];
      MinSomeMeaning(init);
      assert forall i :: 0 <= i < |init| ==> xs[i] == init[i];
      if MinSome(xs) == MinSome(init) && MinSome(init).Some? {
        var i :| 0 <= i < |init| && init[i] == MinSome(init);
        assert xs[i] == MinSome(xs);
      }
    }
  }

  function EndOf(l: Latest): Option<Calendar.Instant> { l.end }
  function StartOf(c: Curtailment): Option<Calendar.Instant> { c.start }

  /** 23:59:59 as a time of day. */
  const LastSecond: nat := 86_399_000_000

  /** `last_datetime` from the latest end t: when t is not on the last day of
      its month, `t + MonthEnd(-1)` moves it back to the last day of the
      previous month; either way `replace(hour=23, minute=59, second=59)` sets
      the time, keeping t's microseconds.  Instants before 1970 are outside
      the model, so t may not lie in January 1970 short of its last day. */
  function LastFullMonth(t: Calendar.Instant): Calendar.Instant
    requires Calendar.DayIndex(t) >= 30
  {
    var first := CurtailmentReports.MonthFirst(t);
    var day := if Calendar.DayOf(t) == Calendar.DaysInMonth(first.year, first.month) then Calendar.DayIndex(t)
               else Calendar.DayNumber(first) - 1;
    CurtailmentReports.DayInstant(day) + LastSecond + t % Calendar.MicrosPerSecond
  }

  /** The last full month ends on the last day of a month at 23:59:59 and t's
      microseconds: t's own day when that is its month's last, otherwise the
      last day of the month before t's. */
  lemma LastFullMonthMeaning(t: Calendar.Instant)
    requires Calendar.DayIndex(t) >= 30
    ensures var r := LastFullMonth(t);
      var first := CurtailmentReports.MonthFirst(t);
      var dim := Calendar.DaysInMonth(first.year, first.month);
      && Calendar.DayOf(r) == Calendar.DaysInMonth(Calendar.YearOf(r), Calendar.MonthOf(r))
      && Calendar.TimeOfDay(r) == LastSecond + t % Calendar.MicrosPerSecond
      && Calendar.DayIndex(r) <= Calendar.DayIndex(t)
      && (Calendar.DayOf(t) == dim ==> Calendar.DateOf(r) == Calendar.DateOf(t))
      && (Calendar.DayOf(t) != dim ==>
            Calendar.DayIndex(r) + 1 == Calendar.DayNumber(first)
            && Calendar.NextMonth(Calendar.YearOf(r), Calendar.MonthOf(r)) == (first.year, first.month))
  {
    var first := CurtailmentReports.MonthFirst(t);
    var dim := Calendar.DaysInMonth(first.year, first.month);
    var r := LastFullMonth(t);
    var tod := LastSecond + t % Calendar.MicrosPerSecond;
    assert tod < Calendar.MicrosPerDay;
    var day := if Calendar.DayOf(t) == dim then Calendar.DayIndex(t) else Calendar.DayNumber(first) - 1;
    assert r == day * Calendar.MicrosPerDay + tod;
    assert Calendar.DayIndex(r) == day && Calendar.TimeOfDay(r) == tod;
    if Calendar.DayOf(t) != dim {
      var py := if first.month == 1 then first.year - 1 else first.year;
      var pm := if first.month == 1 then 12 else first.month - 1;
      assert py >= Calendar.EpochYear;
      Calendar.NextMonthDayNumber(py, pm);
      assert Calendar.NextMonth(py, pm) == (first.year, first.month);
      var last := Calendar.Date(py, pm, Calendar.DaysInMonth(py, pm));
      assert Calendar.DayNumber(last) == day;
      Calendar.DateOfDayNumber(last);
    }
  }

  // ---- blocks ------------------------------------------------------------------------------

  function LatestId(l: Latest): Option<string> { Some(l.resourceId) }
  function UnitId(u: Unit): Option<string> { u.resourceId }

  /** `df1.merge(df0, on=['RESOURCE ID'], how='left')`. */
  function MergeUnits(ls: seq<Latest>, us: seq<Unit>): seq<(Latest, Option<Unit>)>
  {
    Frames.LeftJoin(ls, us, LatestId, UnitId)
  }

  /** One exploded row: a report at one of its block stamps, with its unit's
      first month and capacity (None when the resource has no unit). */
  datatype BlockRow = BlockRow(
    resourceId: string, mrid: int, outageType: string, natureOfWork: string,
    firstMonth: Option<Calendar.Instant>, ndc: Option<real>, mw: Option<real>, datetime: Calendar.Instant)

  /** The block stamps of a report: `expand_hours` as written (counting only
      the seconds within a day of the rounded duration) or as intended. */
  function ExpandWith(start: Calendar.Instant, end: Option<Calendar.Instant>, n: nat, asWritten: bool): seq<Calendar.Instant>
    requires n > 0
  {
    if asWritten then ExpandHoursAsWritten(start, end, n) else ExpandHours(start, end, n)
  }

  /** The rows a merged report explodes into, one per block of its outage. */
  function BlocksOf(m: (Latest, Option<Unit>), n: nat, asWritten: bool): (rows: seq<BlockRow>)
    requires n > 0
    ensures |rows| == |ExpandWith(m.0.start, m.0.end, n, asWritten)|
    ensures forall i :: 0 <= i < |rows| ==>
      && rows[i].datetime == ExpandWith(m.0.start, m.0.end, n, asWritten)[i]
      && rows[i].resourceId == m.0.resourceId && rows[i].mrid == m.0.mrid
      && rows[i].outageType == m.0.outageType && rows[i].natureOfWork == m.0.natureOfWork
      && rows[i].mw == m.0.mw
      && (m.1.None? ==> rows[i].firstMonth.None?)
      && (m.1.Some? ==> rows[i].firstMonth == Some(m.1.value.firstMonth) && rows[i].ndc == m.1.value.ndc)
  {
    var l := m.0;
    var bs := ExpandWith(l.start, l.end, n, asWritten);
    var firstMonth := if m.1.Some? then Some(m.1.value.firstMonth) else None;
    var ndc := if m.1.Some? then m.1.value.ndc else None;
    seq(|bs|, i requires 0 <= i < |bs| =>
      BlockRow(l.resourceId, l.mrid, l.outageType, l.natureOfWork, firstMonth, ndc, l.mw, bs[i]))
  }

  /** `df1.apply(expand_hours)` followed by `explode('CURTAILMENT DATETIME')`. */
  function Explode(ms: seq<(Latest, Option<Unit>)>, n: nat, asWritten: bool): seq<BlockRow>
    requires n > 0
  {
    if ms == [] then [] else Explode(ms[..|ms| - 1], n, asWritten) + BlocksOf(ms[|ms| - 1], n, asWritten)
  }

  /** The exploded rows are exactly the blocks of the merged reports. */
  lemma {:induction false} ExplodeMeaning(ms: seq<(Latest, Option<Unit>)>, n: nat, asWritten: bool)
    requires n > 0
    ensures forall r :: r in Explode(ms, n, asWritten) <==> exists m :: m in ms && r in BlocksOf(m, n, asWritten)
  {
    if ms != [] {
      var init := ms[..|ms| - 1];
      ExplodeMeaning(init, n, asWritten);
      forall r | (exists m :: m in ms && r in BlocksOf(m, n, asWritten)) ensures r in Explode(ms, n, asWritten) {
        var m :| m in ms && r in BlocksOf(m, n, asWritten);
        if m != ms[|ms| - 1] {
          var j :| 0 <= j < |ms| && ms[j] == m;
          assert m in init;
        }
      }
    }
  }

  /** A block whose whole group key, first month included, is present. */
  datatype Block = Block(
    resourceId: string, mrid: int, outageType: string, natureOfWork: string,
    firstMonth: Calendar.Instant, datetime: Calendar.Instant, ndc: Option<real>, mw: Option<real>)

  function BlockKey(b: Block): Grouping.Key
  {
    [Grouping.Str(b.resourceId), Grouping.Num(b.mrid), Grouping.Str(b.outageType),
     Grouping.Str(b.natureOfWork), Grouping.Num(b.firstMonth), Grouping.Num(b.datetime)]
  }

  function ToBlock(r: BlockRow): Block
    requires r.firstMonth.Some?
  {
    Block(r.resourceId, r.mrid, r.outageType, r.natureOfWork, r.firstMonth.value, r.datetime, r.ndc, r.mw)
  }

  /** The exploded rows entering the second `groupby`, keyed; a row without a
      first month (a resource with no unit) has a null key and is dropped. */
  function KeyedBlocks(rows: seq<BlockRow>): (ks: seq<(Grouping.Key, Block)>)
    ensures forall j :: 0 <= j < |ks| ==> ks[j].0 == BlockKey(ks[j].1)
    ensures forall r :: r in rows && r.firstMonth.Some? ==> (BlockKey(ToBlock(r)), ToBlock(r)) in ks
    ensures forall j :: 0 <= j < |ks| ==> exists r :: r in rows && r.firstMonth.Some? && ks[j].1 == ToBlock(r)
  {
    if rows == [] then []
    else
      var init := KeyedBlocks(rows[..|rows| - 1]);
      var r := rows[|rows| - 1];
      assert forall x :: x in rows <==> x in rows[..|rows| - 1] || x == r;
      if r.firstMonth.Some? then init + [(BlockKey(ToBlock(r)), ToBlock(r))] else init
  }

  /** The combining step of `.last()` on blocks. */
  function NewerBlock(a: Block, b: Block): Block
  {
    Block(b.resourceId, b.mrid, b.outageType, b.natureOfWork, b.firstMonth, b.datetime,
          Frames.Newer(a.ndc, b.ndc), Frames.Newer(a.mw, b.mw))
  }

  /** `groupby(['RESOURCE ID', 'OUTAGE MRID', 'OUTAGE TYPE', 'NATURE OF WORK',
      'FIRST MONTH', 'CURTAILMENT DATETIME']).last()`. */
  function LatestBlocks(rows: seq<BlockRow>): seq<Block>
  {
    var g := Grouping.GroupBy(KeyedBlocks(rows), NewerBlock);
    seq(|g|, i requires 0 <= i < |g| => g[i].1)
  }

  /** Each remaining block carries its group's key. */
  lemma LatestBlockKeys(rows: seq<BlockRow>, i: nat)
    requires i < |LatestBlocks(rows)|
    ensures Grouping.GroupBy(KeyedBlocks(rows), NewerBlock)[i].0 == BlockKey(LatestBlocks(rows)[i])
  {
    Grouping.GroupValueKeys(KeyedBlocks(rows), NewerBlock, BlockKey, i);
  }

  /** At most one block per key remains, in ascending key order. */
  lemma LatestBlocksOrdered(rows: seq<BlockRow>)
    ensures var bs := LatestBlocks(rows);
      forall i, j :: 0 <= i < j < |bs| ==> Grouping.KeyLess(BlockKey(bs[i]), BlockKey(bs[j]))
  {
    forall i | 0 <= i < |LatestBlocks(rows)| {
      LatestBlockKeys(rows, i);
    }
  }

  /** Every exploded row of a resource with a unit is represented by a
      remaining block. */
  lemma LatestBlocksCover(rows: seq<BlockRow>, r: BlockRow)
    requires r in rows && r.firstMonth.Some?
    ensures exists i :: 0 <= i < |LatestBlocks(rows)| && BlockKey(LatestBlocks(rows)[i]) == BlockKey(ToBlock(r))
  {
    var ks := KeyedBlocks(rows);
    var g := Grouping.GroupBy(ks, NewerBlock);
    Grouping.GroupByEntries(ks, NewerBlock);
    var j :| 0 <= j < |ks| && ks[j] == (BlockKey(ToBlock(r)), ToBlock(r));
    var i :| 0 <= i < |g| && g[i].0 == ks[j].0;
    LatestBlockKeys(rows, i);
  }

  /** Every remaining block represents an exploded row of a resource with a
      unit. */
  lemma LatestBlocksFrom(rows: seq<BlockRow>, i: nat)
    requires i < |LatestBlocks(rows)|
    ensures exists r :: r in rows && r.firstMonth.Some? && BlockKey(ToBlock(r)) == BlockKey(LatestBlocks(rows)[i])
  {
    var ks := KeyedBlocks(rows);
    var g := Grouping.GroupBy(ks, NewerBlock);
    LatestBlockKeys(rows, i);
    Grouping.FoldKeyPresent(ks, g[i].0, NewerBlock);
    Grouping.LookupEntry(g, i);
    var j :| 0 <= j < |ks| && ks[j].0 == g[i].0;
    var r :| r in rows && r.firstMonth.Some? && ks[j].1 == ToBlock(r);
  }

  // ---- full months, forced outages ---------------------------------------------------------

  /** `datetime >= FIRST MONTH` and `datetime <= hi`. */
  predicate InWindow(b: Block, hi: Calendar.Instant)
  {
    b.firstMonth <= b.datetime <= hi
  }

  /** The blocks from each resource's first full month up to hi. */
  function Window(bs: seq<Block>, hi: Calendar.Instant): (ws: seq<Block>)
    ensures forall b :: b in ws <==> b in bs && b.firstMonth <= b.datetime <= hi
  {
    Frames.Filter(bs, b => InWindow(b, hi))
  }

  /** With the bound the code uses, the `__main__` global `last_date` (midnight
      of the run date), a block after it is dropped even when it lies before
      `last_datetime`, the end of the last full month of data. */
  lemma LastDateDropsBlocks(b: Block, lastDate: Calendar.Instant, lastDatetime: Calendar.Instant)
    requires b.firstMonth <= b.datetime && lastDate < b.datetime <= lastDatetime
    ensures Window([b], lastDate) == [] && Window([b], lastDatetime) == [b]
  {
    assert b !in Window([b], lastDate);
    assert b in Window([b], lastDatetime);
  }

  predicate IsForced(b: Block) { b.outageType == "FORCED" }
  predicate IsPlanned(b: Block) { b.outageType == "PLANNED" }

  /** `df1.loc[df1['OUTAGE TYPE'] == 'FORCED']`. */
  function ForcedBlocks(bs: seq<Block>): (fs: seq<Block>)
    ensures forall b :: b in fs <==> b in bs && b.outageType == "FORCED"
  {
    Frames.Filter(bs, IsForced)
  }

  /** df2, `df1.loc[df1['OUTAGE TYPE'] == 'PLANNED']`, taken from the frame
      already reduced to forced outages. */
  function PlannedBlocks(forced: seq<Block>): seq<Block>
  {
    Frames.Filter(forced, IsPlanned)
  }

  /** Planned blocks are selected from forced ones, so there are never any. */
  lemma PlannedNeverPresent(bs: seq<Block>)
    ensures PlannedBlocks(ForcedBlocks(bs)) == []
  {
    var fs := ForcedBlocks(bs);
    forall i | 0 <= i < |fs| ensures !IsPlanned(fs[i]) {
      assert fs[i] in fs;
    }
    Frames.FilterNone(fs, IsPlanned);
  }

  // ---- equivalent forced derated hours ---------------------------------------------------

  /** A nullable number as pandas holds it: NaN for null. */
  function CellFloat(x: Option<real>): Floats.Float
  {
    match x
    case None => Floats.NaN
    case Some(v) => Floats.Finite(v)
  }

  /** `fillna(value=v)`: NaN is replaced, the infinities stay. */
  function FillNaN(x: Floats.Float, v: real): (r: Floats.Float)
    ensures !r.NaN?
    ensures !x.NaN? ==> r == x
  {
    if x.NaN? then Floats.Finite(v) else x
  }

  /** `nminutes / 60 * MW / NDC`: a block's length in hours times the share
      of its capacity curtailed (NaN when either value is null). */
  function BlockDerate(n: nat, mw: Option<real>, ndc: Option<real>): Floats.Float
  {
    Floats.Div(Floats.Mul(Floats.Finite(n as real / 60.0), CellFloat(mw)), CellFloat(ndc))
  }

  /** EFDH of a block after the `fillna(0)` at the outer merge. */
  function Efdh(n: nat, mw: Option<real>, ndc: Option<real>): Floats.Float
  {
    FillNaN(BlockDerate(n, mw, ndc), 0.0)
  }

  /** EFDH is the block's hours scaled by MW over NDC; a block curtailing the
      whole capacity counts its full length (forced outage hours are folded
      into EFDH), and a block missing either value counts nothing. */
  lemma EfdhMeaning(n: nat, mw: Option<real>, ndc: Option<real>)
    ensures mw.Some? && ndc.Some? && ndc.value != 0.0 ==>
      Efdh(n, mw, ndc).Finite? && Efdh(n, mw, ndc).v * ndc.value == n as real / 60.0 * mw.value
    ensures mw.Some? && mw == ndc && mw.value != 0.0 ==> Efdh(n, mw, ndc) == Floats.Finite(n as real / 60.0)
    ensures mw.None? || ndc.None? ==> Efdh(n, mw, ndc) == Floats.Finite(0.0)
  {
    var hours := n as real / 60.0;
    if mw.Some? && ndc.Some? && ndc.value != 0.0 {
      var x := hours * mw.value;
      assert BlockDerate(n, mw, ndc) == Floats.Finite(x / ndc.value);
      assert x / ndc.value * ndc.value == x;
      if mw == ndc {
        assert x / ndc.value == hours;
      }
    }
  }

  /** `((t + MonthBegin(1)) - t).total_seconds() / 3600`. */
  function MonthHours(t: Calendar.Instant): real
  {
    NextMonthBeginMeaning(t);
    (NextMonthBegin(t) - t) as real / Calendar.MicrosPerHour as real
  }

  /** From the 1st of a month, its hours are 24 times its days. */
  lemma MonthHoursMeaning(t: Calendar.Instant)
    requires Calendar.DayOf(t) == 1
    ensures MonthHours(t) == (24 * Calendar.DaysInMonth(Calendar.YearOf(t), Calendar.MonthOf(t))) as real
  {
    var first := CurtailmentReports.MonthFirst(t);
    var dim := Calendar.DaysInMonth(first.year, first.month);
    NextMonthBeginMeaning(t);
    assert NextMonthBegin(t) - t == dim * Calendar.MicrosPerDay by {
      assert t == Calendar.DayIndex(t) * Calendar.MicrosPerDay + Calendar.TimeOfDay(t);
    }
    assert (dim * Calendar.MicrosPerDay) as real == (24 * dim) as real * Calendar.MicrosPerHour as real;
  }

  /** A month's first instant: `t.replace(day=1, hour=0, minute=0, second=0,
      microsecond=0)`. */
  lemma MonthOfBlock(t: Calendar.Instant)
    ensures var m := CurtailmentReports.StartOfMonth(t);
      && Calendar.DayOf(m) == 1 && Calendar.TimeOfDay(m) == 0
      && Calendar.YearOf(m) == Calendar.YearOf(t) && Calendar.MonthOf(m) == Calendar.MonthOf(t)
  {
    Calendar.DateOfDayNumber(CurtailmentReports.MonthFirst(t));
  }

  /** One row of the monthly table. */
  datatype Derate = Derate(
    resourceId: string, outageType: string, natureOfWork: string, month: Calendar.Instant,
    efdh: Floats.Float, monthHours: real, availableHours: Floats.Float, efor: Floats.Float)

  /** The group key (RESOURCE ID, OUTAGE TYPE, NATURE OF WORK, MONTH).  The
      code also groups by MONTH DURATION and AVAILABLE HOURS, which are
      functions of the resource and the month and split no group. */
  function DerateKey(d: Derate): Grouping.Key
  {
    [Grouping.Str(d.resourceId), Grouping.Str(d.outageType), Grouping.Str(d.natureOfWork), Grouping.Num(d.month)]
  }

  /** The planned blocks of a resource in a month. */
  function PlannedIn(planned: seq<Block>, id: string, month: Calendar.Instant): seq<Block>
  {
    Frames.Filter(planned, (b: Block) => b.resourceId == id && CurtailmentReports.StartOfMonth(b.datetime) == month)
  }

  /** EQUIVALENT PLANNED OUTAGE HOURS of a resource in a month: the group sum
      of df2 (NaN skipped) brought in by the outer merge, 0 when absent. */
  function PlannedHours(planned: seq<Block>, n: nat, id: string, month: Calendar.Instant): Floats.Float
  {
    FillNaN(Floats.SkipNaNSum(Frames.Column(PlannedIn(planned, id, month), (b: Block) => BlockDerate(n, b.mw, b.ndc))), 0.0)
  }

  /** A forced block's row before the monthly sum: its month, EFDH, month
      hours, available hours (month hours less planned hours) and EFOR (EFDH
      over available hours). */
  function DerateOf(b: Block, planned: seq<Block>, n: nat): Derate
  {
    var month := CurtailmentReports.StartOfMonth(b.datetime);
    var hours := MonthHours(month);
    var available := Floats.Sub(Floats.Finite(hours), PlannedHours(planned, n, b.resourceId, month));
    var efdh := Efdh(n, b.mw, b.ndc);
    Derate(b.resourceId, b.outageType, b.natureOfWork, month, efdh, hours, available, Floats.Div(efdh, available))
  }

  /** The combining step of `.sum()`: EFDH and EFOR add up, the key and the
      month's hours agree within a group. */
  function SumDerates(a: Derate, b: Derate): Derate
  {
    Derate(b.resourceId, b.outageType, b.natureOfWork, b.month, Floats.Add(a.efdh, b.efdh),
           b.monthHours, b.availableHours, Floats.Add(a.efor, b.efor))
  }

  /** A block's monthly group key: its resource, outage type, nature of work
      and month. */
  function MonthKey(b: Block): Grouping.Key
  {
    [Grouping.Str(b.resourceId), Grouping.Str(b.outageType), Grouping.Str(b.natureOfWork),
     Grouping.Num(CurtailmentReports.StartOfMonth(b.datetime))]
  }

  /** A block's row carries the block's monthly key. */
  lemma DerateKeyOf(b: Block, planned: seq<Block>, n: nat)
    ensures DerateKey(DerateOf(b, planned, n)) == MonthKey(b)
  {
  }

  /** Each forced block's row under its monthly key. */
  function KeyedDerates(forced: seq<Block>, planned: seq<Block>, n: nat): (ks: seq<(Grouping.Key, Derate)>)
    ensures |ks| == |forced|
    ensures forall j :: 0 <= j < |ks| ==> ks[j] == (MonthKey(forced[j]), DerateOf(forced[j], planned, n))
  {
    Frames.Column(forced, b => (MonthKey(b), DerateOf(b, planned, n)))
  }

  /** The keys of the keyed rows are their rows' own keys. */
  lemma KeyedDeratesKeys(forced: seq<Block>, planned: seq<Block>, n: nat)
    ensures var ks := KeyedDerates(forced, planned, n);
      forall j :: 0 <= j < |ks| ==> ks[j].0 == DerateKey(ks[j].1)
  {
    var ks := KeyedDerates(forced, planned, n);
    forall j | 0 <= j < |ks| ensures ks[j].0 == DerateKey(ks[j].1) {
      DerateKeyOf(forced[j], planned, n);
    }
  }

  /** `.sum()` over keyed rows: one summed row per key, ascending. */
  function GroupedDerates(ks: seq<(Grouping.Key, Derate)>): seq<Derate>
  {
    var g := Grouping.GroupBy(ks, SumDerates);
    seq(|g|, i requires 0 <= i < |g| => g[i].1)
  }

  /** The monthly table: `groupby([...]).sum()` of the forced blocks' rows. */
  function MonthlyDerates(forced: seq<Block>, planned: seq<Block>, n: nat): seq<Derate>
  {
    GroupedDerates(KeyedDerates(forced, planned, n))
  }

  /** A monthly row of a forced outage: the 1st of a month at midnight, the
      month's hours, and (no planned hours) all of them available. */
  predicate ForcedMonthRow(d: Derate)
  {
    && d.outageType == "FORCED"
    && Calendar.DayOf(d.month) == 1 && Calendar.TimeOfDay(d.month) == 0
    && d.monthHours == (24 * Calendar.DaysInMonth(Calendar.YearOf(d.month), Calendar.MonthOf(d.month))) as real
    && d.availableHours == Floats.Finite(d.monthHours)
  }

  /** Each forced block's row has the shape of a monthly row. */
  lemma DerateOfForced(b: Block, n: nat)
    requires b.outageType == "FORCED"
    ensures ForcedMonthRow(DerateOf(b, [], n))
  {
    var month := CurtailmentReports.StartOfMonth(b.datetime);
    MonthOfBlock(b.datetime);
    MonthHoursMeaning(month);
    assert PlannedIn([], b.resourceId, month) == [];
  }

  /** Reference sums of one group: the EFDH and the EFOR of the keyed rows
      with key k, added in input order starting from 0. */
  function KeySums(ks: seq<(Grouping.Key, Derate)>, k: Grouping.Key): (Floats.Float, Floats.Float)
  {
    if ks == [] then (Floats.Finite(0.0), Floats.Finite(0.0))
    else
      var prev := KeySums(ks[..|ks| - 1], k);
      var d := ks[|ks| - 1];
      if d.0 == k then (Floats.Add(prev.0, d.1.efdh), Floats.Add(prev.1, d.1.efor)) else prev
  }

  /** The fold `.sum()` performs on a group adds up exactly the EFDH and the
      EFOR of that group's rows; a key without rows sums to 0. */
  lemma {:induction false} GroupSums(ks: seq<(Grouping.Key, Derate)>, k: Grouping.Key)
    ensures var f := Grouping.FoldKey(ks, k, SumDerates);
      && (f.None? ==> KeySums(ks, k) == (Floats.Finite(0.0), Floats.Finite(0.0)))
      && (f.Some? ==> (f.value.efdh, f.value.efor) == KeySums(ks, k))
  {
    if ks != [] {
      GroupSums(ks[..|ks| - 1], k);
    }
  }

  /** Some monthly row has key k. */
  predicate HasRowKey(ds: seq<Derate>, k: Grouping.Key)
  {
    exists i :: 0 <= i < |ds| && DerateKey(ds[i]) == k
  }

  /** Some forced block has key k. */
  predicate HasBlockKey(forced: seq<Block>, k: Grouping.Key)
  {
    exists b :: b in forced && MonthKey(b) == k
  }

  /** Each group of the sum holds its key's summed EFDH and EFOR, and the
      groups ascend by their rows' keys. */
  lemma GroupedSums(ks: seq<(Grouping.Key, Derate)>)
    requires forall j :: 0 <= j < |ks| ==> ks[j].0 == DerateKey(ks[j].1)
    ensures var g := Grouping.GroupBy(ks, SumDerates);
      forall i :: 0 <= i < |g| ==> g[i].0 == DerateKey(g[i].1) && (g[i].1.efdh, g[i].1.efor) == KeySums(ks, g[i].0)
    ensures var ds := GroupedDerates(ks);
      && (forall i, j :: 0 <= i < j < |ds| ==> Grouping.KeyLess(DerateKey(ds[i]), DerateKey(ds[j])))
      && (forall i :: 0 <= i < |ds| ==> (ds[i].efdh, ds[i].efor) == KeySums(ks, DerateKey(ds[i])))
  {
    var g := Grouping.GroupBy(ks, SumDerates);
    Grouping.GroupByEntries(ks, SumDerates);
    forall i | 0 <= i < |g|
      ensures g[i].0 == DerateKey(g[i].1) && (g[i].1.efdh, g[i].1.efor) == KeySums(ks, g[i].0)
    {
      Grouping.GroupValueKeys(ks, SumDerates, DerateKey, i);
      GroupSums(ks, g[i].0);
    }
  }

  /** The summed rows' keys are exactly the keys of the keyed rows. */
  lemma GroupedRowKeys(ks: seq<(Grouping.Key, Derate)>, k: Grouping.Key)
    requires forall j :: 0 <= j < |ks| ==> ks[j].0 == DerateKey(ks[j].1)
    ensures HasRowKey(GroupedDerates(ks), k) <==> exists j :: 0 <= j < |ks| && ks[j].0 == k
  {
    var g := Grouping.GroupBy(ks, SumDerates);
    var ds := GroupedDerates(ks);
    Grouping.GroupKeys(ks, SumDerates, k);
    if HasRowKey(ds, k) {
      var i :| 0 <= i < |ds| && DerateKey(ds[i]) == k;
      Grouping.GroupValueKeys(ks, SumDerates, DerateKey, i);
      assert g[i].0 == k;
    }
    if exists i :: 0 <= i < |g| && g[i].0 == k {
      var i :| 0 <= i < |g| && g[i].0 == k;
      Grouping.GroupValueKeys(ks, SumDerates, DerateKey, i);
      assert DerateKey(ds[i]) == k;
    }
  }

  /** The keyed rows' keys are exactly the forced blocks' keys. */
  lemma KeyedBlockKeys(forced: seq<Block>, n: nat, k: Grouping.Key)
    ensures (exists j :: 0 <= j < |KeyedDerates(forced, [], n)| && KeyedDerates(forced, [], n)[j].0 == k)
            <==> HasBlockKey(forced, k)
  {
    var ks := KeyedDerates(forced, [], n);
    if exists j :: 0 <= j < |ks| && ks[j].0 == k {
      var j :| 0 <= j < |ks| && ks[j].0 == k;
      assert forced[j] in forced;
    }
    if HasBlockKey(forced, k) {
      var b :| b in forced && MonthKey(b) == k;
      var j :| 0 <= j < |forced| && forced[j] == b;
      assert ks[j].0 == k;
    }
  }

  /** The monthly rows' keys are exactly the keys of the forced blocks. */
  lemma MonthlyKeys(forced: seq<Block>, n: nat, k: Grouping.Key)
    ensures HasRowKey(MonthlyDerates(forced, [], n), k) <==> HasBlockKey(forced, k)
  {
    KeyedDeratesKeys(forced, [], n);
    GroupedRowKeys(KeyedDerates(forced, [], n), k);
    KeyedBlockKeys(forced, n, k);
  }

  /** Every monthly row is of a forced outage, on the 1st of a month, with the
      month's hours all available; there is one row per (resource, outage
      type, nature of work, month) of the forced blocks and no other, in
      ascending key order; and each row's EFDH and EFOR are the sums of its
      blocks' EFDH and of their EFDH-over-available-hours ratios. */
  lemma MonthlyDeratesMeaning(bs: seq<Block>, n: nat)
    ensures var forced := ForcedBlocks(bs);
      var ds := MonthlyDerates(forced, PlannedBlocks(forced), n);
      && (forall i :: 0 <= i < |ds| ==> ForcedMonthRow(ds[i]))
      && (forall i, j :: 0 <= i < j < |ds| ==> Grouping.KeyLess(DerateKey(ds[i]), DerateKey(ds[j])))
      && (forall i :: 0 <= i < |ds| ==> (ds[i].efdh, ds[i].efor) == KeySums(KeyedDerates(forced, [], n), DerateKey(ds[i])))
      && (forall k :: HasRowKey(ds, k) <==> HasBlockKey(forced, k))
  {
    var forced := ForcedBlocks(bs);
    PlannedNeverPresent(bs);
    var ks := KeyedDerates(forced, [], n);
    forall j | 0 <= j < |ks| ensures ForcedMonthRow(ks[j].1) {
      assert forced[j] in forced;
      DerateOfForced(forced[j], n);
    }
    Grouping.GroupValuesKeep(ks, SumDerates, ForcedMonthRow);
    KeyedDeratesKeys(forced, [], n);
    GroupedSums(ks);
    forall k ensures HasRowKey(MonthlyDerates(forced, [], n), k) <==> HasBlockKey(forced, k) {
      MonthlyKeys(forced, n, k);
    }
  }

  // ---- the months each unit is online ------------------------------------------------------

  /** `year * 12 + month - 1` of an instant. */
  function MonthIndexOf(t: Calendar.Instant): (x: nat)
    ensures x >= Calendar.MonthIndex(Calendar.EpochYear, 1)
  {
    Calendar.MonthIndex(Calendar.YearOf(t), Calendar.MonthOf(t))
  }

  /** `ts(int(x / 12), x % 12 + 1, 1)`: midnight on the 1st of the month with
      index x. */
  function MonthStartOfIndex(x: nat): Calendar.Instant
    requires x >= Calendar.MonthIndex(Calendar.EpochYear, 1)
  {
    var ym := Calendar.MonthOfIndex(x);
    CurtailmentReports.DayInstant(Calendar.DayNumber(Calendar.Date(ym.0, ym.1, 1)))
  }

  /** The instant for month index x is midnight on the 1st of that month. */
  lemma MonthStartOfIndexMeaning(x: nat)
    requires x >= Calendar.MonthIndex(Calendar.EpochYear, 1)
    ensures var t := MonthStartOfIndex(x);
      Calendar.DayOf(t) == 1 && Calendar.TimeOfDay(t) == 0 && MonthIndexOf(t) == x
  {
    var ym := Calendar.MonthOfIndex(x);
    var d := Calendar.Date(ym.0, ym.1, 1);
    Calendar.DateOfDayNumber(d);
    Calendar.MonthIndexRoundTrip(ym.0, ym.1, x);
  }

  /** f at lo, lo + 1, ..., hi - 1. */
  function Indexed<T>(lo: nat, hi: nat, f: nat -> T): seq<T>
    decreases hi
  {
    if hi <= lo then [] else Indexed(lo, hi - 1, f) + [f(hi - 1)]
  }

  lemma {:induction false} IndexedLength<T>(lo: nat, hi: nat, f: nat -> T)
    ensures |Indexed(lo, hi, f)| == if hi > lo then hi - lo else 0
    decreases hi
  {
    if hi > lo {
      IndexedLength(lo, hi - 1, f);
    }
  }

  lemma {:induction false} IndexedMeaning<T>(lo: nat, hi: nat, f: nat -> T)
    ensures |Indexed(lo, hi, f)| == if hi > lo then hi - lo else 0
    ensures forall k :: 0 <= k < |Indexed(lo, hi, f)| ==> Indexed(lo, hi, f)[k] == f(lo + k)
    decreases hi
  {
    if hi > lo {
      IndexedMeaning(lo, hi - 1, f);
    }
  }

  /** MonthStartOfIndex, 0 below January 1970 (never used there). */
  function MonthStart(x: nat): Calendar.Instant
  {
    if x < Calendar.MonthIndex(Calendar.EpochYear, 1) then 0 else MonthStartOfIndex(x)
  }

  /** `get_date_range`'s list for month indices lo up to, not including, hi. */
  function DateRange(lo: nat, hi: nat): seq<Calendar.Instant>
  {
    Indexed(lo, hi, MonthStart)
  }

  /** The range holds the instants for month indices lo to hi - 1, in order,
      each midnight on the 1st of its month; it is empty when hi <= lo. */
  lemma DateRangeMeaning(lo: nat, hi: nat)
    requires lo >= Calendar.MonthIndex(Calendar.EpochYear, 1)
    ensures |DateRange(lo, hi)| == if hi > lo then hi - lo else 0
    ensures forall k :: 0 <= k < |DateRange(lo, hi)| ==> DateRange(lo, hi)[k] == MonthStartOfIndex(lo + k)
  {
    IndexedMeaning(lo, hi, MonthStart);
  }

  /** `max(FIRST MONTH, min(start) + MonthBegin(1))`; Python's `max` keeps
      the first month when the minimum start is NaT (NaT compares false). */
  function FirstDatetime(firstMonth: Calendar.Instant, minStart: Option<Calendar.Instant>): (r: Calendar.Instant)
    ensures r >= firstMonth
    ensures minStart.None? ==> r == firstMonth
    ensures minStart.Some? ==> r >= NextMonthBegin(minStart.value)
    ensures r == firstMonth || (minStart.Some? && r == NextMonthBegin(minStart.value))
  {
    if minStart.Some? && NextMonthBegin(minStart.value) > firstMonth then NextMonthBegin(minStart.value)
    else firstMonth
  }

  /** A unit left by `df0.dropna()`: both its id and its capacity present. */
  predicate Complete(u: Unit)
  {
    u.resourceId.Some? && u.ndc.Some?
  }

  /** The month index of a unit's first counted month. */
  function FirstIndex(u: Unit, minStart: Option<Calendar.Instant>): nat
  {
    MonthIndexOf(FirstDatetime(u.firstMonth, minStart))
  }

  /** The exploded rows of one resource for month indices lo up to hi - 1:
      one per month, or a single row with a null month when there is none. */
  function MonthRows(id: string, lo: nat, hi: nat): seq<(string, Option<Calendar.Instant>)>
  {
    var ms := DateRange(lo, hi);
    if ms == [] then [(id, None)]
    else seq(|ms|, k requires 0 <= k < |ms| => (id, Some(ms[k])))
  }

  /** The rows carry the id; their months are exactly the instants for lo to
      hi - 1; the month is null exactly when that range is empty. */
  lemma MonthRowsMeaning(id: string, lo: nat, hi: nat)
    requires lo >= Calendar.MonthIndex(Calendar.EpochYear, 1)
    ensures var ums := MonthRows(id, lo, hi);
      && |ums| >= 1
      && (forall i :: 0 <= i < |ums| ==> ums[i].0 == id)
      && (forall i :: 0 <= i < |ums| ==> (ums[i].1.None? <==> hi <= lo))
      && (forall i :: 0 <= i < |ums| && ums[i].1.Some? ==> lo + i < hi && ums[i].1.value == MonthStartOfIndex(lo + i))
      && (forall x :: lo <= x < hi ==> (id, Some(MonthStartOfIndex(x))) in ums)
  {
    DateRangeMeaning(lo, hi);
    var ms := DateRange(lo, hi);
    var ums := MonthRows(id, lo, hi);
    forall x | lo <= x < hi ensures (id, Some(MonthStartOfIndex(x))) in ums {
      assert ums[x - lo] == (id, Some(ms[x - lo]));
    }
  }

  /** The month index behind a row's month. */
  lemma MonthRowsIndex(id: string, lo: nat, hi: nat, um: (string, Option<Calendar.Instant>)) returns (x: nat)
    requires lo >= Calendar.MonthIndex(Calendar.EpochYear, 1)
    requires um in MonthRows(id, lo, hi) && um.1.Some?
    ensures um.0 == id && lo <= x < hi && um.1.value == MonthStartOfIndex(x)
  {
    var ms := DateRange(lo, hi);
    IndexedLength(lo, hi, MonthStart);
    var ums := MonthRows(id, lo, hi);
    var i :| 0 <= i < |ums| && ums[i] == um;
    assert ms != [] by {
      assert ms == [] ==> ums == [(id, None)];
    }
    assert |ums| == |ms| && ums[i] == (id, Some(ms[i]));
    DateRangeAt(lo, hi, i);
    x := lo + i;
  }

  lemma DateRangeAt(lo: nat, hi: nat, i: nat)
    requires Calendar.MonthIndex(Calendar.EpochYear, 1) <= lo && lo + i < hi
    ensures |DateRange(lo, hi)| == hi - lo && DateRange(lo, hi)[i] == MonthStartOfIndex(lo + i)
  {
    DateRangeMeaning(lo, hi);
  }

  /** Every month in the rows is midnight on the 1st of a month with index
      from lo to hi - 1. */
  lemma MonthRowsMonths(id: string, lo: nat, hi: nat, um: (string, Option<Calendar.Instant>))
    requires lo >= Calendar.MonthIndex(Calendar.EpochYear, 1)
    requires um in MonthRows(id, lo, hi) && um.1.Some?
    ensures um.0 == id
    ensures Calendar.DayOf(um.1.value) == 1 && Calendar.TimeOfDay(um.1.value) == 0
    ensures lo <= MonthIndexOf(um.1.value) < hi
  {
    var x := MonthRowsIndex(id, lo, hi, um);
    MonthStartOfIndexMeaning(x);
  }

  /** Each unit's first counted month index, given the earliest start. */
  function FirstIndexes(minStart: Option<Calendar.Instant>): Unit -> nat
  {
    u => FirstIndex(u, minStart)
  }

  /** `df0.dropna()`, `apply(get_date_range)`, `explode('MONTH')`: each
      complete unit's rows for month indices lo(u) up to hi - 1. */
  function UnitMonths(us: seq<Unit>, lo: Unit -> nat, hi: nat): seq<(string, Option<Calendar.Instant>)>
  {
    if us == [] then []
    else
      var u := us[|us| - 1];
      UnitMonths(us[..|us| - 1], lo, hi) + (if Complete(u) then MonthRows(u.resourceId.value, lo(u), hi) else [])
  }

  /** The unit-month rows are exactly those of the complete units. */
  lemma {:induction false} UnitMonthsMeaning(us: seq<Unit>, lo: Unit -> nat, hi: nat)
    ensures forall um :: um in UnitMonths(us, lo, hi) <==>
      exists u :: u in us && Complete(u) && um in MonthRows(u.resourceId.value, lo(u), hi)
  {
    if us != [] {
      var init := us[..|us| - 1];
      UnitMonthsMeaning(init, lo, hi);
      forall um | (exists u :: u in us && Complete(u) && um in MonthRows(u.resourceId.value, lo(u), hi))
        ensures um in UnitMonths(us, lo, hi)
      {
        var u :| u in us && Complete(u) && um in MonthRows(u.resourceId.value, lo(u), hi);
        if u != us[|us| - 1] {
          var j :| 0 <= j < |us| && us[j] == u;
          assert u in init;
        }
      }
    }
  }

  /** A unit-month row names a complete unit and, when it has a month, the 1st
      of a month with index from the unit's lo to hi - 1. */
  lemma UnitMonthRow(us: seq<Unit>, lo: Unit -> nat, hi: nat, um: (string, Option<Calendar.Instant>)) returns (u: Unit)
    requires forall u :: lo(u) >= Calendar.MonthIndex(Calendar.EpochYear, 1)
    requires um in UnitMonths(us, lo, hi)
    ensures u in us && Complete(u) && u.resourceId == Some(um.0)
    ensures um.1.Some? ==> lo(u) <= MonthIndexOf(um.1.value) < hi
    ensures um.1.Some? ==> Calendar.DayOf(um.1.value) == 1 && Calendar.TimeOfDay(um.1.value) == 0
  {
    UnitMonthsMeaning(us, lo, hi);
    u :| u in us && Complete(u) && um in MonthRows(u.resourceId.value, lo(u), hi);
    MonthRowsMeaning(u.resourceId.value, lo(u), hi);
    if um.1.Some? {
      MonthRowsMonths(u.resourceId.value, lo(u), hi, um);
    }
  }

  /** A complete unit's row for a month of its range is among the unit-months. */
  lemma UnitMonthOf(us: seq<Unit>, lo: Unit -> nat, hi: nat, u: Unit, x: nat)
    requires forall u :: lo(u) >= Calendar.MonthIndex(Calendar.EpochYear, 1)
    requires u in us && Complete(u) && lo(u) <= x < hi
    ensures (u.resourceId.value, Some(MonthStartOfIndex(x))) in UnitMonths(us, lo, hi)
  {
    MonthRowsMeaning(u.resourceId.value, lo(u), hi);
    UnitMonthsMeaning(us, lo, hi);
  }

  // ---- the output table ---------------------------------------------------------------------

  /** One output row: a resource and month, the monthly derate row merged
      onto it (None when there is none) and its EFOR. */
  datatype OutageRate = OutageRate(
    resourceId: string, month: Option<Calendar.Instant>, derate: Option<Derate>, efor: Floats.Float)

  function UnitMonthKey(um: (string, Option<Calendar.Instant>)): (string, Option<Calendar.Instant>) { um }
  function DerateMonthKey(d: Derate): (string, Option<Calendar.Instant>) { (d.resourceId, Some(d.month)) }

  /** A merged row with `EFOR` after `fillna(value=0)`. */
  function RateRow(j: ((string, Option<Calendar.Instant>), Option<Derate>)): OutageRate
  {
    OutageRate(j.0.0, j.0.1, j.1, if j.1.None? then Floats.Finite(0.0) else FillNaN(j.1.value.efor, 0.0))
  }

  /** `df3[['RESOURCE ID', 'MONTH']].merge(df1, on=['RESOURCE ID', 'MONTH'],
      how='left')` and the EFOR fill. */
  function RateRows(ums: seq<(string, Option<Calendar.Instant>)>, ds: seq<Derate>): seq<OutageRate>
  {
    Frames.Column(Frames.LeftJoin(ums, ds, UnitMonthKey, DerateMonthKey), RateRow)
  }

  /** Each output row is a unit-month with either a monthly row of the same
      resource and month, whose EFOR it carries (NaN read as 0), or no such
      row at all and EFOR 0. */
  lemma RateRowsSound(ums: seq<(string, Option<Calendar.Instant>)>, ds: seq<Derate>, r: OutageRate)
    requires r in RateRows(ums, ds)
    ensures (r.resourceId, r.month) in ums && !r.efor.NaN?
    ensures r.derate.Some? ==>
      (r.derate.value in ds && r.month == Some(r.derate.value.month)
       && r.derate.value.resourceId == r.resourceId && r.efor == FillNaN(r.derate.value.efor, 0.0))
    ensures r.derate.None? ==>
      (r.efor == Floats.Finite(0.0) && forall d :: d in ds ==> (d.resourceId, Some(d.month)) != (r.resourceId, r.month))
  {
    var js := Frames.LeftJoin(ums, ds, UnitMonthKey, DerateMonthKey);
    var j :| j in js && r == RateRow(j);
    Frames.LeftJoinRow(ums, ds, UnitMonthKey, DerateMonthKey, j);
    assert r.resourceId == j.0.0 && r.month == j.0.1 && r.derate == j.1;
    assert (r.resourceId, r.month) == j.0;
  }

  /** A unit-month with matching monthly rows appears once with each. */
  lemma RateRowsMatched(ums: seq<(string, Option<Calendar.Instant>)>, ds: seq<Derate>, um: (string, Option<Calendar.Instant>), d: Derate)
    requires um in ums && d in ds && um == (d.resourceId, Some(d.month))
    ensures OutageRate(um.0, um.1, Some(d), FillNaN(d.efor, 0.0)) in RateRows(ums, ds)
  {
    var js := Frames.LeftJoin(ums, ds, UnitMonthKey, DerateMonthKey);
    assert (um, Some(d)) in js;
    assert RateRow((um, Some(d))) in RateRows(ums, ds);
  }

  /** A unit-month without a monthly row appears alone with EFOR 0. */
  lemma RateRowsUnmatched(ums: seq<(string, Option<Calendar.Instant>)>, ds: seq<Derate>, um: (string, Option<Calendar.Instant>))
    requires um in ums && forall d :: d in ds ==> um != (d.resourceId, Some(d.month))
    ensures OutageRate(um.0, um.1, None, Floats.Finite(0.0)) in RateRows(ums, ds)
  {
    var js := Frames.LeftJoin(ums, ds, UnitMonthKey, DerateMonthKey);
    forall i | 0 <= i < |ds| ensures DerateMonthKey(ds[i]) != UnitMonthKey(um) {
      assert ds[i] in ds;
    }
    Frames.MatchesNone(ds, DerateMonthKey, UnitMonthKey(um));
    assert (um, None) in js;
    assert RateRow((um, None)) in RateRows(ums, ds);
  }

  // ---- calculate_unforced_outage_rates ---------------------------------------------------------

  /** The two readings of the calculation: as written, counting blocks from
      `delta.seconds` and bounding the window by the global `last_date`; or as
      intended, counting the whole rounded duration and bounding the window
      by `last_datetime`. */
  datatype Reading = AsWritten(lastDate: Calendar.Instant) | Intended

  /** `last_datetime`: the end of the last full month of data, from the
      latest end among the deduplicated reports; None when every end is NaT
      or the latest end lies in January 1970 short of its last day. */
  function LastDatetime(ls: seq<Latest>): Option<Calendar.Instant>
  {
    var m := MaxSome(Frames.Column(ls, EndOf));
    if m.Some? && Calendar.DayIndex(m.value) >= 30 then Some(LastFullMonth(m.value)) else None
  }

  /** There is a last full month when some report ends after January 30th
      1970 and none when no report has an end; it lies on a month's last day,
      no later in days than some report's end. */
  lemma LastDatetimeMeaning(ls: seq<Latest>)
    ensures (forall l :: l in ls ==> l.end.None?) ==> LastDatetime(ls).None?
    ensures (exists l :: l in ls && l.end.Some? && Calendar.DayIndex(l.end.value) >= 30) ==> LastDatetime(ls).Some?
    ensures LastDatetime(ls).Some? ==>
      var r := LastDatetime(ls).value;
      && Calendar.DayOf(r) == Calendar.DaysInMonth(Calendar.YearOf(r), Calendar.MonthOf(r))
      && Calendar.TimeOfDay(r) >= LastSecond
      && exists l :: l in ls && l.end.Some? && Calendar.DayIndex(r) <= Calendar.DayIndex(l.end.value)
  {
    var ends := Frames.Column(ls, EndOf);
    MaxSomeMeaning(ends);
    if exists l :: l in ls && l.end.Some? && Calendar.DayIndex(l.end.value) >= 30 {
      var l :| l in ls && l.end.Some? && Calendar.DayIndex(l.end.value) >= 30;
      var i :| 0 <= i < |ls| && ls[i] == l;
      assert ends[i] == l.end;
    }
    var m := MaxSome(ends);
    if (forall l :: l in ls ==> l.end.None?) {
      forall i | 0 <= i < |ends| ensures ends[i].None? {
        assert ls[i] in ls;
      }
    }
    if LastDatetime(ls).Some? {
      LastFullMonthMeaning(m.value);
      var i :| 0 <= i < |ends| && ends[i] == m;
      assert ls[i] in ls && ls[i].end == m;
    }
  }

  /** The window's upper bound: the global `last_date` as written,
      `last_datetime` as intended. */
  function WindowBound(reading: Reading, last: Calendar.Instant): Calendar.Instant
  {
    if reading.AsWritten? then reading.lastDate else last
  }

  /** As intended, the window keeps every block of a full month of data from
      the unit's first full month on, however late in that data it lies. */
  lemma IntendedWindowKeeps(bs: seq<Block>, last: Calendar.Instant, b: Block)
    requires b in bs && b.firstMonth <= b.datetime <= last
    ensures b in Window(bs, WindowBound(Intended, last))
  {
  }

  /** The monthly derate table: the deduplicated reports merged with the
      units, exploded into blocks, deduplicated again, cut to the window,
      reduced to forced outages and summed by resource, type, nature of work
      and month. */
  function Derates(ls: seq<Latest>, us: seq<Unit>, n: nat, reading: Reading, last: Calendar.Instant): seq<Derate>
    requires n > 0
  {
    var bs := LatestBlocks(Explode(MergeUnits(ls, us), n, reading.AsWritten?));
    var forced := ForcedBlocks(Window(bs, WindowBound(reading, last)));
    MonthlyDerates(forced, PlannedBlocks(forced), n)
  }

  /** A block's month starts no later than the block. */
  lemma DerateMonthAtMost(b: Block, planned: seq<Block>, n: nat)
    ensures DerateOf(b, planned, n).month <= b.datetime
  {
    var m := CurtailmentReports.StartOfMonth(b.datetime);
  }

  /** No monthly row starts after the last block it sums. */
  lemma MonthlyDeratesWithin(forced: seq<Block>, planned: seq<Block>, n: nat, hi: Calendar.Instant)
    requires forall j :: 0 <= j < |forced| ==> forced[j].datetime <= hi
    ensures forall d :: d in MonthlyDerates(forced, planned, n) ==> d.month <= hi
  {
    var ks := KeyedDerates(forced, planned, n);
    var p := (d: Derate) => d.month <= hi;
    forall j | 0 <= j < |ks| ensures p(ks[j].1) {
      DerateMonthAtMost(forced[j], planned, n);
    }
    Grouping.GroupValuesKeep(ks, SumDerates, p);
    var g := Grouping.GroupBy(ks, SumDerates);
    forall d | d in MonthlyDerates(forced, planned, n) ensures d.month <= hi {
      var i :| 0 <= i < |g| && g[i].1 == d;
    }
  }

  /** No monthly row starts after the window's upper bound. */
  lemma DeratesWithin(ls: seq<Latest>, us: seq<Unit>, n: nat, reading: Reading, last: Calendar.Instant)
    requires n > 0
    ensures forall d :: d in Derates(ls, us, n, reading, last) ==> d.month <= WindowBound(reading, last)
  {
    var hi := WindowBound(reading, last);
    var bs := LatestBlocks(Explode(MergeUnits(ls, us), n, reading.AsWritten?));
    var forced := ForcedBlocks(Window(bs, hi));
    forall j | 0 <= j < |forced| ensures forced[j].datetime <= hi {
      assert forced[j] in forced;
    }
    MonthlyDeratesWithin(forced, PlannedBlocks(forced), n, hi);
  }

  /** One past the month index of `last_datetime` (0 when there is none). */
  function HiIndex(last: Option<Calendar.Instant>): nat
  {
    if last.Some? then MonthIndexOf(last.value) + 1 else 0
  }

  /** The calculation from its intermediate frames: the units, the
      deduplicated reports, `last_datetime`, and the month-index range of each
      unit (from lo(u) up to hi - 1).  `apply` on a frame without rows cannot
      probe its function and returns a copy of the frame, which cannot be
      stored as a single column: the call fails with a ValueError when no
      report is left to expand (the left merge keeps every report) and when
      no storage unit is complete.  Otherwise a missing last full month is an
      error (`get_date_range` would take the year of NaT). */
  function RatesFrom(us: seq<Unit>, ls: seq<Latest>, last: Option<Calendar.Instant>, lo: Unit -> nat, hi: nat,
                     n: nat, reading: Reading): Result<seq<OutageRate>, string>
    requires n > 0
  {
    if ls == [] then Err("ValueError")
    else if |Frames.Filter(us, Complete)| == 0 then Err("ValueError")
    else if last.None? then Err("no last full month of curtailment data")
    else Ok(RateRows(UnitMonths(us, lo, hi), Derates(ls, us, n, reading, last.value)))
  }

  /** `calculate_unforced_outage_rates(curtailments, resources, nminutes)`
      under a reading. */
  function Rates(cs: seq<Curtailment>, rs: seq<ResourceRow>, n: nat, reading: Reading): Result<seq<OutageRate>, string>
    requires n > 0
  {
    RatesFrom(StorageUnits(rs), LatestReports(cs), LastDatetime(LatestReports(cs)),
              FirstIndexes(MinSome(Frames.Column(cs, StartOf))), HiIndex(LastDatetime(LatestReports(cs))), n, reading)
  }

  /** The calculation as the code is written; `lastDate` is the `__main__`
      global it reads. */
  function UnforcedOutageRatesAsWritten(cs: seq<Curtailment>, rs: seq<ResourceRow>, n: nat, lastDate: Calendar.Instant): Result<seq<OutageRate>, string>
    requires n > 0
  {
    Rates(cs, rs, n, AsWritten(lastDate))
  }

  /** The calculation as intended. */
  function UnforcedOutageRates(cs: seq<Curtailment>, rs: seq<ResourceRow>, n: nat): Result<seq<OutageRate>, string>
    requires n > 0
  {
    Rates(cs, rs, n, Intended)
  }

  /** The calculation succeeds exactly when some report is left after the
      deduplication, some storage unit is complete and there is a last full
      month of data: it fails when no deduplicated report has an end, and
      succeeds, given a complete unit, when one ends after January 30th 1970. */
  lemma RatesOutcome(cs: seq<Curtailment>, rs: seq<ResourceRow>, n: nat, reading: Reading)
    requires n > 0
    ensures Rates(cs, rs, n, reading).Ok? <==>
      LatestReports(cs) != [] && (exists u :: u in StorageUnits(rs) && Complete(u))
      && LastDatetime(LatestReports(cs)).Some?
    ensures (forall l :: l in LatestReports(cs) ==> l.end.None?) ==> Rates(cs, rs, n, reading).Err?
    ensures (exists u :: u in StorageUnits(rs) && Complete(u))
      && (exists l :: l in LatestReports(cs) && l.end.Some? && Calendar.DayIndex(l.end.value) >= 30)
      ==> Rates(cs, rs, n, reading).Ok?
  {
    var ls := LatestReports(cs);
    LastDatetimeMeaning(ls);
    RatesFromOutcome(StorageUnits(rs), ls, LastDatetime(ls), FirstIndexes(MinSome(Frames.Column(cs, StartOf))),
                     HiIndex(LastDatetime(ls)), n, reading);
  }

  /** RatesOutcome over the intermediate frames. */
  lemma RatesFromOutcome(us: seq<Unit>, ls: seq<Latest>, last: Option<Calendar.Instant>, lo: Unit -> nat, hi: nat,
                         n: nat, reading: Reading)
    requires n > 0
    ensures RatesFrom(us, ls, last, lo, hi, n, reading).Ok? <==>
      ls != [] && (exists u :: u in us && Complete(u)) && last.Some?
  {
    if forall u :: u in us ==> !Complete(u) {
      forall i | 0 <= i < |us| ensures !Complete(us[i]) {
        assert us[i] in us;
      }
      Frames.FilterNone(us, Complete);
    }
    if exists u :: u in us && Complete(u) {
      var u :| u in us && Complete(u);
      assert u in Frames.Filter(us, Complete);
    }
  }

  /** Every monthly derate row is of a forced outage, on the 1st of a month,
      with the month's hours all available. */
  lemma DeratesShape(ls: seq<Latest>, us: seq<Unit>, n: nat, reading: Reading, last: Calendar.Instant)
    requires n > 0
    ensures forall d :: d in Derates(ls, us, n, reading, last) ==> ForcedMonthRow(d)
  {
    var bs := LatestBlocks(Explode(MergeUnits(ls, us), n, reading.AsWritten?));
    MonthlyDeratesMeaning(Window(bs, WindowBound(reading, last)), n);
  }

  /** RatesRows over the intermediate frames; u is the row's unit. */
  lemma RatesFromRows(us: seq<Unit>, ls: seq<Latest>, last: Option<Calendar.Instant>, lo: Unit -> nat, hi: nat,
                      n: nat, reading: Reading, r: OutageRate) returns (u: Unit)
    requires n > 0 && forall u :: lo(u) >= Calendar.MonthIndex(Calendar.EpochYear, 1)
    requires RatesFrom(us, ls, last, lo, hi, n, reading).Ok? && r in RatesFrom(us, ls, last, lo, hi, n, reading).value
    ensures last.Some?
    ensures u in us && Complete(u) && u.resourceId == Some(r.resourceId)
    ensures r.month.Some? ==> lo(u) <= MonthIndexOf(r.month.value) < hi
    ensures !r.efor.NaN?
    ensures r.month.Some? ==> Calendar.DayOf(r.month.value) == 1 && Calendar.TimeOfDay(r.month.value) == 0
    ensures r.derate.Some? ==>
      (ForcedMonthRow(r.derate.value) && r.month == Some(r.derate.value.month)
       && r.derate.value.resourceId == r.resourceId && r.efor == FillNaN(r.derate.value.efor, 0.0))
    ensures r.derate.None? ==> r.efor == Floats.Finite(0.0)
  {
    var ums := UnitMonths(us, lo, hi);
    var ds := Derates(ls, us, n, reading, last.value);
    RateRowsSound(ums, ds, r);
    u := UnitMonthRow(us, lo, hi, (r.resourceId, r.month));
    DeratesShape(ls, us, n, reading, last.value);
  }

  /** Every output row has a numeric EFOR; a row with a month has it on the
      1st at midnight; a row with a monthly derate is of a forced outage of
      that resource and month, whose hours are the month's and all
      available, and carries its EFOR; a row without one has EFOR 0. */
  lemma RatesRows(cs: seq<Curtailment>, rs: seq<ResourceRow>, n: nat, reading: Reading, r: OutageRate)
    requires n > 0 && Rates(cs, rs, n, reading).Ok? && r in Rates(cs, rs, n, reading).value
    ensures !r.efor.NaN?
    ensures r.month.Some? ==> Calendar.DayOf(r.month.value) == 1 && Calendar.TimeOfDay(r.month.value) == 0
    ensures r.derate.Some? ==>
      (ForcedMonthRow(r.derate.value) && r.month == Some(r.derate.value.month)
       && r.derate.value.resourceId == r.resourceId && r.efor == FillNaN(r.derate.value.efor, 0.0))
    ensures r.derate.None? ==> r.efor == Floats.Finite(0.0)
  {
    var minStart := MinSome(Frames.Column(cs, StartOf));
    var last := LastDatetime(LatestReports(cs));
    var u := RatesFromRows(StorageUnits(rs), LatestReports(cs), last, FirstIndexes(minStart), HiIndex(last), n, reading, r);
  }

  /** Every output row belongs to a complete storage unit, and a row with a
      month has it from the unit's first counted month up to the last full
      month of data. */
  lemma RatesRowUnit(cs: seq<Curtailment>, rs: seq<ResourceRow>, n: nat, reading: Reading, r: OutageRate)
    requires n > 0 && Rates(cs, rs, n, reading).Ok? && r in Rates(cs, rs, n, reading).value
    ensures LastDatetime(LatestReports(cs)).Some?
    ensures exists u :: (u in StorageUnits(rs) && Complete(u) && u.resourceId == Some(r.resourceId)
      && (r.month.Some? ==>
            FirstIndex(u, MinSome(Frames.Column(cs, StartOf))) <= MonthIndexOf(r.month.value)
            <= MonthIndexOf(LastDatetime(LatestReports(cs)).value)))
  {
    var minStart := MinSome(Frames.Column(cs, StartOf));
    var last := LastDatetime(LatestReports(cs));
    var u := RatesFromRows(StorageUnits(rs), LatestReports(cs), last, FirstIndexes(minStart), HiIndex(last), n, reading, r);
    assert FirstIndexes(minStart)(u) == FirstIndex(u, minStart);
  }

  /** RatesCover over the intermediate frames. */
  lemma RatesFromCover(us: seq<Unit>, ls: seq<Latest>, last: Option<Calendar.Instant>, lo: Unit -> nat, hi: nat,
                       n: nat, reading: Reading, u: Unit, x: nat)
    requires n > 0 && forall u :: lo(u) >= Calendar.MonthIndex(Calendar.EpochYear, 1)
    requires RatesFrom(us, ls, last, lo, hi, n, reading).Ok?
    requires u in us && Complete(u) && lo(u) <= x < hi
    ensures exists r :: (r in RatesFrom(us, ls, last, lo, hi, n, reading).value
      && r.resourceId == u.resourceId.value && r.month == Some(MonthStartOfIndex(x)))
  {
    assert u in Frames.Filter(us, Complete);
    var ums := UnitMonths(us, lo, hi);
    var ds := Derates(ls, us, n, reading, last.value);
    var um := (u.resourceId.value, Some(MonthStartOfIndex(x)));
    UnitMonthOf(us, lo, hi, u, x);
    var r := RateRowOf(ums, ds, um);
    assert RatesFrom(us, ls, last, lo, hi, n, reading).value == RateRows(ums, ds);
    assert r in RatesFrom(us, ls, last, lo, hi, n, reading).value;
  }

  /** Every unit-month has an output row. */
  lemma RateRowOf(ums: seq<(string, Option<Calendar.Instant>)>, ds: seq<Derate>, um: (string, Option<Calendar.Instant>))
    returns (r: OutageRate)
    requires um in ums
    ensures r in RateRows(ums, ds) && r.resourceId == um.0 && r.month == um.1
  {
    if d :| d in ds && um == (d.resourceId, Some(d.month)) {
      RateRowsMatched(ums, ds, um, d);
      r := OutageRate(um.0, um.1, Some(d), FillNaN(d.efor, 0.0));
    } else {
      RateRowsUnmatched(ums, ds, um);
      r := OutageRate(um.0, um.1, None, Floats.Finite(0.0));
    }
  }

  /** Every month of every complete storage unit, from its first counted
      month to the last full month, has an output row. */
  lemma RatesCover(cs: seq<Curtailment>, rs: seq<ResourceRow>, n: nat, reading: Reading, u: Unit, x: nat)
    requires n > 0 && Rates(cs, rs, n, reading).Ok?
    requires u in StorageUnits(rs) && Complete(u) && LastDatetime(LatestReports(cs)).Some?
    requires FirstIndex(u, MinSome(Frames.Column(cs, StartOf))) <= x <= MonthIndexOf(LastDatetime(LatestReports(cs)).value)
    ensures exists r :: (r in Rates(cs, rs, n, reading).value
      && r.resourceId == u.resourceId.value && r.month == Some(MonthStartOfIndex(x)))
  {
    var minStart := MinSome(Frames.Column(cs, StartOf));
    var last := LastDatetime(LatestReports(cs));
    assert FirstIndexes(minStart)(u) == FirstIndex(u, minStart);
    RatesFromCover(StorageUnits(rs), LatestReports(cs), last, FirstIndexes(minStart), HiIndex(last), n, reading, u, x);
  }

  /** The function's steps in order, each frame reassigned as the code
      reassigns df0, df1, df2 and df3. */
  method CalculateUnforcedOutageRates(curtailments: seq<Curtailment>, resources: seq<ResourceRow>, nminutes: nat, reading: Reading)
    returns (r: Result<seq<OutageRate>, string>)
    requires nminutes > 0
    ensures r == Rates(curtailments, resources, nminutes, reading)
  {
    // storage units and their first full months
    var df0 := StorageUnits(resources);
    // the last report per key, and the last full month of data
    var reports := LatestReports(curtailments);
    var lastDatetime := LastDatetime(reports);
    var minStart := MinSome(Frames.Column(curtailments, StartOf));
    if reports == [] {
      // `apply(expand_hours)` on the empty merged frame
      return Err("ValueError");
    }
    if |Frames.Filter(df0, Complete)| == 0 {
      // `apply(get_date_range)` on the empty df3
      return Err("ValueError");
    }
    if lastDatetime.None? {
      return Err("no last full month of curtailment data");
    }
    // blocks, deduplicated, cut to the window, forced outages only
    var df1 := LatestBlocks(Explode(MergeUnits(reports, df0), nminutes, reading.AsWritten?));
    df1 := Window(df1, WindowBound(reading, lastDatetime.value));
    df1 := ForcedBlocks(df1);
    var df2 := PlannedBlocks(df1);
    // monthly EFDH and EFOR
    var monthly := MonthlyDerates(df1, df2, nminutes);
    // every month of every complete unit, with its EFOR
    var df3 := UnitMonths(df0, FirstIndexes(minStart), HiIndex(lastDatetime));
    r := Ok(RateRows(df3, monthly));
  }
}
