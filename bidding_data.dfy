/** CAISO bidding data by resource and month
    (scripts/bidding_data_availability.py; scripts/bidding_data.py repeats its
    reading and path helpers).

    A month's bids and self-schedules live in one CSV file whose name carries
    the month.  `evaluate_service_hours` counts, per resource and month, the
    hours in which the resource was scheduled or dispatched for service
    (some quantity positive) or, failing that, for charging (some quantity
    negative), and the MWh of each.  The file system is a map from paths to
    the records a file holds. */
module BiddingData {
  import opened Wrappers
  import Calendar
  import Text
  import Frames
  import Grouping

  datatype FilePath = FilePath(directory: string, name: string)

  /** A record as read from CSV; a missing cell is None. */
  datatype RawBidRow = RawBidRow(
    resourceName: Option<string>, unitType: Option<string>,
    tradeDate: Option<Calendar.Instant>, tradeHour: Option<nat>,
    rtmDispatchQuantity: Option<real>, rtmDispatchPrice: Option<real>,
    rtmBidQuantity: Option<real>, rtmBidPrice: Option<real>,
    damSelfSchedule: Option<real>, rucDispatchQuantity: Option<real>)

  /** A record of the frame `read_bidding_data` returns (resource name, trade
      date and trade hour present), with the MONTH column that
      `evaluate_service_hours` adds (None until then). */
  datatype BidRow = BidRow(
    resourceName: string, unitType: Option<string>,
    tradeDate: Calendar.Instant, tradeHour: nat,
    rtmDispatchQuantity: Option<real>, rtmDispatchPrice: Option<real>,
    rtmBidQuantity: Option<real>, rtmBidPrice: Option<real>,
    damSelfSchedule: Option<real>, rucDispatchQuantity: Option<real>,
    month: Option<Calendar.Instant>)

  // ---- file names --------------------------------------------------------

  const BiddingDataDirectory: string := @"M:\Users\RH2\src\caiso_curtailments\bidding_data"
  const FilePrefix: string := "Econ Bids and Self-Schedules "
  const FileSuffix: string := ".csv"

  /** `month.strftime('%Y-%m')`. */
  function YearMonthStamp(month: Calendar.Instant): string
  {
    Text.Digits(Calendar.YearOf(month) as nat, 4) + "-" + Text.Digits(Calendar.MonthOf(month) as nat, 2)
  }

  /** `get_bidding_data_path`. */
  function BiddingDataPath(month: Calendar.Instant): (p: FilePath)
    ensures p.directory == BiddingDataDirectory
    ensures |p.name| > |FilePrefix| + |FileSuffix| && p.name[..|FilePrefix|] == FilePrefix
    ensures p.name[|p.name| - |FileSuffix|..] == FileSuffix
  {
    FilePath(BiddingDataDirectory, FilePrefix + YearMonthStamp(month) + FileSuffix)
  }

  /** Reads the year and month back out of a bidding-data file name. */
  function ParseBiddingFileName(name: string): Option<(nat, nat)>
  {
    var n := |FilePrefix|;
    if |name| == n + 11 && name[..n] == FilePrefix && name[n + 7..] == FileSuffix
       && Text.AllDigits(name[n..n + 4]) && name[n + 4] == '-' && Text.AllDigits(name[n + 5..n + 7])
    then Some((Text.ParseNat(name[n..n + 4]), Text.ParseNat(name[n + 5..n + 7])))
    else None
  }

  /** Round trip: the file name of a month names that month's year and month. */
  lemma BiddingFileNameRoundTrip(month: Calendar.Instant)
    requires Calendar.YearOf(month) < 10000
    ensures ParseBiddingFileName(BiddingDataPath(month).name)
            == Some((Calendar.YearOf(month) as nat, Calendar.MonthOf(month) as nat))
  {
    StampRoundTrip(Calendar.YearOf(month) as nat, Calendar.MonthOf(month) as nat);
  }

  lemma StampRoundTrip(y: nat, m: nat)
    requires y < 10000 && m < 100
    ensures ParseBiddingFileName(FilePrefix + (Text.Digits(y, 4) + "-" + Text.Digits(m, 2)) + FileSuffix) == Some((y, m))
  {
    var ys, ms := Text.Digits(y, 4), Text.Digits(m, 2);
    var name := FilePrefix + (ys + "-" + ms) + FileSuffix;
    var n := |FilePrefix|;
    assert name[..n] == FilePrefix;
    assert name[n..n + 4] == ys && name[n + 5..n + 7] == ms;
    assert name[n + 4] == '-' && name[n + 7..] == FileSuffix;
    Text.ParseDigits(y, 4);
    Text.ParseDigits(m, 2);
  }

  /** Two months share a file exactly when they share year and month; in
      particular `read_month_bidding_data`'s `replace(day=1)` does not change
      the file. */
  lemma BiddingDataPathSameMonth(a: Calendar.Instant, b: Calendar.Instant)
    requires Calendar.YearOf(a) < 10000 && Calendar.YearOf(b) < 10000
    ensures BiddingDataPath(a) == BiddingDataPath(b) <==>
            Calendar.YearOf(a) == Calendar.YearOf(b) && Calendar.MonthOf(a) == Calendar.MonthOf(b)
    ensures BiddingDataPath(Calendar.WithDayOne(a)) == BiddingDataPath(a)
  {
    BiddingFileNameRoundTrip(a);
    BiddingFileNameRoundTrip(b);
  }

  // ---- reading -----------------------------------------------------------

  predicate IsComplete(x: RawBidRow)
  {
    x.resourceName.Some? && x.tradeDate.Some? && x.tradeHour.Some?
  }

  function FromRaw(x: RawBidRow): BidRow
    requires IsComplete(x)
  {
    BidRow(x.resourceName.value, x.unitType, x.tradeDate.value, x.tradeHour.value,
           x.rtmDispatchQuantity, x.rtmDispatchPrice, x.rtmBidQuantity, x.rtmBidPrice,
           x.damSelfSchedule, x.rucDispatchQuantity, None)
  }

  /** `dropna(how='any', subset=['RESOURCE_NAME','TRADE_DATE','TRADE_HOUR'])`. */
  function Completed(xs: seq<RawBidRow>): (rows: seq<BidRow>)
    ensures |rows| <= |xs|
    ensures forall i :: 0 <= i < |rows| ==> rows[i].month.None?
  {
    if xs == [] then []
    else
      var x := xs[|xs| - 1];
      Completed(xs[..|xs| - 1]) + (if IsComplete(x) then [FromRaw(x)] else [])
  }

  /** The frame read holds exactly the complete records, one row per record. */
  lemma {:induction false} CompletedMeaning(xs: seq<RawBidRow>)
    ensures |Completed(xs)| == |Frames.Filter(xs, IsComplete)|
    ensures forall r :: r in Completed(xs) <==> exists x :: x in xs && IsComplete(x) && r == FromRaw(x)
  {
    if xs != [] {
      var init, x := xs[..|xs| - 1], xs[|xs| - 1];
      CompletedMeaning(init);
      assert forall z :: z in xs <==> z in init || z == x;
    }
  }

  /** `read_bidding_data`: a file that is not there reads as an empty frame. */
  function ReadBiddingData(files: map<FilePath, seq<RawBidRow>>, path: FilePath): (rows: seq<BidRow>)
    ensures path !in files ==> rows == []
    ensures path in files ==> rows == Completed(files[path])
  {
    if path in files then Completed(files[path]) else []
  }

  // ---- evaluate_service_hours --------------------------------------------

  /** The in-place writes on the argument frame: spaces in names become
      underscores, MONTH is the trade date moved to the 1st, and the three
      quantities have their missing values filled with 0. */
  function Prepared(r: BidRow): (p: BidRow)
    ensures forall i :: 0 <= i < |p.resourceName| ==> p.resourceName[i] != ' '
    ensures p.month.Some? && Calendar.DayOf(p.month.value) == 1
    ensures Calendar.YearOf(p.month.value) == Calendar.YearOf(r.tradeDate)
    ensures Calendar.MonthOf(p.month.value) == Calendar.MonthOf(r.tradeDate)
    ensures p.rtmBidQuantity.Some? && p.damSelfSchedule.Some? && p.rucDispatchQuantity.Some?
    ensures p.tradeDate == r.tradeDate && p.tradeHour == r.tradeHour && p.unitType == r.unitType
  {
    r.(resourceName := Text.SpacesToUnderscores(r.resourceName),
       month := Some(Calendar.WithDayOne(r.tradeDate)),
       rtmBidQuantity := Some(Frames.FillNull(r.rtmBidQuantity, 0.0)),
       damSelfSchedule := Some(Frames.FillNull(r.damSelfSchedule, 0.0)),
       rucDispatchQuantity := Some(Frames.FillNull(r.rucDispatchQuantity, 0.0)))
  }

  /** Preparing a frame a second time changes nothing. */
  lemma PreparedIdempotent(r: BidRow)
    ensures Prepared(Prepared(r)) == Prepared(r)
  {
    var p := Prepared(r);
    Calendar.WithDayOneIdempotent(r.tradeDate);
    assert Text.SpacesToUnderscores(p.resourceName) == p.resourceName;
  }

  predicate HasMonth(rows: seq<BidRow>)
  {
    forall i :: 0 <= i < |rows| ==> rows[i].month.Some?
  }

  function PreparedRows(rows: seq<BidRow>): (ps: seq<BidRow>)
    ensures |ps| == |rows| && HasMonth(ps)
    ensures forall i :: 0 <= i < |rows| ==> ps[i] == Prepared(rows[i])
  {
    if rows == [] then []
    else
      var init := PreparedRows(rows[..|rows| - 1]);
      assert forall i :: 0 <= i < |init| ==> (init + [Prepared(rows[|rows| - 1])])[i] == init[i];
      init + [Prepared(rows[|rows| - 1])]
  }

  /** The three quantities of a row, missing ones as 0. */
  datatype Quantities = Quantities(rtmBid: real, damSelfSchedule: real, ruc: real)

  function QuantitiesOf(r: BidRow): Quantities
  {
    Quantities(Frames.FillNull(r.rtmBidQuantity, 0.0), Frames.FillNull(r.damSelfSchedule, 0.0),
               Frames.FillNull(r.rucDispatchQuantity, 0.0))
  }

  /** The row filter: some quantity is non-zero. */
  predicate Scheduled(q: Quantities)
  {
    q.rtmBid != 0.0 || q.damSelfSchedule != 0.0 || q.ruc != 0.0
  }

  predicate AnyPositive(q: Quantities)
  {
    q.rtmBid > 0.0 || q.damSelfSchedule > 0.0 || q.ruc > 0.0
  }

  predicate AnyNegative(q: Quantities)
  {
    q.rtmBid < 0.0 || q.damSelfSchedule < 0.0 || q.ruc < 0.0
  }

  predicate IsOneOf(x: real, q: Quantities)
  {
    x == q.rtmBid || x == q.damSelfSchedule || x == q.ruc
  }

  /** SERVICE_HOURS of one row. */
  function ServiceFlag(q: Quantities): (s: nat)
    ensures s <= 1 && (s == 1 <==> AnyPositive(q))
  {
    if AnyPositive(q) then 1 else 0
  }

  /** CHARGING_HOURS of one row: hours go to service first, so a retained row
      counts as exactly one service hour or one charging hour. */
  function ChargingFlag(q: Quantities): (c: nat)
    ensures c <= 1 && (c == 1 <==> !AnyPositive(q) && AnyNegative(q))
    ensures Scheduled(q) ==> ServiceFlag(q) + c == 1
  {
    if ServiceFlag(q) == 0 && AnyNegative(q) then 1 else 0
  }

  function Max(a: real, b: real): real { if a >= b then a else b }
  function Min(a: real, b: real): real { if a <= b then a else b }

  /** Python's `max(r)` over the three quantities. */
  function MaxOf(q: Quantities): real { Max(Max(q.rtmBid, q.damSelfSchedule), q.ruc) }

  /** Python's `min(r)` over the three quantities. */
  function MinOf(q: Quantities): real { Min(Min(q.rtmBid, q.damSelfSchedule), q.ruc) }

  /** SERVICE_MWH of one row: the least non-negative bound of the three
      quantities; positive exactly in a service hour. */
  function ServiceMwh(q: Quantities): (m: real)
    ensures m >= 0.0 && m >= q.rtmBid && m >= q.damSelfSchedule && m >= q.ruc
    ensures m == 0.0 || IsOneOf(m, q)
    ensures m > 0.0 <==> ServiceFlag(q) == 1
  {
    Max(MaxOf(q), 0.0)
  }

  /** CHARGING_MWH of one row: 0 in a service hour, otherwise the greatest
      non-positive lower bound of the three quantities; negative exactly in a
      charging hour. */
  function ChargingMwh(q: Quantities): (m: real)
    ensures m <= 0.0
    ensures AnyPositive(q) ==> m == 0.0
    ensures !AnyPositive(q) ==> m <= q.rtmBid && m <= q.damSelfSchedule && m <= q.ruc
                                 && (m == 0.0 || IsOneOf(m, q))
    ensures m < 0.0 <==> ChargingFlag(q) == 1
  {
    if MaxOf(q) > 0.0 then 0.0 else Min(MinOf(q), 0.0)
  }

  /** An output row of `evaluate_service_hours`. */
  datatype ServiceHours = ServiceHours(resourceName: string, month: Calendar.Instant,
                                       serviceHours: nat, chargingHours: nat,
                                       serviceMwh: real, chargingMwh: real)

  function KeyOf(s: ServiceHours): Grouping.Key
  {
    [Grouping.Str(s.resourceName), Grouping.Num(s.month)]
  }

  /** A retained row's contribution, under its (RESOURCE_NAME, MONTH) key. */
  function HourEntry(r: BidRow): (e: (Grouping.Key, ServiceHours))
    requires r.month.Some?
    ensures e.0 == KeyOf(e.1)
    ensures e.1.serviceHours + e.1.chargingHours <= 1
    ensures e.1.serviceMwh >= 0.0 && e.1.chargingMwh <= 0.0
  {
    var q := QuantitiesOf(r);
    var s := ServiceHours(r.resourceName, r.month.value, ServiceFlag(q), ChargingFlag(q), ServiceMwh(q), ChargingMwh(q));
    (KeyOf(s), s)
  }

  function HourEntries(rows: seq<BidRow>): (es: seq<(Grouping.Key, ServiceHours)>)
    requires HasMonth(rows)
    ensures |es| == |rows|
    ensures forall i :: 0 <= i < |rows| ==> es[i] == HourEntry(rows[i])
  {
    if rows == [] then [] else HourEntries(rows[..|rows| - 1]) + [HourEntry(rows[|rows| - 1])]
  }

  /** `groupby(['RESOURCE_NAME','MONTH']).sum()` on the four value columns. */
  function AddHours(a: ServiceHours, b: ServiceHours): ServiceHours
  {
    ServiceHours(b.resourceName, b.month, a.serviceHours + b.serviceHours, a.chargingHours + b.chargingHours,
                 a.serviceMwh + b.serviceMwh, a.chargingMwh + b.chargingMwh)
  }

  predicate IsRetained(r: BidRow)
  {
    Scheduled(QuantitiesOf(r))
  }

  /** The prepared rows the filter keeps. */
  function Retained(rows: seq<BidRow>): (kept: seq<BidRow>)
    ensures HasMonth(kept)
    ensures forall r :: r in kept <==> r in PreparedRows(rows) && IsRetained(r)
  {
    var kept := Frames.Filter(PreparedRows(rows), IsRetained);
    assert forall i :: 0 <= i < |kept| ==> kept[i] in kept;
    kept
  }

  /** The group rows' values, in key order. */
  function Summaries(groups: seq<(Grouping.Key, ServiceHours)>): (out: seq<ServiceHours>)
    ensures |out| == |groups| && forall i :: 0 <= i < |groups| ==> out[i] == groups[i].1
  {
    if groups == [] then [] else Summaries(groups[..|groups| - 1]) + [groups[|groups| - 1].1]
  }

  /** `evaluate_service_hours`: one row per (resource, month) among the
      retained rows, in ascending key order, holding the column sums. */
  function ServiceHoursTable(rows: seq<BidRow>): seq<ServiceHours>
  {
    Summaries(Grouping.GroupBy(HourEntries(Retained(rows)), AddHours))
  }

  /** Well-formed per-row entries: keyed by their own resource and month,
      each one service hour or one charging hour. */
  predicate HourlyEntries(es: seq<(Grouping.Key, ServiceHours)>)
  {
    forall j :: 0 <= j < |es| ==>
      es[j].0 == KeyOf(es[j].1) && es[j].1.serviceHours + es[j].1.chargingHours == 1
      && es[j].1.serviceMwh >= 0.0 && es[j].1.chargingMwh <= 0.0
  }

  /** Summing the flags of a group's entries counts them. */
  lemma {:induction false} FoldHoursCount(es: seq<(Grouping.Key, ServiceHours)>, k: Grouping.Key)
    requires HourlyEntries(es)
    ensures var g := Grouping.FoldKey(es, k, AddHours);
            g.Some? ==> g.value.serviceHours + g.value.chargingHours == |Grouping.KeyRows(es, k)|
  {
    if es != [] {
      var init := es[..|es| - 1];
      FoldHoursCount(init, k);
      if Grouping.FoldKey(init, k, AddHours).None? && es[|es| - 1].0 == k {
        Grouping.FoldKeyPresent(init, k, AddHours);
        Frames.FilterNone(init, (e: (Grouping.Key, ServiceHours)) => e.0 == k);
        assert Grouping.KeyRows(init, k) == [];
      }
    }
  }

  /** The four value columns of a row. */
  function Totals(s: ServiceHours): (nat, nat, real, real)
  {
    (s.serviceHours, s.chargingHours, s.serviceMwh, s.chargingMwh)
  }

  /** Reference column sums of the entries with key k, added from 0 in input
      order. */
  function EntryTotals(es: seq<(Grouping.Key, ServiceHours)>, k: Grouping.Key): (nat, nat, real, real)
  {
    if es == [] then (0, 0, 0.0, 0.0)
    else
      var prev := EntryTotals(es[..|es| - 1], k);
      if es[|es| - 1].0 == k then AddTotals(prev, Totals(es[|es| - 1].1)) else prev
  }

  /** Column-wise sum of two rows of values. */
  function AddTotals(a: (nat, nat, real, real), b: (nat, nat, real, real)): (nat, nat, real, real)
  {
    (a.0 + b.0, a.1 + b.1, a.2 + b.2, a.3 + b.3)
  }

  /** The fold `.sum()` performs on a group adds up its entries' columns; a
      key without entries sums to 0. */
  lemma {:induction false} FoldHoursTotals(es: seq<(Grouping.Key, ServiceHours)>, k: Grouping.Key)
    ensures var g := Grouping.FoldKey(es, k, AddHours);
      && (g.None? ==> EntryTotals(es, k) == (0, 0, 0.0, 0.0))
      && (g.Some? ==> Totals(g.value) == EntryTotals(es, k))
  {
    if es != [] {
      FoldHoursTotals(es[..|es| - 1], k);
    }
  }

  /** What grouping promises of the output rows `out` of entries `es`: one
      row per key, in ascending key order, each holding the column sums of
      its key's entries, so counting them in service plus charging hours,
      with non-negative service MWh and non-positive charging MWh; and the
      keys are exactly the entries' keys. */
  predicate GroupedBy(out: seq<ServiceHours>, es: seq<(Grouping.Key, ServiceHours)>)
  {
    (forall i, j :: 0 <= i < j < |out| ==> Grouping.KeyLess(KeyOf(out[i]), KeyOf(out[j])))
    && (forall i :: 0 <= i < |out| ==>
          out[i].serviceHours + out[i].chargingHours == |Grouping.KeyRows(es, KeyOf(out[i]))|
          && out[i].serviceMwh >= 0.0 && out[i].chargingMwh <= 0.0
          && Totals(out[i]) == EntryTotals(es, KeyOf(out[i])))
    && OutputKeys(out) == Grouping.RowKeys(es)
  }

  function OutputKeys(out: seq<ServiceHours>): set<Grouping.Key>
  {
    set i | 0 <= i < |out| :: KeyOf(out[i])
  }

  /** Grouping well-formed entries keeps the promise. */
  lemma GroupedHours(es: seq<(Grouping.Key, ServiceHours)>)
    requires HourlyEntries(es)
    ensures GroupedBy(Summaries(Grouping.GroupBy(es, AddHours)), es)
  {
    GroupedSorted(es);
    GroupedCounts(es);
    GroupedCovers(es);
  }

  /** Every group row carries its own key. */
  lemma GroupKeys(es: seq<(Grouping.Key, ServiceHours)>)
    requires HourlyEntries(es)
    ensures var groups := Grouping.GroupBy(es, AddHours);
            forall i :: 0 <= i < |groups| ==> groups[i].0 == KeyOf(groups[i].1)
  {
    var groups := Grouping.GroupBy(es, AddHours);
    forall i | 0 <= i < |groups| ensures groups[i].0 == KeyOf(groups[i].1) {
      Grouping.GroupValueKeys(es, AddHours, KeyOf, i);
    }
  }

  lemma GroupedCounts(es: seq<(Grouping.Key, ServiceHours)>)
    requires HourlyEntries(es)
    ensures var out := Summaries(Grouping.GroupBy(es, AddHours));
            forall i :: 0 <= i < |out| ==>
              out[i].serviceHours + out[i].chargingHours == |Grouping.KeyRows(es, KeyOf(out[i]))|
              && out[i].serviceMwh >= 0.0 && out[i].chargingMwh <= 0.0
              && Totals(out[i]) == EntryTotals(es, KeyOf(out[i]))
  {
    var groups := Grouping.GroupBy(es, AddHours);
    GroupKeys(es);
    Grouping.GroupValuesKeep(es, AddHours, (s: ServiceHours) => s.serviceMwh >= 0.0 && s.chargingMwh <= 0.0);
    forall i | 0 <= i < |groups|
      ensures groups[i].1.serviceHours + groups[i].1.chargingHours == |Grouping.KeyRows(es, groups[i].0)|
      ensures Totals(groups[i].1) == EntryTotals(es, groups[i].0)
    {
      Grouping.LookupEntry(groups, i);
      FoldHoursCount(es, groups[i].0);
      FoldHoursTotals(es, groups[i].0);
    }
  }

  lemma GroupedSorted(es: seq<(Grouping.Key, ServiceHours)>)
    requires HourlyEntries(es)
    ensures var out := Summaries(Grouping.GroupBy(es, AddHours));
            forall i, j :: 0 <= i < j < |out| ==> Grouping.KeyLess(KeyOf(out[i]), KeyOf(out[j]))
  {
    GroupKeys(es);
  }

  lemma GroupedCovers(es: seq<(Grouping.Key, ServiceHours)>)
    requires HourlyEntries(es)
    ensures OutputKeys(Summaries(Grouping.GroupBy(es, AddHours))) == Grouping.RowKeys(es)
  {
    var out := Summaries(Grouping.GroupBy(es, AddHours));
    forall k | k in Grouping.RowKeys(es) ensures k in OutputKeys(out) {
      var j :| 0 <= j < |es| && es[j].0 == k;
      var i := GroupOfEntry(es, j);
    }
    forall k | k in OutputKeys(out) ensures k in Grouping.RowKeys(es) {
      var i :| 0 <= i < |out| && KeyOf(out[i]) == k;
      EntryOfGroup(es, i);
    }
  }

  /** The output row that an entry's key lands in. */
  lemma GroupOfEntry(es: seq<(Grouping.Key, ServiceHours)>, j: nat) returns (i: nat)
    requires HourlyEntries(es) && j < |es|
    ensures var out := Summaries(Grouping.GroupBy(es, AddHours));
            i < |out| && KeyOf(out[i]) == es[j].0
  {
    var groups := Grouping.GroupBy(es, AddHours);
    var k := es[j].0;
    Grouping.FoldKeyPresent(es, k, AddHours);
    Grouping.LookupFound(groups, k);
    i :| 0 <= i < |groups| && groups[i] == (k, Grouping.Lookup(groups, k).value);
    Grouping.GroupValueKeys(es, AddHours, KeyOf, i);
  }

  /** Some entry carries each output row's key. */
  lemma EntryOfGroup(es: seq<(Grouping.Key, ServiceHours)>, i: nat)
    requires HourlyEntries(es) && i < |Summaries(Grouping.GroupBy(es, AddHours))|
    ensures exists j :: 0 <= j < |es| && es[j].0 == KeyOf(Summaries(Grouping.GroupBy(es, AddHours))[i])
  {
    var groups := Grouping.GroupBy(es, AddHours);
    Grouping.LookupEntry(groups, i);
    Grouping.FoldKeyPresent(es, groups[i].0, AddHours);
    Grouping.GroupValueKeys(es, AddHours, KeyOf, i);
  }

  /** Each retained row becomes a well-formed entry. */
  lemma RetainedEntries(rows: seq<BidRow>)
    ensures HourlyEntries(HourEntries(Retained(rows)))
  {
    var kept := Retained(rows);
    forall j | 0 <= j < |kept| ensures IsRetained(kept[j]) {
      assert kept[j] in kept;
    }
  }

  /** A row's (RESOURCE_NAME, MONTH) key. */
  function RowKey(r: BidRow): Grouping.Key
    requires r.month.Some?
  {
    [Grouping.Str(r.resourceName), Grouping.Num(r.month.value)]
  }

  /** Reference values of one (resource, month) group of rows: the number
      of its rows with some positive quantity, the number of its other rows,
      the sum over the first of their largest quantity, and the sum over the
      others of their smallest quantity where it is negative. */
  function GroupTotals(rows: seq<BidRow>, k: Grouping.Key): (nat, nat, real, real)
    requires HasMonth(rows)
  {
    if rows == [] then (0, 0, 0.0, 0.0)
    else
      var prev := GroupTotals(rows[..|rows| - 1], k);
      if RowKey(rows[|rows| - 1]) != k then prev else AddTotals(prev, Contribution(QuantitiesOf(rows[|rows| - 1])))
  }

  /** What one row adds to its group: a service hour and its largest
      quantity when some quantity is positive, and otherwise a charging hour
      and its smallest quantity where that is negative. */
  function Contribution(q: Quantities): (nat, nat, real, real)
  {
    if AnyPositive(q) then (1, 0, MaxOf(q), 0.0) else (0, 1, 0.0, Min(MinOf(q), 0.0))
  }

  /** Over retained rows, the entries' column sums are the group's
      reference values. */
  lemma {:induction false} RowTotals(rows: seq<BidRow>, k: Grouping.Key)
    requires HasMonth(rows) && forall i :: 0 <= i < |rows| ==> IsRetained(rows[i])
    ensures EntryTotals(HourEntries(rows), k) == GroupTotals(rows, k)
  {
    if rows != [] {
      var init := rows[..|rows| - 1];
      assert forall i :: 0 <= i < |init| ==> init[i] == rows[i];
      RowTotals(init, k);
      assert rows == init + [rows[|rows| - 1]];
      RowTotalsStep(init, rows[|rows| - 1], k);
    }
  }

  /** One more retained row keeps the entries' sums equal to the reference. */
  lemma RowTotalsStep(init: seq<BidRow>, last: BidRow, k: Grouping.Key)
    requires HasMonth(init) && last.month.Some? && IsRetained(last)
    requires EntryTotals(HourEntries(init), k) == GroupTotals(init, k)
    ensures HasMonth(init + [last])
    ensures EntryTotals(HourEntries(init + [last]), k) == GroupTotals(init + [last], k)
  {
    var e := HourEntry(last);
    assert (init + [last])[..|init|] == init;
    assert HourEntries(init + [last]) == HourEntries(init) + [e];
    RowContribution(last);
    EntryTotalsSnoc(HourEntries(init), e, k);
    GroupTotalsSnoc(init, last, k);
  }

  /** Appending a row adds it to its own group's values only. */
  lemma GroupTotalsSnoc(rows: seq<BidRow>, r: BidRow, k: Grouping.Key)
    requires HasMonth(rows) && r.month.Some?
    ensures HasMonth(rows + [r])
    ensures GroupTotals(rows + [r], k) ==
      if RowKey(r) != k then GroupTotals(rows, k) else AddTotals(GroupTotals(rows, k), Contribution(QuantitiesOf(r)))
  {
    assert (rows + [r])[..|rows|] == rows;
  }

  /** Appending an entry adds its columns to its own key's sums only. */
  lemma EntryTotalsSnoc(es: seq<(Grouping.Key, ServiceHours)>, e: (Grouping.Key, ServiceHours), k: Grouping.Key)
    ensures EntryTotals(es + [e], k) == if e.0 == k then AddTotals(EntryTotals(es, k), Totals(e.1)) else EntryTotals(es, k)
  {
    assert (es + [e])[..|es|] == es;
  }

  /** A retained row adds one service hour and its largest quantity when
      some quantity is positive, and otherwise one charging hour and its
      negative smallest quantity. */
  lemma RowContribution(r: BidRow)
    requires r.month.Some? && IsRetained(r)
    ensures Totals(HourEntry(r).1) == Contribution(QuantitiesOf(r))
    ensures HourEntry(r).0 == RowKey(r)
  {
    var q := QuantitiesOf(r);
    if !AnyPositive(q) {
      assert ChargingFlag(q) == 1;
    }
  }

  /** What `evaluate_service_hours` promises: one output row per (resource,
      month) among the retained rows, in ascending order of resource name and
      then month; each holds as many service plus charging hours as its group
      has retained rows, non-negative service MWh and non-positive charging
      MWh; every retained row's resource and month has its row; and each
      row's hours and MWh are its group's: service hours count the rows with
      a positive quantity, charging hours the others, service MWh sums the
      first ones' largest quantity and charging MWh the others' negative
      smallest quantity. */
  lemma ServiceHoursTableMeaning(rows: seq<BidRow>)
    ensures GroupedBy(ServiceHoursTable(rows), HourEntries(Retained(rows)))
    ensures var out := ServiceHoursTable(rows);
      forall i :: 0 <= i < |out| ==> Totals(out[i]) == GroupTotals(Retained(rows), KeyOf(out[i]))
  {
    RetainedEntries(rows);
    GroupedHours(HourEntries(Retained(rows)));
    var kept := Retained(rows);
    forall j | 0 <= j < |kept| ensures IsRetained(kept[j]) {
      assert kept[j] in kept;
    }
    var out := ServiceHoursTable(rows);
    forall i | 0 <= i < |out| ensures Totals(out[i]) == GroupTotals(kept, KeyOf(out[i])) {
      RowTotals(kept, KeyOf(out[i]));
    }
  }

  /** The frame `evaluate_service_hours` receives: its column writes land on
      the caller's frame before the filter makes a new one. */
  class BiddingFrame {
    var rows: seq<BidRow>

    constructor(rows: seq<BidRow>)
      ensures this.rows == rows
    {
      this.rows := rows;
    }

    /** `evaluate_service_hours`. */
    method EvaluateServiceHours() returns (r: seq<ServiceHours>)
      modifies this
      ensures rows == PreparedRows(old(rows))
      ensures r == ServiceHoursTable(old(rows))
    {
      var original := rows;
      rows := PreparedRows(rows);
      var kept := Frames.Filter(rows, IsRetained);
      assert kept == Retained(original);
      r := Summaries(Grouping.GroupBy(HourEntries(kept), AddHours));
    }
  }

  // ---- evaluate_multiple_months_service_hours ----------------------------

  function MonthServiceHours(files: map<FilePath, seq<RawBidRow>>, month: Calendar.Instant): seq<ServiceHours>
  {
    ServiceHoursTable(ReadBiddingData(files, BiddingDataPath(month)))
  }

  /** The monthly tables, concatenated in the order of the months. */
  function AllMonthsServiceHours(files: map<FilePath, seq<RawBidRow>>, months: seq<Calendar.Instant>): seq<ServiceHours>
  {
    Frames.Concat(Frames.Column(months, (m: Calendar.Instant) => MonthServiceHours(files, m)))
  }

  /** One more month appends that month's table. */
  lemma AllMonthsStep(files: map<FilePath, seq<RawBidRow>>, months: seq<Calendar.Instant>, i: nat)
    requires i < |months|
    ensures AllMonthsServiceHours(files, months[..i + 1])
            == AllMonthsServiceHours(files, months[..i]) + MonthServiceHours(files, months[i])
  {
    var f := (m: Calendar.Instant) => MonthServiceHours(files, m);
    assert months[..i + 1] == months[..i] + [months[i]];
    Frames.ColumnAppend(months[..i], [months[i]], f);
    var ts := Frames.Column(months[..i + 1], f);
    assert ts[..|ts| - 1] == Frames.Column(months[..i], f);
  }

  /** `read_bidding_data` and `evaluate_service_hours` for one month. */
  method EvaluateMonthServiceHours(files: map<FilePath, seq<RawBidRow>>, month: Calendar.Instant)
    returns (r: seq<ServiceHours>)
    ensures r == MonthServiceHours(files, month)
  {
    var frame := new BiddingFrame(ReadBiddingData(files, BiddingDataPath(month)));
    r := frame.EvaluateServiceHours();
  }

  /** `evaluate_multiple_months_service_hours`. */
  method EvaluateMultipleMonthsServiceHours(files: map<FilePath, seq<RawBidRow>>, months: seq<Calendar.Instant>)
    returns (r: seq<ServiceHours>)
    ensures r == AllMonthsServiceHours(files, months)
  {
    r := [];
    var i := 0;
    while i < |months|
      invariant i <= |months|
      invariant r == AllMonthsServiceHours(files, months[..i])
    {
      var monthly := EvaluateMonthServiceHours(files, months[i]);
      AllMonthsStep(files, months, i);
      r := r + monthly;
      i := i + 1;
    }
    assert months[..|months|] == months;
  }

  /** Evaluating two lists of months one after the other gives the two
      results one after the other. */
  lemma AllMonthsAppend(files: map<FilePath, seq<RawBidRow>>, m1: seq<Calendar.Instant>, m2: seq<Calendar.Instant>)
    ensures AllMonthsServiceHours(files, m1 + m2) == AllMonthsServiceHours(files, m1) + AllMonthsServiceHours(files, m2)
  {
    var f := (m: Calendar.Instant) => MonthServiceHours(files, m);
    Frames.ColumnAppend(m1, m2, f);
    Frames.ConcatAppend(Frames.Column(m1, f), Frames.Column(m2, f));
  }

  /** A row of the combined table is a row of some month's table, and every
      month's rows are there. */
  lemma AllMonthsMembership(files: map<FilePath, seq<RawBidRow>>, months: seq<Calendar.Instant>, s: ServiceHours)
    ensures s in AllMonthsServiceHours(files, months) <==>
            exists i :: 0 <= i < |months| && s in MonthServiceHours(files, months[i])
  {
    var ts := Frames.Column(months, (m: Calendar.Instant) => MonthServiceHours(files, m));
    Frames.ConcatMembership(ts, s);
  }
}
