/** Monthly real-time market (RTM) dispatch summaries
    (scripts/summarize_rtm_dispatch.py).

    Per resource and month the summary holds the total RTM dispatch and bid
    quantities and the average RTM dispatch and bid prices, where a missing
    quantity or price counts as 0 and the average divides by the number of
    the group's records.  The records come from the monthly bidding-data
    files of module BiddingData. */
module RtmDispatch {
  import opened Wrappers
  import Calendar
  import Frames
  import Grouping
  import BiddingData

  /** A record after the column selection, the MONTH column, the missing-value
      fill and RECORD_COUNT = 1, in the form the group sum adds up.  The
      UNIT_TYPE strings are summed as well, which concatenates them. */
  datatype Totals = Totals(resourceName: string, month: Calendar.Instant, unitType: string,
                           dispatchQuantity: real, dispatchPrice: real,
                           bidQuantity: real, bidPrice: real, recordCount: nat)

  /** An output row: RECORD_COUNT is gone and the price sums are averages. */
  datatype RtmSummary = RtmSummary(resourceName: string, month: Calendar.Instant, unitType: string,
                                   totalDispatchQuantity: real, averageDispatchPrice: real,
                                   totalBidQuantity: real, averageBidPrice: real)

  /** The four numeric columns. */
  datatype Field = DispatchQuantity | DispatchPrice | BidQuantity | BidPrice

  function FieldOf(t: Totals, f: Field): real
  {
    match f
    case DispatchQuantity => t.dispatchQuantity
    case DispatchPrice => t.dispatchPrice
    case BidQuantity => t.bidQuantity
    case BidPrice => t.bidPrice
  }

  function KeyOf(t: Totals): Grouping.Key
  {
    [Grouping.Str(t.resourceName), Grouping.Num(t.month)]
  }

  function SummaryKey(s: RtmSummary): Grouping.Key
  {
    [Grouping.Str(s.resourceName), Grouping.Num(s.month)]
  }

  /** One bidding-data record, prepared for the group sum. */
  function RecordOf(r: BiddingData.BidRow): (e: (Grouping.Key, Totals))
    ensures e.0 == KeyOf(e.1) && e.1.recordCount == 1
    ensures Calendar.DayOf(e.1.month) == 1 && Calendar.TimeOfDay(e.1.month) == Calendar.TimeOfDay(r.tradeDate)
    ensures Calendar.YearOf(e.1.month) == Calendar.YearOf(r.tradeDate)
    ensures Calendar.MonthOf(e.1.month) == Calendar.MonthOf(r.tradeDate)
    ensures r.rtmDispatchQuantity.None? ==> e.1.dispatchQuantity == 0.0
    ensures r.rtmDispatchPrice.None? ==> e.1.dispatchPrice == 0.0
    ensures r.rtmBidQuantity.None? ==> e.1.bidQuantity == 0.0
    ensures r.rtmBidPrice.None? ==> e.1.bidPrice == 0.0
  {
    var t := Totals(r.resourceName, Calendar.WithDayOne(r.tradeDate), Frames.FillNull(r.unitType, ""),
                    Frames.FillNull(r.rtmDispatchQuantity, 0.0), Frames.FillNull(r.rtmDispatchPrice, 0.0),
                    Frames.FillNull(r.rtmBidQuantity, 0.0), Frames.FillNull(r.rtmBidPrice, 0.0), 1);
    (KeyOf(t), t)
  }

  function Records(rows: seq<BiddingData.BidRow>): (es: seq<(Grouping.Key, Totals)>)
    ensures |es| == |rows|
    ensures forall i :: 0 <= i < |rows| ==> es[i] == RecordOf(rows[i])
  {
    if rows == [] then [] else Records(rows[..|rows| - 1]) + [RecordOf(rows[|rows| - 1])]
  }

  /** `groupby(['RESOURCE_NAME','MONTH']).sum()`. */
  function AddTotals(a: Totals, b: Totals): Totals
  {
    Totals(b.resourceName, b.month, a.unitType + b.unitType,
           a.dispatchQuantity + b.dispatchQuantity, a.dispatchPrice + b.dispatchPrice,
           a.bidQuantity + b.bidQuantity, a.bidPrice + b.bidPrice, a.recordCount + b.recordCount)
  }

  /** The price sums divided by RECORD_COUNT, which is then dropped. */
  function Average(t: Totals): RtmSummary
    requires Counted(t)
  {
    RtmSummary(t.resourceName, t.month, t.unitType,
               t.dispatchQuantity, t.dispatchPrice / t.recordCount as real,
               t.bidQuantity, t.bidPrice / t.recordCount as real)
  }

  predicate Counted(t: Totals)
  {
    t.recordCount >= 1
  }

  function Averages(groups: seq<(Grouping.Key, Totals)>): (out: seq<RtmSummary>)
    requires forall i :: 0 <= i < |groups| ==> Counted(groups[i].1)
    ensures |out| == |groups|
    ensures forall i :: 0 <= i < |groups| ==> out[i] == Average(groups[i].1)
  {
    if groups == [] then [] else Averages(groups[..|groups| - 1]) + [Average(groups[|groups| - 1].1)]
  }

  /** Well-formed records: keyed by their own resource and month, each counted
      once. */
  predicate RecordEntries(es: seq<(Grouping.Key, Totals)>)
  {
    forall j :: 0 <= j < |es| ==> es[j].0 == KeyOf(es[j].1) && es[j].1.recordCount == 1
  }

  lemma RecordsWellFormed(rows: seq<BiddingData.BidRow>)
    ensures RecordEntries(Records(rows))
  {
  }

  /** The sums per (resource, month) key, in key order. */
  function Groups(es: seq<(Grouping.Key, Totals)>): seq<(Grouping.Key, Totals)>
  {
    Grouping.GroupBy(es, AddTotals)
  }

  /** Every group has at least one record. */
  lemma GroupsCounted(es: seq<(Grouping.Key, Totals)>)
    requires RecordEntries(es)
    ensures forall i :: 0 <= i < |Groups(es)| ==> Counted(Groups(es)[i].1)
  {
    Grouping.GroupValuesKeep(es, AddTotals, Counted);
  }

  function SummarizeGroups(es: seq<(Grouping.Key, Totals)>): seq<RtmSummary>
    requires RecordEntries(es)
  {
    GroupsCounted(es);
    Averages(Groups(es))
  }

  /** `summarize_rtm_dispatch` as intended: a frame without rows summarizes
      to no rows.  Its column writes act on a copy made by the column
      selection, so the caller's frame is not changed. */
  function SummarizeRtmDispatch(rows: seq<BiddingData.BidRow>): seq<RtmSummary>
  {
    RecordsWellFormed(rows);
    SummarizeGroups(Records(rows))
  }

  /** `summarize_rtm_dispatch` as written: RECORD_COUNT is set to the scalar
      1, which pandas refuses on a frame without rows (ValueError). */
  function SummarizeRtmDispatchAsWritten(rows: seq<BiddingData.BidRow>): (r: Result<seq<RtmSummary>, string>)
    ensures r.Err? <==> rows == []
  {
    if rows == [] then Err("ValueError") else Ok(SummarizeRtmDispatch(rows))
  }

  /** As written and as intended agree on every frame with a row. */
  lemma SummarizeAsWrittenAgrees(rows: seq<BiddingData.BidRow>)
    requires rows != []
    ensures SummarizeRtmDispatchAsWritten(rows) == Ok(SummarizeRtmDispatch(rows))
  {
  }

  // ---- reference sums ----------------------------------------------------

  /** The sum of one column over records, in order. */
  function FieldSum(es: seq<(Grouping.Key, Totals)>, f: Field): real
  {
    if es == [] then 0.0 else FieldSum(es[..|es| - 1], f) + FieldOf(es[|es| - 1].1, f)
  }

  /** The unit types of records, joined in order. */
  function UnitTypes(es: seq<(Grouping.Key, Totals)>): string
  {
    if es == [] then [] else UnitTypes(es[..|es| - 1]) + es[|es| - 1].1.unitType
  }

  /** t holds, column by column, the sums over records rs, their unit
      types joined, and their number as record count. */
  predicate SumsOf(t: Totals, rs: seq<(Grouping.Key, Totals)>)
  {
    t.recordCount == |rs| && t.unitType == UnitTypes(rs) && forall f :: FieldOf(t, f) == FieldSum(rs, f)
  }

  /** A single record sums to itself. */
  lemma SumsFirst(x: (Grouping.Key, Totals))
    requires x.1.recordCount == 1
    ensures SumsOf(x.1, [x])
  {
    assert [x][..0] == [];
  }

  /** Adding one more record to the sums of rs gives the sums of rs and it. */
  lemma SumsStep(t: Totals, rs: seq<(Grouping.Key, Totals)>, x: (Grouping.Key, Totals))
    requires SumsOf(t, rs) && x.1.recordCount == 1
    ensures SumsOf(AddTotals(t, x.1), rs + [x])
  {
    assert (rs + [x])[..|rs|] == rs;
  }

  /** A group's sum is, column by column, the sum over its records, and its
      record count is the number of its records. */
  lemma {:induction false} FoldTotals(es: seq<(Grouping.Key, Totals)>, k: Grouping.Key)
    requires RecordEntries(es)
    ensures var g := Grouping.FoldKey(es, k, AddTotals);
            g.Some? ==> SumsOf(g.value, Grouping.KeyRows(es, k))
  {
    if es != [] {
      var init, x := es[..|es| - 1], es[|es| - 1];
      assert forall j :: 0 <= j < |init| ==> init[j] == es[j];
      FoldTotals(init, k);
      var g0 := Grouping.FoldKey(init, k, AddTotals);
      var rs0 := Grouping.KeyRows(init, k);
      if x.0 == k {
        assert Grouping.KeyRows(es, k) == rs0 + [x];
        if g0.None? {
          Grouping.FoldKeyPresent(init, k, AddTotals);
          Frames.FilterNone(init, (e: (Grouping.Key, Totals)) => e.0 == k);
          assert rs0 == [];
          SumsFirst(x);
          assert [x] == rs0 + [x];
        } else {
          SumsStep(g0.value, rs0, x);
        }
      } else {
        assert Grouping.KeyRows(es, k) == rs0;
      }
    }
  }

  /** What the summary promises of output rows `out` from records `es`: one
      row per (resource, month), in ascending order; each row's totals are
      its group's column sums, its averages are the group's price sums over
      the group's record count (records whose price was missing included),
      its unit type is the group's unit types joined; and the keys are
      exactly the records' keys. */
  predicate SummarizedFrom(out: seq<RtmSummary>, es: seq<(Grouping.Key, Totals)>)
  {
    (forall i, j :: 0 <= i < j < |out| ==> Grouping.KeyLess(SummaryKey(out[i]), SummaryKey(out[j])))
    && (forall i :: 0 <= i < |out| ==> GroupSummary(out[i], Grouping.KeyRows(es, SummaryKey(out[i]))))
    && SummaryKeys(out) == Grouping.RowKeys(es)
  }

  predicate GroupSummary(s: RtmSummary, rs: seq<(Grouping.Key, Totals)>)
  {
    |rs| >= 1
    && s.totalDispatchQuantity == FieldSum(rs, DispatchQuantity)
    && s.totalBidQuantity == FieldSum(rs, BidQuantity)
    && s.averageDispatchPrice == FieldSum(rs, DispatchPrice) / |rs| as real
    && s.averageBidPrice == FieldSum(rs, BidPrice) / |rs| as real
    && s.unitType == UnitTypes(rs)
  }

  /** Every group row carries its own key. */
  lemma TotalsKeys(es: seq<(Grouping.Key, Totals)>)
    requires RecordEntries(es)
    ensures forall i :: 0 <= i < |Groups(es)| ==> Groups(es)[i].0 == KeyOf(Groups(es)[i].1)
  {
    var groups := Groups(es);
    forall i | 0 <= i < |groups| ensures groups[i].0 == KeyOf(groups[i].1) {
      Grouping.GroupValueKeys(es, AddTotals, KeyOf, i);
    }
  }

  lemma SummarizedSorted(es: seq<(Grouping.Key, Totals)>)
    requires RecordEntries(es)
    ensures var out := SummarizeGroups(es);
            forall i, j :: 0 <= i < j < |out| ==> Grouping.KeyLess(SummaryKey(out[i]), SummaryKey(out[j]))
  {
    TotalsKeys(es);
  }

  /** The i-th output row summarizes the records of its key. */
  lemma SummarizedGroup(es: seq<(Grouping.Key, Totals)>, i: nat)
    requires RecordEntries(es) && i < |SummarizeGroups(es)|
    ensures var s := SummarizeGroups(es)[i];
            GroupSummary(s, Grouping.KeyRows(es, SummaryKey(s)))
  {
    var groups := Groups(es);
    var k := groups[i].0;
    Grouping.GroupValueKeys(es, AddTotals, KeyOf, i);
    Grouping.LookupEntry(groups, i);
    assert Grouping.FoldKey(es, k, AddTotals) == Some(groups[i].1);
    FoldTotals(es, k);
    GroupsCounted(es);
    AverageSummary(groups[i].1, Grouping.KeyRows(es, k));
  }

  /** Averaging a group's sums summarizes its records. */
  lemma AverageSummary(t: Totals, rs: seq<(Grouping.Key, Totals)>)
    requires t.recordCount == |rs| >= 1 && t.unitType == UnitTypes(rs)
    requires forall f :: FieldOf(t, f) == FieldSum(rs, f)
    ensures GroupSummary(Average(t), rs)
  {
    assert FieldOf(t, DispatchPrice) == FieldSum(rs, DispatchPrice);
    assert FieldOf(t, BidPrice) == FieldSum(rs, BidPrice);
    assert FieldOf(t, DispatchQuantity) == FieldSum(rs, DispatchQuantity);
    assert FieldOf(t, BidQuantity) == FieldSum(rs, BidQuantity);
  }

  lemma SummarizedGroups(es: seq<(Grouping.Key, Totals)>)
    requires RecordEntries(es)
    ensures var out := SummarizeGroups(es);
            forall i :: 0 <= i < |out| ==> GroupSummary(out[i], Grouping.KeyRows(es, SummaryKey(out[i])))
  {
    var out := SummarizeGroups(es);
    forall i | 0 <= i < |out| ensures GroupSummary(out[i], Grouping.KeyRows(es, SummaryKey(out[i]))) {
      SummarizedGroup(es, i);
    }
  }

  function SummaryKeys(out: seq<RtmSummary>): set<Grouping.Key>
  {
    set i | 0 <= i < |out| :: SummaryKey(out[i])
  }

  lemma SummarizedCovers(es: seq<(Grouping.Key, Totals)>)
    requires RecordEntries(es)
    ensures SummaryKeys(SummarizeGroups(es)) == Grouping.RowKeys(es)
  {
    var out := SummarizeGroups(es);
    forall k | k in Grouping.RowKeys(es) ensures k in SummaryKeys(out) {
      var j :| 0 <= j < |es| && es[j].0 == k;
      var i := GroupOfRecord(es, j);
    }
    forall k | k in SummaryKeys(out) ensures k in Grouping.RowKeys(es) {
      var i :| 0 <= i < |out| && SummaryKey(out[i]) == k;
      RecordOfGroup(es, i);
    }
  }

  /** The output row that a record's key lands in. */
  lemma GroupOfRecord(es: seq<(Grouping.Key, Totals)>, j: nat) returns (i: nat)
    requires RecordEntries(es) && j < |es|
    ensures var out := SummarizeGroups(es);
            i < |out| && SummaryKey(out[i]) == es[j].0
  {
    var groups := Groups(es);
    var k := es[j].0;
    Grouping.FoldKeyPresent(es, k, AddTotals);
    Grouping.LookupFound(groups, k);
    i :| 0 <= i < |groups| && groups[i] == (k, Grouping.Lookup(groups, k).value);
    Grouping.GroupValueKeys(es, AddTotals, KeyOf, i);
  }

  /** Some record carries each output row's key. */
  lemma RecordOfGroup(es: seq<(Grouping.Key, Totals)>, i: nat)
    requires RecordEntries(es) && i < |SummarizeGroups(es)|
    ensures exists j :: 0 <= j < |es| && es[j].0 == SummaryKey(SummarizeGroups(es)[i])
  {
    var groups := Groups(es);
    Grouping.LookupEntry(groups, i);
    Grouping.FoldKeyPresent(es, groups[i].0, AddTotals);
    Grouping.GroupValueKeys(es, AddTotals, KeyOf, i);
  }

  /** What `summarize_rtm_dispatch` promises about its records. */
  lemma SummarizeRtmDispatchMeaning(rows: seq<BiddingData.BidRow>)
    ensures SummarizedFrom(SummarizeRtmDispatch(rows), Records(rows))
  {
    var es := Records(rows);
    SummarizedSorted(es);
    SummarizedGroups(es);
    SummarizedCovers(es);
  }

  /** Sums of values within bounds stay within the scaled bounds. */
  lemma {:induction false} FieldSumBounds(es: seq<(Grouping.Key, Totals)>, f: Field, lo: real, hi: real)
    requires forall j :: 0 <= j < |es| ==> lo <= FieldOf(es[j].1, f) <= hi
    ensures |es| as real * lo <= FieldSum(es, f) <= |es| as real * hi
  {
    if es != [] {
      FieldSumBounds(es[..|es| - 1], f, lo, hi);
    }
  }

  /** An average price lies between the smallest and the largest price of
      its group (a missing price counting as 0). */
  lemma AverageWithinGroup(s: RtmSummary, rs: seq<(Grouping.Key, Totals)>, lo: real, hi: real)
    requires GroupSummary(s, rs)
    requires forall j :: 0 <= j < |rs| ==> lo <= rs[j].1.dispatchPrice <= hi
    ensures lo <= s.averageDispatchPrice <= hi
  {
    FieldSumBounds(rs, DispatchPrice, lo, hi);
    var n := |rs| as real;
    assert n * lo <= FieldSum(rs, DispatchPrice) <= n * hi;
    DivBounds(FieldSum(rs, DispatchPrice), n, lo, hi);
  }

  lemma DivBounds(x: real, n: real, lo: real, hi: real)
    requires n > 0.0 && n * lo <= x <= n * hi
    ensures lo <= x / n <= hi
  {
    assert x / n * n == x;
  }

  // ---- summarize_multiple_months_rtm_dispatch ----------------------------

  function MonthSummary(files: map<BiddingData.FilePath, seq<BiddingData.RawBidRow>>, month: Calendar.Instant): seq<RtmSummary>
  {
    SummarizeRtmDispatch(BiddingData.ReadBiddingData(files, BiddingData.BiddingDataPath(month)))
  }

  /** The monthly summaries, concatenated in the order of the months. */
  function AllMonthsSummary(files: map<BiddingData.FilePath, seq<BiddingData.RawBidRow>>, months: seq<Calendar.Instant>): seq<RtmSummary>
  {
    Frames.Concat(Frames.Column(months, (m: Calendar.Instant) => MonthSummary(files, m)))
  }

  /** One more month appends that month's summary. */
  lemma AllMonthsStep(files: map<BiddingData.FilePath, seq<BiddingData.RawBidRow>>, months: seq<Calendar.Instant>, i: nat)
    requires i < |months|
    ensures AllMonthsSummary(files, months[..i + 1]) == AllMonthsSummary(files, months[..i]) + MonthSummary(files, months[i])
  {
    var f := (m: Calendar.Instant) => MonthSummary(files, m);
    assert months[..i + 1] == months[..i] + [months[i]];
    Frames.ColumnAppend(months[..i], [months[i]], f);
    var ts := Frames.Column(months[..i + 1], f);
    assert ts[..|ts| - 1] == Frames.Column(months[..i], f);
  }

  /** The loop of `summarize_multiple_months_rtm_dispatch` as written over
      the months' frames, in order: the first frame without rows raises out
      of the loop. */
  function FramesAsWritten(frames: seq<seq<BiddingData.BidRow>>): Result<seq<RtmSummary>, string>
  {
    if frames == [] then Ok([])
    else
      match FramesAsWritten(frames[..|frames| - 1])
      case Err(e) => Err(e)
      case Ok(out) =>
        match SummarizeRtmDispatchAsWritten(frames[|frames| - 1])
        case Err(e) => Err(e)
        case Ok(more) => Ok(out + more)
  }

  /** The frames' summaries as intended, concatenated. */
  function FramesSummary(frames: seq<seq<BiddingData.BidRow>>): seq<RtmSummary>
  {
    if frames == [] then [] else FramesSummary(frames[..|frames| - 1]) + SummarizeRtmDispatch(frames[|frames| - 1])
  }

  /** Every frame has a row. */
  predicate AllHaveRows(frames: seq<seq<BiddingData.BidRow>>)
  {
    forall i :: 0 <= i < |frames| ==> frames[i] != []
  }

  /** As written, the frames summarize exactly when every frame has a row. */
  lemma {:induction false} FramesAsWrittenOk(frames: seq<seq<BiddingData.BidRow>>)
    ensures FramesAsWritten(frames).Ok? <==> AllHaveRows(frames)
  {
    if frames != [] {
      var n := |frames| - 1;
      var init := frames[..n];
      FramesAsWrittenOk(init);
      FramesOkStep(frames);
      AllHaveRowsStep(frames);
    }
  }

  /** One more frame has a row each exactly when the earlier frames do and
      it has one. */
  lemma AllHaveRowsStep(frames: seq<seq<BiddingData.BidRow>>)
    requires frames != []
    ensures AllHaveRows(frames) <==> AllHaveRows(frames[..|frames| - 1]) && frames[|frames| - 1] != []
  {
    var n := |frames| - 1;
    var init := frames[..n];
    if AllHaveRows(frames) {
      forall i | 0 <= i < |init| ensures init[i] != [] {
        assert init[i] == frames[i];
      }
    } else {
      var i :| 0 <= i < |frames| && frames[i] == [];
      if i < n {
        assert init[i] == frames[i];
      }
    }
  }

  /** One more frame summarizes as written exactly when the earlier frames
      do and it has a row. */
  lemma FramesOkStep(frames: seq<seq<BiddingData.BidRow>>)
    requires frames != []
    ensures FramesAsWritten(frames).Ok? <==>
      FramesAsWritten(frames[..|frames| - 1]).Ok? && frames[|frames| - 1] != []
  {
  }

  /** Where the frames summarize as written, they give the intended rows. */
  lemma {:induction false} FramesAsWrittenValue(frames: seq<seq<BiddingData.BidRow>>)
    requires FramesAsWritten(frames).Ok?
    ensures FramesAsWritten(frames).value == FramesSummary(frames)
  {
    if frames != [] {
      var n := |frames| - 1;
      FramesAsWrittenValue(frames[..n]);
      SummarizeAsWrittenAgrees(frames[n]);
    }
  }

  /** As written, the frames summarize exactly when every frame has a row,
      and then to the same rows as intended. */
  lemma FramesAsWrittenMeaning(frames: seq<seq<BiddingData.BidRow>>)
    ensures FramesAsWritten(frames).Ok? <==> forall i :: 0 <= i < |frames| ==> frames[i] != []
    ensures FramesAsWritten(frames).Ok? ==> FramesAsWritten(frames).value == FramesSummary(frames)
  {
    FramesAsWrittenOk(frames);
    if FramesAsWritten(frames).Ok? {
      FramesAsWrittenValue(frames);
    }
  }

  /** The months' frames, in order. */
  function MonthFrames(files: map<BiddingData.FilePath, seq<BiddingData.RawBidRow>>, months: seq<Calendar.Instant>)
    : seq<seq<BiddingData.BidRow>>
  {
    Frames.Column(months, (m: Calendar.Instant) => BiddingData.ReadBiddingData(files, BiddingData.BiddingDataPath(m)))
  }

  /** The intended summary of the months' frames is the months' summary. */
  lemma {:induction false} FramesSummaryOfMonths(files: map<BiddingData.FilePath, seq<BiddingData.RawBidRow>>,
                                                 months: seq<Calendar.Instant>)
    ensures FramesSummary(MonthFrames(files, months)) == AllMonthsSummary(files, months)
  {
    if months != [] {
      var n := |months| - 1;
      FramesSummaryOfMonths(files, months[..n]);
      AllMonthsStep(files, months, n);
      var fs := MonthFrames(files, months);
      assert fs[..n] == MonthFrames(files, months[..n]);
      assert months[..n + 1] == months;
    }
  }

  /** `summarize_multiple_months_rtm_dispatch` as written. */
  function AllMonthsAsWritten(files: map<BiddingData.FilePath, seq<BiddingData.RawBidRow>>, months: seq<Calendar.Instant>)
    : Result<seq<RtmSummary>, string>
  {
    FramesAsWritten(MonthFrames(files, months))
  }

  /** As written, the months summarize exactly when every month's frame has
      a row (a file with a complete row), and then to the same rows as
      intended. */
  lemma AllMonthsAsWrittenMeaning(files: map<BiddingData.FilePath, seq<BiddingData.RawBidRow>>,
                                  months: seq<Calendar.Instant>)
    ensures AllMonthsAsWritten(files, months).Ok? <==>
      forall i :: 0 <= i < |months| ==> MonthFrames(files, months)[i] != []
    ensures AllMonthsAsWritten(files, months).Ok? ==> AllMonthsAsWritten(files, months).value == AllMonthsSummary(files, months)
  {
    FramesAsWrittenMeaning(MonthFrames(files, months));
    FramesSummaryOfMonths(files, months);
  }

  /** A month without a bidding-data file makes the loop as written raise,
      while as intended that month contributes no rows. */
  lemma MissingMonthRaises(files: map<BiddingData.FilePath, seq<BiddingData.RawBidRow>>, months: seq<Calendar.Instant>, i: nat)
    requires i < |months| && BiddingData.BiddingDataPath(months[i]) !in files
    ensures AllMonthsAsWritten(files, months).Err?
    ensures MonthSummary(files, months[i]) == []
  {
    AllMonthsAsWrittenMeaning(files, months);
    assert MonthFrames(files, months)[i] == [];
  }

  /** `summarize_multiple_months_rtm_dispatch`, with a month without rows
      contributing none; where every month has rows this is also the result
      as written (AllMonthsAsWrittenMeaning). */
  method SummarizeMultipleMonthsRtmDispatch(files: map<BiddingData.FilePath, seq<BiddingData.RawBidRow>>,
                                            months: seq<Calendar.Instant>)
    returns (r: seq<RtmSummary>)
    ensures r == AllMonthsSummary(files, months)
  {
    r := [];
    var i := 0;
    while i < |months|
      invariant i <= |months|
      invariant r == AllMonthsSummary(files, months[..i])
    {
      var rows := BiddingData.ReadBiddingData(files, BiddingData.BiddingDataPath(months[i]));
      var monthly := SummarizeRtmDispatch(rows);
      AllMonthsStep(files, months, i);
      r := r + monthly;
      i := i + 1;
    }
    assert months[..|months|] == months;
  }

  /** Summarizing two lists of months one after the other gives the two
      results one after the other. */
  lemma AllMonthsAppend(files: map<BiddingData.FilePath, seq<BiddingData.RawBidRow>>, m1: seq<Calendar.Instant>, m2: seq<Calendar.Instant>)
    ensures AllMonthsSummary(files, m1 + m2) == AllMonthsSummary(files, m1) + AllMonthsSummary(files, m2)
  {
    var f := (m: Calendar.Instant) => MonthSummary(files, m);
    Frames.ColumnAppend(m1, m2, f);
    Frames.ConcatAppend(Frames.Column(m1, f), Frames.Column(m2, f));
  }

  /** A row of the combined summary is a row of some month's summary, and
      every month's rows are there. */
  lemma AllMonthsMembership(files: map<BiddingData.FilePath, seq<BiddingData.RawBidRow>>, months: seq<Calendar.Instant>, s: RtmSummary)
    ensures s in AllMonthsSummary(files, months) <==>
            exists i :: 0 <= i < |months| && s in MonthSummary(files, months[i])
  {
    var ts := Frames.Column(months, (m: Calendar.Instant) => MonthSummary(files, m));
    Frames.ConcatMembership(ts, s);
  }
}
