/** Proleptic Gregorian calendar for pandas Timestamps, as used by every script:
    an instant is a count of microseconds since 1970-01-01 00:00:00 (timestamps
    before 1970 and time zones are outside the model).  Dates are computed by
    walking whole years and then whole months, and the two round trips between
    day numbers and dates are proved. */
module Calendar {

  const MicrosPerSecond: nat := 1_000_000
  const MicrosPerMinute: nat := 60_000_000
  const MicrosPerHour: nat := 3_600_000_000
  const MicrosPerDay: nat := 86_400_000_000
  const EpochYear: int := 1970

  /** Microseconds since 1970-01-01 00:00:00. */
  type Instant = nat

  datatype Date = Date(year: int, month: int, day: int)

  predicate IsLeap(y: int)
  {
    y % 4 == 0 && (y % 100 != 0 || y % 400 == 0)
  }

  function DaysInYear(y: int): nat
  {
    if IsLeap(y) then 366 else 365
  }

  function DaysInMonth(y: int, m: int): nat
  {
    if m == 2 then (if IsLeap(y) then 29 else 28)
    else if m == 4 || m == 6 || m == 9 || m == 11 then 30
    else 31
  }

  predicate ValidDate(d: Date)
  {
    d.year >= EpochYear && 1 <= d.month <= 12 && 1 <= d.day <= DaysInMonth(d.year, d.month)
  }

  /** Days in the months of year y before month m (m = 13 gives the whole year). */
  function DaysBeforeMonth(y: int, m: int): nat
    requires 1 <= m <= 13
  {
    [0, 31, 59, 90, 120, 151, 181, 212, 243, 273, 304, 334, 365][m - 1]
      + (if IsLeap(y) && m > 2 then 1 else 0)
  }

  lemma DaysBeforeNextMonth(y: int, m: int)
    requires 1 <= m <= 12
    ensures DaysBeforeMonth(y, m + 1) == DaysBeforeMonth(y, m) + DaysInMonth(y, m)
    ensures DaysBeforeMonth(y, 13) == DaysInYear(y)
  {
  }

  /** Days from 1970-01-01 to January 1st of year y. */
  function DaysBeforeYear(y: int): nat
    requires y >= EpochYear
    decreases y - EpochYear
  {
    if y == EpochYear then 0 else DaysBeforeYear(y - 1) + DaysInYear(y - 1)
  }

  lemma {:induction false} DaysBeforeYearMonotone(y1: int, y2: int)
    requires EpochYear <= y1 < y2
    ensures DaysBeforeYear(y2) >= DaysBeforeYear(y1) + DaysInYear(y1)
    decreases y2 - y1
  {
    if y2 > y1 + 1 {
      DaysBeforeYearMonotone(y1, y2 - 1);
    }
  }

  /** Day number (days since 1970-01-01) of a valid date. */
  function DayNumber(d: Date): nat
    requires ValidDate(d)
  {
    DaysBeforeYear(d.year) + DaysBeforeMonth(d.year, d.month) + d.day - 1
  }

  /** Walks whole years from year y: the year holding day n (counted from Jan 1st
      of y) and the day's 0-based position in that year. */
  function YearWalk(y: int, n: nat): (r: (int, nat))
    requires y >= EpochYear
    ensures r.0 >= y && r.1 < DaysInYear(r.0)
    ensures DaysBeforeYear(r.0) + r.1 == DaysBeforeYear(y) + n
    decreases n
  {
    if n < DaysInYear(y) then (y, n) else YearWalk(y + 1, n - DaysInYear(y))
  }

  /** Walks whole months of year y from month m: the month holding day n (counted
      from the 1st of m) and the 0-based day of that month. */
  function MonthWalk(y: int, m: int, n: nat): (r: (int, nat))
    requires 1 <= m <= 12
    requires DaysBeforeMonth(y, m) + n < DaysInYear(y)
    ensures m <= r.0 <= 12 && r.1 < DaysInMonth(y, r.0)
    ensures DaysBeforeMonth(y, r.0) + r.1 == DaysBeforeMonth(y, m) + n
    decreases 12 - m
  {
    DaysBeforeNextMonth(y, m);
    if n < DaysInMonth(y, m) then (m, n)
    else MonthWalk(y, m + 1, n - DaysInMonth(y, m))
  }

  /** The date of day number n. */
  function DateOfDay(n: nat): (d: Date)
    ensures ValidDate(d) && DayNumber(d) == n
  {
    var (y, k) := YearWalk(EpochYear, n);
    DaysBeforeNextMonth(y, 12);
    var (m, j) := MonthWalk(y, 1, k);
    Date(y, m, j + 1)
  }

  /** Day numbers are one-to-one on valid dates. */
  lemma {:induction false} DayNumberInjective(d1: Date, d2: Date)
    requires ValidDate(d1) && ValidDate(d2) && DayNumber(d1) == DayNumber(d2)
    ensures d1 == d2
  {
    if d1.year < d2.year {
      DaysBeforeYearMonotone(d1.year, d2.year);
      DaysBeforeNextMonth(d1.year, d1.month);
      MonthPrefixBound(d1.year, d1.month + 1, 13);
      assert false;
    } else if d2.year < d1.year {
      DaysBeforeYearMonotone(d2.year, d1.year);
      DaysBeforeNextMonth(d2.year, d2.month);
      MonthPrefixBound(d2.year, d2.month + 1, 13);
      assert false;
    } else if d1.month < d2.month {
      DaysBeforeNextMonth(d1.year, d1.month);
      MonthPrefixBound(d1.year, d1.month + 1, d2.month);
      assert false;
    } else if d2.month < d1.month {
      DaysBeforeNextMonth(d2.year, d2.month);
      MonthPrefixBound(d2.year, d2.month + 1, d1.month);
      assert false;
    }
  }

  lemma MonthPrefixBound(y: int, m1: int, m2: int)
    requires 1 <= m1 <= m2 <= 13
    ensures DaysBeforeMonth(y, m1) <= DaysBeforeMonth(y, m2)
  {
  }

  /** Round trip: the date of a valid date's day number is that date. */
  lemma DateOfDayNumber(d: Date)
    requires ValidDate(d)
    ensures DateOfDay(DayNumber(d)) == d
  {
    DayNumberInjective(DateOfDay(DayNumber(d)), d);
  }

  // ---- instants --------------------------------------------------------

  function DayIndex(t: Instant): nat { t / MicrosPerDay }
  function TimeOfDay(t: Instant): nat { t % MicrosPerDay }
  function DateOf(t: Instant): (d: Date)
    ensures ValidDate(d)
  {
    DateOfDay(DayIndex(t))
  }
  function YearOf(t: Instant): int { DateOf(t).year }
  function MonthOf(t: Instant): int { DateOf(t).month }
  function DayOf(t: Instant): int { DateOf(t).day }

  /** Midnight at the start of a valid date. */
  function Midnight(d: Date): Instant
    requires ValidDate(d)
  {
    DayNumber(d) * MicrosPerDay
  }

  /** The instant on date d at the given time of day (in microseconds). */
  function At(d: Date, timeOfDay: nat): (t: Instant)
    requires ValidDate(d) && timeOfDay < MicrosPerDay
    ensures DateOf(t) == d && TimeOfDay(t) == timeOfDay
  {
    DateOfDayNumber(d);
    Midnight(d) + timeOfDay
  }

  /** January 1st 00:00 of year y. */
  function JanFirst(y: int): Instant
    requires y >= EpochYear
  {
    Midnight(Date(y, 1, 1))
  }

  /** `t.replace(minute=0, second=0, microsecond=0)`. */
  function FloorHour(t: Instant): (r: Instant)
    ensures r <= t && t - r < MicrosPerHour && r % MicrosPerHour == 0
    ensures DateOf(r) == DateOf(t)
  {
    var r := t - t % MicrosPerHour;
    assert DayIndex(r) == DayIndex(t) by { FloorHourSameDay(t); }
    r
  }

  lemma FloorHourSameDay(t: Instant)
    ensures (t - t % MicrosPerHour) / MicrosPerDay == t / MicrosPerDay
  {
    var q := t / MicrosPerDay;
    var s := t % MicrosPerDay;
    assert t == q * MicrosPerDay + s;
    ShiftHours(s, -24 * q);
    assert t % MicrosPerHour == s % MicrosPerHour;
    var s' := s - s % MicrosPerHour;
    assert 0 <= s' < MicrosPerDay;
    assert t - t % MicrosPerHour == q * MicrosPerDay + s';
  }

  /** The month after (y, m), rolling December over to January of y + 1. */
  function NextMonth(y: int, m: int): (r: (int, int))
    requires 1 <= m <= 12
    ensures 1 <= r.1 <= 12
  {
    if m == 12 then (y + 1, 1) else (y, m + 1)
  }

  /** The first day of the following month lies DaysInMonth days after the first
      of this month. */
  lemma NextMonthDayNumber(y: int, m: int)
    requires y >= EpochYear && 1 <= m <= 12
    ensures ValidDate(Date(NextMonth(y, m).0, NextMonth(y, m).1, 1))
    ensures DayNumber(Date(NextMonth(y, m).0, NextMonth(y, m).1, 1))
            == DayNumber(Date(y, m, 1)) + DaysInMonth(y, m)
  {
    DaysBeforeNextMonth(y, m);
  }

  /** Month index used by the outage-rate scripts: year * 12 + month - 1. */
  function MonthIndex(y: int, m: int): int
  {
    y * 12 + m - 1
  }

  /** `(int(x / 12), x % 12 + 1)` for a non-negative index. */
  function MonthOfIndex(x: nat): (r: (int, int))
    ensures 1 <= r.1 <= 12
  {
    (x / 12, x % 12 + 1)
  }

  lemma MonthIndexRoundTrip(y: int, m: int, x: nat)
    requires y >= 0 && 1 <= m <= 12
    ensures MonthIndex(y, m) >= 0 && MonthOfIndex(MonthIndex(y, m) as nat) == (y, m)
    ensures MonthIndex(MonthOfIndex(x).0, MonthOfIndex(x).1) == x
  {
  }

  // ---- hour of year ------------------------------------------------------

  /** An instant lies in its own year: between January 1st 00:00 of its year
      and January 1st of the next. */
  lemma YearBounds(t: Instant)
    ensures JanFirst(YearOf(t)) <= t < JanFirst(YearOf(t)) + DaysInYear(YearOf(t)) * MicrosPerDay
  {
    var d := DateOf(t);
    DaysBeforeNextMonth(d.year, d.month);
    MonthPrefixBound(d.year, d.month + 1, 13);
    DaysBeforeNextMonth(d.year, 12);
    var k := DayIndex(t) - DaysBeforeYear(d.year);
    assert 0 <= k < DaysInYear(d.year);
    assert t == DayIndex(t) * MicrosPerDay + TimeOfDay(t);
    assert DayIndex(t) * MicrosPerDay == DaysBeforeYear(d.year) * MicrosPerDay + k * MicrosPerDay;
    assert (k + 1) * MicrosPerDay <= DaysInYear(d.year) * MicrosPerDay;
  }

  /** Midnight of a valid date falls on that date. */
  lemma MidnightDate(d: Date)
    requires ValidDate(d)
    ensures DateOf(Midnight(d)) == d
  {
    assert DayIndex(Midnight(d)) == DayNumber(d);
    DateOfDayNumber(d);
  }

  /** `int((t - ts(t.year, 1, 1)).total_seconds() / 3600) + 1`: the 1-based
      hour of the year holding t. */
  function HourOfYear(t: Instant): (h: int)
    ensures 1 <= h <= 24 * DaysInYear(YearOf(t))
  {
    YearBounds(t);
    (t - JanFirst(YearOf(t))) / MicrosPerHour + 1
  }

  /** Hour 1 is January 1st, 00:00. */
  lemma HourOfYearJanFirst(y: int)
    requires y >= EpochYear
    ensures YearOf(JanFirst(y)) == y && HourOfYear(JanFirst(y)) == 1
  {
    MidnightDate(Date(y, 1, 1));
  }

  /** Within a year, each later hour adds one. */
  lemma HourOfYearStep(t: Instant)
    requires YearOf(t + MicrosPerHour) == YearOf(t)
    ensures HourOfYear(t + MicrosPerHour) == HourOfYear(t) + 1
  {
    YearBounds(t);
    var j := JanFirst(YearOf(t));
    assert (t + MicrosPerHour - j) / MicrosPerHour == (t - j) / MicrosPerHour + 1;
  }

  /** `ts(year, 1, 1) + pd.Timedelta(hours=Hour - 1)`. */
  function HourStart(y: int, hour: int): (t: Instant)
    requires y >= EpochYear && hour >= 1
    ensures t >= JanFirst(y)
  {
    JanFirst(y) + (hour - 1) * MicrosPerHour
  }

  /** Round trip: the start of an instant's hour of its year is the instant
      floored to the hour, so it falls on the same date. */
  lemma HourStartOfHourOfYear(t: Instant)
    ensures HourStart(YearOf(t), HourOfYear(t)) == FloorHour(t)
    ensures DateOf(HourStart(YearOf(t), HourOfYear(t))) == DateOf(t)
  {
    YearBounds(t);
    var j := JanFirst(YearOf(t));
    var k := DaysBeforeYear(YearOf(t)) * 24;
    assert j == k * MicrosPerHour;
    ShiftHours(t, k);
    assert HourOfYear(t) - 1 == t / MicrosPerHour - k;
    assert HourStart(YearOf(t), HourOfYear(t)) == j + (t / MicrosPerHour - k) * MicrosPerHour;
  }

  /** Moving back k whole hours moves the hour count back by k and keeps the
      offset within the hour. */
  lemma ShiftHours(t: int, k: int)
    ensures (t - k * MicrosPerHour) / MicrosPerHour == t / MicrosPerHour - k
    ensures (t - k * MicrosPerHour) % MicrosPerHour == t % MicrosPerHour
  {
    var q := t / MicrosPerHour;
    var r := t % MicrosPerHour;
    assert t - k * MicrosPerHour == (q - k) * MicrosPerHour + r;
  }
  // ---- first of the month ------------------------------------------------

  /** `t.replace(day=1)`: the same time of day on the 1st of t's month. */
  function WithDayOne(t: Instant): (r: Instant)
    ensures YearOf(r) == YearOf(t) && MonthOf(r) == MonthOf(t) && DayOf(r) == 1
    ensures TimeOfDay(r) == TimeOfDay(t) && r <= t
  {
    var d := DateOf(t);
    var r := At(Date(d.year, d.month, 1), TimeOfDay(t));
    assert DayIndex(r) <= DayIndex(t) by {
      assert DayIndex(r) == DayNumber(Date(d.year, d.month, 1)) by { DateOfDayNumber(Date(d.year, d.month, 1)); }
      assert DayIndex(t) == DayNumber(d);
    }
    assert t == DayIndex(t) * MicrosPerDay + TimeOfDay(t);
    assert r == DayIndex(r) * MicrosPerDay + TimeOfDay(r);
    MulDayLe(DayIndex(r), DayIndex(t));
    r
  }

  lemma MulDayLe(a: nat, b: nat)
    requires a <= b
    ensures a * MicrosPerDay <= b * MicrosPerDay
  {
  }

  /** Two instants with the same year, month and time of day on the 1st are
      equal, so setting the day to 1 twice changes nothing more. */
  lemma WithDayOneIdempotent(t: Instant)
    ensures WithDayOne(WithDayOne(t)) == WithDayOne(t)
  {
    var r := WithDayOne(t);
    SameDateSameInstant(WithDayOne(r), r);
  }

  /** Instants on the same date at the same time of day are equal. */
  lemma SameDateSameInstant(a: Instant, b: Instant)
    requires DateOf(a) == DateOf(b) && TimeOfDay(a) == TimeOfDay(b)
    ensures a == b
  {
    assert DayIndex(a) == DayNumber(DateOf(a)) && DayIndex(b) == DayNumber(DateOf(b));
    assert a == DayIndex(a) * MicrosPerDay + TimeOfDay(a);
    assert b == DayIndex(b) * MicrosPerDay + TimeOfDay(b);
  }

  /** Within one year, a later instant is in the same or a later month. */
  lemma MonthOrder(t1: Instant, t2: Instant)
    requires t1 <= t2 && YearOf(t1) == YearOf(t2)
    ensures MonthOf(t1) <= MonthOf(t2)
  {
    var d1, d2 := DateOf(t1), DateOf(t2);
    assert DayIndex(t1) <= DayIndex(t2);
    assert DayNumber(d1) == DayIndex(t1) && DayNumber(d2) == DayIndex(t2);
    if d1.month > d2.month {
      DaysBeforeNextMonth(d2.year, d2.month);
      MonthPrefixBound(d2.year, d2.month + 1, d1.month);
    }
  }

  /** An instant from January 1st of y up to the end of y lies in year y. */
  lemma InYear(t: Instant, y: int)
    requires y >= EpochYear && JanFirst(y) <= t < JanFirst(y) + DaysInYear(y) * MicrosPerDay
    ensures YearOf(t) == y
  {
    YearBounds(t);
    var y' := YearOf(t);
    if y' < y {
      DaysBeforeYearMonotone(y', y);
    } else if y < y' {
      DaysBeforeYearMonotone(y, y');
    }
  }
}
