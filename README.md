# caiso_curtailments — a verified model of the curtailment-to-derate pipeline

caiso_curtailments is a set of Python scripts. They turn CAISO's daily
"curtailed and non-operational generator" reports and NOAA Integrated Surface
Database (ISD) weather observations into temperature-dependent derate profiles
for thermal units. Several smaller calculations sit beside this pipeline.

This project models that logic in Dafny and proves what each step does.
DataFrames become sequences of records. Timestamps become integer microseconds
since 1970-01-01, with a civil calendar built on top (`Calendar`). pandas
floats become `real`, or `Floats.Float` where NaN and infinities matter.

## Modules

- **Wrappers, Floats, Calendar, Text, Frames, Grouping.** Shared foundations:
  `Option`/`Result`; IEEE-style division and comparison; dates, month
  arithmetic, `replace(day=1)` and the hour-of-year index; digit formatting,
  `strip` and string order; filters, columns and merges; and
  `groupby(...).last()`/`sum()` as a fold into a sorted association list.
- **IsdWeather** (`load_weather`).
  - Decoding of the TMP, DEW and MA1 tokens, including the regular
    expression's `$`, which also matches before one final newline.
  - The in-place call-sign repair loop over an `array`.
  - The reduction to the last complete reading per (call sign, hour).
- **CurtailmentEvents** (`load_resource_curtailments`). Report deduplication
  per (MRID, start), the `dropna` subset, and the hourly expansion of each
  event.
- **Imputation** (`impute_zero_curtailments`).
  - The resource × hour grid and the left merge of the events onto it.
  - The name/pmax backfill, both as written and as intended.
  - The zero-curtailment defaults and the weather join.
- **Regression** (`CurtailmentModeller.regress` and `multilinear_regress`).
  - Row selection, percent curtailment and the temperature normalisation.
  - The per-resource and per-unit-type fits.
  - The one-hot resource design.
  - The modeller's cached tables, as a class.
- **DerateForecast / Forecaster** (`DerateForecaster`). The clamped linear
  derate, rated temperatures, pinned intercepts, the Hour index and the saved
  derate files.
- **CurtailmentReports** (`CurtailmentDownloader`).
  - URL and path formatting, the download log and its skip rule.
  - Row extraction with the header search and trade-day clipping.
  - Monthly forced outage rates.
- **UnforcedOutage** (`calculate_unforced_outage_rates`).
  - First month and n-minute block expansion.
  - Deduplication and the last-full-month window.
  - EFDH/EFOR and the month-index enumeration.
- **StationSelection** (`select_optimal_weather_stations`). The greedy
  station-elimination loop, with distances given.
- **BiddingData** (`bidding_data_availability`). Service and charging hours
  per resource and month.
- **RtmDispatch** (`summarize_rtm_dispatch`). Monthly totals and average
  prices.
- **DeratePercentiles** (`derate_percentiles`).
  - Month from hour, and the year read from a file name.
  - Linear-interpolation quantiles and the monthly percentile table.
  - Resource classes read from file names.

Code that updates objects in place is modelled as classes whose methods
change their fields. These are `CurtailmentModeller`, `DerateForecaster`,
`CurtailmentDownloader` and `BiddingFrame`. Loops become methods with
invariants, proved against specification functions. Pure code becomes
functions and lemmas.

Where the source has a defect, the model keeps both readings: as written and
as intended. The rest of the model uses the intended one (see "## Findings").

Two further points where the model follows the code rather than its comments:

- The comment at `retrieve_caiso_curtailments.py:269` says resources without
  a forced outage are given 0 %. The inner merges above it drop them instead.
  `CurtailmentReports.OutageRatesMeaning` states what the code does.
- The pressure pattern of `parse_pressure` accepts any word character as the
  altimeter quality code (`[\d\w]`). Only the station-pressure quality code is
  checked against `[01459]`. `IsdWeather.ParsePressure` states exactly that.

`multilinear_regress` reads `minimum_rsquared` and `target_curtailment`
(`correlate_curtailments.py:463,530-531`). Neither is a parameter nor a local,
so they resolve to module globals only when the script defines them. The
model passes them in explicitly as `Regression.Settings`.

## Model

| member | source | states |
|---|---|---|
| Calendar.FloorHour | scripts/correlate_curtailments_multilinear.py:174 | the hour floor of a reading time lies on a whole hour, less than an hour before the time, on the same date |
| Calendar.NextMonthDayNumber | scripts/retrieve_caiso_curtailments.py:236 | the first of the month after (y, m), December rolling over to January of y + 1, is a valid date exactly DaysInMonth(y, m) days after the first of (y, m) |
| Calendar.MonthIndexRoundTrip | scripts/thermal_resources_ucap.py:260 | `year*12 + month - 1` and `(int(x/12), x%12 + 1)` are inverse to each other on non-negative month indexes |
| Calendar.HourOfYear | scripts/forecast_curtailments.py:127 | the 1-based hour of the year lies between 1 and 24 times the number of days of the year |
| Calendar.HourOfYearJanFirst | scripts/forecast_curtailments.py:127 | January 1st 00:00 of any year is hour 1 of that year |
| Calendar.HourOfYearStep | scripts/forecast_curtailments.py:127 | within a year, one hour later is one Hour index more |
| Calendar.HourStartOfHourOfYear | scripts/derate_percentiles.py:30 | January 1st plus (Hour - 1) hours, for the Hour index of an instant, is that instant floored to the hour, on the same date |
| Calendar.WithDayOne | scripts/summarize_rtm_dispatch.py:24 | `t.replace(day=1)` keeps year, month and time of day, sets the day to 1 and is never later than t |
| Calendar.WithDayOneIdempotent | scripts/bidding_data_availability.py:65 | setting the day to 1 twice is setting it once |
| Calendar.MonthOrder | scripts/derate_percentiles.py:30 | within one year a later instant falls in the same or a later month |
| Floats.Div | scripts/correlate_curtailments.py:353-356 | pandas float division: the real quotient for a non-zero finite divisor; x / 0 is an infinity of x's sign, 0 / 0 is NaN |
| Text.StripMeaning | scripts/correlate_curtailments_multilinear.py:170 | `str.strip` returns a slice whose cut-away ends are all white space and which neither starts nor ends with white space |
| Text.StripIdempotent | scripts/correlate_curtailments_multilinear.py:170 | stripping a call sign twice is stripping it once |
| Text.ParseDigits | scripts/retrieve_caiso_curtailments.py:34 | reading back a zero-padded decimal field (`%Y`, `%m`, `%d`) gives the number written |
| Text.SpacesToUnderscores | scripts/bidding_data_availability.py:64 | `s.replace(' ', '_')` keeps the length and replaces exactly the spaces, character by character |
| Frames.MapAll | scripts/forecast_curtailments.py:117-121 | a row-wise apply succeeds exactly when every row does, and then yields each row's result in order |
| Frames.Distinct | scripts/correlate_curtailments.py:206 | `unique()` holds exactly the values of the column, each once |
| Frames.LeftJoin | scripts/correlate_curtailments.py:207-211 | a left merge pairs every left row with each right row of its key, and with None exactly when no right row has its key |
| Frames.LeftJoinUnique | scripts/correlate_curtailments.py:207-211 | when the right keys are unique, a left merge keeps the left rows one for one and in order, each with its match if there is one |
| Frames.InnerJoin | scripts/retrieve_caiso_curtailments.py:259-263 | an inner merge holds exactly the left/right pairs with equal keys |
| Frames.ConcatMembership | scripts/summarize_rtm_dispatch.py:62-91 | a row of a concatenation of frames is a row of one of them, and conversely |
| Grouping.GroupBy | scripts/correlate_curtailments_multilinear.py:51 | `groupby(keys)` yields its groups sorted by key, and the group found under any key is the fold of that key's rows in input order |
| Grouping.GroupByEntries | scripts/correlate_curtailments_multilinear.py:51 | every group entry is the fold of its key's rows, and every key of the input has a group |
| Grouping.FoldKeyPresent | scripts/correlate_curtailments_multilinear.py:51 | a key has a group exactly when some row carries it |
| Grouping.FoldKeyLast | scripts/correlate_curtailments_multilinear.py:181 | keeping the newer row, a key's group is its last row in input order |
| Grouping.FoldKeyColumn | scripts/correlate_curtailments_multilinear.py:51 | `last()`: each column of a group is the last non-null value among the key's rows, and null when all are null |
| Grouping.LastSomeOfFound | scripts/correlate_curtailments_multilinear.py:51 | a non-null last value is the value of one of the key's rows, and one non-null row makes it non-null |
| Grouping.SortedEntries | scripts/correlate_curtailments_multilinear.py:51 | the groups hold each key once, and each entry is found under its own key |
| Grouping.LeftMergeGroups | scripts/correlate_curtailments.py:207-211 | left-merging with the groups of a groupby keeps each left row once, paired with its key's group if it has one |
| Grouping.GroupValuesKeep | scripts/summarize_rtm_dispatch.py:46 | a property every row has and the combining step preserves holds of every group |
| Calendar.DateOf | scripts/retrieve_caiso_curtailments.py:237 | every instant falls on a valid calendar date |
| Calendar.DateOfDay | scripts/retrieve_caiso_curtailments.py:237 | the n-th day after 1 January 1970 is a valid date whose day number is n |
| Calendar.DateOfDayNumber | scripts/retrieve_caiso_curtailments.py:237 | a valid date is recovered from its day number |
| Calendar.DayNumberInjective | scripts/retrieve_caiso_curtailments.py:237 | two valid dates with the same day number are the same date |
| Calendar.At | scripts/retrieve_caiso_curtailments.py:237 | `ts(year, month, day)` plus a time of day is an instant with exactly that date and time of day |
| Calendar.MidnightDate | scripts/retrieve_caiso_curtailments.py:237 | midnight of a valid date falls on that date |
| Calendar.SameDateSameInstant | scripts/retrieve_caiso_curtailments.py:236-238 | an instant is fixed by its date and time of day |
| Calendar.YearBounds | scripts/forecast_curtailments.py:127 | an instant lies between 1 January of its year and 1 January of the next |
| Calendar.InYear | scripts/forecast_curtailments.py:127 | an instant between 1 January of y and the end of y belongs to year y |
| Calendar.HourStart | scripts/derate_percentiles.py:30 | `ts(y,1,1) + td(hours=h-1)` is no earlier than 1 January of y, and for an instant's own year and hour index it gives that instant floored to the hour |
| Calendar.FloorHourSameDay | scripts/correlate_curtailments_multilinear.py:174 | flooring to the hour keeps the date |
| Calendar.NextMonth | scripts/retrieve_caiso_curtailments.py:236 | the month after (y, m) is a month 1..12 whose 1st is a valid date |
| Calendar.MonthOfIndex | scripts/thermal_resources_ucap.py:260 | `(int(x/12), x%12+1)` is a month 1..12 whose index is x again |
| Text.Digits | scripts/retrieve_caiso_curtailments.py:34 | a zero-padded decimal field has at least its width of digits, exactly four for a year and two for a month or day |
| Text.DigitRoundTrip | scripts/retrieve_caiso_curtailments.py:34 | a digit written and read back is the same digit |
| Text.ParseNatBound | scripts/retrieve_caiso_curtailments.py:34 | a number read from k digits is below 10^k |
| Text.ParseNatAllNines | scripts/correlate_curtailments_multilinear.py:107-108 | k digits read as 10^k - 1 exactly when all are nines |
| Text.TrimLeftMeaning | scripts/correlate_curtailments_multilinear.py:170 | stripping the left keeps a suffix whose cut-away part is white space and which does not start with white space |
| Text.TrimRightMeaning | scripts/correlate_curtailments_multilinear.py:170 | stripping the right keeps a prefix whose cut-away part is white space and which does not end with white space |
| Text.LexIrreflexive | scripts/correlate_curtailments_multilinear.py:51 | no string sorts before itself |
| Text.LexTransitive | scripts/correlate_curtailments_multilinear.py:51 | string order is transitive |
| Text.LexTotal | scripts/correlate_curtailments_multilinear.py:51 | two different strings are ordered one way or the other, as pandas sorts group keys |
| Frames.Filter | scripts/correlate_curtailments.py:239-241 | a boolean mask keeps exactly the rows that satisfy it |
| Frames.FilterSnoc | scripts/correlate_curtailments.py:239-241 | masking one more row appends it exactly when it satisfies the mask |
| Frames.Column | scripts/retrieve_caiso_curtailments.py:244-270 | selecting a column gives one value per row, in order, and exactly the rows' values |
| Frames.MapValues | scripts/derate_percentiles.py:33 | a list comprehension gives one value per element, in order |
| Frames.FillNull | scripts/correlate_curtailments.py:223-225 | `fillna(v)` keeps a present value and replaces a missing one by v |
| Frames.Matches | scripts/correlate_curtailments.py:207-211 | the right rows matching a key are exactly those with that key |
| Frames.MatchesNone | scripts/correlate_curtailments.py:207-211 | a key no right row carries matches nothing |
| Frames.MatchesUnique | scripts/correlate_curtailments.py:207-211 | with unique right keys a key matches at most one row |
| Frames.LeftJoinMatched | scripts/correlate_curtailments.py:207-211 | a left row is paired with a right row exactly when both are present and their keys agree |
| Frames.LeftJoinRow | scripts/correlate_curtailments.py:207-211 | every merged row is a left row, paired with a right row of its key or with None only when no right row has its key |
| Grouping.Upsert | scripts/correlate_curtailments_multilinear.py:51 | adding a row to the sorted groups keeps them sorted and changes only the group of its key, folding the row in |
| Grouping.AtomOrder | scripts/correlate_curtailments_multilinear.py:51 | the order on key parts is a strict total order |
| Grouping.GroupValueKeys | scripts/summarize_rtm_dispatch.py:46 | when each row carries its key, every group does too |
| IsdWeather.SignedGroup | scripts/correlate_curtailments_multilinear.py:104-106 | a sign and four digits read as a value within ±9999 |
| IsdWeather.RepairedCallSigns | scripts/correlate_curtailments_multilinear.py:167-170 | the repair keeps one row per row |
| Imputation.IdsOf | scripts/correlate_curtailments.py:206 | `unique()` of RESOURCE ID holds exactly the ids of the rows |
| Imputation.WithTime | scripts/correlate_curtailments.py:206 | one hour crossed with the ids gives exactly that hour paired with each id |
| Imputation.MaskedIds | scripts/correlate_curtailments.py:212 | the ids of the rows with a missing name are no more than the rows |
| IsdWeather.Chomp | scripts/correlate_curtailments_multilinear.py:104 | `$` also matches before one final newline: the token is either unchanged or had exactly one trailing newline removed |
| IsdWeather.ParseTemperature | scripts/correlate_curtailments_multilinear.py:94-111 | a value exactly when the cell is a string matching sign, four digits, comma and one quality code of {0,1,4,5,9,A,C,I,M}, and the four digits are not +9999; the value is the signed group in tenths, in [-9999, 9998]; a matching +9999 is missing |
| IsdWeather.ParseDewPoint | scripts/correlate_curtailments_multilinear.py:112-117 | the dew point follows exactly the temperature rules |
| IsdWeather.ParsePressure | scripts/correlate_curtailments_multilinear.py:118-133 | a value exactly when the cell is a string matching five digits, a word character, five digits and a final quality code of {0,1,4,5,9}, and the second group is not 99999; the value is that group in hundredths of a kPa |
| IsdWeather.NinesOfWidth | scripts/correlate_curtailments_multilinear.py:107-108 | a four- or five-digit group reads as its largest value exactly when it is all nines, so `== 999.9` and `== 999.99` test the raw tokens "9999" and "99999" |
| IsdWeather.TemperatureRoundTrip | scripts/correlate_curtailments_multilinear.py:104-108 | the token ISD writes for a value in [-9999, 9999] with an accepted quality code, with or without a final newline, decodes to that value, except +9999 which is missing (and -9999 is kept) |
| IsdWeather.FormattedGroup | scripts/correlate_curtailments_multilinear.py:104-106 | a written token matches the pattern and its group reads back as the value written |
| IsdWeather.TemperatureRejectsQuality | scripts/correlate_curtailments_multilinear.py:104 | a token whose quality code is outside {0,1,4,5,9,A,C,I,M} is missing |
| IsdWeather.PressureRoundTrip | scripts/correlate_curtailments_multilinear.py:126-130 | the MA1 token for any altimeter group and word-character quality, station pressure p and accepted quality decodes to p, except p = 99999 which is missing |
| IsdWeather.KnownSigns | scripts/correlate_curtailments_multilinear.py:167 | the (station, call sign) pairs are exactly those of rows whose call sign is not 99999 |
| IsdWeather.AssignedSign | scripts/correlate_curtailments_multilinear.py:168-169 | after the assignment loop a row's sign is its own or one paired with its station |
| IsdWeather.AssignedSignStep | scripts/correlate_curtailments_multilinear.py:168-169 | one more pair reassigns the sign of exactly the rows of that pair's station |
| IsdWeather.AssignStationSign | scripts/correlate_curtailments_multilinear.py:169 | in place: the rows of the station get the sign, every other row is unchanged |
| IsdWeather.StripCallSigns | scripts/correlate_curtailments_multilinear.py:170 | in place: every row's call sign is stripped and nothing else changes |
| IsdWeather.RepairCallSigns | scripts/correlate_curtailments_multilinear.py:167-170 | in place: the rows become RepairedCallSigns of the old rows |
| IsdWeather.RepairedSignsAgree | scripts/correlate_curtailments_multilinear.py:167-170 | two rows of one station end with the same call sign, unless the station has no known sign at all |
| IsdWeather.AssignedSignFound | scripts/correlate_curtailments_multilinear.py:168-169 | when some pair names the station, the row's own sign does not matter and the result is paired with the station |
| IsdWeather.RepairedSignKnown | scripts/correlate_curtailments_multilinear.py:167-170 | a station with a known sign in any row gets, in every row, the stripped sign of one of its known rows |
| IsdWeather.DecodeMeaning | scripts/correlate_curtailments_multilinear.py:174-180 | a row survives exactly when temperature, dew point and pressure all decode; it keeps its call sign, its time floored to the hour (same date, less than an hour earlier) and the decoded values |
| IsdWeather.DecodeAll | scripts/correlate_curtailments_multilinear.py:175-177 | one decoded entry per row, in order |
| IsdWeather.FoldIsLastReading | scripts/correlate_curtailments_multilinear.py:181 | the group of a station hour is the last complete reading of that station hour |
| IsdWeather.LastReadingMeaning | scripts/correlate_curtailments_multilinear.py:180-181 | the reference reading is a complete reading of the key that no later complete row of the key follows, and is absent exactly when the key has no complete row |
| IsdWeather.GroupIsLast | scripts/correlate_curtailments_multilinear.py:181 | every group row carries its own key and is the last complete reading of that key |
| IsdWeather.LastPerHourSorted | scripts/correlate_curtailments_multilinear.py:181 | the reduction holds one reading per (call sign, hour), in ascending key order |
| IsdWeather.LastPerHourIsLast | scripts/correlate_curtailments_multilinear.py:180-181 | every reading of the reduction is a complete row that no later complete row of its station hour follows |
| IsdWeather.LastPerHourComplete | scripts/correlate_curtailments_multilinear.py:180-181 | every complete row's station hour is in the reduction, holding the last complete reading of that hour |
| CurtailmentEvents.KeyedReports | scripts/correlate_curtailments_multilinear.py:51 | the rows entering the groupby are exactly the reports with both key columns, each under its (OUTAGE MRID, start) key |
| CurtailmentEvents.GroupKeyColumns | scripts/correlate_curtailments_multilinear.py:51 | after `reset_index`, every group's key columns hold its key |
| CurtailmentEvents.DedupUnique | scripts/correlate_curtailments_multilinear.py:51 | deduplication leaves at most one report per (OUTAGE MRID, start), in ascending key order |
| CurtailmentEvents.DedupColumnsAreLast | scripts/correlate_curtailments_multilinear.py:51 | every column of a deduplicated report is the last non-null value of that column among its key's reports |
| CurtailmentEvents.DedupCovers | scripts/correlate_curtailments_multilinear.py:51 | every report with both key columns is represented by a deduplicated report with its MRID and start |
| CurtailmentEvents.DedupValuesFrom | scripts/correlate_curtailments_multilinear.py:51 | a deduplicated report's start, end and outage type come from the input reports, and are non-null when they are non-null in every input report |
| CurtailmentEvents.ToEvent | scripts/correlate_curtailments_multilinear.py:62-74 | a report is kept exactly when resource id, outage type, nature of work, start, end and MW are all present; name and pmax may be missing |
| CurtailmentEvents.Complete | scripts/correlate_curtailments_multilinear.py:62-74 | the kept events are exactly the complete reports, no more rows than the input |
| CurtailmentEvents.DaySeconds | scripts/correlate_curtailments_multilinear.py:81 | `Timedelta.seconds` is below one day |
| CurtailmentEvents.HourCount | scripts/correlate_curtailments_multilinear.py:81 | `max(int(delta.seconds/3600), 1)` lies between 1 and 23 |
| CurtailmentEvents.ExpandHours | scripts/correlate_curtailments_multilinear.py:77-81 | `expand_hours` gives 1 to 23 stamps, the first the start floored to its hour, each one hour after the previous |
| CurtailmentEvents.ExpandHoursWithinDay | scripts/correlate_curtailments_multilinear.py:77-81 | for an end less than a day after the start's hour, the stamp count is the whole hours up to the end (at least 1), and each stamp's hour ends by the end |
| CurtailmentEvents.ExpandHoursDropsDays | scripts/correlate_curtailments_multilinear.py:81 | whole days are dropped: an event of one day and two hours from a whole hour yields 2 stamps |
| CurtailmentEvents.ExpandHoursNegative | scripts/correlate_curtailments_multilinear.py:81 | an end one hour before the start's hour yields 23 stamps, since `.seconds` of a negative duration wraps around the day |
| CurtailmentEvents.Stamped | scripts/correlate_curtailments_multilinear.py:84 | the exploded rows of one event are that event at each of its stamps |
| CurtailmentEvents.Explode | scripts/correlate_curtailments_multilinear.py:82-84 | `explode('DATETIME')` holds exactly each event at each of its own stamps |
| CurtailmentEvents.LoadedRowsMeaning | scripts/correlate_curtailments_multilinear.py:43-84 | every loaded row is a complete deduplicated report at one of its own stamps, and its time is on a whole hour |
| CurtailmentEvents.LoadResourceCurtailments | scripts/correlate_curtailments_multilinear.py:43-84 | the load succeeds exactly when some deduplicated report is complete; with none, `apply` on the empty frame gives a frame that cannot be stored as the DATETIME column (:82) |
| CurtailmentEvents.CompleteEmpty | scripts/correlate_curtailments_multilinear.py:62-74 | no complete event is left exactly when no report has both times |
| CurtailmentEvents.StampOnHour | scripts/correlate_curtailments_multilinear.py:78-81 | every stamp lies on a whole hour |
| Imputation.EarliestHour | scripts/correlate_curtailments.py:202 | the minimum DATETIME is the time of some row and no row is earlier |
| Imputation.LatestHour | scripts/correlate_curtailments.py:203 | the maximum DATETIME is the time of some row and no row is later |
| Imputation.GridHours | scripts/correlate_curtailments.py:204 | the hour list has int((max - min)/1 h) entries, the k-th being min + k hours |
| Imputation.ResourceIds | scripts/correlate_curtailments.py:206 | the resource ids crossed with the hours are exactly the ids of the rows |
| Imputation.Cross | scripts/correlate_curtailments.py:206 | the cross merge holds exactly the (hour, id) pairs of the two lists |
| Imputation.GridMeaning | scripts/correlate_curtailments.py:202-206 | a cell (t, id) is on the grid exactly when id is some row's resource and t is a whole hour with min <= t < max: the latest hour itself is excluded |
| Imputation.GridHoursMeaning | scripts/correlate_curtailments.py:202-204 | an hour is listed exactly when it is a whole hour in [min, max) |
| Imputation.Joined | scripts/correlate_curtailments.py:207-211 | the left merge keeps each grid cell's hour and resource |
| Imputation.CellsLength | scripts/correlate_curtailments.py:207-211 | the left merge with the per-(resource, hour) groups keeps one row per grid cell |
| Imputation.CellsMeaning | scripts/correlate_curtailments.py:207-211 | the i-th merged row is the i-th grid cell joined with the group of its (resource, hour), if any |
| Imputation.ReportedCellValues | scripts/correlate_curtailments.py:208 | a reported cell's outage type, nature of work, MW, name and pmax are the last non-null values among that cell's rows |
| Imputation.ReportedCell | scripts/correlate_curtailments.py:207-211 | a cell has a report exactly when some row has its resource and hour |
| Imputation.FirstNameMeaning | scripts/correlate_curtailments.py:213 | `groupby('RESOURCE ID').first()` of the name is the first non-null name of the resource, and is null only when all its names are |
| Imputation.MeanOfConstantPmax | scripts/correlate_curtailments.py:218 | when a resource's non-null pmax values all equal p, their mean is p |
| Imputation.ConstantSum | scripts/correlate_curtailments.py:218 | the sum of a resource's non-null pmax values all equal to p is their count times p |
| Imputation.CountPositive | scripts/correlate_curtailments.py:218 | a resource with a non-null pmax has a positive pmax count |
| Imputation.Backfill | scripts/correlate_curtailments.py:212-221 | the intended backfill: a missing name becomes the resource's first name, a missing pmax its mean pmax, and nothing else changes |
| Imputation.Backfilled | scripts/correlate_curtailments.py:212-221 | the intended backfill applied row by row |
| Imputation.AlignedAsWritten | scripts/correlate_curtailments.py:212-216 | the assignment as written, aligned on index labels of a re-indexed frame: one value per row |
| Imputation.AlignedIntended | scripts/correlate_curtailments.py:212-216 | the assignment as intended: one value per row |
| Imputation.AlignedAgreeOnPrefix | scripts/correlate_curtailments.py:212-221 | as written and as intended agree exactly in the case where the missing rows are the first rows of the frame |
| Imputation.MaskedPrefix | scripts/correlate_curtailments.py:212 | when the missing rows are the first m rows, the masked ids are the first m ids |
| Imputation.BackfillMisaligned | scripts/correlate_curtailments.py:212-216 | with a missing name in row 1 only, the as-written assignment leaves it missing while the intended one fills it |
| Imputation.BackfilledAsWritten | scripts/correlate_curtailments_multilinear.py:280-289 | the backfill as written keeps one row per row |
| Imputation.FillDefaults | scripts/correlate_curtailments.py:223-225 | a missing MW becomes 0, a missing outage type FORCED, a missing nature of work AMBIENT_DUE_TO_TEMP; present values and every other column are unchanged |
| Imputation.FillUnreported | scripts/correlate_curtailments.py:223-225 | in place: every row is replaced by its filled version |
| Imputation.Filled | scripts/correlate_curtailments.py:223-225 | the filled rows, one per row |
| Imputation.UnreportedCell | scripts/correlate_curtailments.py:212-225 | a grid cell with no event gets 0 MW, FORCED and AMBIENT_DUE_TO_TEMP, the resource's first name and mean pmax |
| Imputation.Select | scripts/correlate_curtailments.py:239-241 | the selection keeps exactly the rows with a station link and a reading that are FORCED and AMBIENT_DUE_TO_TEMP |
| Imputation.JoinWeatherMeaning | scripts/correlate_curtailments.py:226-241 | a row is returned exactly when a grid row is FORCED and AMBIENT_DUE_TO_TEMP, a link maps its resource to a station, and that station has a reading at its hour; it carries that reading's dry bulb |
| Imputation.JoinWeatherSound | scripts/correlate_curtailments.py:226-241 | every returned row comes from a surviving grid row, link and reading |
| Imputation.KeptMeaning | scripts/correlate_curtailments.py:239-240 | a kept row has a link and a reading and is FORCED and AMBIENT_DUE_TO_TEMP |
| Imputation.JoinWeatherComplete | scripts/correlate_curtailments.py:226-241 | every surviving combination of grid row, link and reading is returned |
| Imputation.FilledRowOnGrid | scripts/correlate_curtailments.py:204-225 | every filled row is a cell of the grid |
| Imputation.ImputedRowMeaning | scripts/correlate_curtailments.py:192-242 | every row of `impute_zero_curtailments` is a grid cell whose resource's station has a reading at its hour, and its temperature is that reading's dry bulb in degrees |
| Regression.Fit | scripts/correlate_curtailments.py:329-334 | the least-squares fit raises on no rows or on a non-finite value, and otherwise is the given fit of the real points |
| Regression.Reals | scripts/correlate_curtailments.py:329-331 | the finite points as reals, one per point, in order |
| Regression.Percent | scripts/correlate_curtailments.py:271 | PERCENT CURTAILMENT is MW / pmax for a non-zero pmax, NaN for a missing pmax, and for a zero pmax NaN exactly when MW is 0 |
| Regression.UnitTypeFilter | scripts/correlate_curtailments.py:269-270 | an empty unit-type list raises (`reduce` of no masks); otherwise the rows kept are exactly those whose unit type is listed, all rows when no list is given |
| Regression.Prepare | scripts/correlate_curtailments.py:269-275 | preparing the rows raises exactly when the unit-type list is empty |
| Regression.PrepareMeaning | scripts/correlate_curtailments.py:269-275 | a prepared row is exactly a listed merged row with temperature <= 100 and a percent = MW / pmax that is not NaN |
| Regression.JoinReportedMeaning | scripts/correlate_curtailments.py:258-266 | the reported-hours merge holds exactly the hourly rows whose resource is linked to a station with a reading at that hour |
| Regression.Load | scripts/correlate_curtailments.py:250-275 | the saved file is used as read; the imputed path raises exactly on no curtailments or an empty unit-type list; the corrected reported path raises exactly on an empty unit-type list |
| Regression.ReportedPathRaises | scripts/correlate_curtailments.py:267 | as written the reported-hours path always raises (`.loc` given eight bare labels), where the corrected column selection succeeds |
| Regression.FirstUnitType | scripts/correlate_curtailments.py:289-292 | `groupby('RESOURCE ID').first()` of the unit type is the first non-null unit type of the resource's rows, null only when all are null |
| Regression.FitRows | scripts/correlate_curtailments.py:320-322 | a resource's line is fitted to exactly its rows with percent strictly below the maximum |
| Regression.FitResource | scripts/correlate_curtailments.py:318-345 | a resource's fit raises exactly when the fit of its rows does; it records the id, the number of observations, the first unit type and the fit |
| Regression.SurvivingIds | scripts/correlate_curtailments.py:286-315 | the resources of the table are exactly those with a row below 30 %, each once (the inner merges with the correlation drop the others) |
| Regression.ResourceTableMeaning | scripts/correlate_curtailments.py:286-348 | the per-resource table holds each resource with a row below 30 % once, with its observation count, first unit type and the fit of its rows below the maximum |
| Regression.ResourceTableAt | scripts/correlate_curtailments.py:286-348 | the i-th table row belongs to the i-th surviving resource and carries its count, unit type and fit |
| Regression.ResourceTable | scripts/correlate_curtailments.py:300-348 | with no resource surviving the 30 % filter the table raises (KeyError on `level_1`); otherwise it is each surviving resource's fit, and raises when one of them does |
| Regression.NoLowRows | scripts/correlate_curtailments.py:300-305 | no resource survives exactly when no row has a percent below 30 % |
| Regression.ResourceTableRaises | scripts/correlate_curtailments.py:300-346 | building the table raises exactly when no row lies below 30 % (the empty correlation frame has no `level_1` column) or some listed resource has no row below the maximum or a non-finite percent among them |
| Regression.FitResourceRaises | scripts/correlate_curtailments.py:320-332 | one resource's fit raises exactly when it has no row below the maximum or a non-finite percent among them |
| Regression.FitPointsFinite | scripts/correlate_curtailments.py:329-331 | the fit points are finite exactly when the fitted rows' percents are, and empty exactly when there are no fitted rows |
| Regression.ResourceStage | scripts/correlate_curtailments.py:281-283 | a non-empty cached per-resource table is reused as it is; otherwise the table is built |
| Regression.NormalizationRoundTrip | scripts/correlate_curtailments.py:353-356 | with a non-zero slope the normalised temperature Tn = T + (intercept - target)/slope is finite and slope·Tn + target = slope·T + intercept |
| Regression.DegenerateSlopeOutsideWindow | scripts/correlate_curtailments.py:354-369 | a zero or NaN slope gives a non-finite normalised temperature, which the (-1e6, 1e6) window excludes |
| Regression.NormalizeMeaning | scripts/correlate_curtailments.py:350-356 | a normalised row is exactly a row joined with its own resource's line and its normalised temperature |
| Regression.UnitRows | scripts/correlate_curtailments.py:366-380 | a unit type is fitted to exactly its rows with predictor in (-1e6, 1e6), percent below the maximum and resource R² above the minimum, all strict |
| Regression.FitUnitType | scripts/correlate_curtailments.py:364-412 | no rows gives NaN slope, intercept and R² with the run's constants; otherwise the fit succeeds exactly when its points are finite and is the fit of those points |
| Regression.UnitPointsMeaning | scripts/correlate_curtailments.py:366-384 | the unit-type fit points are exactly the (predictor, percent) of the selected rows of that unit type |
| Regression.DegenerateSlopeNotFitted | scripts/correlate_curtailments.py:354-370 | with normalisation, a row whose resource has a zero or NaN slope never enters a unit-type fit |
| Regression.UnitTypes | scripts/correlate_curtailments.py:363 | the unit types of the table are exactly those present, null included, each once |
| Regression.UnitTableMeaning | scripts/correlate_curtailments.py:363-416 | the per-unit-type table has one row per unit type present, in order, each with the run's constants |
| Regression.UnitTableAt | scripts/correlate_curtailments.py:363-416 | the i-th row is the fit of the i-th unit type |
| Regression.UnitTable | scripts/correlate_curtailments.py:363-416 | with no normalised rows the per-unit-type table raises: the scalar MAXIMUM CURTAILMENT cannot be set on a frame without rows (:414) |
| Regression.UnitTableRaises | scripts/correlate_curtailments.py:363-416 | the per-unit-type table raises exactly when there are no normalised rows or some unit type's fit raises |
| Regression.StationIndicatorsRaise | scripts/correlate_curtailments_multilinear.py:436-440 | as written a unit-type fit succeeds only with no selected rows (then NaN), and raises whenever a row is selected, since `if` on a Series raises |
| Regression.StationIndicatorsCounterexample | scripts/correlate_curtailments_multilinear.py:436-454 | a single selected row of a well-fitted resource makes the as-written fit raise, while the corrected fit is the line through that row's raw temperature and percent |
| Regression.ResourceColumns | scripts/correlate_curtailments.py:487 | the indicator columns of a unit type are exactly its resources, each once |
| Regression.Indicators | scripts/correlate_curtailments.py:465-468 | a row's indicators are 1 under its own resource's column and 0 under every other |
| Regression.NoIndicator | scripts/correlate_curtailments.py:465-469 | a resource outside the columns has no indicator set |
| Regression.OneIndicator | scripts/correlate_curtailments.py:465-469 | among distinct columns, a resource of them has exactly one indicator equal to 1 |
| Regression.DesignRowShape | scripts/correlate_curtailments.py:487-498 | a design row has 1 + (resources of the unit type) entries: the temperature, then exactly one 1, under the row's own resource |
| Regression.MultiRows | scripts/correlate_curtailments.py:488-492 | the rows of a multilinear fit are exactly those of the unit type with temperature in (-1e6, 1e6) and percent below the maximum |
| Regression.Design | scripts/correlate_curtailments.py:498-499 | the design holds one (row, percent) pair per selected row, in order |
| Regression.FitMultilinear | scripts/correlate_curtailments.py:459-509 | with the indicator columns missing (cached per-resource table) a unit type with resources raises; with no rows the result is NaN; otherwise the fit succeeds exactly when the percents are finite, and is then the multilinear fit of the design of the selected rows over the unit type's resource columns, with the run's constants |
| Regression.MultiTable | scripts/correlate_curtailments.py:484-534 | no unit-type list raises (`DataFrame` of a scalar None) and an empty list raises (scalar column on a frame without rows, :529); otherwise the table succeeds exactly when every listed unit type fits, and row i is the fit of the i-th listed unit type with the run's constants |
| Regression.MultilinearDesign | scripts/correlate_curtailments.py:487-499 | each design row is a selected row: its temperature, exactly one indicator 1, and its percent |
| Regression.CurtailmentModeller.constructor | scripts/correlate_curtailments.py:244 | a modeller holds the given curtailments, station map and readings and no results yet |
| Regression.CurtailmentModeller.Regress | scripts/correlate_curtailments.py:244-419 | `regress` changes only the result tables: a failed load leaves them as they were, a successful one leaves what the fitting stage specifies |
| Regression.CurtailmentModeller.FitLoaded | scripts/correlate_curtailments.py:281-419 | the fitting part of `regress` leaves the per-resource, per-unit-type and merged tables the specification functions give |
| Regression.CurtailmentModeller.FitUnitTypes | scripts/correlate_curtailments.py:363-419 | the per-unit-type step of `regress`: when the unit-type table raises nothing is stored, otherwise it stores that table and the normalised rows, and no other field changes |
| Regression.CurtailmentModeller.RegressByResource | scripts/correlate_curtailments.py:281-348 | returns the per-resource stage's result and stores the table only when it was built without error; nothing else changes |
| Regression.CurtailmentModeller.MultilinearRegress | scripts/correlate_curtailments.py:421-534 | `multilinear_regress` changes only the result tables, as the multilinear specification gives |
| Regression.CurtailmentModeller.FitMultilinearLoaded | scripts/correlate_curtailments.py:459-534 | the part of `multilinear_regress` after loading leaves the tables the specification functions give |
| DerateForecast.InitialSlopesNegative | scripts/forecast_curtailments.py:13-26 | every configured slope (combined cycle, combustion turbine, steam, reciprocating engine) is negative |
| DerateForecast.GetDerateParameters | scripts/forecast_curtailments.py:76-82 | the parameters are found exactly when the unit type has a slope, the station an intercept for that unit type and a rated temperature (else a KeyError), and are those three entries |
| DerateForecast.Clamp | scripts/forecast_curtailments.py:110 | `max(min(1, x), 0)` lies in [0, 1], is x inside it and the nearer bound outside |
| DerateForecast.Derate | scripts/forecast_curtailments.py:110 | the derate is the line slope·t + intercept cut to [0, 1] |
| DerateForecast.DerateNonIncreasing | scripts/forecast_curtailments.py:110 | with a non-positive slope the derate never rises as the temperature rises |
| DerateForecast.PinnedIntercept | scripts/forecast_curtailments.py:104-105 | the intercept `1 - slope·rated` puts the line at exactly 1 at the rated temperature |
| DerateForecast.PinnedDerateAtRated | scripts/forecast_curtailments.py:98-110 | with a pinned intercept and non-positive slope the derate is 1 at and below the rated temperature |
| DerateForecast.CalculateDerate | scripts/forecast_curtailments.py:108-111 | `calculate_derate` succeeds exactly when the parameters are found, and then lies in [0, 1] |
| DerateForecast.CalculateDerateNonIncreasing | scripts/forecast_curtailments.py:108-111 | with the configured table, a class that can be derated at one temperature can at any higher one, with a derate no larger |
| DerateForecast.Stations | scripts/forecast_curtailments.py:97 | `unique()` of the station ids: exactly the stations with a reading, each once |
| DerateForecast.Least | scripts/forecast_curtailments.py:96-101 | the `.min()` of a non-empty column, whether of daily means (:96) or of years (:101), is one of its values and no larger than any of them under the column's total order |
| DerateForecast.StationYearsNonEmpty | scripts/forecast_curtailments.py:96-101 | a station with a reading has at least one year |
| DerateForecast.StationYearsHas | scripts/forecast_curtailments.py:94-96 | the year of every reading of a station is among the station's years |
| DerateForecast.FirstYearMeaning | scripts/forecast_curtailments.py:101 | a station's first year is no later than any of its readings and is the year of one of them |
| DerateForecast.DayRows | scripts/forecast_curtailments.py:92-96 | a day's group holds exactly the station's readings on that date |
| DerateForecast.FirstYearDaysHas | scripts/forecast_curtailments.py:92-96 | the date of every first-year reading is among the first-year days |
| DerateForecast.FirstYearDaysNonEmpty | scripts/forecast_curtailments.py:96-101 | a station with a reading has a first-year day |
| DerateForecast.DailyMeans | scripts/forecast_curtailments.py:96 | one daily mean per day, in order |
| DerateForecast.FirstYearMeanAt | scripts/forecast_curtailments.py:96-101 | the rated temperature is no larger than the mean of any first-year day |
| DerateForecast.FirstYearDayWitness | scripts/forecast_curtailments.py:92-96 | every first-year day is the date of some first-year reading |
| DerateForecast.RatedTemperatureMeaning | scripts/forecast_curtailments.py:96-101 | the rated temperature is the lowest daily mean temperature of the station's first year: no larger than any such day's mean and equal to one of them |
| DerateForecast.RatedTemperatures | scripts/forecast_curtailments.py:97-102 | a rated temperature for exactly the stations with readings, each that station's |
| DerateForecast.PinStations | scripts/forecast_curtailments.py:97-106 | pinning stations in turn keeps the slopes |
| DerateForecast.PinStationsMeaning | scripts/forecast_curtailments.py:97-106 | after pinning the first n stations, they and only they gain new entries (their rated temperature and the two pinned intercepts), and every other entry is as before |
| DerateForecast.PinnedEntryMeaning | scripts/forecast_curtailments.py:103-110 | a pinned station has intercepts for just the two derated unit types, and both derate to 1 at its rated temperature |
| DerateForecast.PinInterceptsMeaning | scripts/forecast_curtailments.py:84-106 | `calculate_derate_intercepts` keeps the slopes, adds entries for exactly the stations with readings and leaves every other station's entries as they were |
| DerateForecast.PinnedStationEntry | scripts/forecast_curtailments.py:101-106 | each station with readings gets its own rated temperature and the intercepts pinned to it |
| DerateForecast.PinnedStationMeaning | scripts/forecast_curtailments.py:84-110 | after pinning, both unit types derate to exactly 1 at each station's rated temperature |
| DerateForecast.DerateRowOf | scripts/forecast_curtailments.py:115-121 | a derate row succeeds exactly when both unit types can be derated at the station, and keeps the station, time and temperature beside the two derates |
| DerateForecast.SaveDerates | scripts/forecast_curtailments.py:124-137 | `save_derates` raises exactly when the derates were never computed or the unit type names no derate column, and otherwise writes `{unit}-{station}_{year}.csv` |
| DerateForecast.SaveDeratesMeaning | scripts/forecast_curtailments.py:125-137 | the profile holds a row for each derate of that station and year and no other, named "unit station", never randomised, with an hour of the year between 1 and 24·days |
| DerateForecast.HistoricRunDeratesDefined | scripts/forecast_curtailments.py:142-146 | in the historic run every reading gets both derates, and both are 1 at its station's rated temperature |
| Forecaster.PinAll | scripts/forecast_curtailments.py:97-106 | the station loop leaves the table that pinning every station gives |
| Forecaster.DerateForecaster.constructor | scripts/forecast_curtailments.py:71-74 | a forecaster shares the class-level parameter table (:13) given to it, holds the given weather and no derates |
| Forecaster.ParameterStore.constructor | scripts/forecast_curtailments.py:13-69 | the class-level `derate_parameters` table starts as the configured table |
| Forecaster.DerateForecaster.CalculateDerateIntercepts | scripts/forecast_curtailments.py:84-106 | the shared class-level parameter table becomes the pinned table of the weather, so every forecaster sharing it sees the new intercepts; the forecaster's own fields are unchanged |
| Forecaster.DerateForecaster.CalculateDerates | scripts/forecast_curtailments.py:113-122 | reads the shared parameter table without changing it; succeeds exactly when every reading can be derated, and then stores one derate row per reading, in order; on failure no derates are stored |
| CurtailmentReports.StampRoundTrip | scripts/retrieve_caiso_curtailments.py:34-48 | a valid date with a four-digit year is read back from its `%Y%m%d` or `%Y-%m-%d` stamp |
| CurtailmentReports.UrlRoundTrip | scripts/retrieve_caiso_curtailments.py:23-34 | the report URL of a date names that date: the date is recovered from the URL |
| CurtailmentReports.PathRoundTrip | scripts/retrieve_caiso_curtailments.py:36-48 | the report path of a date lies in the download directory and its file name gives the date back |
| CurtailmentReports.PathByDateInjective | scripts/retrieve_caiso_curtailments.py:36-48 | two dates with the same report path are the same date |
| CurtailmentReports.DayInstant | scripts/retrieve_caiso_curtailments.py:104 | `fromordinal` of a day number is midnight of that day |
| CurtailmentReports.DownloadStatus | scripts/retrieve_caiso_curtailments.py:62-66 | the documented status of a download is 1 exactly when the site answered 200, and -1 otherwise |
| CurtailmentReports.ReturnedCodeAsWritten | scripts/retrieve_caiso_curtailments.py:87 | the value returned after a download is none of the documented statuses 1, 0 and -1 |
| CurtailmentReports.DownloadReturnMisreports | scripts/retrieve_caiso_curtailments.py:62-87 | a download answered with 200 is not reported as 1: the returned `c.RESPONSE_CODE` differs from the documented status |
| CurtailmentReports.CurtailmentDownloader.constructor | scripts/retrieve_caiso_curtailments.py:15-21 | a downloader holds the given download directory, the log as loaded and the directory's files |
| CurtailmentReports.CurtailmentDownloader.DownloadReport | scripts/retrieve_caiso_curtailments.py:50-87 | a date already in the log returns 0 and changes nothing; otherwise the response body is written to the date's path, the date is logged with that path and the status is 1 for 200 and -1 otherwise; afterwards the date is logged, and a log without repeated dates keeps none |
| CurtailmentReports.CurtailmentDownloader.DownloadAll | scripts/retrieve_caiso_curtailments.py:89-106 | every day from 18 June 2021 up to but not including today ends up logged; the old log is kept as a prefix, each new entry is a midnight in that range, and dates stay distinct |
| CurtailmentReports.CurtailmentDownloader.ExtractByColumns | scripts/retrieve_caiso_curtailments.py:111-163 | `extract_by_columns` returns the matching records of the logged files (all of them, or those of the given dates), as the extraction function gives |
| CurtailmentReports.CurtailmentDownloader.ExtractAll | scripts/retrieve_caiso_curtailments.py:165-232 | `extract_all` reads the first min(dates, paths) pairs zipped together, as the extraction function gives, and no dates give no rows |
| CurtailmentReports.CurtailmentDownloader.CalculateMonthlyOutageRates | scripts/retrieve_caiso_curtailments.py:234-270 | the monthly rates are computed from the forced-outage records of the logged files of the month's days, failing as the rates do when no listed resource has an outage |
| CurtailmentReports.IndexOf | scripts/retrieve_caiso_curtailments.py:215 | `list.index`: the first position holding the value, none exactly when it is absent |
| CurtailmentReports.Project | scripts/retrieve_caiso_curtailments.py:154 | a record holds the cells at columns 1, 2, 4, 5, 6, 7, 8, 9, 10 and 12 of the row, in that order |
| CurtailmentReports.SheetMatchesMeaning | scripts/retrieve_caiso_curtailments.py:152-162 | a record is extracted from a sheet exactly when it is the projection of a non-empty row from row 11 on that matches every key-value pair |
| CurtailmentReports.NoFiltersKeepAll | scripts/retrieve_caiso_curtailments.py:159-162 | with no key-value pairs every non-empty data row is kept |
| CurtailmentReports.ExtractedByColumnsOk | scripts/retrieve_caiso_curtailments.py:141-163 | extraction succeeds exactly when every file is present and, when there is a file, every filter names a known column |
| CurtailmentReports.ExtractedByColumnsMeaning | scripts/retrieve_caiso_curtailments.py:141-163 | on success, a record is extracted exactly when it is the projection of a non-empty data row of one of the files that matches every pair |
| CurtailmentReports.ReadMatchingRows | scripts/retrieve_caiso_curtailments.py:152-162 | the row loop yields the sheet's matching records, in order |
| CurtailmentReports.ExtractedByColumnsErr | scripts/retrieve_caiso_curtailments.py:145-162 | once reading a file has failed, reading more files fails the same way |
| CurtailmentReports.SearchFromMeaning | scripts/retrieve_caiso_curtailments.py:207-213 | the header search from row n stops at the first row naming OUTAGE MRID, or past row 100 |
| CurtailmentReports.HeaderRowMeaning | scripts/retrieve_caiso_curtailments.py:207-213 | the header row is the first of rows 1-100 naming OUTAGE MRID, and 101 when none does |
| CurtailmentReports.FindHeaderRow | scripts/retrieve_caiso_curtailments.py:207-213 | the search loop returns the header row number and that row |
| CurtailmentReports.Positions | scripts/retrieve_caiso_curtailments.py:215 | one position per column name |
| CurtailmentReports.ColumnPositions | scripts/retrieve_caiso_curtailments.py:178-193 | one position per expected column, fourteen in all |
| CurtailmentReports.PositionsAt | scripts/retrieve_caiso_curtailments.py:215 | each name's position is the first index of it in the header |
| CurtailmentReports.ColumnPositionsMeaning | scripts/retrieve_caiso_curtailments.py:215 | a column's position is absent exactly when the header lacks it, and otherwise is its first occurrence |
| CurtailmentReports.ReadRecord | scripts/retrieve_caiso_curtailments.py:219-223 | a record holds, per column, the cell at its position, or None where the header lacks it |
| CurtailmentReports.DataRecordsMeaning | scripts/retrieve_caiso_curtailments.py:217-223 | a record is read exactly when it comes from a non-empty row after the header |
| CurtailmentReports.DataRecordsWidth | scripts/retrieve_caiso_curtailments.py:219-223 | every record read has one value per expected column |
| CurtailmentReports.ReadDataRows | scripts/retrieve_caiso_curtailments.py:217-223 | the row loop yields the data records, in order |
| CurtailmentReports.TradeDayWindow | scripts/retrieve_caiso_curtailments.py:226-228 | the trade day runs from midnight of the effective date to 23:59:59 of the same date |
| CurtailmentReports.ClipRecord | scripts/retrieve_caiso_curtailments.py:226-228 | a clipped start is the later of the start and midnight; a clipped end is the earlier of the end and 23:59:59, and 23:59:59 when missing; other columns are untouched |
| CurtailmentReports.AnyStartMeaning | scripts/retrieve_caiso_curtailments.py:226 | some record has a start value exactly when one of them does at some position |
| CurtailmentReports.ClipEachMeaning | scripts/retrieve_caiso_curtailments.py:226-228 | clipping succeeds exactly when every start and end is a date-time or missing, and then clips each record |
| CurtailmentReports.ClipToTradeDayMeaning | scripts/retrieve_caiso_curtailments.py:226-228 | clipping a report succeeds exactly when all starts and ends are date-times or missing and, for a non-empty report, some start is present; then every record is clipped into the trade day |
| CurtailmentReports.ExtractedAllErr | scripts/retrieve_caiso_curtailments.py:199-229 | once a report has failed, reading more reports fails the same way |
| CurtailmentReports.ReportRecordsInTradeDay | scripts/retrieve_caiso_curtailments.py:207-229 | every record read from a report lies in its effective date's trade day |
| CurtailmentReports.ClippedInTradeDay | scripts/retrieve_caiso_curtailments.py:226-228 | a clipped record lies in the trade day |
| CurtailmentReports.ExtractedAllInTradeDays | scripts/retrieve_caiso_curtailments.py:199-229 | every extracted record lies in the trade day of one of the dates read |
| CurtailmentReports.ReadReport | scripts/retrieve_caiso_curtailments.py:204-231 | one report is read as the report function gives: no rows when no header is found in rows 1-99 |
| CurtailmentReports.ReadReports | scripts/retrieve_caiso_curtailments.py:199-229 | the zip loop reads each (date, path) pair in turn, stopping at the shorter list |
| CurtailmentReports.ReadPair | scripts/retrieve_caiso_curtailments.py:199-229 | reading one more pair extends the result as the extraction function gives |
| CurtailmentReports.MonthFirst | scripts/retrieve_caiso_curtailments.py:235 | the first of the month of an instant is a valid date in its year and month |
| CurtailmentReports.NextMonthFirst | scripts/retrieve_caiso_curtailments.py:236 | the first of the next month, December rolling into January, lies DaysInMonth days after the first of this month |
| CurtailmentReports.StartOfMonth | scripts/retrieve_caiso_curtailments.py:235 | the start of the month is midnight of its first day, no later than the instant |
| CurtailmentReports.MonthOrder | scripts/retrieve_caiso_curtailments.py:235-236 | start of month <= instant < end of month |
| CurtailmentReports.EndOfMonthDate | scripts/retrieve_caiso_curtailments.py:236 | at midnight the end of month is the month's last day at 23:59:59.999999; off midnight it falls on the first of the next month, a microsecond before the instant's time of day |
| CurtailmentReports.EffectiveDates | scripts/retrieve_caiso_curtailments.py:237 | the effective dates are the consecutive days from the first of the month up to the end-of-month day |
| CurtailmentReports.EffectiveDayBound | scripts/retrieve_caiso_curtailments.py:236-237 | the end-of-month day is between 1 and the month's length |
| CurtailmentReports.MonthDays | scripts/retrieve_caiso_curtailments.py:237 | n consecutive days from the first of the month |
| CurtailmentReports.MonthDuration | scripts/retrieve_caiso_curtailments.py:238 | the month's duration covers start to end of month and at least a day less a microsecond |
| CurtailmentReports.MonthAtMidnight | scripts/retrieve_caiso_curtailments.py:235-238 | for a midnight instant the end of month is the month's last moment, the dates are all the month's days and the duration is its length in days less a microsecond |
| CurtailmentReports.MonthOffMidnight | scripts/retrieve_caiso_curtailments.py:235-238 | for an instant off midnight the end of month falls on the next month's first day, the only date read is the first of the month, and the duration is a day longer |
| CurtailmentReports.ForcedOutagesInMonth | scripts/retrieve_caiso_curtailments.py:241-251 | the outages kept lie within the month, and are forced when the records are |
| CurtailmentReports.ConvertedReports | scripts/retrieve_caiso_curtailments.py:244 | after `dropna` every report has a start and an end, and forced records stay forced |
| CurtailmentReports.ClampedWithin | scripts/retrieve_caiso_curtailments.py:247-248 | truncation puts every start and end within the month and keeps the outage type |
| CurtailmentReports.DedupWithin | scripts/retrieve_caiso_curtailments.py:251 | keeping the last report per (MRID, start) keeps them within the month |
| CurtailmentReports.DedupForced | scripts/retrieve_caiso_curtailments.py:251 | keeping the last report per (MRID, start) keeps them forced |
| CurtailmentReports.RowOfMeaning | scripts/retrieve_caiso_curtailments.py:264-266 | the rate by time is the total outage time over the month's duration and at most the number of outages; the rate by MWh is NaN without a capacity and MWh over capacity·hours otherwise |
| CurtailmentReports.RatesOfMeaning | scripts/retrieve_caiso_curtailments.py:258-263 | the table holds exactly the listed resources that had an outage, each with its own rate row, once per listing and in list order; the inner merges drop resources without one |
| CurtailmentReports.RatesOfEmpty | scripts/retrieve_caiso_curtailments.py:258-267 | the merged rate table is empty exactly when no listed resource had an outage |
| CurtailmentReports.TotalTimeBound | scripts/retrieve_caiso_curtailments.py:256-261 | the total outage time of outages within [lo, hi] is at most their number times hi - lo |
| CurtailmentReports.RateOfMeaning | scripts/retrieve_caiso_curtailments.py:256-267 | a resource's row carries its id and the month, a time rate that is its total time over the month's duration, and the MWh rate over capacity |
| CurtailmentReports.OutageRatesMeaning | scripts/retrieve_caiso_curtailments.py:244-270 | the rates succeed exactly when the forced outages can be read and some listed resource has one (with none, the scalar MONTH cannot be set on the empty frame, :267); each row is a listed resource with an outage, in the month, with a time rate no larger than its number of outages; every listed resource with an outage has a row and no other does |
| CurtailmentReports.RatioBound | scripts/retrieve_caiso_curtailments.py:265 | total/duration times duration is total, and at most n when the total is at most n spans no longer than the duration |
| CurtailmentReports.ProductNonZero | scripts/retrieve_caiso_curtailments.py:266 | a non-zero capacity times a positive number of hours is non-zero |
| CurtailmentReports.ForcedFilterKeepsForced | scripts/retrieve_caiso_curtailments.py:241 | every record kept by the FORCED filter has OUTAGE TYPE FORCED |
| CurtailmentReports.CellEqualsText | scripts/retrieve_caiso_curtailments.py:161 | a cell equals a text exactly when it holds that text |
| CurtailmentReports.OutageTypeColumn | scripts/retrieve_caiso_curtailments.py:128-139 | OUTAGE TYPE is the fourth extracted column |
| CurtailmentReports.MonthlyOutagesForcedInMonth | scripts/retrieve_caiso_curtailments.py:241-251 | every outage counted for the month is forced and lies within the month |
| UnforcedOutage.FirstMonthMeaning | scripts/thermal_resources_ucap.py:101-106 | the first full month is the start-up time itself on the 1st of a month (any time of day), and otherwise the 1st of the next month at the same time of day; applying it again changes nothing |
| UnforcedOutage.NextMonthBeginMeaning | scripts/thermal_resources_ucap.py:103 | `t + MonthEnd(0) + 1 day` is the 1st of the following month at t's time of day, after t |
| UnforcedOutage.FirstMonthEarliest | scripts/thermal_resources_ucap.py:101-106 | no instant at the same time of day between the start-up and its first full month falls on a 1st |
| UnforcedOutage.BlockLength | scripts/thermal_resources_ucap.py:146 | an n-minute block is a positive, even number of microseconds |
| UnforcedOutage.DivUnique | scripts/thermal_resources_ucap.py:146 | quotient and remainder are unique (the basis of the rounding proofs) |
| UnforcedOutage.MulLe | scripts/thermal_resources_ucap.py:146 | multiplying by a non-negative block length keeps order |
| UnforcedOutage.RoundToMultipleMeaning | scripts/thermal_resources_ucap.py:146-150 | `round` gives the nearest multiple of the block, ties to the even multiple, and leaves a multiple unchanged |
| UnforcedOutage.RoundToBlockMeaning | scripts/thermal_resources_ucap.py:146-150 | `round(f'{n}min')` gives the nearest n-minute boundary, ties to even, unchanged on a boundary |
| UnforcedOutage.RoundToMultipleMonotone | scripts/thermal_resources_ucap.py:146-151 | rounding never reverses the order of two instants |
| UnforcedOutage.RoundBetween | scripts/thermal_resources_ucap.py:146 | a rounded instant lies between the block boundaries on either side of it |
| UnforcedOutage.RoundSameQuotient | scripts/thermal_resources_ucap.py:146 | two instants in the same block round in order |
| UnforcedOutage.RoundToBlockMonotone | scripts/thermal_resources_ucap.py:146-151 | rounding to n-minute blocks keeps the order of instants |
| UnforcedOutage.Blocks | scripts/thermal_resources_ucap.py:153 | the expansion holds exactly the requested number of blocks |
| UnforcedOutage.BlockSeconds | scripts/thermal_resources_ucap.py:153 | k whole blocks hold k·60·n whole seconds, so they count as k blocks |
| UnforcedOutage.BlocksOfMultiples | scripts/thermal_resources_ucap.py:153 | blocks start at the rounded start and follow one another a block apart, each on a boundary |
| UnforcedOutage.ExpandHoursMeaning | scripts/thermal_resources_ucap.py:144-153 | with the whole rounded duration counted, the blocks start at the rounded start, are consecutive and end exactly at the rounded end (one block when the end is not later) |
| UnforcedOutage.WholeBlocks | scripts/thermal_resources_ucap.py:152-153 | a duration between two boundaries is a whole number of blocks |
| UnforcedOutage.BlockCountAsWrittenBound | scripts/thermal_resources_ucap.py:153 | counting from `delta.seconds` never gives more than a day's blocks, and agrees with the whole count for outages under a day |
| UnforcedOutage.ExpandHoursAsWrittenMeaning | scripts/thermal_resources_ucap.py:144-153 | as written, an outage never yields more than a day of blocks, and the expansion is the intended one for outages shorter than a day |
| UnforcedOutage.WholeDayOutageAsWritten | scripts/thermal_resources_ucap.py:152-153 | a 24-hour outage yields one 5-minute block as written, where the whole duration gives 288 |
| UnforcedOutage.StorageUnitsMeaning | scripts/thermal_resources_ucap.py:82-106 | the units are exactly the LESR resources with a start-up date, each with its capacity and first full month |
| UnforcedOutage.KeyedCurtailments | scripts/thermal_resources_ucap.py:129 | each report is keyed by (resource, MRID, type, nature of work, start), and every report with a full key is present |
| UnforcedOutage.LatestReportsMeaning | scripts/thermal_resources_ucap.py:129 | the deduplicated reports are in ascending key order, and every report with a full key has one of its key |
| UnforcedOutage.MaxSomeMeaning | scripts/thermal_resources_ucap.py:133 | `max()` skipping NaT is one of the values and no smaller than any, none only when all are NaT |
| UnforcedOutage.MinSomeMeaning | scripts/thermal_resources_ucap.py:258 | `min()` skipping NaT is one of the values and no larger than any, none only when all are NaT |
| UnforcedOutage.LastFullMonthMeaning | scripts/thermal_resources_ucap.py:134-137 | the last full month ends on its month's last day at 23:59:59: t's own date when t is a month end, otherwise the last day of the month before |
| UnforcedOutage.BlocksOf | scripts/thermal_resources_ucap.py:144-155 | a report explodes into one row per block, each carrying the report's fields and its unit's first month and capacity |
| UnforcedOutage.ExplodeMeaning | scripts/thermal_resources_ucap.py:154-155 | the exploded rows are exactly the block rows of the reports |
| UnforcedOutage.KeyedBlocks | scripts/thermal_resources_ucap.py:156-165 | each block row with a first month is keyed by (resource, MRID, type, nature, first month, block time); rows without a unit drop out |
| UnforcedOutage.LatestBlockKeys | scripts/thermal_resources_ucap.py:156-165 | each kept block sits under its own key |
| UnforcedOutage.LatestBlocksOrdered | scripts/thermal_resources_ucap.py:156-165 | the kept blocks are in ascending key order, one per key |
| UnforcedOutage.LatestBlocksCover | scripts/thermal_resources_ucap.py:156-165 | every block row with a unit has a kept block of its key |
| UnforcedOutage.LatestBlocksFrom | scripts/thermal_resources_ucap.py:156-165 | every kept block comes from some block row with a unit |
| UnforcedOutage.Window | scripts/thermal_resources_ucap.py:173-177 | the window keeps exactly the blocks from the unit's first month up to the bound |
| UnforcedOutage.LastDateDropsBlocks | scripts/thermal_resources_ucap.py:173-177 | a block after `last_date` but within the last full month is dropped as written, and kept with `last_datetime` |
| UnforcedOutage.ForcedBlocks | scripts/thermal_resources_ucap.py:200 | exactly the FORCED blocks are kept |
| UnforcedOutage.PlannedNeverPresent | scripts/thermal_resources_ucap.py:200-201 | PLANNED rows are selected from an already FORCED-only frame, so there are never any |
| UnforcedOutage.FillNaN | scripts/thermal_resources_ucap.py:218-219 | `fillna` leaves a number as it is and replaces NaN |
| UnforcedOutage.EfdhMeaning | scripts/thermal_resources_ucap.py:209-218 | EFDH·NDC is the block's hours times MW; a block curtailing the whole capacity counts its full length; a missing MW or NDC counts 0 |
| UnforcedOutage.MonthHoursMeaning | scripts/thermal_resources_ucap.py:213 | from the 1st of a month, the month's hours are 24 times its days |
| UnforcedOutage.MonthOfBlock | scripts/thermal_resources_ucap.py:204 | a block's month is midnight on the 1st of its own month |
| UnforcedOutage.KeyedDerates | scripts/thermal_resources_ucap.py:204-251 | each forced block becomes one row, in order, under the block's own (resource, outage type, nature of work, month) key |
| UnforcedOutage.DerateKeyOf | scripts/thermal_resources_ucap.py:230-251 | a block's row carries the block's own grouping key |
| UnforcedOutage.KeyedDeratesKeys | scripts/thermal_resources_ucap.py:230-251 | each keyed row sits under its own row's key |
| UnforcedOutage.GroupSums | scripts/thermal_resources_ucap.py:230-251 | the `.sum()` of a group adds exactly the EFDH and the EFOR of that key's rows; a key without rows sums to 0 |
| UnforcedOutage.GroupedSums | scripts/thermal_resources_ucap.py:230-251 | every summed row sits under its own key, holds that key's summed EFDH and EFOR, and the rows ascend by key |
| UnforcedOutage.GroupedRowKeys | scripts/thermal_resources_ucap.py:230-251 | the summed rows' keys are exactly the keys of the keyed rows |
| UnforcedOutage.KeyedBlockKeys | scripts/thermal_resources_ucap.py:230-251 | the keyed rows' keys are exactly the (resource, outage type, nature of work, month) keys of the forced blocks |
| UnforcedOutage.MonthlyKeys | scripts/thermal_resources_ucap.py:230-251 | the monthly rows' keys are exactly the (resource, outage type, nature of work, month) keys of the forced blocks |
| UnforcedOutage.DerateOfForced | scripts/thermal_resources_ucap.py:204-227 | a forced block's row is forced, on the 1st of a month, with all the month's hours available |
| UnforcedOutage.MonthlyDeratesMeaning | scripts/thermal_resources_ucap.py:230-251 | every summed monthly row is a forced month row; the rows ascend by key; each row's EFDH and EFOR are the sums over its key's blocks; and the rows' keys are exactly the forced blocks' keys |
| UnforcedOutage.MonthIndexOf | scripts/thermal_resources_ucap.py:260 | the month index of an instant is `year*12 + month - 1`, from January 1970 on |
| UnforcedOutage.MonthStartOfIndexMeaning | scripts/thermal_resources_ucap.py:260 | `ts(int(x/12), x%12+1, 1)` is midnight on a 1st whose month index is x |
| UnforcedOutage.IndexedLength | scripts/thermal_resources_ucap.py:260 | a `range(lo, hi)` list has hi - lo elements, none when hi <= lo |
| UnforcedOutage.IndexedMeaning | scripts/thermal_resources_ucap.py:260 | a list over `range(lo, hi)` holds f(lo + k) at k |
| UnforcedOutage.DateRangeMeaning | scripts/thermal_resources_ucap.py:260 | the date range holds the 1st of each month from index lo up to hi - 1 |
| UnforcedOutage.FirstDatetime | scripts/thermal_resources_ucap.py:256-259 | the first month of the range is the later of the unit's first month and the 1st after the earliest start |
| UnforcedOutage.MonthRowsMeaning | scripts/thermal_resources_ucap.py:260-262 | exploding a unit's range gives one row per month from lo to hi - 1, or one row with no month when the range is empty |
| UnforcedOutage.MonthRowsIndex | scripts/thermal_resources_ucap.py:260-262 | every month row of a unit is the 1st of a month in its range |
| UnforcedOutage.DateRangeAt | scripts/thermal_resources_ucap.py:260 | the i-th date is the 1st of month lo + i |
| UnforcedOutage.MonthRowsMonths | scripts/thermal_resources_ucap.py:260-262 | every month in a unit's rows is midnight on a 1st, in its range |
| UnforcedOutage.UnitMonthsMeaning | scripts/thermal_resources_ucap.py:254-262 | the (resource, month) rows are exactly the month rows of the complete units (`dropna` drops the others) |
| UnforcedOutage.UnitMonthRow | scripts/thermal_resources_ucap.py:254-262 | every (resource, month) row belongs to a complete unit and a month in its range |
| UnforcedOutage.UnitMonthOf | scripts/thermal_resources_ucap.py:254-262 | every month in a complete unit's range has a row |
| UnforcedOutage.RateRowsSound | scripts/thermal_resources_ucap.py:263-264 | after the left merge every row's EFOR is a number: the matched monthly row's EFOR with NaN as 0, or 0 with no match |
| UnforcedOutage.RateRowsMatched | scripts/thermal_resources_ucap.py:263-264 | a (resource, month) with a monthly row gets that row's EFOR |
| UnforcedOutage.RateRowsUnmatched | scripts/thermal_resources_ucap.py:263-264 | a (resource, month) with no monthly row gets EFOR 0 |
| UnforcedOutage.LastDatetimeMeaning | scripts/thermal_resources_ucap.py:133-137 | there is no last full month when no report has an end, there is one when some end is late enough, and it falls on a month's last day no later than some end |
| UnforcedOutage.IntendedWindowKeeps | scripts/thermal_resources_ucap.py:173-177 | bounded by `last_datetime`, the window keeps every block from the unit's first month up to the last full month |
| UnforcedOutage.DerateMonthAtMost | scripts/thermal_resources_ucap.py:204 | a block's month starts no later than the block |
| UnforcedOutage.MonthlyDeratesWithin | scripts/thermal_resources_ucap.py:204-251 | no monthly row starts after the last block it sums |
| UnforcedOutage.DeratesWithin | scripts/thermal_resources_ucap.py:173-251 | no monthly row starts after the window's bound |
| UnforcedOutage.RatesOutcome | scripts/thermal_resources_ucap.py:254-266 | the calculation succeeds exactly when some report is left (else `apply` on the empty frame raises at :154), some storage unit is complete (else the same at :261) and there is a last full month; no report end makes it fail; a complete unit and a late enough report end make it succeed |
| UnforcedOutage.RatesFromOutcome | scripts/thermal_resources_ucap.py:254-266 | the same outcome (with the raise at :154), as an if-and-only-if over the intermediate frames |
| UnforcedOutage.DeratesShape | scripts/thermal_resources_ucap.py:200-251 | every monthly row is a forced month row |
| UnforcedOutage.RatesFromRows | scripts/thermal_resources_ucap.py:254-266 | every result row belongs to a complete unit and a month of its range, with a numeric EFOR taken from its matched monthly row or 0 |
| UnforcedOutage.RatesRows | scripts/thermal_resources_ucap.py:58-266 | every row of the result has a numeric EFOR for the 1st of a month: the matched forced month row's EFOR, NaN as 0, or 0 when unmatched |
| UnforcedOutage.RatesRowUnit | scripts/thermal_resources_ucap.py:254-266 | every row belongs to a complete storage unit and a month from its first month to the last full month |
| UnforcedOutage.RatesFromCover | scripts/thermal_resources_ucap.py:254-266 | every month of every complete unit's range has a row, from the intermediate frames |
| UnforcedOutage.RateRowOf | scripts/thermal_resources_ucap.py:263 | every (resource, month) row has a result row |
| UnforcedOutage.RatesCover | scripts/thermal_resources_ucap.py:254-266 | every complete storage unit has a row for every month from its first month to the last full month |
| UnforcedOutage.CalculateUnforcedOutageRates | scripts/thermal_resources_ucap.py:58-266 | the step-by-step calculation gives exactly the rates the specification functions define, including the ValueError on no reports or no complete unit |
| StationSelection.StationRows | scripts/select_weather_stations.py:121-136 | one station's rows of the cross merge: one per resource, in order, with that pair's distance and no rank yet |
| StationSelection.Cross | scripts/select_weather_stations.py:121-136 | `merge(how='cross')` holds exactly the (station, resource) pairs with their distances |
| StationSelection.CrossNoRepeats | scripts/select_weather_stations.py:121 | with distinct stations and distinct resources no pair appears twice |
| StationSelection.CrossFilter | scripts/select_weather_stations.py:141-146 | keeping the rows of some stations is the cross merge of just those stations |
| StationSelection.Rerank | scripts/select_weather_stations.py:137-147 | re-ranking keeps every row and only sets its rank within its resource |
| StationSelection.RankOneNearest | scripts/select_weather_stations.py:137 | `rank(method='first')` is 1 exactly when no row of the same resource ranks ahead of it |
| StationSelection.RankOneMeaning | scripts/select_weather_stations.py:137 | a row ranks 1 exactly when it is strictly nearer than every other row of its resource, or equally near and earlier |
| StationSelection.SubsetCard | scripts/select_weather_stations.py:137 | a subset has no more elements (the counting behind ranks) |
| StationSelection.NearestExists | scripts/select_weather_stations.py:137 | every resource present has a rank-1 row |
| StationSelection.RerankRanked | scripts/select_weather_stations.py:137-147 | after re-ranking, each resource present has exactly one rank-1 row and it is no farther than any of its rows |
| StationSelection.RankedFilter | scripts/select_weather_stations.py:141 | dropping rows that are not nearest keeps the ranking valid |
| StationSelection.UnrankedFilter | scripts/select_weather_stations.py:146 | filtering by station commutes with forgetting the rank |
| StationSelection.RerankUnranked | scripts/select_weather_stations.py:147 | re-ranking changes nothing but the ranks |
| StationSelection.MaxOf | scripts/select_weather_stations.py:138-148 | `max()` of the nearest distances is one of them and no smaller than any, NaN for none |
| StationSelection.Fewest | scripts/select_weather_stations.py:144-145 | the station with the fewest nearest resources, ties to the smallest id |
| StationSelection.Unfit | scripts/select_weather_stations.py:145 | as written, `.count().reset_index().min()` takes the column-wise minimum: the smallest station id among the nearest stations; as intended, the station with the fewest nearest resources |
| StationSelection.NearestOfSix | scripts/select_weather_stations.py:145 | (a step of the witness SmallestIdNotFewest) the rank-1 rows of a six-row frame are those with rank 1, in order |
| StationSelection.NearestOfFive | scripts/select_weather_stations.py:145 | (a step of the witness SmallestIdNotFewest) the rank-1 rows of a five-row frame are those with rank 1, in order |
| StationSelection.CountsOfThree | scripts/select_weather_stations.py:145 | (a step of the witness SmallestIdNotFewest) counting nearest rows per station in a three-row frame |
| StationSelection.SmallestIdNotFewest | scripts/select_weather_stations.py:142-146 | with A nearest for two resources and B for one, the code drops A (the smallest id) where the comment says to drop B (the fewest) |
| StationSelection.NearestStations | scripts/select_weather_stations.py:139-140 | the nearest stations are exactly those that are rank 1 for some resource |
| StationSelection.CardNoRepeats | scripts/select_weather_stations.py:144 | a list without repeats has as many distinct elements as entries |
| StationSelection.NoRepeatsWithin | scripts/select_weather_stations.py:144 | a list without repeats contained in another is no longer |
| StationSelection.CrossRow | scripts/select_weather_stations.py:141-147 | every row of the working frame pairs a kept station with a resource at its distance |
| StationSelection.CrossAt | scripts/select_weather_stations.py:141-147 | every kept station and resource have their row |
| StationSelection.CrossStations | scripts/select_weather_stations.py:144 | with resources present, the frame's stations are exactly the kept ones |
| StationSelection.StationCount | scripts/select_weather_stations.py:144 | `len(unique())` of the frame's stations is the number of kept stations, 0 without resources |
| StationSelection.DropOne | scripts/select_weather_stations.py:146 | dropping one kept station leaves one station fewer, still without repeats |
| StationSelection.RankingCross | scripts/select_weather_stations.py:137 | the initial ranking is the cross merge with ranks |
| StationSelection.NearestFilterCross | scripts/select_weather_stations.py:139-141 | restricting to the nearest stations gives the cross merge of those stations |
| StationSelection.NearestFilterRanked | scripts/select_weather_stations.py:138-141 | the restricted frame stays validly ranked and has the same largest nearest distance |
| StationSelection.NearestNonEmpty | scripts/select_weather_stations.py:139-140 | with some station and some resource, some station is nearest |
| StationSelection.RerankSource | scripts/select_weather_stations.py:147 | every re-ranked row is a row of the frame with a new rank |
| StationSelection.RerankCovers | scripts/select_weather_stations.py:147 | every resource of the frame has a nearest row after re-ranking |
| StationSelection.MaxAtLeast | scripts/select_weather_stations.py:148 | every nearest distance is at most the recorded maximum |
| StationSelection.MaxAttained | scripts/select_weather_stations.py:148 | the recorded maximum is the distance of some nearest row |
| StationSelection.MaxGrows | scripts/select_weather_stations.py:146-148 | dropping a station never lowers the largest nearest distance |
| StationSelection.EliminationStep | scripts/select_weather_stations.py:144-148 | one pass drops a kept station, leaves a valid ranked cross of the others, and the recorded maximum does not fall |
| StationSelection.OnlyOne | scripts/select_weather_stations.py:149 | a list without repeats whose elements are all q has one element |
| StationSelection.NearestPaired | scripts/select_weather_stations.py:149 | each returned pair is a rank-1 row of a kept station and a resource, and no kept station is nearer to that resource |
| StationSelection.FrameNoRepeats | scripts/select_weather_stations.py:141-147 | the working frame has no repeated row |
| StationSelection.OneNearestFor | scripts/select_weather_stations.py:149 | with a station left, a resource has exactly one returned pair |
| StationSelection.OneNearestEach | scripts/select_weather_stations.py:149 | with a station left, every resource has exactly one returned pair |
| StationSelection.AscendingAppend | scripts/select_weather_stations.py:148 | appending a maximum no smaller than the last keeps the record ascending |
| StationSelection.Selection | scripts/select_weather_stations.py:149-150 | the result: at most n distinct stations, exactly those of the pairs, each pair a nearest rank-1 row, one pair per resource, nothing for n = 0 |
| StationSelection.KeptStep | scripts/select_weather_stations.py:144-146 | each pass keeps the kept stations within the nearest ones, one fewer |
| StationSelection.RecordStep | scripts/select_weather_stations.py:148 | each pass appends a recorded maximum no smaller than the previous |
| StationSelection.Start | scripts/select_weather_stations.py:137-141 | before the loop the frame is the ranked cross of the nearest stations and one maximum is recorded |
| StationSelection.Step | scripts/select_weather_stations.py:144-148 | the loop invariant is kept by a pass, and each pass keeps fewer stations |
| StationSelection.Finish | scripts/select_weather_stations.py:144-150 | when at most n stations remain, the returned stations and pairs are a valid selection and the recorded maxima are as specified |
| StationSelection.RerankFirst | scripts/select_weather_stations.py:137 | after `rank(method='first')` every rank-1 row ranks ahead of its whole resource group |
| StationSelection.RankOneFilter | scripts/select_weather_stations.py:141-146 | masking rows keeps every rank-1 row ahead of its group, because the mask keeps the rows' order |
| StationSelection.NotOvertaken | scripts/select_weather_stations.py:146 | no kept row of the masked frame overtakes the image of a rank-1 row |
| StationSelection.SurvivorStart | scripts/select_weather_stations.py:139-141 | before the loop every nearest station still has a rank-1 row in the restricted frame |
| StationSelection.StillNearest | scripts/select_weather_stations.py:146-147 | a station other than the dropped one is still nearest to some resource after re-ranking |
| StationSelection.SurvivorStep | scripts/select_weather_stations.py:144-147 | a pass keeps every remaining station nearest to some resource and, as written, the dropped station sorts before every remaining one |
| StationSelection.CrossNoResources | scripts/select_weather_stations.py:121 | without resources the cross merge is empty |
| StationSelection.NoResources | scripts/select_weather_stations.py:138-140 | without resources no station is nearest to anything |
| StationSelection.SelectedAreKept | scripts/select_weather_stations.py:149-150 | the `unique()` stations of the rank-1 rows are exactly the remaining stations |
| StationSelection.SurvivorFinish | scripts/select_weather_stations.py:144-150 | on leaving the loop exactly min(n, number of nearest stations) stations are selected and, as written, every nearest station not selected sorts before every selected one |
| StationSelection.SelectOptimalWeatherStations | scripts/select_weather_stations.py:108-150 | the loop returns exactly min(n, number of nearest stations) distinct nearest stations with one nearest pair per resource (nothing for n = 0); as written, the stations it drops are the smallest ids, so every nearest station not returned sorts before every returned one; and a never-decreasing record of largest nearest distances starting from the initial ranking's |
| BiddingData.BiddingDataPath | scripts/bidding_data.py:23-27 | the path lies in the bidding-data directory and its name is "Econ Bids and Self-Schedules " + the month stamp + ".csv" |
| BiddingData.BiddingFileNameRoundTrip | scripts/bidding_data.py:23-27 | the year and month are read back from the file name of any month with a four-digit year |
| BiddingData.StampRoundTrip | scripts/bidding_data.py:25 | `%Y-%m` of (y, m) with y < 10000 and m < 100 is parsed back to (y, m) |
| BiddingData.BiddingDataPathSameMonth | scripts/bidding_data.py:23-27 | two instants share a path exactly when they share year and month, so `replace(day=1)` does not change the path |
| BiddingData.Completed | scripts/bidding_data.py:37 | `dropna` on name, date and hour keeps at most the rows it was given, none of them with a month yet |
| BiddingData.CompletedMeaning | scripts/bidding_data.py:37 | the rows kept are exactly the rows with a resource name, trade date and trade hour, in order |
| BiddingData.ReadBiddingData | scripts/bidding_data.py:29-43 | a missing file reads as an empty frame, an existing one as its complete rows |
| BiddingData.Prepared | scripts/bidding_data_availability.py:64-80 | a prepared row has no space in its name, the 1st of its trade date's month as its month, the three quantities filled, and the date, hour and unit type unchanged |
| BiddingData.PreparedIdempotent | scripts/bidding_data_availability.py:64-80 | preparing a row twice is preparing it once |
| BiddingData.PreparedRows | scripts/bidding_data_availability.py:64-80 | each row is prepared on its own, one for one and in order |
| BiddingData.ServiceFlag | scripts/bidding_data_availability.py:93-97 | SERVICE_HOURS is 1 exactly when one of the three quantities is positive, else 0 |
| BiddingData.ChargingFlag | scripts/bidding_data_availability.py:98-105 | CHARGING_HOURS is 1 exactly when none is positive and one is negative; a kept row counts as exactly one of service and charging |
| BiddingData.ServiceMwh | scripts/bidding_data_availability.py:109-116 | SERVICE_MWH is the largest quantity when positive, else 0; positive exactly when the row is a service hour |
| BiddingData.ChargingMwh | scripts/bidding_data_availability.py:117-124 | CHARGING_MWH is 0 when any quantity is positive, else the smallest quantity when negative; negative exactly when the row is a charging hour |
| BiddingData.HourEntry | scripts/bidding_data_availability.py:93-124 | a row's hour counts as at most one of service and charging, with non-negative service and non-positive charging MWh, keyed by (name, month) |
| BiddingData.HourEntries | scripts/bidding_data_availability.py:93-124 | one entry per row, in order |
| BiddingData.Retained | scripts/bidding_data_availability.py:82-88 | the rows kept are exactly the prepared rows with some non-zero quantity |
| BiddingData.Summaries | scripts/bidding_data_availability.py:137 | `reset_index` keeps the summed rows in group order |
| BiddingData.FoldHoursCount | scripts/bidding_data_availability.py:137 | in a group, service hours plus charging hours is the number of the key's rows |
| BiddingData.GroupedHours | scripts/bidding_data_availability.py:127-137 | the summed table is sorted by (name, month), each row counts its key's entries and holds the column sums of exactly its key's entries, and the keys are exactly those present |
| BiddingData.GroupKeys | scripts/bidding_data_availability.py:137 | each group sits under its own key |
| BiddingData.GroupedCounts | scripts/bidding_data_availability.py:137 | each row's service plus charging hours equal its key's row count, with service MWh >= 0 and charging MWh <= 0, and its four columns are its key's column sums |
| BiddingData.FoldHoursTotals | scripts/bidding_data_availability.py:137 | the `.sum()` of a group adds up exactly the four columns of its key's entries; a key without entries sums to 0 |
| BiddingData.EntryTotalsSnoc | scripts/bidding_data_availability.py:137 | one more entry adds its columns to its own key's sums only |
| BiddingData.GroupTotalsSnoc | scripts/bidding_data_availability.py:93-137 | one more row adds to its own (resource, month) group only: a service hour and its largest quantity, or a charging hour and its negative smallest quantity |
| BiddingData.RowContribution | scripts/bidding_data_availability.py:93-121 | a kept row with some positive quantity is one service hour with its largest quantity as service MWh; any other is one charging hour with its smallest quantity, where negative, as charging MWh |
| BiddingData.RowTotalsStep | scripts/bidding_data_availability.py:93-137 | one more kept row keeps the column sums equal to the group's reference values |
| BiddingData.RowTotals | scripts/bidding_data_availability.py:93-137 | over kept rows, each key's column sums are its group's service and charging hour counts and MWh sums |
| BiddingData.GroupedSorted | scripts/bidding_data_availability.py:137 | the rows are in strictly ascending (name, month) order |
| BiddingData.GroupedCovers | scripts/bidding_data_availability.py:137 | the keys of the table are exactly the keys of the kept rows |
| BiddingData.GroupOfEntry | scripts/bidding_data_availability.py:137 | every kept row's key has a table row |
| BiddingData.EntryOfGroup | scripts/bidding_data_availability.py:137 | every table row's key comes from some kept row |
| BiddingData.RetainedEntries | scripts/bidding_data_availability.py:82-124 | every kept row's entry is one hour of service or charging |
| BiddingData.ServiceHoursTableMeaning | scripts/bidding_data_availability.py:52-139 | `evaluate_service_hours`: one row per (resource, month) with kept hours, sorted, covering exactly the kept keys; each row's service hours count its rows with a positive quantity, its charging hours the others, its service MWh sums their largest quantities and its charging MWh their negative smallest quantities |
| BiddingData.BiddingFrame.constructor | scripts/bidding_data_availability.py:52 | a frame holds the rows it is given |
| BiddingData.BiddingFrame.EvaluateServiceHours | scripts/bidding_data_availability.py:52-139 | the frame's rows are prepared in place (names, month, filled quantities) and the result is the service-hours table of the rows as given |
| BiddingData.AllMonthsStep | scripts/bidding_data_availability.py:162-166 | one more month appends that month's table |
| BiddingData.EvaluateMonthServiceHours | scripts/bidding_data_availability.py:163-165 | one month's table is the service hours of its file's complete rows |
| BiddingData.EvaluateMultipleMonthsServiceHours | scripts/bidding_data_availability.py:151-167 | the loop concatenates each month's table in turn |
| BiddingData.AllMonthsAppend | scripts/bidding_data_availability.py:151-167 | the tables of two runs of months concatenate to the table of both |
| BiddingData.AllMonthsMembership | scripts/bidding_data_availability.py:151-167 | a row of the combined table is a row of one month's table, and conversely |
| RtmDispatch.RecordOf | scripts/summarize_rtm_dispatch.py:11-43 | a row becomes one record keyed by (name, month), with the month the 1st of its trade date's month and missing quantities and prices counted as 0 |
| RtmDispatch.Records | scripts/summarize_rtm_dispatch.py:11-43 | one record per row, in order |
| RtmDispatch.Averages | scripts/summarize_rtm_dispatch.py:47-48 | each group's totals become one summary, in group order |
| RtmDispatch.RecordsWellFormed | scripts/summarize_rtm_dispatch.py:24-43 | every record carries its own key and a count of 1 |
| RtmDispatch.GroupsCounted | scripts/summarize_rtm_dispatch.py:43-46 | every group counts at least one record |
| RtmDispatch.FoldTotals | scripts/summarize_rtm_dispatch.py:46 | a group's record count is its key's number of rows, its unit type the concatenation of theirs, and each field the sum over them |
| RtmDispatch.TotalsKeys | scripts/summarize_rtm_dispatch.py:46 | each group sits under its own key |
| RtmDispatch.SummarizedSorted | scripts/summarize_rtm_dispatch.py:46 | the summary rows are in strictly ascending (name, month) order |
| RtmDispatch.SummarizedGroup | scripts/summarize_rtm_dispatch.py:46-57 | a summary row holds its key's total quantities and average prices (sum over the key's row count) |
| RtmDispatch.AverageSummary | scripts/summarize_rtm_dispatch.py:47-48 | dividing the summed prices by the record count gives the group's averages |
| RtmDispatch.SummarizedGroups | scripts/summarize_rtm_dispatch.py:46-57 | every summary row holds its key's totals and averages |
| RtmDispatch.SummarizedCovers | scripts/summarize_rtm_dispatch.py:46 | the summary's keys are exactly the keys of the rows |
| RtmDispatch.GroupOfRecord | scripts/summarize_rtm_dispatch.py:46 | every row's key has a summary row |
| RtmDispatch.RecordOfGroup | scripts/summarize_rtm_dispatch.py:46 | every summary row's key comes from some row |
| RtmDispatch.SummarizeRtmDispatchMeaning | scripts/summarize_rtm_dispatch.py:6-59 | `summarize_rtm_dispatch`: one row per (resource, month) present, sorted, with total quantities and average prices of that key's rows |
| RtmDispatch.SummarizeRtmDispatchAsWritten | scripts/summarize_rtm_dispatch.py:43 | as written, summarizing fails exactly on a frame without rows (scalar RECORD_COUNT on an empty frame) |
| RtmDispatch.SummarizeAsWrittenAgrees | scripts/summarize_rtm_dispatch.py:6-59 | on a frame with a row, as written and as intended give the same summary |
| RtmDispatch.FieldSumBounds | scripts/summarize_rtm_dispatch.py:46 | a sum of n values within [lo, hi] lies within [n·lo, n·hi] |
| RtmDispatch.AverageWithinGroup | scripts/summarize_rtm_dispatch.py:47 | an average dispatch price lies between the smallest and largest price of its group |
| RtmDispatch.DivBounds | scripts/summarize_rtm_dispatch.py:47-48 | x/n lies in [lo, hi] when x lies in [n·lo, n·hi] and n > 0 |
| RtmDispatch.AllMonthsStep | scripts/summarize_rtm_dispatch.py:85-89 | one more month appends that month's summary |
| RtmDispatch.SummarizeMultipleMonthsRtmDispatch | scripts/summarize_rtm_dispatch.py:62-91 | the loop concatenates each month's summary in turn, a month without rows contributing none (the corrected reading of :43) |
| RtmDispatch.FramesAsWrittenMeaning | scripts/summarize_rtm_dispatch.py:85-89 | as written, the loop over frames succeeds exactly when every frame has a row (a frame without rows raises at :43), and then gives the intended concatenation |
| RtmDispatch.FramesSummaryOfMonths | scripts/summarize_rtm_dispatch.py:85-89 | the intended summary of the months' frames is the months' summary |
| RtmDispatch.AllMonthsAsWrittenMeaning | scripts/summarize_rtm_dispatch.py:62-91 | as written, the months summarize exactly when every month's frame has a row, and then to the intended rows |
| RtmDispatch.MissingMonthRaises | scripts/summarize_rtm_dispatch.py:85-89 | a month without a bidding-data file makes the loop as written raise (the scalar column at :43), while as intended it contributes no rows |
| RtmDispatch.AllMonthsAppend | scripts/summarize_rtm_dispatch.py:62-91 | the summaries of two runs of months concatenate to the summary of both |
| RtmDispatch.AllMonthsMembership | scripts/summarize_rtm_dispatch.py:62-91 | a row of the combined summary is a row of one month's summary, and conversely |
| DeratePercentiles.CalculateMonth | scripts/derate_percentiles.py:29-30 | the month of hour h of year y (hour 1 is 00:00 on 1 January) exists exactly when that instant lies in the calendar, and is a month 1..12 |
| DeratePercentiles.FirstHourInJanuary | scripts/derate_percentiles.py:29-30 | hour 1 of any year falls in January |
| DeratePercentiles.HourInYear | scripts/derate_percentiles.py:29-30 | every hour 1..24·(days in y) lies in year y |
| DeratePercentiles.HoursBelowYear | scripts/derate_percentiles.py:30 | fewer hours than 24·d span less time than d days |
| DeratePercentiles.CalculateMonthMonotone | scripts/derate_percentiles.py:29-31 | within one year a later hour never falls in an earlier month |
| DeratePercentiles.CalculateMonthRoundTrip | scripts/derate_percentiles.py:29-30 | the month computed from an instant's year and hour-of-year is that instant's own month |
| DeratePercentiles.FirstLine | scripts/derate_percentiles.py:24 | the pattern's `.` stops at the first newline: the matched text is the longest newline-free prefix |
| DeratePercentiles.FirstLineWhole | scripts/derate_percentiles.py:24 | a name without newlines is matched whole |
| DeratePercentiles.LastDigitRun | scripts/derate_percentiles.py:24-28 | the greedy `.*` leaves the captured four digits at a position where four digits stand |
| DeratePercentiles.LastDigitRunMeaning | scripts/derate_percentiles.py:24-28 | the captured run is the last run of four digits; none means no four digits stand anywhere |
| DeratePercentiles.YearFromName | scripts/derate_percentiles.py:28 | the year read from a file name is a four-digit number |
| DeratePercentiles.YearFromNameRoundTrip | scripts/derate_percentiles.py:24-28 | a name holding one zero-padded year followed by digit-free text yields that year |
| DeratePercentiles.RoundHalfEven | scripts/derate_percentiles.py:33 | `{100*p:.0f}` rounds to the nearest integer, ties to even |
| DeratePercentiles.PercentileLabelRoundTrip | scripts/derate_percentiles.py:33 | the column label "Percentile n" carries the rounded percentage n |
| DeratePercentiles.PercentileLabelsDistinct | scripts/derate_percentiles.py:33 | percentiles more than 0.01 apart get different column labels |
| DeratePercentiles.InsertSorted | scripts/derate_percentiles.py:14 | insertion adds one element |
| DeratePercentiles.InsertSortedSorted | scripts/derate_percentiles.py:14 | inserting into a sorted sequence keeps it sorted |
| DeratePercentiles.InsertSortedMultiset | scripts/derate_percentiles.py:14 | inserting adds exactly that element |
| DeratePercentiles.SortReals | scripts/derate_percentiles.py:14 | sorting keeps the length |
| DeratePercentiles.SortRealsMeaning | scripts/derate_percentiles.py:14 | the sorted weather factors are ordered and a permutation of the input |
| DeratePercentiles.Quantile | scripts/derate_percentiles.py:14 | a quantile is missing (NaN) exactly when there are no values |
| DeratePercentiles.Position | scripts/derate_percentiles.py:14 | linear interpolation position: whole index below n and fraction in [0, 1) summing to (n-1)·p |
| DeratePercentiles.PositionMonotone | scripts/derate_percentiles.py:14 | a larger percentile never moves the position back |
| DeratePercentiles.FloorMonotone | scripts/derate_percentiles.py:14 | floor and fractional part are ordered with their argument |
| DeratePercentiles.ScaleMonotone | scripts/derate_percentiles.py:14 | scaling by a non-negative factor keeps order |
| DeratePercentiles.LerpMonotone | scripts/derate_percentiles.py:14 | interpolating further along a rising segment never goes down |
| DeratePercentiles.Between | scripts/derate_percentiles.py:14 | an interpolated value lies between its two ends |
| DeratePercentiles.InterpolateWithin | scripts/derate_percentiles.py:14 | interpolation in sorted values stays within their smallest and largest |
| DeratePercentiles.InterpolateMonotone | scripts/derate_percentiles.py:14 | interpolation in sorted values is monotone in the percentile |
| DeratePercentiles.SortedEnds | scripts/derate_percentiles.py:14 | the ends of the sorted values are the input's minimum and maximum |
| DeratePercentiles.QuantileWithin | scripts/derate_percentiles.py:14 | a quantile lies within any bounds of the weather factors |
| DeratePercentiles.QuantileEnds | scripts/derate_percentiles.py:14 | percentile 0 is the minimum and percentile 1 the maximum weather factor |
| DeratePercentiles.QuantileMonotone | scripts/derate_percentiles.py:14 | quantiles are monotone in the percentile |
| DeratePercentiles.Percentiles | scripts/derate_percentiles.py:12-15 | one quantile per requested percentile, in order |
| DeratePercentiles.CalculateDeratePercentiles | scripts/derate_percentiles.py:6-15 | `calculate_derate_percentiles`: fails exactly when a percentile lies outside [0, 1]; otherwise the list of the file's weather-factor quantiles |
| DeratePercentiles.RowRecords | scripts/derate_percentiles.py:29-31 | a file's rows all get its year and their hour's month, and the rows fail exactly when some hour lies outside the calendar |
| DeratePercentiles.FileRecords | scripts/derate_percentiles.py:27-31 | a file reads exactly when its name holds a year, it has a row (a header-only file makes the scalar Year assignment at :28 raise) and every hour lies in the calendar; then one record per row |
| DeratePercentiles.AllRecordsOk | scripts/derate_percentiles.py:26-32 | reading succeeds exactly when every file reads |
| DeratePercentiles.RecordMonths | scripts/derate_percentiles.py:29-32 | every concatenated record has a month 1..12 |
| DeratePercentiles.AllRecordsFailed | scripts/derate_percentiles.py:26-32 | a failing file stops the whole read with its error |
| DeratePercentiles.MonthFactorsMeaning | scripts/derate_percentiles.py:37 | a month's factors are the weather factors of exactly the records of that month, in order |
| DeratePercentiles.OtherMonthsIgnored | scripts/derate_percentiles.py:37 | records of other months do not change a month's factors |
| DeratePercentiles.CellsMeaning | scripts/derate_percentiles.py:36-37 | each percentile's cell holds that quantile when its label is the last with that name |
| DeratePercentiles.CellsStep | scripts/derate_percentiles.py:36-37 | one more percentile writes one more cell |
| DeratePercentiles.CellsKeys | scripts/derate_percentiles.py:33-37 | a month row has exactly the percentile labels as cells |
| DeratePercentiles.ElementsAppend | scripts/derate_percentiles.py:33 | appending adds one element to the set of labels |
| DeratePercentiles.MonthRows | scripts/derate_percentiles.py:34-37 | one row per month 1..n, in order |
| DeratePercentiles.MonthlyTableMeaning | scripts/derate_percentiles.py:17-38 | `calculate_monthly_derate_percentiles`: twelve rows, row i for month i+1, columns Month then the labels, each cell the quantile of that month's weather factors |
| DeratePercentiles.MonthlyTableFails | scripts/derate_percentiles.py:17-38 | the table fails exactly when some file does not read (no year, no rows, or an hour outside the calendar) or a percentile lies outside [0, 1] |
| DeratePercentiles.ReadDerates | scripts/derate_percentiles.py:26-32 | the reading loop concatenates every file's records, stopping at the first failing file |
| DeratePercentiles.FileMonths | scripts/derate_percentiles.py:27-31 | the per-row month loop gives the file's records |
| DeratePercentiles.RowRecordsFailed | scripts/derate_percentiles.py:29-31 | a failing row stops the file with its error |
| DeratePercentiles.FillMonth | scripts/derate_percentiles.py:36-37 | the inner loop fills a month's cells, failing exactly on an invalid percentile |
| DeratePercentiles.CalculateMonthlyDeratePercentiles | scripts/derate_percentiles.py:17-38 | the method builds the monthly percentile table |
| DeratePercentiles.WordPrefix | scripts/derate_percentiles.py:43 | `\w*` takes the longest run of word characters |
| DeratePercentiles.ParseDerateFileName | scripts/derate_percentiles.py:43-63 | a parsed name gives a word-character unit type, a four-word-character station and four year digits |
| DeratePercentiles.DerateFileNameRoundTrip | scripts/derate_percentiles.py:43-63 | the name `<unit type>-<station>_<year>.csv` parses back to its unit type, station and year |
| DeratePercentiles.ParseNameParts | scripts/derate_percentiles.py:43-63 | such a name parses to exactly its three parts |
| DeratePercentiles.PrefixBeforeDash | scripts/derate_percentiles.py:43 | the unit-type group ends at the dash |
| DeratePercentiles.ClassEntries | scripts/derate_percentiles.py:61-64 | each matching file contributes its (unit type, station) class under that class's key |
| DeratePercentiles.EntryOfName | scripts/derate_percentiles.py:62-64 | every matching file contributes its class |
| DeratePercentiles.NameOfEntry | scripts/derate_percentiles.py:62-64 | every class entry comes from a matching file |
| DeratePercentiles.ResourceClassesMeaning | scripts/derate_percentiles.py:61-65 | the resource classes are exactly the distinct classes of matching files, each once, sorted |
| DeratePercentiles.GroupOfClass | scripts/derate_percentiles.py:65 | every class entry has a group |
| DeratePercentiles.ClassOfGroup | scripts/derate_percentiles.py:65 | every group comes from a class entry |
| DeratePercentiles.ClassKeyInjective | scripts/derate_percentiles.py:65 | distinct classes have distinct group keys |
| DeratePercentiles.FilesOfClassAsWritten | scripts/derate_percentiles.py:69 | the file filter as written fails exactly when some directory entry does not match the pattern |
| DeratePercentiles.FilesOfClass | scripts/derate_percentiles.py:62-69 | the intended filter keeps exactly the matching files of the class |
| DeratePercentiles.FilesOfClassAgree | scripts/derate_percentiles.py:69 | where every entry matches, the filter as written and the intended one agree |
| DeratePercentiles.ClassHasFiles | scripts/derate_percentiles.py:65-70 | every resource class has at least one file |
| DeratePercentiles.StrayFileRaises | scripts/derate_percentiles.py:62-69 | a directory holding notes.txt beside GT-KSAC_2020.csv makes the filter as written fail, while the intended filter keeps the derate file |
| DeratePercentiles.NotesDoesNotParse | scripts/derate_percentiles.py:43 | "notes.txt" does not match the file-name pattern |
| DeratePercentiles.DerateNameParses | scripts/derate_percentiles.py:43 | "GT-KSAC_2020.csv" parses to GT, KSAC, 2020 |

## Left out

- File, network and workbook I/O is not modelled: CSV, parquet and xlsx reads and writes, pycurl downloads and openpyxl loading. Files are maps from paths to rows, a worksheet is a sequence of rows of optional cells, and the HTTP answer and body are parameters.
- The `DataLogger` persistence, dask partitioning and `compute()`, and console printing are not modelled. They are plumbing and change no result.
- Library numerics are left to opaque functions (`Regression.Numerics`). These are sklearn's `LinearRegression` fit and score and pandas' `corr`/`cov`. The model states which rows are fed to them and the NaN fallback, not the numbers they compute.
- `DeratePercentiles.Quantile` is linear interpolation over exact reals. pandas' float rounding is not modelled.
- The metpy wet-bulb routine is not modelled: it is commented out in the source.
- The pressure `.round(1)` in `load_weather` is not applied. Its result only feeds a missing-value check.
- Floating point in general is modelled by exact reals. `Floats.Float` adds NaN and the infinities only where the source's divisions and comparisons produce them.
- The haversine distances of `select_optimal_weather_stations` are not computed: distances are an input of `StationSelection`.
- StationSelection.SelectOptimalWeatherStations: under the `Intended` reading the contract gives the number of stations returned and their pairing but not which stations survive. Each pass's choice (fewest nearest resources, smallest id among ties) is stated by `StationSelection.Unfit`; a whole greedy run of such choices has no closed form to state.
- StationSelection.SelectOptimalWeatherStations: requires n >= 0. For a negative count the loop at select_weather_stations.py:144 never ends. Once every station is gone, the count table is empty, its `.min()` drops nothing, and `len(unique()) > n` stays true.
- The PostgreSQL queries are not modelled: `get_resource_types`, `get_weather_station_locations` and `get_resource_locations`. Their results are inputs.
- `pair_resources_to_weather_stations.py`, `resources_for_servm.py` and `filter_for_storage_resources.py` run their logic in SQL and are not part of this model.
- `combine_derates.py`, `csvs_to_xlsx.py`, `read_cifs.py` and `monthly_outage_rates.py` are file plumbing or driver scripts and are not part of this model.
- The `__main__` blocks are not modelled beyond the resource-class extraction and file filter of `derate_percentiles.py`. They are hard-coded paths and parameter sweeps.
- Instants are whole microseconds from 1970-01-01 (`Calendar.Instant` is a `nat`). Earlier dates, pandas' upper bound in 2262 and time zones are not modelled.
- NaT timestamps are modelled only where the source meets them: a missing report end and a missing last date. Elsewhere timestamps are present.
- `\w` and `\d` are ASCII letters, digits and `_`. Python's Unicode classes are wider.
- `calculate_unforced_outage_rates` is modelled with its default `nminutes = 5`. The `__main__` sweep over `nminutes` never passes it on.
- `read_bidding_data`'s column dtype casts are not modelled. Values arrive typed.
- The model does not capture dask's row order within a partitioned frame. Rows keep the order in which they are read.
- CurtailmentReports.ToReport: the report type it builds is shared with `CurtailmentEvents` and types the MRID, name, id, outage-type and nature-of-work columns, the two times and the two numbers as the CSV loader receives them. A worksheet cell of another type (a number where a name is expected, say) therefore gives `Err("TypeError")`, where pandas would carry the cell on in an object column. The model does not follow such mixed-type columns further.

## Findings

| source | as written | input that shows it | evidently intended | confidence | as-written member | corrected member |
|---|---|---|---|---|---|---|
| scripts/correlate_curtailments.py:212-221 | the backfilled names (here and at correlate_curtailments_multilinear.py:280-289) and pmax values come from a freshly re-indexed merge. `.loc[mask, col] = …` aligns them on index labels 0..m-1, not on the masked rows | a grid whose only missing name is in row 1: the merge result has label 0, so row 1 stays missing | each masked row gets its own resource's first name and mean pmax | not executed | Imputation.BackfillMisaligned | Imputation.AlignedIntended |
| scripts/correlate_curtailments.py:267 | `.loc[...]` is given eight bare column labels, which raises "too many indexers" | any run with `use_processed=False` and `impute_zeros=False` (:244, :250-254) | select those eight columns (`.loc[:, [...]]`) | not executed | Regression.ReportedPathRaises | Regression.Load |
| scripts/correlate_curtailments_multilinear.py:436-440 | `if df0.loc[...,'RESOURCE ID']` tests a whole Series, which raises. The `drop` result is discarded, and the indicator columns are never selected | one selected row of a well-fitted resource | fit the unit type on the selected rows (here only raw temperature is used as predictor) | not executed | Regression.StationIndicatorsCounterexample | Regression.FitUnitType |
| scripts/retrieve_caiso_curtailments.py:87 | `download_report` returns `c.RESPONSE_CODE`, the pycurl info constant, instead of the status its docstring promises (:62-66) | a download answered with HTTP 200 returns 2097154, not 1 | return 1 for 200, -1 otherwise, 0 for a skipped date | not executed | CurtailmentReports.DownloadReturnMisreports | CurtailmentReports.CurtailmentDownloader.DownloadReport |
| scripts/thermal_resources_ucap.py:175 | the block window is bounded by the `__main__` global `last_date` instead of the local `last_datetime` | a block after `last_date` but within the last full month | bound the window by `last_datetime` | not executed | UnforcedOutage.LastDateDropsBlocks | UnforcedOutage.IntendedWindowKeeps |
| scripts/thermal_resources_ucap.py:152-153 | the block count uses `Timedelta.seconds`, the part of the duration below one day | an outage of exactly 24 hours yields 1 five-minute block | 288 blocks: the whole duration | not executed | UnforcedOutage.WholeDayOutageAsWritten | UnforcedOutage.ExpandHoursMeaning |
| scripts/select_weather_stations.py:145 | `.count().reset_index().min()` takes the minimum of each column separately, so the station dropped is the smallest id among the nearest stations | station A nearest to two resources and B to one: A is dropped | drop the station nearest to the fewest resources, as the comment at :142 says | not executed | StationSelection.SmallestIdNotFewest | StationSelection.SelectOptimalWeatherStations |
| scripts/derate_percentiles.py:69 | the class filter calls `filename_parser.match(p.name).groups()` on every directory entry. A name that does not match gives `None.groups()` and raises | `notes.txt` beside `GT-KSAC_2020.csv` | keep the matching files of the class, as the filter at :62 does | not executed | DeratePercentiles.StrayFileRaises | DeratePercentiles.FilesOfClassAgree |
| scripts/summarize_rtm_dispatch.py:43 | `bidding_data.loc[:,'RECORD_COUNT'] = 1` sets a scalar column, which pandas refuses on a frame without rows, so the month loop at :85-89 raises | a month whose bidding-data file is missing, or holds no complete row | a month without bidding rows contributes no summary rows | not executed | RtmDispatch.MissingMonthRaises | RtmDispatch.SummarizeMultipleMonthsRtmDispatch |
