# Date-range aggregator for bookings, in Dafny

A model of the booking analysis in `Program.cs`. The model covers three parts:

- **`Booking`**: an immutable date range whose constructor refuses a start after the end. It can enumerate its own dates (`GetAllDates`).
- **`BookingAnalyzer.CountBookingsPerDay`**: a histogram keyed by day of month. The 5th of March and the 5th of April share one counter.
- **`BookingAnalyzer.MergeOverlappingBookings`**: sorts the bookings by start date, then folds each booking into the last merged one when the two overlap or touch. Two bookings touch when the second starts on the day after the first ends.

The model also covers the lookup in `PrintDailyCounts` that reports every day of a month, with 0 for days not in the table.

Dates are whole days, counted from 0001-01-01, the first day `DateTime` can hold. So `AddDays(1)` is `+ 1`. The module `Calendar` gives these ordinals the proleptic Gregorian calendar: year, month, day of month, month lengths and leap years. Lemmas there prove that adding one day moves to the next calendar day, across month and year ends. They also prove that ordinal 0 is 0001-01-01 and that ordinal 3652058 is 9999-12-31.

Files and modules:

- `calendar.dfy` (`Calendar`): day ordinals, `DayOfMonth` (`DateTime.Day`), `DaysInMonth`, the successor lemma.
- `booking.dfy` (`Bookings`): the `Booking` type, with the invariant start ≤ end as a subset type; the constructor `NewBooking`; `GetAllDates`.
- `day_counts.dfy` (`DayCounts`): `CountBookingsPerDay`, its specification `DailyCounts`, the month report `DailyCountsForMonth`, and the total and reordering lemmas.
- `merge.dfy` (`Merge`): the sort, the sweep, `MergeOverlappingBookings`, and the canonical-form lemmas. These are uniqueness, idempotence and independence from input order.
- `merged_counts.dfy` (`MergedCounts`): the "merged view" report. Within one month it counts each day at most once.
- `scenarios.dfy` (`Scenarios`): worked examples: merges covering overlap, adjacency and gaps, the per-day counts of an overlap before and after the merge, empty input and an inverted range.
- `date_time_limits.dfy` (`DateTimeLimits`): the code as written against `DateTime`'s upper limit (see Findings).

Two points where the model reads the code closely:

- The report header prints "Booking counts for" a month and year (Program.cs:80). `CountBookingsPerDay`, however, keys only by `date.Day` (Program.cs:40-44), so dates from every month add to the same 1..31 counters. The model keeps that behaviour.
- The constructor throws `ArgumentException` for an inverted range (Program.cs:14-15). The model returns `Failure(InvertedRange)` instead.

## Model

| member | source | states |
|---|---|---|
| `Bookings.NewBooking` | Program.cs:12-19 | Construction fails with InvertedRange exactly when the start is after the end. Otherwise the booking holds exactly the two given dates. |
| `Bookings.GetAllDates` | Program.cs:21-27 | Yields end − start + 1 dates. The first is the start and the last is the end. Each date is one day after the previous one. |
| `Bookings.DatesOf` | Program.cs:21-27 | The dates a booking yields: one per covered day, from the start date to the end date, each one day after the previous. |
| `Bookings.DatesOfAreContained` | Program.cs:21-27 | A date is among a booking's enumerated dates exactly when the booking's range contains it. |
| `Calendar.DayOfMonth` | Program.cs:40-44 | `date.Day` lies in 1..31 and never exceeds the length of the date's month. |
| `Calendar.ToCivil` | Program.cs:40 | Every day ordinal maps to a valid calendar date: month 1..12, day within that month's length. |
| `Calendar.AddOneDay` | Program.cs:23 | `AddDays(1)` gives the next calendar day: the next day of the month, else the 1st of the next month, else 1 January of the next year. |
| `Calendar.ToCivilMonotone` | Program.cs:23 | A later ordinal is a later calendar date, so stepping through a booking never repeats a date. |
| `Calendar.SameMonthDistinctDays` | Program.cs:40-44 | Two different dates in the same month have different days of month. |
| `Calendar.DaysInMonth` | Program.cs:84 | `DateTime.DaysInMonth` is between 28 and 31. It is 29 exactly for February of a leap year. |
| `Calendar.MonthsFillYear` | Program.cs:84 | The twelve month lengths add up to 365 days, or 366 in a leap year. |
| `Calendar.NewYearsDay` | Program.cs:23 | 1 January of year y falls on ordinal 365(y−1) + ⌊(y−1)/4⌋ − ⌊(y−1)/100⌋ + ⌊(y−1)/400⌋. |
| `Calendar.EpochIsFirstOfJanuaryYearOne` | Program.cs:9-10 | Ordinal 0 is 0001-01-01, the earliest date a `DateTime` holds. |
| `DayCounts.CountBookingsPerDay` | Program.cs:32-49 | The nested loops build the histogram: every key is in 1..31 with a count of at least 1. The count under each key is the number of (booking, date) pairs on that day of month. Days nobody covers are absent. |
| `DayCounts.DailyCounts` | Program.cs:32-49 | The table has a key exactly for the days 1..31 that some booking covers in some month. Each key holds that number of (booking, date) pairs. |
| `DayCounts.OccurrencesOutsideMonth` | Program.cs:40-44 | No (booking, date) pair lands on a day of month outside 1..31. |
| `DayCounts.HistogramTotal` | Program.cs:36-46 | Over days 1..31 the counts add up to the sum of the booking lengths. |
| `DayCounts.OccurrencesPermutation` | Program.cs:36-46 | The count for a day is the same for any reordering of the booking list. |
| `DayCounts.HistogramPermutation` | Program.cs:36-46 | The whole table is the same for any reordering of the booking list. |
| `DayCounts.CountOrZero` | Program.cs:87 | The `TryGetValue ? c : 0` lookup reads 0 for a day absent from the table. Over a table of positive counts it is non-zero exactly for the stored days. |
| `DayCounts.LookupGivesOccurrences` | Program.cs:87 | The lookup with default 0 gives each day its number of (booking, date) pairs, including days that are absent from the table. |
| `DayCounts.DailyCountsForMonth` | Program.cs:84-87 | One count per day 1..DaysInMonth(year, month). Each is the table's entry for that day, or 0 when the day is absent. |
| `Merge.Insert` | Program.cs:56 | Inserting into a start-sorted list keeps it sorted and adds exactly the one booking. |
| `Merge.SortByStart` | Program.cs:56 | `OrderBy(b => b.StartDate)` returns a permutation of the bookings sorted by start date. |
| `Merge.Touches` | Program.cs:64 | For a booking starting no earlier than the last merged one, the test holds exactly when the two leave no free day between them. |
| `Merge.Absorb` | Program.cs:61-72 | One iteration leaves every merged booking before the last unchanged. When `current` touches the last merged booking, that booking is replaced by one with the same start and the length stays the same. Otherwise exactly `current` is appended. The last merged booking then ends no earlier than `current` and the old last booking. |
| `Merge.Sweep` | Program.cs:57-73 | The loop over the sorted list yields no more bookings than it was given, none only for no input. The last one ends no earlier than any input booking. |
| `Merge.Merged` | Program.cs:51-76 | The merge returns no more bookings than the input, none only for no input, and its last booking ends on or after every input booking's end. |
| `Merge.CoversPermutation` | Program.cs:56 | Lists holding the same bookings cover the same days, so sorting changes no coverage. |
| `Merge.AbsorbStep` | Program.cs:61-72 | One loop iteration keeps the merged list separated: each booking ends at least one free day before the next starts. The merged list then covers exactly its old days plus those of `current`. |
| `Merge.SweepInvariant` | Program.cs:57-73 | On a sorted list, the sweep yields separated bookings that cover exactly the input's days. It yields no more bookings than the input has, and none exactly when the input is empty. |
| `Merge.MergeOverlappingBookings` | Program.cs:51-76 | Empty input gives an empty result. Otherwise the result is non-empty, no longer than the input, sorted, separated, and covers exactly the input's days. The constructor call in the loop never fails. |
| `Merge.SeparatedIsSorted` | Program.cs:64-72 | Separated bookings are sorted by start date. |
| `Merge.MergedIsCanonical` | Program.cs:51-76 | The merge of any list is separated and sorted, and covers exactly the list's days. |
| `Merge.CanonicalUnique` | Program.cs:59-73 | Two separated lists that cover the same days are equal. The merge result is the unique normal form of a set of days. |
| `Merge.MergeDependsOnlyOnCoverage` | Program.cs:51-76 | Inputs that cover the same days merge to the same list. |
| `Merge.MergePermutation` | Program.cs:56 | Reordering the input does not change the merge, ties included. |
| `Merge.SweepAnySort` | Program.cs:56-73 | Sweeping any start-sorted arrangement of the bookings gives the merge, whatever order the sort leaves bookings with equal starts in. |
| `Merge.MergeFixpoint` | Program.cs:59-73 | A list that is already separated merges to itself. |
| `Merge.MergeIdempotent` | Program.cs:51-76 | Merging the merged list changes nothing. |
| `MergedCounts.OccurrencesFlatten` | Program.cs:36-46 | Counting booking by booking equals counting over all the bookings' dates laid end to end. |
| `MergedCounts.FlattenSeparated` | Program.cs:64-72 | The dates of separated bookings come out strictly increasing and each is covered. |
| `MergedCounts.OccursInOneMonth` | Program.cs:40-44 | Strictly increasing dates of one calendar month repeat no day of month. |
| `MergedCounts.MergedCountsAtMostOnce` | Program.cs:142 | When all booked days fall in one calendar month, the merged view counts every day of month at most once. |
| `Scenarios.OverlappingMerge` | Program.cs:64-67 | Overlapping bookings 1st–5th and 4th–10th merge into 1st–10th. |
| `Scenarios.AdjacentMerge` | Program.cs:64-67 | Bookings 1st–2nd and 3rd–4th touch and merge into 1st–4th. |
| `Scenarios.OneDayGapStays` | Program.cs:69-72 | Bookings 1st–2nd and 4th–5th have one free day between them and stay apart. |
| `Scenarios.SeparateBookingsStay` | Program.cs:69-72 | Bookings 1st–2nd and 5th–6th stay apart. |
| `Scenarios.OverlapCountedTwice` | Program.cs:32-49 | For bookings 1st–5th and 4th–10th of a month, the table counts the 4th and 5th twice, the other eight days once and every other day 0. |
| `Scenarios.SingleRunCountedOnce` | Program.cs:32-49 | A booking of the 1st to the 10th counts each of those days once and every other day 0. |
| `Scenarios.MergedCountedOnce` | Program.cs:135-142 | After merging the same two bookings, each of the ten days counts once and every other day 0. |
| `Scenarios.EmptyInput` | Program.cs:53-54 | No bookings give an empty table and an empty merge. |
| `Scenarios.InvertedRangeRefused` | Program.cs:14-15 | A booking from the 10th to the 1st is refused with InvertedRange. |
| `DateTimeLimits.MaxDateIsLastDay` | Program.cs:23 | Ordinal 3652058 is 9999-12-31, and the day after it is in year 10000, which `DateTime` cannot hold. |
| `DateTimeLimits.AddDays` | Program.cs:23 | `AddDays` succeeds exactly when the result stays within 0001-01-01..9999-12-31. |
| `DateTimeLimits.GetAllDatesAsWritten` | Program.cs:21-27 | As written, all dates are yielded, and the enumeration then throws exactly when the booking ends on 9999-12-31. |
| `DateTimeLimits.TouchesAsWritten` | Program.cs:64 | The test as written throws exactly when the last merged booking ends on 9999-12-31 (or later, which `DateTime` cannot hold). Otherwise it answers as the intended test `Touches` does. |
| `DateTimeLimits.MergeOnLastDay` | Program.cs:64 | Two copies of the booking for 9999-12-31: the test as written throws, whereas the intended merge is that one booking. |

## Left out

- The interactive `Main` loop (Program.cs:96-150) is not modelled. It reads the console, takes the year from `DateTime.Now`, splits and parses `MM/DD - MM/DD` input, and retries on exceptions. All of it is I/O and parsing around the core.
- The console output of `PrintDailyCounts` and `Main` is left out: the month-name header, table lines and printed ranges. `DailyCountsForMonth` keeps only the day-to-count lookup.
- The `.Date` truncation in the constructor (Program.cs:17-18) is the identity here, because dates are whole-day ordinals and there is no time of day. The source compares the untruncated values (Program.cs:14), so it also refuses a start later in the same day than the end. The whole-day model accepts that booking. `Main` only builds dates at midnight (Program.cs:119-120), so the difference does not arise there.
- `GetAllDates` is a lazy C# iterator. The model returns the complete sequence at once.
- `DailyCountsForMonth` requires month 1..12 and year 1..9999. Outside those, `DateTime.DaysInMonth` and `new DateTime(year, month, 1)` throw, and the only caller passes the current month and year.
- `Merge.SortByStart` is a stable insertion sort standing for LINQ's `OrderBy`. Its stability is not proved. `Merge.SweepAnySort` proves that sweeping any start-sorted permutation of the bookings, such as the list `OrderBy` returns, gives the same result as the model's merge.
- `DayCounts.CountBookingsPerDay` does not model 32-bit overflow of a `Dictionary<int, int>` counter, which would take more than two billion booked days.
- `Bookings.GetAllDates`, `DayCounts.CountBookingsPerDay`, `Merge.MergeOverlappingBookings`: the main model's dates have no upper bound. The exception `DateTime` raises past 9999-12-31 is modelled only in `DateTimeLimits`, as listed under Findings.
- Bookings are values here. The C# list holds references to immutable objects, so nothing observable depends on aliasing.

## Findings

| source | as written | input that shows it | evidently intended | confidence | as-written member | corrected member |
|---|---|---|---|---|---|---|
| Program.cs:23 | After yielding the end date, the loop still computes `date.AddDays(1)`. `DateTime` throws `ArgumentOutOfRangeException` past 9999-12-31. | A booking from 9999-12-31 to 9999-12-31: it yields that date and then throws. `CountBookingsPerDay` fails with it. | Enumerate the dates of any valid booking and stop after the end date. | medium: not executed; the interactive caller only builds dates in the current year | `DateTimeLimits.GetAllDatesAsWritten` | `Bookings.GetAllDates` |
| Program.cs:64 | The adjacency test computes `lastMerged.EndDate.AddDays(1)`, which throws when the last merged booking ends on 9999-12-31. | Two bookings, each from 9999-12-31 to 9999-12-31: the second iteration throws. | Compare without leaving the date range (`current.StartDate <= last.EndDate + 1` on day ordinals). The two bookings then merge into one. | medium: not executed; the interactive caller builds dates in the current year, so only in year 9999 | `DateTimeLimits.MergeOnLastDay` | `Merge.MergeOverlappingBookings` |
