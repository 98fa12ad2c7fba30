# MySchedule core, modelled in Dafny

MySchedule is a single-page web app. It fetches a worker's Walmart and Cane's
schedules and normalises them into one sorted list of shift records
(`parseShifts`), then flags shifts of one day that run into each other
(`detectOverlaps`). It shows the month as a calendar grid and as a list of
day cards with week summaries, and totals the hours and pay in the header and
in the analytics view (weekly gross, next paycheck). A ticker counts down to
the next shift, and the list can be exported as CSV.

This project models the logic of `script.js`: the helpers, the normaliser, the
overlap scan, the folds and the grid arithmetic. It proves what that code
promises.

- **Calendar**: Gregorian day numbers, `new Date(y, m, d)` with its roll-over
  and its two-digit-year rule, `getDay`, and `getWeekNumber`. `getWeekNumber`
  is proved to be the ISO 8601 week number (from 4 January 100 on, see Left out).
- **JsText / DateText**: `split`, `join`, `trim`, `Number`, `String(n)`,
  `padStart`, `formatLocalDate` and `parseYMDAsLocal`, with their round trip.
- **TimeOfDay**: `parseTime` as a leftmost regular-expression match (greedy
  `\d{1,2}`, case-insensitive AM/PM), and `calculateHoursDuration`. Both work
  in minutes after midnight.
- **Normalizer / ShiftOrder / Sorting**:
  - `parseShifts` pushes records in nested loops (`PushAll`, `PushWeeks`,
    `PushEach`).
  - It then sorts in place with the stable comparator of line 612
    (`SortInPlace`, insertion sort proved equal to the function `SortBy`).
- **GroupScan / Overlaps**: `detectOverlaps` as a method that updates an
  `array<Shift>` in place. It groups indices by date in a `map` and scans each
  group pair by pair.
- **Totals / Weekly / Sums**: the header totals, the weekly gross chart and
  the paycheck estimate.
- **ScheduleList**: `renderScheduleList`, with its loop carrying
  `currentWeek`, modelled as the values each card shows.
- **MonthGrid**: the three loops of `renderCalendarView`.
- **NextShift**: the `find` of `updateNextShiftTicker` and its countdown.
- **CsvExport**: the text of `exportToCsv`.

The clock (`new Date()` as now and today), the pay settings and the locale
formatting are parameters. Dates are `CalendarDate` values that satisfy
`IsValid`. A shift's `date` text is the formatted form of that value.
`DateText.FormatLocalDateInjective` and `DateText.ParseFormatRoundTrip` show
that grouping and filtering by the text is the same as doing so by the date,
for years from 100 on. The sort compares the text with the one-argument
`new Date(text)`, which reads `YYYY-MM-DD` as that day only for four-digit
years. Times are integer minutes, pay is `real`, and
paid hours are kept as minutes.

Two behaviours of the code that the model keeps as they are:
- `detectOverlaps` compares each shift only with the next shift of its date
  in the sorted list.
- A shift whose start does not parse sorts before the parseable starts of its
  date (`null - date` is negative).

## Model

| member | source | states |
|---|---|---|
| Calendar.DayNumber | script.js:541-545 | the day count under the date arithmetic (`Date.UTC` days, `setUTCDate`, `d - yearStart`); `FromDayNumber` and `FromDayNumberOfDate` prove it a bijection with the calendar dates |
| Calendar.MakeDay | script.js:601 | ECMAScript's MakeDay: month index and day of month rolled into adjacent months and years, as `setDate` and `new Date(y, m, d)` apply it; its contract is in `MakeDayInMonth`, `MakeDayOfDate`, `LastOfMonth` and `MakeDayNotEarlier` |
| Calendar.NewDate | script.js:538 | `new Date(y, m, d)`: MakeDay after the rule that reads years 0..99 as 1900..1999; stated by `DateText.ReadFormatted` and `DateText.TwoDigitYearComesBackShifted` |
| Calendar.DayOfWeek | script.js:195 | `getDay()` is a weekday 0..6, Sunday 0; `WeekdaysInMonth` and `FirstThursdayInWeekOne` tie it to the calendar |
| Calendar.WeekNumber | script.js:541-546 | the week number is always in 1..53 |
| Calendar.WeekNumberIsIsoWeek | script.js:541-546 | the week number is 1 + the number of whole weeks from the first Thursday of the year of the date's Thursday to that Thursday, i.e. the ISO 8601 week (week 1 holds the first Thursday) |
| Calendar.WeekNumberConstantInWeek | script.js:541-546 | days of one Monday-to-Sunday week (same day number div 7) have the same week number |
| Calendar.FourthOfJanuaryIsWeekOne | script.js:541-546 | 4 January of every year is in week 1 |
| Calendar.FirstThursdayInWeekOne | script.js:541-546 | the first Thursday of a year lies in its first seven days of January, is a Thursday (`getDay` 4) and is in week 1 |
| Calendar.SameMonthSameWeek | script.js:245-257 | two days of one month with the same week number lie in the same Monday-to-Sunday week |
| Calendar.WeekRunsInMonth | script.js:245-257 | within one month, a day between two days of week w is in week w too |
| Calendar.MonthWeeksRun | script.js:245-257 | in ascending days of one month, the days of each week number are contiguous, so the list never returns to a week it has closed |
| Calendar.FromDayNumber | script.js:538 | the date built from a day number has that day number |
| Calendar.FromDayNumberOfDate | script.js:538 | rebuilding a date from its day number gives the date back |
| Calendar.DayNumberInjective | script.js:612 | two dates with the same day number are equal, so a zero date difference in the comparator means the same date |
| Calendar.MakeDayOfDate | script.js:538 | MakeDay, the day roll-over of `new Date(y, m - 1, d)` before its two-digit-year rule, of a valid date's own fields is that date; so `new Date` gives the date back from year 100 on |
| Calendar.MakeDayInMonth | script.js:198 | MakeDay (`new Date(year, month, day)` before the two-digit-year rule) of a day that exists in the month is that calendar date |
| Calendar.LastOfMonth | script.js:193-194 | day 0 of the next month is the last day of the month, so `getDate()` gives the month's length |
| Calendar.MakeDayNotEarlier | script.js:601 | rolling forward from the first of a month with `setDate(day >= 1)` never lands in an earlier year |
| JsText.Trim | script.js:602 | `trim()` returns the middle part with no white space at either end, and only white space is removed |
| JsText.JoinSplit | script.js:538 | joining the pieces of a split gives back the string |
| JsText.SplitJoin | script.js:538 | splitting a join of separator-free pieces gives the pieces back |
| JsText.NatToString | script.js:536 | `String(n)` is a non-empty run of digits, one digit exactly when n < 10, starting with '0' only for 0 |
| JsText.DigitsValueOfNatToString | script.js:536-538 | reading `String(n)` back as a number gives n |
| JsText.JsNumberOfDigits | script.js:538 | `Number` of a non-empty digit run is its decimal value |
| JsText.Pad | script.js:536 | `padStart(2, '0')` gives at least two digits whose value is n |
| DateText.FormatLocalDate | script.js:537 | `formatLocalDate`; `ParseFormatRoundTrip` proves `parseYMDAsLocal` its inverse and `FormatLocalDateInjective` that it is one-to-one, both from year 100 on |
| DateText.ParseYMDAsLocal | script.js:538 | `parseYMDAsLocal`: None for the empty text (null) and for unreadable pieces (an Invalid Date, which every caller then rejects), otherwise `new Date(y, m - 1, day)`; stated by `ReadFormatted` and `ParseFormatRoundTrip` |
| DateText.PadTwo | script.js:536 | `pad(n)` is at least two digits and reads back as n |
| DateText.PiecesOfFormatted | script.js:537-538 | the formatted text splits into three pieces that `Number` reads as the year, the month and the day |
| DateText.ReadFormatted | script.js:537-538 | parsing a formatted date gives `new Date(year, month - 1, day)` |
| DateText.ParseFormatRoundTrip | script.js:536-538 | for every year from 100 on, `parseYMDAsLocal(formatLocalDate(d))` is d |
| DateText.TwoDigitYearComesBackShifted | script.js:538 | a date in years 0..99 comes back as `new Date(1900 + year, month - 1, day)`, not as itself |
| DateText.TwoDigitYearComesBackLater | script.js:538 | ... so such a date comes back in year 1900 or later |
| DateText.FormatLocalDateInjective | script.js:537 | for years from 100 on, different dates give different texts |
| TimeOfDay.ParseTime | script.js:560-569 | `parseTime`: the minutes after midnight of the leftmost match with its AM/PM adjustment, or null; stated by `ParseTimeNone`, `ParseAtFirst` and `ParseWrittenTime` |
| TimeOfDay.MatchAt | script.js:562 | a match of `\d{1,2}:\d{2}` starts at a digit, ends inside the string, and has an hour and a minute of at most 99 |
| TimeOfDay.FirstMatchFrom | script.js:562 | the leftmost match position: it matches, no earlier position matches, and None means no position matches |
| TimeOfDay.ParseTimeNone | script.js:560-563 | `parseTime` is null exactly when no position of the string holds a time |
| TimeOfDay.ParseAtFirst | script.js:562-568 | when position i matches and no earlier position does, the result is that match's hour and minute with the marker after it, adjusted to 24 hours |
| TimeOfDay.ToMinutesTwelveHour | script.js:566-567 | with no marker the hour is kept; for hours 1..12, AM gives h mod 12 and PM gives h mod 12 + 12 |
| TimeOfDay.ParseWrittenTime | script.js:562-567 | any text starting `String(h) + ':' + pad(m)` reads as h and m with the marker found after it |
| TimeOfDay.ParseAfterDigitFree | script.js:562 | text without digits before a time does not change what is read |
| TimeOfDay.ParseTwoDigitHour | script.js:562-567 | a text starting `HH:MM` reads as that hour and minute with the marker after it |
| TimeOfDay.ParseOneDigitHour | script.js:562-567 | a text starting `H:MM` reads as that hour and minute with the marker after it |
| TimeOfDay.ParseElevenThirtyPM | script.js:560-568 | "11:30 PM" reads as 23:30 |
| TimeOfDay.ParseTwelveFifteenAM | script.js:560-568 | "12:15 AM" reads as 0:15 |
| TimeOfDay.ParseNineOhFive | script.js:560-568 | "9:05" reads as 9:05 |
| TimeOfDay.ParseNotATime | script.js:561-563 | "N/A" reads as null |
| TimeOfDay.ParseOClock | script.js:562-565 | `String(h) + ":00"` reads as h hours for every hour 0..23 |
| TimeOfDay.HoursDuration | script.js:570-574 | the duration is 0 when either side does not parse |
| TimeOfDay.DurationOfClockTimes | script.js:572 | for two clock times below 24h, the duration is end - start taken around the clock, within [0, 24h) |
| TimeOfDay.DurationDayShift | script.js:570-574 | "9:00" to "17:00" lasts 8 hours |
| TimeOfDay.DurationNightShift | script.js:570-574 | "22:00" to "6:00" lasts 8 hours |
| TimeOfDay.DurationMissingEnd | script.js:570-574 | "9:00" to "N/A" lasts 0 |
| Normalizer.BuildShifts | script.js:577-611 | the `parsed` array before the sort; `PushAll` is proved to push exactly it, and `ParsedLength`, `ParsedRecords` and `ParsedPayConsistent` state what it holds |
| Normalizer.CanesSides | script.js:602 | the trimmed sides of a Cane's duration, "" where missing; stated by `CanesSidesOfRange` and `CanesWithoutDuration` |
| Normalizer.CanesDate | script.js:600-601 | `new Date()` moved by `setDate(day)` to day `day` of today's month, rolling over; `Calendar.MakeDayNotEarlier` shows it never lands in an earlier year |
| Normalizer.PaidAfterBreak | script.js:588 | over 5.5 hours one hour is unpaid; otherwise all of it is paid |
| Normalizer.BreakExamples | script.js:588 | 6h pays 5h, 5h pays 5h, 8h pays 7h |
| Normalizer.OrElse | script.js:593 | `a \|\| fallback` keeps a non-empty value and replaces a missing or empty one |
| Normalizer.WalmartRecord | script.js:583-594 | a Walmart record has the schedule's date, no flag, duration = the one between its times, paid = duration less the break, gross = paid × Walmart rate, net = gross × multiplier |
| Normalizer.CanesRecord | script.js:599-608 | a Cane's record is dated day `day` of today's month, has no flag, paid = duration, gross = paid × Cane's rate, net = gross × multiplier |
| Normalizer.CanesSidesOfRange | script.js:602 | a duration "a-b" gives the trimmed sides a and b |
| Normalizer.CanesWithoutDuration | script.js:602-607 | a missing or empty duration gives start and end "N/A" and zero hours and pay |
| Normalizer.NotApplicableParses | script.js:606 | writing "N/A" for an empty side does not change how the side parses |
| Normalizer.NotApplicableDuration | script.js:603-606 | showing an empty side as "N/A" does not change the duration |
| Normalizer.ParseShifts | script.js:576-612 | the returned array is the built records sorted by (date, start) |
| Normalizer.PushAll | script.js:577-610 | the pushed list is every Walmart schedule week by week, then every Cane's entry, in input order; nothing for a missing document or part |
| Normalizer.PushWeeks | script.js:581-596 | the nested `forEach` appends one record per schedule, week by week |
| Normalizer.PushEach | script.js:599-609 | the `forEach` appends one record per element, in order |
| Normalizer.ParsedLength | script.js:581-612 | the result has one record per Walmart schedule plus one per Cane's entry |
| Normalizer.ParsedRecords | script.js:581-612 | a record is in the result exactly when it is built from some Walmart schedule or some Cane's entry |
| Normalizer.ParsedPayConsistent | script.js:579-612 | every record of the result is pay-consistent (break rule per source, gross = paid × rate, net = gross × takeHome/100) and unflagged |
| ShiftOrder.Compare | script.js:612 | the comparator's sign: the date difference, or when it is 0 the start difference (null below every start); stated by `CompareIsLexicographic` |
| ShiftOrder.SortShifts | script.js:612 | `parsed.sort(...)` keeps the length; `SortShiftsSpec` proves it ordered, a permutation and stable |
| ShiftOrder.StartKey | script.js:612 | an unparseable start (`null`, which subtracts as 0 while a parsed start is a time stamp of today) ranks -1, below every parsed start, which ranks 0 or above |
| ShiftOrder.CompareIsLexicographic | script.js:612 | the comparator is negative exactly when (date, start) is lexicographically smaller, zero exactly on a tie, and antisymmetric |
| ShiftOrder.SortShiftsSpec | script.js:612 | the result is ordered by (date, start), is a permutation of the input, and keeps records with equal keys in input order |
| ShiftOrder.UnparseableStartsFirst | script.js:612 | on one date, every shift after one with a parseable start has a parseable start: unparseable starts come first |
| Sorting.SortInPlace | script.js:612 | the in-place insertion sort leaves the array equal to `SortBy` of its old contents |
| Sorting.InsertInPlace | script.js:612 | one insertion step places element i among the sorted prefix and leaves the rest of the array untouched |
| Sorting.SortByOrdered | script.js:612 | `SortBy` is ordered by the key |
| Sorting.SortByPermutes | script.js:612 | `SortBy` is a permutation of its input |
| Sorting.SortByStable | script.js:612 | `SortBy` keeps the elements of each key in input order |
| Sorting.SortByEnds | script.js:166-167 | the first element of the sorted list has the smallest key and the last the largest |
| GroupScan.GroupByKey | script.js:616 | the map holds exactly the keys that occur, each with the indices of its records in order |
| GroupScan.GroupMember | script.js:616 | an index is in the group of key d exactly when its record has key d |
| GroupScan.ScanAll | script.js:617-624 | after visiting every key, the array is the scanned records: each one marked exactly when it is flagged |
| GroupScan.ScanKey | script.js:618-623 | a group of fewer than two is skipped and a larger one scanned; either way the key is finished |
| GroupScan.ScanGroup | script.js:620-623 | the inner loop marks the records of every hitting pair of the group |
| GroupScan.ScanPairAt | script.js:621-622 | one step marks both records of the pair exactly when it is a hit |
| GroupScan.AdjacentFlagged | script.js:616-624 | when equal keys sit together, a record is flagged exactly when it hits with the next record of its key or the previous one hits with it |
| GroupScan.AloneNotFlagged | script.js:619 | a record whose key no other record has is never flagged |
| GroupScan.ScannedIdempotent | script.js:615-625 | scanning twice is scanning once |
| Overlaps.EndsAfter | script.js:621 | `parseTime(end) > parseTime(start)` with null compared as 0: an end that does not parse is never after, a start that does not parse is before every parsed end; `OneAfterNoon` and `TwoBeforeThree` are examples |
| Overlaps.Detected | script.js:615-625 | the shifts after `detectOverlaps`; `DetectOverlaps` computes it in place, and `DetectedShift`, `SortedAdjacent` and `DetectIdempotent` state what it flags |
| Overlaps.SetOverlap | script.js:622 | setting the flag sets it and changes no other field |
| Overlaps.DetectOverlaps | script.js:615-625 | the array after the scan is `Detected` of the array before |
| Overlaps.DetectedShift | script.js:615-625 | the scan keeps the length; afterwards a shift's flag is set exactly when it was already set or the scan flags it against a same-date neighbour, and no other field changes |
| Overlaps.DetectIdempotent | script.js:615-625 | running the detection again changes nothing |
| Overlaps.AloneOnItsDate | script.js:619 | a shift alone on its date is never flagged |
| Overlaps.SortedRuns | script.js:612-616 | in the order `parseShifts` returns, the shifts of each date are contiguous |
| Overlaps.SortedAdjacent | script.js:612-624 | on sorted shifts, a shift is flagged exactly when it ends after the next same-date shift starts, or the previous same-date shift ends after it starts |
| Overlaps.DisjointDayUnflagged | script.js:615-625 | on sorted shifts, a date whose consecutive shifts never run into each other gets no flag, and its shifts are left as they were |
| Overlaps.HitThenMiss | script.js:620-622 | of three same-date shifts where only the first pair runs into each other, exactly the first two are flagged |
| Overlaps.ThreeShiftsDetected | script.js:615-625 | on one date, 9:00 AM–1:00 PM, 12:00 PM–2:00 PM and 3:00 PM–5:00 PM: only the first two get the flag |
| Overlaps.OneAfterNoon | script.js:621-622 | "1:00 PM" ends after "12:00 PM" starts |
| Overlaps.TwoBeforeThree | script.js:621-622 | "2:00 PM" does not end after "3:00 PM" starts |
| NextShift.StartInstant | script.js:630-632 | `startDateTime` in milliseconds, null when the start does not parse; stated by `RecordStart` |
| NextShift.NextShift | script.js:629-634 | the index `find` returns; stated by `NextShiftSpec` |
| NextShift.CountdownAsWritten | script.js:638 | `diffHours` and `diffMins` as written; stated by `SixtyMinutesShown` and `AsWrittenTotal` |
| NextShift.Countdown | script.js:638 | the countdown rounded before the split; `CountdownNearest` proves minutes 0..59 within half a minute of the difference |
| NextShift.TickerAt | script.js:635-641 | the ticker with the corrected countdown (see Findings): hidden, or the next shift's job with hours and minutes 0..59; stated by `TickerSpec` |
| NextShift.FindFrom | script.js:629 | `find` gives the first accepted element, and none when no element is accepted |
| NextShift.ClockMinutes | script.js:632 | `getHours()` and `getMinutes()` of the rolled-over time give the start modulo one day |
| NextShift.NextShiftSpec | script.js:629-634 | the next shift is the first in list order whose start parses and is strictly after now; a shift starting exactly now is skipped; there is none exactly when no shift qualifies |
| NextShift.RecordStart | script.js:630-632 | a record's start instant is its date's day and its start's minute of the day; it is null when the start does not parse |
| NextShift.SixtyMinutesShown | script.js:638 | as written, a start 59 min 30 s away shows "0h 60m" |
| NextShift.AsWrittenTotal | script.js:638 | as written, hours × 60 + minutes is the difference rounded to the nearest minute, and the minutes reach 60 exactly in the last half minute of an hour |
| NextShift.CountdownNearest | script.js:638 | the corrected countdown has minutes 0..59, lies within half a minute of the difference, and agrees with the code except in that last half minute |
| NextShift.TickerSpec | script.js:635-641 | the ticker is hidden exactly when no shift qualifies; otherwise it names the first qualifying shift's job, with hours and minutes (0..59) within half a minute of the time left |
| Totals.HeaderInfo | script.js:157-176 | the header: "No shifts", or the first and last dates and the paid, gross and net sums; stated by `HeaderTotalsOfParsed`, `HeaderRangeOfParsed` and `HeaderNetIsShare` |
| Totals.WeeklyChart | script.js:308-314 | `weeklyData` of the analytics view; stated by `WeeklyChartSpec` and `WeeklyChartOrder` |
| Totals.PaycheckEstimate | script.js:304-340 | the paycheck estimate, or none without shifts; stated by `PaycheckSpec` and `PaycheckInWeekOne` |
| Totals.HeaderTotalsOfParsed | script.js:157-174 | "No shifts" exactly when there are none; the paid, gross and net totals are the sums over all records, whatever order the sort left |
| Totals.HeaderRangeOfParsed | script.js:166-167 | the header range runs from the earliest record date to the latest, both dates of records |
| Totals.HeaderNetIsShare | script.js:172-175 | the header net is the header gross × the take-home multiplier |
| Totals.WeeklyChartSpec | script.js:308-314 | one bar per week that has a shift and no other; each bar is the gross of its week's shifts; the bars add up to the total gross |
| Totals.WeeklyChartOrder | script.js:308-315 | more shifts never move an existing bar: the bars keep the order in which their weeks first appear |
| Totals.PaycheckSpec | script.js:304-339 | no estimate exactly when there are no shifts; otherwise the window is today's week and the week before it, and the gross is the sum over those two weeks |
| Totals.PaycheckInWeekOne | script.js:333-338 | in week 1 the previous week is "week 0": the last weeks of the previous year are not counted |
| Weekly.WeeklyGross | script.js:308-314 | the `reduce` that adds each gross to its week's entry in first-appearance order; stated by `WeeklyDistinct`, `WeeklyCovers`, `WeeklyValues`, `WeeklyTotal` and `WeeklyKeepsOrder` |
| Weekly.Estimate | script.js:332-340 | the estimate over weeks w - 1 and w with its net share; stated by `EstimateGross`, `EstimateNet` and `EstimateInWeekOne` |
| Weekly.FindWeek | script.js:311 | finds the entry of week w, or reports that none has it |
| Weekly.WeeklyDistinct | script.js:308-314 | every week has one entry at most |
| Weekly.WeeklyCovers | script.js:308-314 | a week has an entry exactly when some element falls in it |
| Weekly.WeeklyValues | script.js:308-314 | each entry is the gross of its week's elements |
| Weekly.WeeklyTotal | script.js:308-314 | the entries add up to the total gross |
| Weekly.WeeklyKeepsOrder | script.js:308-314 | appending elements keeps the existing entries in place |
| Weekly.InWindowMembers | script.js:335-338 | the paycheck shifts are exactly those of week w or week w - 1 |
| Weekly.WindowSplits | script.js:335-339 | the window's gross is the gross of week w plus the gross of week w - 1 |
| Weekly.EstimateGross | script.js:332-339 | the estimate is for weeks w - 1 and w, and its gross is the two weeks' gross |
| Weekly.EstimateNet | script.js:339-340 | when each element's net is its gross × the multiplier, the estimate's net is the window's net |
| Weekly.EstimateInWeekOne | script.js:333-338 | with every week at least 1, the estimate for week 1 holds week 1 alone |
| Sums.SumPermutation | script.js:170-174 | a sum does not depend on the order of the elements |
| Sums.KeyedAppend | script.js:238-241 | the reduce's group of a key, over one list followed by another, is the first list's group followed by the second's |
| Sums.KeyedCount | script.js:238-241 | a group holds each element with its key exactly as often as the list does, and nothing else |
| Sums.SumKeyed | script.js:238-241 | a group's sum is the whole list's sum with the elements of other keys counted as 0 |
| Sums.PartitionSum | script.js:238-259 | summing over groups of distinct keys that cover every element gives the total |
| ScheduleList.MonthShifts | script.js:229-233 | `shiftsInMonth`; stated by `MonthShiftsMembers` |
| ScheduleList.ListFrom | script.js:243-296 | the cards the loop appends; `AppendCards` computes it, and `ListShape` and `ListPartitionsMonth` state its shape and totals |
| ScheduleList.SourcesOf | script.js:260 | `[...new Set(sources)]`; stated by `SourcesOfSpec` |
| ScheduleList.CardClassOf | script.js:261 | `cardClass`; stated by `DayClass` |
| ScheduleList.DayCardOf | script.js:246-289 | a day's card: its shift lines (job, Overlap! badge, start - end, paid hours) are the month's shifts of that day, each as often as the month holds it; its sources are exactly theirs, each once; its totals are stated by `DayCardTotals` |
| ScheduleList.DayCardTotals | script.js:258-259 | the card's paid time and take-home pay are the sums over its lines, which are the month's sums with the shifts of other days counted as 0 |
| ScheduleList.DayCardLinesInOrder | script.js:238-281 | the card's lines keep the month's order: one line per element of `dayShifts`, which the reduce fills in list order |
| ScheduleList.WeekTotalOf | script.js:250-254 | a week summary over `weekShifts`; `SummariesPartition` proves the summaries add up to the month |
| ScheduleList.MonthShiftsMembers | script.js:229-233 | a shift is in `shiftsInMonth` exactly when it is in the selected month and passes the source filter |
| ScheduleList.SortedDaysSpec | script.js:238-244 | the sorted day keys are exactly the dates with a shift, strictly ascending, each once, all in the selected month |
| ScheduleList.DaysFromSpec | script.js:244 | the days from day `day` on are in the month, strictly ascending, and hold exactly the dates from `day` on that have a shift |
| ScheduleList.SourcesOfSpec | script.js:260 | `[...new Set(sources)]` lists each source of the day once, and only those |
| ScheduleList.DayClass | script.js:260-261 | a card is `multi` exactly when the day has both a Walmart and a Cane's shift; otherwise it carries the one source of its shifts |
| ScheduleList.RenderScheduleList | script.js:225-297 | no list exactly when the filtered month is empty; otherwise the cards in the order the loop appends them |
| ScheduleList.AppendCards | script.js:243-296 | the loop with its running `currentWeek` appends exactly the cards `ListFrom` specifies, plus the last week's summary |
| ScheduleList.ListShape | script.js:245-296 | the list has one day card per day in order, and a summary for each run of days of one week, in order |
| ScheduleList.WeekRunsMembers | script.js:249-256 | the summaries are for exactly the weeks of the days (and the open week) |
| ScheduleList.WeekRunsDistinct | script.js:249-256 | when the days' weeks run contiguously, no week is summarised twice |
| ScheduleList.DayCardsPartition | script.js:258-259 | the day cards add up to the month's total of the measure |
| ScheduleList.SummariesPartition | script.js:251-253 | the week summaries add up to the month's total of the measure |
| ScheduleList.ListPartitionsMonth | script.js:229-296 | in the rendered list, both the day cards and the week summaries add up to the filtered month's paid time and take-home pay |
| MonthGrid.Grid | script.js:192-208 | the cells the three loops write; stated by `MonthShape` and `GridRows` |
| MonthGrid.TotalDays | script.js:193-194 | `end.getDate()`; `MonthDays` proves it the month's length |
| MonthGrid.FirstWeekday | script.js:195 | `start.getDay()`; `MonthDays` proves it the weekday of the first |
| MonthGrid.Remaining | script.js:206-207 | `6 - lastDay.getDay()`; `MonthDays` and `RowsFill` show it completes the last row |
| MonthGrid.RenderCalendarView | script.js:181-208 | the cells are the grid of the selected month against that month's shift dates |
| MonthGrid.FillGrid | script.js:196-208 | the three loops write `firstWeekday` blanks, the cells of days 1..`totalDays`, then `remaining` blanks |
| MonthGrid.Layout | script.js:196-208 | the grid is a + n + b cells; exactly the middle n are day cells, and cell a + k - 1 is day k |
| MonthGrid.MonthDays | script.js:192-207 | the month has `DaysInMonth` days, day k is the k-th of the month, and the blanks are the first's weekday and 6 less the last's weekday |
| MonthGrid.MonthShape | script.js:192-208 | blanks up to the first's weekday, then days 1..length in order, each marked today, selected or has-shift exactly when it is, then blanks to the end of the last row |
| MonthGrid.ShapedRows | script.js:196-208 | any grid of that shape has whole rows of seven, four to six of them, each day in the column of its weekday |
| MonthGrid.GridRows | script.js:192-208 | the grid fills whole rows of seven, four to six of them, with every day in the column of its weekday, Sunday first |
| MonthGrid.RowsFill | script.js:196-208 | leading blanks, the days and `6 - lastWeekday` trailing blanks add up to a multiple of 7 between 28 and 42 |
| MonthGrid.WeekdaysInMonth | script.js:195-207 | day k of a month falls k - 1 weekdays after the first, so the last day's weekday follows from the month's length |
| CsvExport.Fields | script.js:647 | the seven fields of a row; `RowFields` proves a comma-free row splits back into them |
| CsvExport.Row | script.js:647 | `row`; stated by `RowFields` and `ExportLines` |
| CsvExport.ExportCsv | script.js:644-649 | the content is the data-URI header line, then one line per shift in list order |
| CsvExport.AppendLines | script.js:646-649 | the `forEach` appends `row + "\n"` for every element, in order |
| CsvExport.ExportLines | script.js:645-649 | the text splits into the header line, then exactly one row per shift in order |
| CsvExport.LinesSplit | script.js:646-649 | the appended text splits at line breaks into one line per element, in order, then an empty tail |
| CsvExport.RowFields | script.js:647 | a row with comma-free fields splits into its seven fields, the second being the job in quotes |
| CsvExport.HeadingOneLine | script.js:645 | the header is one line and its columns are Date, Job, Start, End, Paid Hours, Gross Pay, Net Pay |
| CsvExport.DateTextChars | script.js:647 | the date field holds only digits and '-' |

## Left out

- The DOM, HTML text, Chart.js, modals, theme, haptics and gestures: they are presentation. The grid, the list and the ticker are modelled by the values their cells show.
- `getShortWeekday` and `toLocaleDateString` / `toLocaleTimeString` (lines 168, 185, 539, 585-586): they depend on the locale. Walmart's start and end texts come in already formatted.
- Network, storage and the settings and 2FA plumbing (`loadSchedule`, `startRefresh`, `sendCode`, `localStorage`), and `service-worker.js`: these are asynchronous I/O with no computed result.
- The clock: `new Date()` as now and today are parameters.
- Time zones and daylight saving: local time and UTC share one calendar.
- Floating point and `toFixed`: pay is `real`, times are integer minutes, and `toFixed(2)` in the CSV is the parameter `fixed2`.
- The JavaScript `Date` range limit and invalid dates: `parseInt` of a Cane's day that fails ("NaN-NaN-NaN") is not modelled, and the day is an integer input. A Walmart week without `schedules` is not modelled; every week has its list.
- `encodeURI` and the download link of `exportToCsv`.
- The `|| 0` of the header folds: a record built by `parseShifts` always has its numbers, so a missing value never occurs.
- `Object.keys(...).sort()` compares texts. `ScheduleList.SortedDays` uses date order, which is the same order for four-digit years.
- `ScheduleList.Listed`, `MonthGrid.ShiftDates` and `Totals.WeekOf` read a record's date directly rather than `parseYMDAsLocal(shift.date)`. These agree from year 100 on (`DateText.ParseFormatRoundTrip`); years 0..99 come back shifted to 1900..1999 (`DateText.TwoDigitYearComesBackShifted`).
- MonthGrid.MonthShape: the grid's shape is proved only where `FullYear(y) == y`, i.e. outside years 0..99, which `new Date` moves to 1900..1999.
- MonthGrid.GridRows: the same restriction to years outside 0..99.
- NextShift.RecordStart: stated for record dates from year 100 on, for the same reason.
- DateText.ParseFormatRoundTrip: holds from year 100 on; years 0..99 are covered by the two TwoDigitYear lemmas instead.
- GroupScan.ScanAll visits the pending keys in any order, where `for...in` visits them in insertion order. The groups are disjoint, so the result is the same.
- NextShift.TickerAt: shows the corrected countdown (see Findings), so in the last half minute of each hour it gives the next hour and 0 minutes, where script.js:638 shows "h 60m" (`NextShift.SixtyMinutesShown`).
- NextShift.TickerSpec: states the ticker with the corrected countdown, minutes 0..59 (see Findings); the code can show 60 minutes, which `NextShift.CountdownAsWritten` and `NextShift.AsWrittenTotal` model.
- DateText.ParseYMDAsLocal: `JsText.JsNumber` reads only an optional run of decimal digits inside white space. `Number` also reads signs, decimal points, exponents and `0x`/`0o`/`0b` prefixes ("+5", "-1", "5.0", "1e1", "0x1A"), for which the code builds a date and the model gives None. An Invalid Date is modelled as None; in the code it is a Date that `!shiftDate` (script.js:631) lets through and the NaN comparison at script.js:633 rejects. The model only hands this function texts that `formatLocalDate` wrote, where the two agree (`DateText.ReadFormatted`).
- ShiftOrder.Compare: compares the record dates by day number for every year. The code reads the date text with the one-argument `new Date(text)` (script.js:612), which is specified only for the `YYYY-MM-DD` form. `formatLocalDate` does not pad the year, so only years 1000..9999 have that form. For other years the parse is implementation-defined, and a NaN difference would order by start time alone. The model's comparator is the code's for four-digit years only.
- Calendar.WeekNumber: computes the ISO week of the date's own year. `getWeekNumber` rebuilds the date with `Date.UTC(d.getFullYear(), ...)` (script.js:542, 544), which reads years 0..99 as 1900..1999, so for those years the code numbers the weeks of another year. The same rule reaches 1–3 January 100: they lie in ISO week 53 of year 99, so the Thursday the code moves to is 31 December 99, and the year start at script.js:544 is read as 1 January 1999. The code then gives a large negative number (−99085), where the model gives 53. The model agrees with the code from 4 January 100 on.

## Findings

| source | as written | input that shows it | evidently intended | confidence | as-written member | corrected member |
|---|---|---|---|---|---|---|
| script.js:638 | `diffHours = floor(diffMs / 3600000)` and `diffMins = round((diffMs % 3600000) / 60000)` split before rounding, so the minutes can round up to 60 | `diffMs = 3570000` (59 min 30 s) shows "0h 60m" | round to the nearest minute first, then split: "1h 0m", minutes always 0..59 | not executed | NextShift.SixtyMinutesShown | NextShift.CountdownNearest |
