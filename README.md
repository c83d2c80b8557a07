# DatesRangePicker, modelled in Dafny

This project models the range-selection core of the `DatesRangePicker` day picker (a React
calendar component that picks a `{start, end}` range of days). It covers five things:

- how a calendar page (`allDays`: the trailing days of the previous month, the displayed month,
  and the leading days of the next month) is cut into its three slices;
- how a clicked page position becomes a date (`buildMoment`);
- which page positions a range marks as active (`getActiveDaysPositions`);
- the two-click selection protocol of `handleChange`;
- the displayed date, which `switchToNextPage` and `switchToPrevPage` move one month at a time.

Files:

- `calendar.dfy`, module `Calendar`: the date operations the component takes from its date
  library. It has a proleptic Gregorian `Date` and month lengths with leap years. It compares
  dates at month and at day granularity. It adds days (`add(n, 'day')`) and adds months with
  day clamping (`add(n, 'month')`). It also has an independent reference for day arithmetic: an
  ordinal day number (`DayNumber`).
- `range_picker.dfy`, module `RangePicker`: the component's logic. The picker's one piece of
  mutable state, its displayed `date`, is the class `DatesRangePicker` with methods for the two
  page switches. The page logic (slices, `buildMoment`, the active positions and the change
  handler) is pure functions, as it is in the source; one method, `NextThenPrevPage`, drives two
  page switches on a picker.

The moment comparisons the component calls are the predicates `IsBeforeMonth`, `IsSameMonth` and
`IsAfterMonth` (`isBefore`/`isSame`/`isAfter` with `'month'`, used by `getActiveDaysPositions`) and
`IsBeforeDay`/`IsAfterDay` (`isAfter` with `'date'`, used by `handleChange`). They carry no contract
of their own; `MonthComparisonTrichotomy` and `DayNumberOrder` state what they mean.

The page that `buildDays` produces comes from a function that is not part of this model. Its
documented shape is the predicate `PageShape`:

- `k < 7` positions of the previous month, counting up to that month's last day;
- then `1 .. daysInMonth`;
- then `1, 2, …` of the next month, up to `DAYS_ON_PAGE` entries.

The position lookups need only the weaker `PageLayout`: the displayed month fits on the page after
`k` positions. Labels are integers. Dates carry no time of day and no time zone. Any `Date` with
a month of 1..12 and a day that exists in that month is valid.

## Model

| member | source | states |
|---|---|---|
| `RangePicker.DaysFromPrevMonth` | src/pickers/dayPicker/DatesRangePicker.js:17-22 | the previous-month slice is the page prefix of length `min(pos, length)`; it is empty for position 0 |
| `RangePicker.DaysFromNextMonth` | src/pickers/dayPicker/DatesRangePicker.js:24-29 | the next-month slice has `length - min(pos, length)` entries |
| `RangePicker.DaysFromNextMonthContents` | src/pickers/dayPicker/DatesRangePicker.js:24-29 | the next-month slice is exactly the page suffix `allDays[min(pos, length)..]`; it is empty exactly when `pos` is at or past the page's end |
| `RangePicker.PageSlices` | src/pickers/dayPicker/DatesRangePicker.js:77-82 | on a well-shaped page, the slices are `allDays[..k]`, `1 .. daysInMonth` and `allDays[k + daysInMonth..]`; they concatenate back to the page; an edge slice is empty when no day of that month is shown |
| `RangePicker.CurrentMonthDays` | src/pickers/dayPicker/DatesRangePicker.js:82 | `_.range(1, daysInMonth + 1)` has one entry per day of the displayed month |
| `RangePicker.IndexOf` | src/pickers/dayPicker/DatesRangePicker.js:88 | `indexOf` returns the first index holding the value, or -1 when no index holds it (both directions) |
| `RangePicker.BuildMoment` | src/pickers/dayPicker/DatesRangePicker.js:32-42 | the first date on the page has day `firstOnPage`; it is in the displayed month when `firstOnPage` is 1 and in the previous month otherwise (December of the previous year for January); every later position is a later valid date |
| `RangePicker.BuildMomentStrictlyIncreasing` | src/pickers/dayPicker/DatesRangePicker.js:32-42 | a later position always resolves to a strictly later date |
| `RangePicker.BuildMomentDayNumber` | src/pickers/dayPicker/DatesRangePicker.js:40 | position `p` resolves to exactly `p` days after the first date on the page, measured by day number |
| `RangePicker.ClickResolvesToLabel` | src/pickers/dayPicker/DatesRangePicker.js:139-146 | on a well-shaped page, a click at any position resolves to the date whose label is shown there; its month is the previous, displayed or next month according to the slice the position is in |
| `RangePicker.LastOnPage` | src/pickers/dayPicker/DatesRangePicker.js:100 | the last position on the page is the last shown day of the next month; when no next-month day is shown, it is the displayed month's last day |
| `RangePicker.PrevSliceLookup` | src/pickers/dayPicker/DatesRangePicker.js:87-91 | the as-written start lookup gives 0, or a previous-month position showing the start's day-of-month |
| `RangePicker.PrevSliceLookupFirstMatch` | src/pickers/dayPicker/DatesRangePicker.js:87-91 | the as-written start lookup gives the first previous-month position showing the day-of-month; it gives 0 when no such position exists; the month of the start is not consulted |
| `RangePicker.PrevSliceLookupConsecutive` | src/pickers/dayPicker/DatesRangePicker.js:88-90 | on a run of consecutive days from `f`, the start lookup gives `day - f` inside the run and 0 outside it |
| `RangePicker.CurrentSliceLookup` | src/pickers/dayPicker/DatesRangePicker.js:93 | a day of the displayed month sits at position `day - 1 + k` |
| `RangePicker.NextSliceLookup` | src/pickers/dayPicker/DatesRangePicker.js:97-103 | the as-written end lookup gives the last position, or a next-month position showing the end's day-of-month |
| `RangePicker.NextSliceLookupFirstMatch` | src/pickers/dayPicker/DatesRangePicker.js:97-103 | the as-written end lookup gives the first next-month position showing the day-of-month; it gives `DAYS_ON_PAGE - 1` when no such position exists; the month of the end is not consulted |
| `RangePicker.NextSliceLookupConsecutive` | src/pickers/dayPicker/DatesRangePicker.js:98-102 | on a next-month slice `1, 2, …`, the end lookup gives `day - 1 + k + daysInMonth` when the day is shown, and the last position otherwise |
| `RangePicker.StartPosition` | src/pickers/dayPicker/DatesRangePicker.js:87-94 | no start, or a start after the displayed month, gives no position; a start in the displayed month gives `day - 1 + k`; a start before it gives 0 or a previous-month position showing the start's day-of-month |
| `RangePicker.StartPositionBeforeMonth` | src/pickers/dayPicker/DatesRangePicker.js:87-91 | a start in any earlier month gets the first previous-month position showing its day-of-month, and 0 (the first day on the page) when none shows it |
| `RangePicker.StartPositionUnmatchedDay` | src/pickers/dayPicker/DatesRangePicker.js:88-90 | when no label on the page equals the start's day-of-month, an earlier-month start gets position 0 |
| `RangePicker.EndPosition` | src/pickers/dayPicker/DatesRangePicker.js:95-104 | no end, or an end before the displayed month, gives no position; an end in the displayed month gives `day - 1 + k`; an end after it gives the last position or a next-month position showing the end's day-of-month; every position is on the page |
| `RangePicker.EndPositionAfterMonth` | src/pickers/dayPicker/DatesRangePicker.js:97-103 | an end in any later month gets the first next-month position showing its day-of-month, and `DAYS_ON_PAGE - 1` (the last day on the page) when none shows it |
| `RangePicker.EndPositionUnmatchedDay` | src/pickers/dayPicker/DatesRangePicker.js:98-100 | when no label on the page equals the end's day-of-month, a later-month end gets the last position |
| `RangePicker.ActiveDaysPositions` | src/pickers/dayPicker/DatesRangePicker.js:66-106 | the empty range gives `{undefined, undefined}`; every position given lies on the page |
| `RangePicker.StartPositionResolves` | src/pickers/dayPicker/DatesRangePicker.js:92-93 | a start in the displayed month gets the position that a click converts back to that same start |
| `RangePicker.EndPositionResolves` | src/pickers/dayPicker/DatesRangePicker.js:95-96 | an end in the displayed month gets the position that a click converts back to that same end |
| `RangePicker.CorrectedStartPosition` | src/pickers/dayPicker/DatesRangePicker.js:87-94 | the corrected start lookup agrees with the as-written one for starts from the previous month on; it gives 0 for starts further back; its positions lie on the page |
| `RangePicker.CorrectedEndPosition` | src/pickers/dayPicker/DatesRangePicker.js:95-104 | the corrected end lookup agrees with the as-written one for ends up to the next month; it gives the last position for ends further ahead; its positions lie on the page |
| `RangePicker.CorrectedActiveDaysPositions` | src/pickers/dayPicker/DatesRangePicker.js:66-106 | the empty range gives no positions; every position given lies on the page |
| `RangePicker.CorrectedStartPositionResolves` | src/pickers/dayPicker/DatesRangePicker.js:87-91 | a start before the displayed month maps to position 0 when it is before the first date on the page, and otherwise to the previous-month position showing exactly that date |
| `RangePicker.CorrectedEndPositionValue` | src/pickers/dayPicker/DatesRangePicker.js:97-103 | an end after the displayed month maps to `day - 1 + k + daysInMonth` when it is a shown day of the next month, and to the last position otherwise |
| `RangePicker.CorrectedEndPositionResolves` | src/pickers/dayPicker/DatesRangePicker.js:97-103 | an end after the displayed month maps to the last position when it is after the last date on the page, and otherwise to the next-month position showing exactly that date |
| `RangePicker.AsWrittenStartMatchesWrongMonth` | src/pickers/dayPicker/DatesRangePicker.js:87-91 | on the May 2021 page, start 2021-03-27 lies before the page; the as-written lookup gives position 2 (April 27), while the corrected lookup gives 0 |
| `RangePicker.AsWrittenEndMatchesWrongMonth` | src/pickers/dayPicker/DatesRangePicker.js:97-103 | on the May 2021 page, end 2021-07-03 lies after the page; the as-written lookup gives position 39 (June 3), while the corrected lookup gives 41 |
| `RangePicker.ChangedRange` | src/pickers/dayPicker/DatesRangePicker.js:133-159 | from `{}`, a click emits `{start: clicked}`; from `{start}`, it emits `{start, end: clicked}` when the clicked date is after the start (by day) and `{}` otherwise; with an end present it emits `{}`; every emitted range has end after start |
| `RangePicker.TwoClickSelection` | src/pickers/dayPicker/DatesRangePicker.js:140-155 | two clicks on one page starting from `{}` give a complete range exactly when the second position is later than the first, and `{}` otherwise |
| `RangePicker.DatesRangePicker.constructor` | src/pickers/dayPicker/DatesRangePicker.js:50-56 | the displayed date starts as a copy of `initializeWith` |
| `RangePicker.DatesRangePicker.SwitchToNextPage` | src/pickers/dayPicker/DatesRangePicker.js:161-167 | the displayed date becomes `date + 1 month`, so its month index grows by one |
| `RangePicker.DatesRangePicker.SwitchToPrevPage` | src/pickers/dayPicker/DatesRangePicker.js:169-175 | the displayed date becomes `date - 1 month`, so its month index shrinks by one |
| `RangePicker.NextThenPrevPage` | src/pickers/dayPicker/DatesRangePicker.js:161-175 | paging forward and then back shows the same month again |
| `Calendar.NextMonth` | src/pickers/dayPicker/DatesRangePicker.js:40 | the month that `add(n, 'day')` rolls over into past the month's last day (and whose leading days the next-month slice shows) starts on a valid day 1 one month index later |
| `Calendar.PreviousMonth` | src/pickers/dayPicker/DatesRangePicker.js:38 | the first day of the preceding month (December of the year before for January) is valid and is one month index earlier |
| `Calendar.MonthComparisonTrichotomy` | src/pickers/dayPicker/DatesRangePicker.js:87-97 | `isSame(…, 'month')` means the same year and month; every pair of dates is before, the same as or after each other at month granularity, and no two of these hold at once |
| `Calendar.AddDays` | src/pickers/dayPicker/DatesRangePicker.js:40 | adding days gives a valid date, and a strictly later one when the count is positive |
| `Calendar.AddDaysDayNumber` | src/pickers/dayPicker/DatesRangePicker.js:40 | adding `n` days adds exactly `n` to the day number |
| `Calendar.AddDaysCompose` | src/pickers/dayPicker/DatesRangePicker.js:40 | adding `a` days and then `b` days is adding `a + b` days |
| `Calendar.AddDaysWithinMonth` | src/pickers/dayPicker/DatesRangePicker.js:40 | adding days that stay inside the month only advances the day |
| `Calendar.AddDaysPastMonthEnd` | src/pickers/dayPicker/DatesRangePicker.js:40 | adding one day past the month's last day lands on day 1 of the next month |
| `Calendar.AddDaysStrictlyIncreasing` | src/pickers/dayPicker/DatesRangePicker.js:40 | adding more days gives a strictly later date |
| `Calendar.DayNumberOrder` | src/pickers/dayPicker/DatesRangePicker.js:147 | `isAfter(…, 'date')` agrees with the order of day numbers, and equal day numbers mean equal dates |
| `Calendar.AddMonths` | src/pickers/dayPicker/DatesRangePicker.js:161-175 | moving by `n` months gives a valid date `n` month indices away; the day is kept when the target month has it and is otherwise clamped to that month's last day |
| `Calendar.NextThenPrevMonth` | src/pickers/dayPicker/DatesRangePicker.js:161-175 | one month forward and one back returns to the same month; the date is unchanged when its day exists in the next month |
| `Calendar.PrevThenNextMonth` | src/pickers/dayPicker/DatesRangePicker.js:161-175 | one month back and one forward returns to the same month; the date is unchanged when its day exists in the previous month |

## Left out

- `buildDays` and `getDefaultEnabledDayPositions` live in `sharedFunctions`, which is not part of
  this model. The page they produce is taken as an input satisfying `PageShape`. The first
  position of the current month is taken as the input `k`, and the last is taken as `k + daysInMonth - 1`.
- `getDisabledDaysPositions`, `isNextPageAvailable` and `isPrevPageAvailable` only forward to
  `getDisabledDays`, `isNextPageAvailable` and `isPrevPageAvailable` of `sharedFunctions`, which
  are not part of this model.
- `getCurrentDate` only formats the date as `MMMM YYYY`; string formatting is not modelled.
- `render`, the `propTypes`/`defaultProps` declarations and `getUnhandledProps` are React wiring.
- `props.onChange` is called through `_.invoke` with the event and all props. `ChangedRange`
  returns the emitted range instead; the event object and the other props are not modelled.
- React's `setState` is modelled as a direct assignment of the new date. Batching and updater
  callbacks are not modelled.
- The unused `date` parameter of `getDaysFromPrevMonth` and `getDaysFromNextMonth` is dropped.
- `parseInt` on page labels and `key` is not modelled. `buildDays` is documented as returning
  strings (`DatesRangePicker.js:59-61`, and `handleChange` parses them at :139), and labels and keys
  are integers here. With string labels, `fromPrev.indexOf(start.date())` (:88) and
  `fromNext.indexOf(end.date())` (:98) compare a number with strings and never match.
  Then every start before the displayed month gets position 0 and every end after it gets
  `DAYS_ON_PAGE - 1` (`StartPositionUnmatchedDay`, `EndPositionUnmatchedDay`). That includes a start or end that is shown on the page: for the May 2021
  page, start 2021-04-27 would get 0 instead of 2. This model assumes numeric labels, and both
  findings below rest on that assumption.
- Dates carry no time of day, time zone or locale.
- For a January page that starts in December, `buildMoment` passes a month of -1 to the date
  library. The model reads that as December of the previous year, which is what the code means.
  What the library itself makes of an out-of-range month field (it may well reject it as an
  invalid date) is not modelled.
- `Calendar.AddMonths` models the library's month arithmetic only for the single-month moves the
  picker makes. Larger or fractional moves and daylight-saving effects are not modelled.

## Findings

| source | as written | input that shows it | evidently intended | confidence | as-written member | corrected member |
|---|---|---|---|---|---|---|
| src/pickers/dayPicker/DatesRangePicker.js:87-91 | a start in any earlier month is looked up by its day-of-month alone in the previous-month slice | the May 2021 page with day 1 in the seventh column (April 25..30, May 1..31, June 1..5) and start 2021-03-27, assuming numeric labels: the lookup finds April 27 and gives position 2 | a start that is not on the page clamps to position 0 (`first day on the page`), so only a start in the previous month is looked up | not executed; holds only if `buildDays` yields numbers | `RangePicker.AsWrittenStartMatchesWrongMonth` | `RangePicker.CorrectedStartPositionResolves` |
| src/pickers/dayPicker/DatesRangePicker.js:97-103 | an end in any later month is looked up by its day-of-month alone in the next-month slice | the same page and end 2021-07-03, assuming numeric labels: the lookup finds June 3 and gives position 39 | an end that is not on the page clamps to position 41 (`last day on the page`), so only an end in the next month is looked up | not executed; holds only if `buildDays` yields numbers | `RangePicker.AsWrittenEndMatchesWrongMonth` | `RangePicker.CorrectedEndPositionResolves` |
