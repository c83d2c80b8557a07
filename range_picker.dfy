/** The range-selection logic of the `DatesRangePicker` day picker: how a calendar page is split
    into previous-month, current-month and next-month days, how a clicked position becomes a date,
    which page positions a `{start, end}` range marks active, the two-click selection protocol, and
    the displayed month that page navigation moves. */
module RangePicker {
  import opened Calendar

  datatype Option<T> = None | Some(value: T)

  /** A range value as the picker receives and emits it: `{}`, `{start}` or `{start, end}`. */
  datatype Range = Range(start: Option<Date>, end: Option<Date>)

  /** Page positions to mark active; `None` stands for `undefined`. */
  datatype Positions = Positions(start: Option<int>, end: Option<int>)

  /** While both endpoints are present, `end` is strictly after `start`. */
  predicate WellFormedRange(r: Range) {
    r.end.Some? ==> r.start.Some? && IsBeforeDay(r.start.value, r.end.value)
  }

  function Min(a: int, b: int): int { if a <= b then a else b }

  // ---- The page ----

  /** The page that `buildDays(date, daysOnPage)` produces: `k` trailing days of the previous month
      (`k` is the weekday of day 1, 0..6), then `1 .. MonthLength(date)`, then `1, 2, ...` of the next
      month up to `daysOnPage` entries. The current month occupies positions `k .. k + MonthLength(date) - 1`. */
  predicate PageShape(allDays: seq<int>, date: Date, k: nat, daysOnPage: nat) {
    PageLayout(allDays, date, k, daysOnPage)
    && k < 7
    && daysOnPage - k - MonthLength(date) <= MonthLength(NextMonth(date))
    && (forall i :: 0 <= i < k ==> allDays[i] == MonthLength(PreviousMonth(date)) - k + 1 + i)
    && (forall i :: k <= i < k + MonthLength(date) ==> allDays[i] == i - k + 1)
    && (forall i :: k + MonthLength(date) <= i < daysOnPage ==> allDays[i] == i - k - MonthLength(date) + 1)
  }

  /** What the position lookups rely on: the current month's days fit on the page after the `k`
      leading positions. */
  predicate PageLayout(allDays: seq<int>, date: Date, k: nat, daysOnPage: nat) {
    ValidDate(date) && |allDays| == daysOnPage && k + MonthLength(date) <= daysOnPage
  }

  /** `getDaysFromPrevMonth`: the entries before the current month's first position
      (`allDays.slice(0, pos)`, or `[]` when `pos` is 0). */
  function DaysFromPrevMonth(allDays: seq<int>, currentMonthStartPosition: nat): (r: seq<int>)
    ensures |r| == Min(currentMonthStartPosition, |allDays|)
    ensures r == allDays[..|r|]
  {
    if currentMonthStartPosition == 0 then [] else allDays[..Min(currentMonthStartPosition, |allDays|)]
  }

  /** `getDaysFromNextMonth`: the entries from one past the current month's last position
      (`allDays.slice(pos, allDays.length)`, or `[]` when `pos` is the page length). */
  function DaysFromNextMonth(allDays: seq<int>, currentMonthEndPosition: nat): (r: seq<int>)
    ensures |r| == |allDays| - Min(currentMonthEndPosition, |allDays|)
  {
    if currentMonthEndPosition == |allDays| then [] else allDays[Min(currentMonthEndPosition, |allDays|)..]
  }

  /** The next-month slice is the page suffix from the given position on, and it is empty exactly
      when that position is at or past the page's end. */
  lemma DaysFromNextMonthContents(allDays: seq<int>, currentMonthEndPosition: nat)
    ensures DaysFromNextMonth(allDays, currentMonthEndPosition) == allDays[Min(currentMonthEndPosition, |allDays|)..]
    ensures DaysFromNextMonth(allDays, currentMonthEndPosition) == [] <==> currentMonthEndPosition >= |allDays|
  {
  }

  /** `_.range(1, daysInMonth + 1)`. */
  function CurrentMonthDays(date: Date): (r: seq<int>)
    ensures |r| == MonthLength(date)
  {
    seq(MonthLength(date), i => i + 1)
  }

  /** `Array.prototype.indexOf`: the first index holding `x`, or -1. */
  function IndexOf(s: seq<int>, x: int): (i: int)
    ensures -1 <= i < |s|
    ensures i == -1 ==> forall j :: 0 <= j < |s| ==> s[j] != x
    ensures 0 <= i ==> s[i] == x && forall j :: 0 <= j < i ==> s[j] != x
  {
    IndexOfFrom(s, x, 0)
  }

  /** The search from index `from` on. */
  function IndexOfFrom(s: seq<int>, x: int, from: nat): (i: int)
    requires from <= |s|
    ensures i == -1 || from <= i < |s|
    ensures i == -1 ==> forall j :: from <= j < |s| ==> s[j] != x
    ensures 0 <= i ==> s[i] == x && forall j :: from <= j < i ==> s[j] != x
    decreases |s| - from
  {
    if from == |s| then -1
    else if s[from] == x then from
    else IndexOfFrom(s, x, from + 1)
  }

  /** The three slices recompose the page, and the middle one is exactly `1 .. MonthLength(date)`. */
  lemma PageSlices(allDays: seq<int>, date: Date, k: nat, daysOnPage: nat)
    requires PageShape(allDays, date, k, daysOnPage)
    ensures DaysFromPrevMonth(allDays, k) == allDays[..k]
    ensures k == 0 ==> DaysFromPrevMonth(allDays, k) == []
    ensures DaysFromNextMonth(allDays, k + MonthLength(date)) == allDays[k + MonthLength(date)..]
    ensures k + MonthLength(date) == daysOnPage ==> DaysFromNextMonth(allDays, k + MonthLength(date)) == []
    ensures allDays[k..k + MonthLength(date)] == CurrentMonthDays(date)
    ensures DaysFromPrevMonth(allDays, k) + CurrentMonthDays(date)
              + DaysFromNextMonth(allDays, k + MonthLength(date)) == allDays
  {
    var n := MonthLength(date);
    assert allDays[k..k + n] == CurrentMonthDays(date);
    assert allDays == allDays[..k] + allDays[k..k + n] + allDays[k + n..];
  }

  // ---- Click position to date ----

  /** The first page label is one `buildMoment` can turn into a date: 1 (the page starts on the
      displayed month) or a day of the previous month. */
  predicate FirstOnPageValid(date: Date, firstOnPage: int) {
    ValidDate(date) && (firstOnPage == 1 || 1 <= firstOnPage <= MonthLength(PreviousMonth(date)))
  }

  /** `buildMoment`: the date `dateToBuildPosition` days after the first date on the page. The page
      starts on day 1 of the displayed month when `firstOnPage` is 1, and otherwise on day
      `firstOnPage` of the previous month (for January, December of the previous year). */
  function BuildMoment(date: Date, firstOnPage: int, dateToBuildPosition: nat): (r: Date)
    requires FirstOnPageValid(date, firstOnPage)
    ensures ValidDate(r)
    ensures dateToBuildPosition == 0 ==> r.day == firstOnPage
    ensures dateToBuildPosition == 0 ==> MonthIndex(r) == MonthIndex(date) - (if firstOnPage == 1 then 0 else 1)
    ensures dateToBuildPosition > 0 ==> IsAfterDay(r, BuildMoment(date, firstOnPage, 0))
  {
    var first :=
      if firstOnPage == 1 then Date(date.year, date.month, firstOnPage)
      else var prev := PreviousMonth(date); Date(prev.year, prev.month, firstOnPage);
    AddDays(first, dateToBuildPosition)
  }

  /** Later positions resolve to strictly later dates. */
  lemma BuildMomentStrictlyIncreasing(date: Date, firstOnPage: int, p: nat, q: nat)
    requires FirstOnPageValid(date, firstOnPage) && p < q
    ensures IsBeforeDay(BuildMoment(date, firstOnPage, p), BuildMoment(date, firstOnPage, q))
  {
    var first := BuildMoment(date, firstOnPage, 0);
    assert BuildMoment(date, firstOnPage, p) == AddDays(first, p);
    assert BuildMoment(date, firstOnPage, q) == AddDays(first, q);
    AddDaysStrictlyIncreasing(first, p, q);
  }

  /** A click at position `p` resolves to the date `p` days after the first date on the page. */
  lemma BuildMomentDayNumber(date: Date, firstOnPage: int, p: nat)
    requires FirstOnPageValid(date, firstOnPage)
    ensures DayNumber(BuildMoment(date, firstOnPage, p)) == DayNumber(BuildMoment(date, firstOnPage, 0)) + p
  {
    AddDaysDayNumber(BuildMoment(date, firstOnPage, 0), p);
  }

  /** Counting forward from day 1 of a month: the month's own days, then those of the next month. */
  lemma AddDaysFromFirst(first: Date, q: nat)
    requires ValidDate(first) && first.day == 1
    requires q < MonthLength(first) + MonthLength(NextMonth(first))
    ensures q < MonthLength(first) ==> AddDays(first, q) == Date(first.year, first.month, q + 1)
    ensures q >= MonthLength(first) ==>
              AddDays(first, q).day == q - MonthLength(first) + 1
              && MonthIndex(AddDays(first, q)) == MonthIndex(first) + 1
  {
    if q < MonthLength(first) {
      AddDaysWithinMonth(first, q);
    } else {
      AddDaysIntoNextMonth(first, q - MonthLength(first));
    }
  }

  lemma AddDaysIntoNextMonth(first: Date, r: nat)
    requires ValidDate(first) && first.day == 1
    requires r < MonthLength(NextMonth(first))
    ensures AddDays(first, MonthLength(first) + r).day == r + 1
    ensures MonthIndex(AddDays(first, MonthLength(first) + r)) == MonthIndex(first) + 1
  {
    var n := MonthLength(first);
    var next := NextMonth(first);
    AddDaysCompose(first, n, r);
    AddDaysPastMonthEnd(first, n);
    AddDaysWithinMonth(next, r);
  }

  /** A click at position `p` resolves to the date whose label is shown at `p`: the label is its day,
      and its month is the previous, the displayed or the next month according to the slice `p` is in. */
  lemma ClickResolvesToLabel(allDays: seq<int>, date: Date, k: nat, daysOnPage: nat, p: nat)
    requires PageShape(allDays, date, k, daysOnPage) && p < daysOnPage
    ensures FirstOnPageValid(date, allDays[0])
    ensures BuildMoment(date, allDays[0], p).day == allDays[p]
    ensures MonthIndex(BuildMoment(date, allDays[0], p)) ==
              MonthIndex(date) + (if p < k then -1 else if p < k + MonthLength(date) then 0 else 1)
  {
    var current := Date(date.year, date.month, 1);
    if k == 0 {
      assert allDays[0] == 1;
      assert BuildMoment(date, 1, p) == AddDays(current, p);
      AddDaysFromFirst(current, p);
    } else {
      ClickOnPageStartingInPreviousMonth(allDays, date, k, daysOnPage, p);
    }
  }

  lemma ClickOnPageStartingInPreviousMonth(allDays: seq<int>, date: Date, k: nat, daysOnPage: nat, p: nat)
    requires PageShape(allDays, date, k, daysOnPage) && p < daysOnPage && k > 0
    ensures FirstOnPageValid(date, allDays[0])
    ensures BuildMoment(date, allDays[0], p).day == allDays[p]
    ensures MonthIndex(BuildMoment(date, allDays[0], p)) ==
              MonthIndex(date) + (if p < k then -1 else if p < k + MonthLength(date) then 0 else 1)
  {
    var f := allDays[0];
    assert f == MonthLength(PreviousMonth(date)) - k + 1;
    var prev := PreviousMonth(date);
    var first := Date(prev.year, prev.month, f);
    assert BuildMoment(date, f, p) == AddDays(first, p);
    if p < k {
      AddDaysWithinMonth(first, p);
      assert allDays[p] == f + p;
    } else {
      ClickAfterPreviousMonthTail(allDays, date, k, daysOnPage, first, p - k);
    }
  }

  lemma ClickAfterPreviousMonthTail(allDays: seq<int>, date: Date, k: nat, daysOnPage: nat, first: Date, q: nat)
    requires PageShape(allDays, date, k, daysOnPage) && k + q < daysOnPage && k > 0
    requires ValidDate(first) && MonthIndex(first) == MonthIndex(date) - 1 && first.day == allDays[0]
    ensures AddDays(first, k + q).day == allDays[k + q]
    ensures MonthIndex(AddDays(first, k + q)) == MonthIndex(date) + (if q < MonthLength(date) then 0 else 1)
  {
    PreviousMonthTailEndsOnFirst(date, first, k);
    AddDaysCompose(first, k, q);
    AddDaysFromFirst(Date(date.year, date.month, 1), q);
  }

  /** Counting on from a day of the previous month by the days left in that month reaches day 1. */
  lemma PreviousMonthTailEndsOnFirst(date: Date, first: Date, k: nat)
    requires ValidDate(date) && ValidDate(first)
    requires MonthIndex(first) == MonthIndex(date) - 1
    requires first.day + k == DaysInMonth(first.year, first.month) + 1
    ensures AddDays(first, k) == Date(date.year, date.month, 1)
  {
    AddDaysPastMonthEnd(first, k);
    MonthIndexOrder(NextMonth(first), Date(date.year, date.month, 1));
  }

  // ---- Range to page positions ----

  /** A start in an earlier month, as written: the first position of the previous-month slice that
      shows its day-of-month, or 0 (the first day on the page) when none does. */
  function PrevSliceLookup(allDays: seq<int>, k: nat, day: int): (r: nat)
    requires k <= |allDays|
    ensures r == 0 || (r < k && allDays[r] == day)
  {
    var i := IndexOf(DaysFromPrevMonth(allDays, k), day);
    if i < 0 then 0 else i
  }

  /** The previous-month lookup finds the first previous-month position showing `day`, and clamps to
      0 exactly when no previous-month position shows it. */
  lemma PrevSliceLookupFirstMatch(allDays: seq<int>, k: nat, day: int)
    requires k <= |allDays|
    ensures var r := PrevSliceLookup(allDays, k, day);
            if exists j :: 0 <= j < k && allDays[j] == day
            then r < k && allDays[r] == day && forall j :: 0 <= j < r ==> allDays[j] != day
            else r == 0
  {
    var fromPrev := DaysFromPrevMonth(allDays, k);
    assert fromPrev == allDays[..k];
    var i := IndexOf(fromPrev, day);
    if exists j :: 0 <= j < k && allDays[j] == day {
      var j :| 0 <= j < k && allDays[j] == day;
      assert fromPrev[j] == day;
    } else {
      assert day !in fromPrev by {
        forall j | 0 <= j < |fromPrev|
          ensures fromPrev[j] != day
        {
          assert fromPrev[j] == allDays[j];
        }
      }
    }
  }

  /** A date in the displayed month: its day's index in `1 .. MonthLength(date)`, shifted by the
      current month's first position. */
  function CurrentSliceLookup(date: Date, k: nat, day: int): (r: int)
    requires ValidDate(date) && 1 <= day <= MonthLength(date)
    ensures r == day - 1 + k
  {
    var fromCurrentMonth := CurrentMonthDays(date);
    assert fromCurrentMonth[day - 1] == day;
    IndexOf(fromCurrentMonth, day) + k
  }

  /** An end in a later month, as written: the first position of the next-month slice (the entries
      after `lastCurrentPosition`) that shows its day-of-month, or the last position on the page when
      none does. */
  function NextSliceLookup(allDays: seq<int>, lastCurrentPosition: nat, daysOnPage: nat, day: int): (r: nat)
    requires lastCurrentPosition < |allDays| == daysOnPage
    ensures r == daysOnPage - 1 || (lastCurrentPosition < r < daysOnPage && allDays[r] == day)
  {
    var fromNext := DaysFromNextMonth(allDays, lastCurrentPosition + 1);
    var i := IndexOf(fromNext, day);
    if i < 0 then daysOnPage - 1 else i + lastCurrentPosition + 1
  }

  /** The next-month lookup finds the first next-month position showing `day`, and clamps to the
      last position exactly when no next-month position shows it. */
  lemma NextSliceLookupFirstMatch(allDays: seq<int>, lastCurrentPosition: nat, daysOnPage: nat, day: int)
    requires lastCurrentPosition < |allDays| == daysOnPage
    ensures var r := NextSliceLookup(allDays, lastCurrentPosition, daysOnPage, day);
            if exists j :: lastCurrentPosition < j < daysOnPage && allDays[j] == day
            then lastCurrentPosition < r && allDays[r] == day
                 && forall j :: lastCurrentPosition < j < r ==> allDays[j] != day
            else r == daysOnPage - 1
  {
    var c := lastCurrentPosition + 1;
    var fromNext := DaysFromNextMonth(allDays, c);
    assert fromNext == allDays[c..];
    var i := IndexOf(fromNext, day);
    if exists j :: lastCurrentPosition < j < daysOnPage && allDays[j] == day {
      var j :| lastCurrentPosition < j < daysOnPage && allDays[j] == day;
      assert fromNext[j - c] == day;
      forall j | c <= j < c + i
        ensures allDays[j] != day
      {
        assert allDays[j] == fromNext[j - c];
      }
    } else {
      assert day !in fromNext by {
        forall j | 0 <= j < |fromNext|
          ensures fromNext[j] != day
        {
          assert fromNext[j] == allDays[c + j];
        }
      }
    }
  }

  /** The start position, as written: a start in an earlier month goes through the previous-month
      slice, a start in the displayed month through the current-month slice; an absent start, or one
      in a later month, gives no position. */
  function StartPosition(date: Date, allDays: seq<int>, k: nat, start: Option<Date>): (r: Option<int>)
    requires PageLayout(allDays, date, k, |allDays|)
    requires start.Some? ==> ValidDate(start.value)
    ensures start.None? ==> r.None?
    ensures start.Some? && IsAfterMonth(start.value, date) ==> r.None?
    ensures start.Some? && IsSameMonth(start.value, date) ==> r == Some(start.value.day - 1 + k)
    ensures start.Some? && IsBeforeMonth(start.value, date) ==>
              r.Some? && (r.value == 0 || (0 <= r.value < k && allDays[r.value] == start.value.day))
  {
    match start
    case None => None
    case Some(s) =>
      if IsBeforeMonth(s, date) then Some(PrevSliceLookup(allDays, k, s.day))
      else if IsSameMonth(s, date) then Some(CurrentSliceLookup(date, k, s.day))
      else None
  }

  /** The end position, as written: an end in the displayed month goes through the current-month
      slice, an end in a later month through the next-month slice; an absent end, or one in an
      earlier month, gives no position. */
  function EndPosition(date: Date, allDays: seq<int>, k: nat, daysOnPage: nat, end: Option<Date>): (r: Option<int>)
    requires PageLayout(allDays, date, k, daysOnPage)
    requires end.Some? ==> ValidDate(end.value)
    ensures r.Some? ==> 0 <= r.value < daysOnPage
    ensures end.None? ==> r.None?
    ensures end.Some? && IsBeforeMonth(end.value, date) ==> r.None?
    ensures end.Some? && IsSameMonth(end.value, date) ==> r == Some(end.value.day - 1 + k)
    ensures end.Some? && IsAfterMonth(end.value, date) ==>
              r.Some? && (r.value == daysOnPage - 1
                          || (k + MonthLength(date) <= r.value && allDays[r.value] == end.value.day))
  {
    match end
    case None => None
    case Some(e) =>
      if IsSameMonth(e, date) then Some(CurrentSliceLookup(date, k, e.day))
      else if IsAfterMonth(e, date) then Some(NextSliceLookup(allDays, k + MonthLength(date) - 1, daysOnPage, e.day))
      else None
  }

  /** A start in an earlier month, as written: the first previous-month position showing its
      day-of-month, or 0 when no previous-month position shows it. */
  lemma StartPositionBeforeMonth(date: Date, allDays: seq<int>, k: nat, start: Date)
    requires PageLayout(allDays, date, k, |allDays|) && ValidDate(start) && IsBeforeMonth(start, date)
    ensures var r := StartPosition(date, allDays, k, Some(start)).value;
            if exists j :: 0 <= j < k && allDays[j] == start.day
            then r < k && allDays[r] == start.day && forall j :: 0 <= j < r ==> allDays[j] != start.day
            else r == 0
  {
    PrevSliceLookupFirstMatch(allDays, k, start.day);
  }

  /** An end in a later month, as written: the first next-month position showing its day-of-month,
      or the last position on the page when no next-month position shows it. */
  lemma EndPositionAfterMonth(date: Date, allDays: seq<int>, k: nat, daysOnPage: nat, end: Date)
    requires PageLayout(allDays, date, k, daysOnPage) && ValidDate(end) && IsAfterMonth(end, date)
    ensures var r := EndPosition(date, allDays, k, daysOnPage, Some(end)).value;
            var c := k + MonthLength(date);
            if exists j :: c <= j < daysOnPage && allDays[j] == end.day
            then c <= r && allDays[r] == end.day && forall j :: c <= j < r ==> allDays[j] != end.day
            else r == daysOnPage - 1
  {
    MonthComparisonTrichotomy(end, date);
    NextSliceLookupFirstMatch(allDays, k + MonthLength(date) - 1, daysOnPage, end.day);
  }

  /** When no label on the page equals a number (as with labels that are strings, which `indexOf`
      never finds a number among), an earlier-month start with that day gets position 0. */
  lemma StartPositionUnmatchedDay(date: Date, allDays: seq<int>, k: nat, start: Date)
    requires PageLayout(allDays, date, k, |allDays|) && ValidDate(start) && IsBeforeMonth(start, date)
    requires forall i :: 0 <= i < |allDays| ==> allDays[i] != start.day
    ensures StartPosition(date, allDays, k, Some(start)) == Some(0)
  {
    StartPositionBeforeMonth(date, allDays, k, start);
  }

  /** In the same situation, a later-month end gets the last position on the page. */
  lemma EndPositionUnmatchedDay(date: Date, allDays: seq<int>, k: nat, daysOnPage: nat, end: Date)
    requires PageLayout(allDays, date, k, daysOnPage) && ValidDate(end) && IsAfterMonth(end, date)
    requires forall i :: 0 <= i < |allDays| ==> allDays[i] != end.day
    ensures EndPosition(date, allDays, k, daysOnPage, Some(end)) == Some(daysOnPage - 1)
  {
    EndPositionAfterMonth(date, allDays, k, daysOnPage, end);
  }

  /** `getActiveDaysPositions`, as written. */
  function ActiveDaysPositions(date: Date, allDays: seq<int>, k: nat, daysOnPage: nat, range: Range): (r: Positions)
    requires PageLayout(allDays, date, k, daysOnPage)
    requires range.start.Some? ==> ValidDate(range.start.value)
    requires range.end.Some? ==> ValidDate(range.end.value)
    ensures range == Range(None, None) ==> r == Positions(None, None)
    ensures r.start.Some? ==> 0 <= r.start.value < daysOnPage
    ensures r.end.Some? ==> 0 <= r.end.value < daysOnPage
  {
    Positions(StartPosition(date, allDays, k, range.start), EndPosition(date, allDays, k, daysOnPage, range.end))
  }

  /** A start in the displayed month maps to the position that resolves back to it. */
  lemma StartPositionResolves(date: Date, allDays: seq<int>, k: nat, start: Date)
    requires PageShape(allDays, date, k, |allDays|) && ValidDate(start) && IsSameMonth(start, date)
    ensures FirstOnPageValid(date, allDays[0])
    ensures BuildMoment(date, allDays[0], StartPosition(date, allDays, k, Some(start)).value) == start
  {
    var p := StartPosition(date, allDays, k, Some(start)).value;
    ClickResolvesToLabel(allDays, date, k, |allDays|, p);
    MonthIndexOrder(BuildMoment(date, allDays[0], p), start);
  }

  /** An end in the displayed month maps to the position that resolves back to it. */
  lemma EndPositionResolves(date: Date, allDays: seq<int>, k: nat, daysOnPage: nat, end: Date)
    requires PageShape(allDays, date, k, daysOnPage) && ValidDate(end) && IsSameMonth(end, date)
    ensures FirstOnPageValid(date, allDays[0])
    ensures BuildMoment(date, allDays[0], EndPosition(date, allDays, k, daysOnPage, Some(end)).value) == end
  {
    var p := EndPosition(date, allDays, k, daysOnPage, Some(end)).value;
    ClickResolvesToLabel(allDays, date, k, daysOnPage, p);
    MonthIndexOrder(BuildMoment(date, allDays[0], p), end);
  }

  // ---- Corrected lookups: only the adjacent month's days can be on the page ----

  /** Like `StartPosition`, but the previous-month slice is consulted only for a start in the month
      just before the displayed one; a start further back clamps to 0. */
  function CorrectedStartPosition(date: Date, allDays: seq<int>, k: nat, start: Option<Date>): (r: Option<int>)
    requires PageLayout(allDays, date, k, |allDays|)
    requires start.Some? ==> ValidDate(start.value)
    ensures start.None? ==> r.None?
    ensures start.Some? && IsAfterMonth(start.value, date) ==> r.None?
    ensures start.Some? && MonthIndex(start.value) >= MonthIndex(date) - 1 ==> r == StartPosition(date, allDays, k, start)
    ensures start.Some? && MonthIndex(start.value) < MonthIndex(date) - 1 ==> r == Some(0)
    ensures r.Some? ==> 0 <= r.value < |allDays|
  {
    match start
    case None => None
    case Some(s) =>
      if IsBeforeMonth(s, date) then
        Some(if MonthIndex(s) == MonthIndex(date) - 1 then PrevSliceLookup(allDays, k, s.day) else 0)
      else if IsSameMonth(s, date) then Some(CurrentSliceLookup(date, k, s.day))
      else None
  }

  /** Like `EndPosition`, but the next-month slice is consulted only for an end in the month just
      after the displayed one; an end further ahead clamps to the last position. */
  function CorrectedEndPosition(date: Date, allDays: seq<int>, k: nat, daysOnPage: nat, end: Option<Date>): (r: Option<int>)
    requires PageLayout(allDays, date, k, daysOnPage)
    requires end.Some? ==> ValidDate(end.value)
    ensures end.None? ==> r.None?
    ensures end.Some? && IsBeforeMonth(end.value, date) ==> r.None?
    ensures end.Some? && IsSameMonth(end.value, date) ==> r == EndPosition(date, allDays, k, daysOnPage, end)
    ensures end.Some? && MonthIndex(end.value) == MonthIndex(date) + 1 ==> r == EndPosition(date, allDays, k, daysOnPage, end)
    ensures end.Some? && MonthIndex(end.value) > MonthIndex(date) + 1 ==> r == Some(daysOnPage - 1)
    ensures r.Some? ==> 0 <= r.value < daysOnPage
  {
    match end
    case None => None
    case Some(e) =>
      if IsSameMonth(e, date) then Some(CurrentSliceLookup(date, k, e.day))
      else if IsAfterMonth(e, date) then
        Some(if MonthIndex(e) == MonthIndex(date) + 1
             then NextSliceLookup(allDays, k + MonthLength(date) - 1, daysOnPage, e.day)
             else daysOnPage - 1)
      else None
  }

  /** `getActiveDaysPositions` with the corrected lookups. */
  function CorrectedActiveDaysPositions(date: Date, allDays: seq<int>, k: nat, daysOnPage: nat, range: Range): (r: Positions)
    requires PageLayout(allDays, date, k, daysOnPage)
    requires range.start.Some? ==> ValidDate(range.start.value)
    requires range.end.Some? ==> ValidDate(range.end.value)
    ensures range == Range(None, None) ==> r == Positions(None, None)
    ensures r.start.Some? ==> 0 <= r.start.value < daysOnPage
    ensures r.end.Some? ==> 0 <= r.end.value < daysOnPage
  {
    Positions(CorrectedStartPosition(date, allDays, k, range.start),
              CorrectedEndPosition(date, allDays, k, daysOnPage, range.end))
  }

  /** On a run of consecutive day numbers starting at `f`, the previous-month lookup finds `day` at
      its offset in the run, and clamps to 0 when the run does not contain it. */
  lemma PrevSliceLookupConsecutive(allDays: seq<int>, k: nat, f: int, day: int)
    requires k <= |allDays| && forall i :: 0 <= i < k ==> allDays[i] == f + i
    ensures PrevSliceLookup(allDays, k, day) == if f <= day < f + k then day - f else 0
  {
    PrevSliceLookupFirstMatch(allDays, k, day);
    if f <= day < f + k {
      assert allDays[day - f] == day;
    }
  }

  /** On a next-month slice (from position `k + n`) of consecutive day numbers from 1, the
      next-month lookup finds `day` at its offset in the slice, and clamps to the last position when
      the slice does not contain it. */
  lemma NextSliceLookupConsecutive(allDays: seq<int>, k: nat, n: nat, daysOnPage: nat, day: int)
    requires 1 <= k + n <= |allDays| == daysOnPage
    requires forall i :: k + n <= i < daysOnPage ==> allDays[i] == i - k - n + 1
    ensures NextSliceLookup(allDays, k + n - 1, daysOnPage, day) ==
              if 1 <= day <= daysOnPage - k - n then day - 1 + k + n else daysOnPage - 1
  {
    NextSliceLookupFirstMatch(allDays, k + n - 1, daysOnPage, day);
    if 1 <= day <= daysOnPage - k - n {
      assert allDays[day - 1 + k + n] == day;
    }
  }

  /** A start before the displayed month maps to the position showing it when it is on the page,
      and to the first position when it lies before the page. */
  lemma CorrectedStartPositionResolves(date: Date, allDays: seq<int>, k: nat, start: Date)
    requires PageShape(allDays, date, k, |allDays|) && ValidDate(start) && IsBeforeMonth(start, date)
    ensures FirstOnPageValid(date, allDays[0])
    ensures var p := CorrectedStartPosition(date, allDays, k, Some(start)).value;
            if IsBeforeDay(start, BuildMoment(date, allDays[0], 0)) then p == 0
            else p < k && BuildMoment(date, allDays[0], p) == start
  {
    var f := MonthLength(PreviousMonth(date)) - k + 1;
    PrevSliceLookupConsecutive(allDays, k, f, start.day);
    ClickResolvesToLabel(allDays, date, k, |allDays|, 0);
    MonthIndexOrder(start, BuildMoment(date, allDays[0], 0));
    if MonthIndex(start) == MonthIndex(date) - 1 && f <= start.day {
      var p := start.day - f;
      ClickResolvesToLabel(allDays, date, k, |allDays|, p);
      MonthIndexOrder(BuildMoment(date, allDays[0], p), start);
    }
  }

  /** An end after the displayed month maps to the position showing it when it is on the page,
      and to the last position when it lies after the page. */
  lemma CorrectedEndPositionResolves(date: Date, allDays: seq<int>, k: nat, daysOnPage: nat, end: Date)
    requires PageShape(allDays, date, k, daysOnPage) && ValidDate(end) && IsAfterMonth(end, date)
    ensures FirstOnPageValid(date, allDays[0])
    ensures var p := CorrectedEndPosition(date, allDays, k, daysOnPage, Some(end)).value;
            if IsAfterDay(end, BuildMoment(date, allDays[0], daysOnPage - 1)) then p == daysOnPage - 1
            else k + MonthLength(date) <= p && BuildMoment(date, allDays[0], p) == end
  {
    var tail := daysOnPage - k - MonthLength(date);
    CorrectedEndPositionValue(date, allDays, k, daysOnPage, end);
    var p := CorrectedEndPosition(date, allDays, k, daysOnPage, Some(end)).value;
    LastOnPage(allDays, date, k, daysOnPage);
    if MonthIndex(end) == MonthIndex(date) + 1 && end.day <= tail {
      EndShownOnPage(allDays, date, k, daysOnPage, end, p);
    } else {
      MonthIndexOrder(BuildMoment(date, allDays[0], daysOnPage - 1), end);
    }
  }

  /** The corrected end position of an end after the displayed month: its position in the
      next-month slice when it is in the next month and shown, else the last position. */
  lemma CorrectedEndPositionValue(date: Date, allDays: seq<int>, k: nat, daysOnPage: nat, end: Date)
    requires PageLayout(allDays, date, k, daysOnPage) && ValidDate(end) && IsAfterMonth(end, date)
    requires forall i :: k + MonthLength(date) <= i < daysOnPage ==> allDays[i] == i - k - MonthLength(date) + 1
    ensures var tail := daysOnPage - k - MonthLength(date);
            CorrectedEndPosition(date, allDays, k, daysOnPage, Some(end)) ==
              Some(if MonthIndex(end) == MonthIndex(date) + 1 && end.day <= tail
                   then end.day - 1 + k + MonthLength(date) else daysOnPage - 1)
  {
    NextSliceLookupConsecutive(allDays, k, MonthLength(date), daysOnPage, end.day);
  }

  /** The last date on the page: the last shown day of the next month, or the displayed month's last
      day when the page shows nothing of the next month. */
  lemma LastOnPage(allDays: seq<int>, date: Date, k: nat, daysOnPage: nat)
    requires PageShape(allDays, date, k, daysOnPage)
    ensures FirstOnPageValid(date, allDays[0])
    ensures var last := BuildMoment(date, allDays[0], daysOnPage - 1);
            var tail := daysOnPage - k - MonthLength(date);
            if tail > 0 then MonthIndex(last) == MonthIndex(date) + 1 && last.day == tail
            else MonthIndex(last) == MonthIndex(date) && last.day == MonthLength(date)
  {
    ClickResolvesToLabel(allDays, date, k, daysOnPage, daysOnPage - 1);
  }

  /** An end in the next month on a day the page shows resolves to its position, at or before the
      last one. */
  lemma EndShownOnPage(allDays: seq<int>, date: Date, k: nat, daysOnPage: nat, end: Date, p: nat)
    requires PageShape(allDays, date, k, daysOnPage) && ValidDate(end)
    requires MonthIndex(end) == MonthIndex(date) + 1 && end.day <= daysOnPage - k - MonthLength(date)
    requires p == end.day - 1 + k + MonthLength(date)
    ensures FirstOnPageValid(date, allDays[0])
    ensures BuildMoment(date, allDays[0], p) == end
    ensures !IsAfterDay(end, BuildMoment(date, allDays[0], daysOnPage - 1))
  {
    ClickResolvesToLabel(allDays, date, k, daysOnPage, p);
    MonthIndexOrder(BuildMoment(date, allDays[0], p), end);
    if p < daysOnPage - 1 {
      BuildMomentStrictlyIncreasing(date, allDays[0], p, daysOnPage - 1);
    }
  }

  // ---- The as-written lookup on a concrete page ----

  /** The page for May 2021 when day 1 falls in the seventh column (k = 6): April 25..30, May 1..31,
      June 1..5. */
  function May2021Page(): (r: seq<int>)
    ensures PageShape(r, Date(2021, 5, 1), 6, 42)
  {
    assert MonthIndex(Date(2021, 5, 1)) == 24256;
    seq(42, i => if i < 6 then 25 + i else if i < 37 then i - 5 else i - 36)
  }

  /** March 27 is before the page's first date, so the start should clamp to position 0; the
      day-only lookup instead finds April 27 at position 2. */
  lemma AsWrittenStartMatchesWrongMonth()
    ensures var date := Date(2021, 5, 1);
            var page := May2021Page();
            IsBeforeDay(Date(2021, 3, 27), BuildMoment(date, page[0], 0))
            && StartPosition(date, page, 6, Some(Date(2021, 3, 27))) == Some(2)
            && CorrectedStartPosition(date, page, 6, Some(Date(2021, 3, 27))) == Some(0)
  {
    var date := Date(2021, 5, 1);
    var page := May2021Page();
    var fromPrev := DaysFromPrevMonth(page, 6);
    assert fromPrev[2] == 27;
    assert IndexOf(fromPrev, 27) == 2;
    ClickResolvesToLabel(page, date, 6, 42, 0);
  }

  /** July 3 is after the page's last date, so the end should clamp to position 41; the day-only
      lookup instead finds June 3 at position 39. */
  lemma AsWrittenEndMatchesWrongMonth()
    ensures var date := Date(2021, 5, 1);
            var page := May2021Page();
            IsAfterDay(Date(2021, 7, 3), BuildMoment(date, page[0], 41))
            && EndPosition(date, page, 6, 42, Some(Date(2021, 7, 3))) == Some(39)
            && CorrectedEndPosition(date, page, 6, 42, Some(Date(2021, 7, 3))) == Some(41)
  {
    var date := Date(2021, 5, 1);
    var page := May2021Page();
    var fromNext := DaysFromNextMonth(page, 37);
    assert fromNext[2] == 3;
    assert IndexOf(fromNext, 3) == 2;
    ClickResolvesToLabel(page, date, 6, 42, 41);
  }

  // ---- Two-step selection ----

  /** `handleChange`: the range emitted when the cell at position `key` is clicked. */
  function ChangedRange(date: Date, allDays: seq<int>, start: Option<Date>, end: Option<Date>, key: nat): (r: Range)
    requires |allDays| > 0 && FirstOnPageValid(date, allDays[0])
    ensures WellFormedRange(r)
    ensures start.None? && end.None? ==> r == Range(Some(BuildMoment(date, allDays[0], key)), None)
    ensures start.Some? && end.None? ==>
              if IsAfterDay(BuildMoment(date, allDays[0], key), start.value)
              then r == Range(start, Some(BuildMoment(date, allDays[0], key)))
              else r == Range(None, None)
    ensures end.Some? ==> r == Range(None, None)
  {
    var firstOnPage := allDays[0];
    if start.None? && end.None? then
      Range(Some(BuildMoment(date, firstOnPage, key)), None)
    else if start.Some? && end.None? then
      var selectedDate := BuildMoment(date, firstOnPage, key);
      if IsAfterDay(selectedDate, start.value) then Range(start, Some(selectedDate))
      else Range(None, None)
    else
      Range(None, None)
  }

  /** Two clicks on one page starting from `{}`: the second click completes the range exactly when it
      is at a later position, and otherwise resets it. */
  lemma TwoClickSelection(date: Date, allDays: seq<int>, first: nat, second: nat)
    requires |allDays| > 0 && FirstOnPageValid(date, allDays[0])
    ensures var r1 := ChangedRange(date, allDays, None, None, first);
            var r2 := ChangedRange(date, allDays, r1.start, r1.end, second);
            r1.start.Some? && r1.end.None?
            && r2 == if first < second
                     then Range(Some(BuildMoment(date, allDays[0], first)), Some(BuildMoment(date, allDays[0], second)))
                     else Range(None, None)
  {
    if first < second {
      BuildMomentStrictlyIncreasing(date, allDays[0], first, second);
    } else if second < first {
      BuildMomentStrictlyIncreasing(date, allDays[0], second, first);
    }
  }

  // ---- The displayed month ----

  /** The picker's one piece of state: the date whose month is displayed. */
  class DatesRangePicker {
    var date: Date

    predicate Valid()
      reads this
    {
      ValidDate(date)
    }

    /** Starts from (a copy of) `initializeWith`. */
    constructor (initializeWith: Date)
      requires ValidDate(initializeWith)
      ensures Valid() && date == initializeWith
    {
      date := initializeWith;
    }

    /** `switchToNextPage`: the displayed date becomes a copy moved one month forward. */
    method SwitchToNextPage()
      requires Valid()
      modifies this
      ensures Valid()
      ensures date == AddMonths(old(date), 1)
      ensures MonthIndex(date) == MonthIndex(old(date)) + 1
    {
      var nextDate := AddMonths(date, 1);
      date := nextDate;
    }

    /** `switchToPrevPage`: the displayed date becomes a copy moved one month back. */
    method SwitchToPrevPage()
      requires Valid()
      modifies this
      ensures Valid()
      ensures date == AddMonths(old(date), -1)
      ensures MonthIndex(date) == MonthIndex(old(date)) - 1
    {
      var prevDate := AddMonths(date, -1);
      date := prevDate;
    }
  }

  /** Paging forward and then back shows the same year and month again. */
  method NextThenPrevPage(picker: DatesRangePicker)
    requires picker.Valid()
    modifies picker
    ensures picker.Valid()
    ensures IsSameMonth(picker.date, old(picker.date))
  {
    picker.SwitchToNextPage();
    picker.SwitchToPrevPage();
    NextThenPrevMonth(old(picker.date));
  }
}
