/**
  The two-panel range calendar's own decisions: what a click on a day does to
  the range, how many days the range spans for the "N days" caption, and when
  each panel's month arrows are locked.
 */
module RangeCalendar {
  import opened Options
  import opened Calendar
  import opened DateRange

  /**
    Click on `day` with the current range `value`. Without a start, or with a
    finished range, the click starts a new range; with only a start, a day
    before it replaces the start and any other day closes the range.
   */
  function SelectDay(value: Range, day: Day): (r: Range)
    ensures r.start.Some?
    ensures IsStart(r, day) || IsEnd(r, day)
    ensures IsOrdered(r)
    ensures IsComplete(r) <==> (value.start.Some? && value.end.None? && value.start.value <= day)
    ensures IsComplete(r) ==> r.start == value.start && r.end == Some(day)
    ensures !IsComplete(r) ==> r == Range(Some(day), None)
  {
    if value.start.None? || (value.start.Some? && value.end.Some?) then
      Range(Some(day), None)
    else if day < value.start.value then
      Range(Some(day), value.end)
    else
      Range(value.start, Some(day))
  }

  /** Without a start, or with both ends present, a click starts over at the clicked day. */
  lemma ClickStartsNewRange(value: Range, day: Day)
    requires value.start.None? || IsComplete(value)
    ensures SelectDay(value, day) == Range(Some(day), None)
  {
  }

  /** With only a start, a click before it moves the start and leaves the end absent. */
  lemma ClickBeforeStartMovesStart(start: Day, day: Day)
    requires day < start
    ensures SelectDay(Range(Some(start), None), day) == Range(Some(day), None)
  {
  }

  /** With only a start, a click on or after it closes the range there; on the start itself it makes a one-day range. */
  lemma ClickFromStartCloses(start: Day, day: Day)
    requires start <= day
    ensures SelectDay(Range(Some(start), None), day) == Range(Some(start), Some(day))
    ensures SelectDay(Range(Some(start), None), start) == Range(Some(start), Some(start))
  {
  }

  /** From nothing, clicks on `a` then on a later-or-equal `b` select `[a, b]`, and a third click starts over. */
  lemma SelectionCycle(a: Day, b: Day, c: Day)
    requires a <= b
    ensures SelectDay(Empty, a) == Range(Some(a), None)
    ensures SelectDay(SelectDay(Empty, a), b) == Range(Some(a), Some(b))
    ensures SelectDay(SelectDay(SelectDay(Empty, a), b), c) == Range(Some(c), None)
  {
  }

  /** Number of days shown in the caption: inclusive span of a complete range, else 0. */
  function SelectedDaysCount(value: Range): (n: int)
    ensures !IsComplete(value) ==> n == 0
    ensures IsComplete(value) && IsOrdered(value) ==> n >= 1
  {
    if value.start.Some? && value.end.Some? then value.end.value - value.start.value + 1 else 0
  }

  /**
    For a complete, ordered range the caption's count is exactly the number
    of days the calendars highlight (start, end or in between).
   */
  lemma SelectedDaysCountIsHighlightedDays(value: Range)
    requires IsComplete(value) && IsOrdered(value)
    ensures SelectedDaysCount(value) == |DaysFromTo(value.start.value, value.end.value)|
    ensures forall d :: d in DaysFromTo(value.start.value, value.end.value)
                        <==> IsStart(value, d) || IsEnd(value, d) || IsBetween(value, d)
  {
    var s, e := value.start.value, value.end.value;
    DaysFromToSize(s, e);
    forall d | true
      ensures d in DaysFromTo(s, e) <==> IsStart(value, d) || IsEnd(value, d) || IsBetween(value, d)
    {
      DaysFromToMembers(s, e, d);
      ClassificationPartitionsRange(value, d);
    }
  }

  /** The "N days" caption is rendered only for a positive count. */
  predicate DaysCaptionShown(value: Range) {
    SelectedDaysCount(value) > 0
  }

  /** The caption is shown exactly for complete ranges that do not run backwards. */
  lemma DaysCaptionShownIffOrderedComplete(value: Range)
    ensures DaysCaptionShown(value) <==> IsComplete(value) && value.start.value <= value.end.value
  {
  }

  /**
    Whether a panel showing `month` locks its "next" arrow: only under
    `disableFuture`, once the panel has reached the current month.
   */
  function NextMonthLocked(disableFuture: bool, month: Day, today: Day): (locked: bool)
    ensures locked <==> disableFuture && month >= StartOfMonth(today)
  {
    var currentMonth := StartOfMonth(today);
    MonthOrderIsDayOrder(month, today);
    disableFuture && MonthOf(month) >= MonthOf(currentMonth)
  }

  /**
    Whether a panel showing `month` locks its "previous" arrow: only under
    `disablePast`, once the panel has gone back to the current month.
   */
  function PreviousMonthLocked(disablePast: bool, month: Day, today: Day): (locked: bool)
    ensures locked <==> disablePast && month <= EndOfMonth(today)
  {
    var currentMonth := StartOfMonth(today);
    MonthOrderIsDayOrder(month, today);
    disablePast && MonthOf(month) <= MonthOf(currentMonth)
  }

  /** Without either flag both arrows stay enabled, whatever the month. */
  lemma NoFlagsNoLocks(month: Day, today: Day)
    ensures !NextMonthLocked(false, month, today)
    ensures !PreviousMonthLocked(false, month, today)
  {
  }

  /** The panel showing the current month is locked in each direction its flag forbids. */
  lemma CurrentMonthPanelLocked(disablePast: bool, disableFuture: bool, today: Day)
    ensures NextMonthLocked(disableFuture, today, today) <==> disableFuture
    ensures PreviousMonthLocked(disablePast, today, today) <==> disablePast
  {
  }
}
