/**
  The month header above each day grid: the "<" and ">" arrows step the
  panel's month back or forward by one, and emit nothing while locked. The
  two header components of the widget carry identical handlers, so both are
  this one model.
 */
module Header {
  import opened Options
  import opened Calendar
  import opened RangeCalendar

  /** "<": the month one before `month`, unless the arrow is locked. */
  function PreviousMonth(month: Day, isPreviousMonthDisabled: bool): (emitted: Option<Day>)
    ensures emitted.None? <==> isPreviousMonthDisabled
    ensures emitted.Some? ==> MonthOf(emitted.value) == MonthOf(month) - 1 && emitted.value < month
  {
    AddMonthsMonotone(month, -1);
    if !isPreviousMonthDisabled then Some(AddMonths(month, -1)) else None
  }

  /** ">": the month one after `month`, unless the arrow is locked. */
  function NextMonth(month: Day, isNextMonthDisabled: bool): (emitted: Option<Day>)
    ensures emitted.None? <==> isNextMonthDisabled
    ensures emitted.Some? ==> MonthOf(emitted.value) == MonthOf(month) + 1 && month < emitted.value
  {
    AddMonthsMonotone(month, 1);
    if !isNextMonthDisabled then Some(AddMonths(month, 1)) else None
  }

  /** The panel's month after a header click: the emitted month, or the old one when nothing was emitted. */
  function Shown(month: Day, emitted: Option<Day>): Day {
    emitted.GetOr(month)
  }

  /** A locked arrow leaves the panel where it is. */
  lemma LockedArrowKeepsMonth(month: Day)
    ensures Shown(month, PreviousMonth(month, true)) == month
    ensures Shown(month, NextMonth(month, true)) == month
  {
  }

  /** With both arrows free, ">" then "<" comes back to the same month. */
  lemma NextThenPreviousSameMonth(month: Day)
    ensures MonthOf(Shown(Shown(month, NextMonth(month, false)), PreviousMonth(Shown(month, NextMonth(month, false)), false)))
         == MonthOf(month)
  {
  }

  /**
    The round trip also comes back to the same day when the day of the month
    exists in every month (the 1st to the 28th); later days may be clamped by
    a shorter neighbouring month.
   */
  lemma NextThenPreviousSameDay(month: Day)
    requires DayOfMonth0(month) < 28
    ensures Shown(Shown(month, NextMonth(month, false)), PreviousMonth(Shown(month, NextMonth(month, false)), false))
         == month
  {
    var next := AddMonths(month, 1);
    var back := AddMonths(next, -1);
    assert DayOfMonth0(back) == DayOfMonth0(month);
  }

  /** January 31st of 2023 goes forward to February 28th and back to January 28th, not to the 31st. */
  lemma NextThenPreviousClampsLateDay(m: MonthIndex)
    requires m == 2023 * 12
    ensures var jan31 := FirstDay(m) + 30;
            AddMonths(AddMonths(jan31, 1), -1) == jan31 - 3
  {
    JanuaryAndFebruary(m);
    var jan31 := FirstDay(m) + 30;
    DayInMonth(m, 30, jan31);
    var feb := AddMonths(jan31, 1);
    assert MonthOf(feb) == m + 1 && DayOfMonth0(feb) == 27;
    var back := AddMonths(feb, -1);
    assert MonthOf(back) == m && DayOfMonth0(back) == 27;
  }

  /** January 2023 has 31 days and February 2023 has 28. */
  lemma JanuaryAndFebruary(m: MonthIndex)
    requires m == 2023 * 12
    ensures DaysIn(m) == 31 && DaysIn(m + 1) == 28
  {
    assert m % 12 == 0 && m / 12 == 2023;
    assert (m + 1) % 12 == 1 && (m + 1) / 12 == 2023;
  }

  /**
    Under `disableFuture`, a panel at or before the current month never
    moves past the current month with ">", whatever its day: the lock stops
    it at the current month.
   */
  lemma NextNeverPassesCurrentMonth(month: Day, today: Day)
    requires MonthOf(month) <= MonthOf(today)
    ensures MonthOf(Shown(month, NextMonth(month, NextMonthLocked(true, month, today)))) <= MonthOf(today)
  {
    MonthOrderIsDayOrder(month, today);
  }
}
