/**
  The shortcut buttons beside the calendars: each shortcut item resolves,
  against `today` and the `disablePast` / `disableFuture` flags, to a concrete
  range that is handed to the draft selection.
 */
module Presets {
  import opened Options
  import opened Calendar
  import opened DateRange
  import DayGrid

  /** One shortcut button: its label (`name`) and optional day or month offsets. */
  datatype ShortcutItem = ShortcutItem(name: string, adjustDays: Option<int>, adjustMonths: Option<int>)

  /** The one label with built-in semantics. */
  const CurrentMonthLabel: string := "Current Month"

  /**
    The range a shortcut click emits. "Current Month" is matched first and
    clamps the calendar month to today on each side a flag forbids (both
    flags give the single day `today`); otherwise `adjustDays`, then
    `adjustMonths`, give a span anchored at today, ending at today under
    `disableFuture` and starting at today otherwise; an item with neither
    gives `today` alone.
   */
  function ResolveShortcut(item: ShortcutItem, today: Day, disablePast: bool, disableFuture: bool): (r: Range)
    ensures IsComplete(r)
    ensures item.name != CurrentMonthLabel ==> IsStart(r, today) || IsEnd(r, today)
    ensures item.name == CurrentMonthLabel ==>
              r.start.value <= today <= r.end.value
              && MonthOf(r.start.value) == MonthOf(today) == MonthOf(r.end.value)
  {
    if item.name == CurrentMonthLabel then
      var monthStart := StartOfMonth(today);
      var monthEnd := EndOfMonth(today);
      var start := if disablePast && monthStart < today then today else monthStart;
      var end := if disableFuture && monthEnd > today then today else monthEnd;
      if disablePast && disableFuture then Range(Some(today), Some(today))
      else Range(Some(start), Some(end))
    else if item.adjustDays.Some? then
      var n := item.adjustDays.value;
      if disableFuture then Range(Some(today - n), Some(today))
      else if disablePast then Range(Some(today), Some(today + n))
      else Range(Some(today), Some(today + n))
    else if item.adjustMonths.Some? then
      var m := item.adjustMonths.value;
      if disableFuture then Range(Some(AddMonths(today, -m)), Some(today))
      else if disablePast then Range(Some(today), Some(AddMonths(today, m)))
      else Range(Some(today), Some(AddMonths(today, m)))
    else
      Range(Some(today), Some(today))
  }

  /** The "Current Month" label wins over any offsets the item carries. */
  lemma CurrentMonthIgnoresOffsets(item: ShortcutItem, other: ShortcutItem, today: Day, disablePast: bool, disableFuture: bool)
    requires item.name == CurrentMonthLabel && other.name == CurrentMonthLabel
    ensures ResolveShortcut(item, today, disablePast, disableFuture)
         == ResolveShortcut(other, today, disablePast, disableFuture)
  {
  }

  /** Outside "Current Month", a day offset wins over a month offset. */
  lemma AdjustDaysIgnoresMonths(item: ShortcutItem, months: Option<int>, today: Day, disablePast: bool, disableFuture: bool)
    requires item.name != CurrentMonthLabel && item.adjustDays.Some?
    ensures ResolveShortcut(item, today, disablePast, disableFuture)
         == ResolveShortcut(item.(adjustMonths := months), today, disablePast, disableFuture)
  {
  }

  /** "Current Month" with no flags is the whole calendar month around today. */
  lemma CurrentMonthWholeMonth(item: ShortcutItem, today: Day)
    requires item.name == CurrentMonthLabel
    ensures ResolveShortcut(item, today, false, false) == Range(Some(StartOfMonth(today)), Some(EndOfMonth(today)))
    ensures EndOfMonth(today) - StartOfMonth(today) + 1 == DaysInMonth(today)
  {
  }

  /** "Current Month" under flags: `disablePast` moves the start to today, `disableFuture` the end, both give today alone. */
  lemma CurrentMonthClamped(item: ShortcutItem, today: Day, disablePast: bool, disableFuture: bool)
    requires item.name == CurrentMonthLabel
    ensures var r := ResolveShortcut(item, today, disablePast, disableFuture);
            && (disablePast ==> r.start == Some(today))
            && (!disablePast ==> r.start == Some(StartOfMonth(today)))
            && (disableFuture ==> r.end == Some(today))
            && (!disableFuture ==> r.end == Some(EndOfMonth(today)))
  {
  }

  /**
    A day offset `n` spans exactly `n` days: back from today under
    `disableFuture` (even when `disablePast` is also set), forward from today
    otherwise.
   */
  lemma AdjustDaysSpan(item: ShortcutItem, today: Day, disablePast: bool, disableFuture: bool)
    requires item.name != CurrentMonthLabel && item.adjustDays.Some?
    ensures var r := ResolveShortcut(item, today, disablePast, disableFuture);
            && r.end.value - r.start.value == item.adjustDays.value
            && (disableFuture ==> r.end == Some(today))
            && (!disableFuture ==> r.start == Some(today))
  {
  }

  /**
    A month offset `m` spans exactly `m` calendar months: ending at today and
    starting `m` months earlier under `disableFuture`, otherwise starting at
    today and ending `m` months later.
   */
  lemma AdjustMonthsSpan(item: ShortcutItem, today: Day, disablePast: bool, disableFuture: bool)
    requires item.name != CurrentMonthLabel && item.adjustDays.None? && item.adjustMonths.Some?
    ensures var r := ResolveShortcut(item, today, disablePast, disableFuture);
            && MonthOf(r.end.value) - MonthOf(r.start.value) == item.adjustMonths.value
            && (disableFuture ==> r == Range(Some(AddMonths(today, -item.adjustMonths.value)), Some(today)))
            && (!disableFuture ==> r == Range(Some(today), Some(AddMonths(today, item.adjustMonths.value))))
  {
    var m := item.adjustMonths.value;
    if disableFuture {
      assert MonthOf(AddMonths(today, -m)) == MonthOf(today) - m;
    } else {
      assert MonthOf(AddMonths(today, m)) == MonthOf(today) + m;
    }
  }

  /** An item without the special label and without offsets selects today alone. */
  lemma PlainItemSelectsToday(item: ShortcutItem, today: Day, disablePast: bool, disableFuture: bool)
    requires item.name != CurrentMonthLabel && item.adjustDays.None? && item.adjustMonths.None?
    ensures ResolveShortcut(item, today, disablePast, disableFuture) == Range(Some(today), Some(today))
  {
  }

  /** Offsets that are not negative yield a range that runs forwards. */
  lemma ShortcutRangeOrdered(item: ShortcutItem, today: Day, disablePast: bool, disableFuture: bool)
    requires item.adjustDays.GetOr(0) >= 0 && item.adjustMonths.GetOr(0) >= 0
    ensures IsOrdered(ResolveShortcut(item, today, disablePast, disableFuture))
  {
    if item.name != CurrentMonthLabel && item.adjustDays.None? && item.adjustMonths.Some? {
      var m := item.adjustMonths.value;
      if disableFuture {
        AddMonthsMonotone(today, -m);
      } else {
        AddMonthsMonotone(today, m);
      }
    }
  }

  /**
    With both flags, a positive day offset still reaches back `n` days, so
    the range starts on a day the grid itself shows as disabled.
   */
  lemma BothFlagsDayOffsetStartsOnDisabledDay(item: ShortcutItem, today: Day, maxDate: Day)
    requires item.name != CurrentMonthLabel && item.adjustDays.Some? && item.adjustDays.value > 0
    ensures var r := ResolveShortcut(item, today, true, true);
            DayGrid.Disabled(r.start.value, today, maxDate, true, true)
  {
  }
}
