/**
  The day grid of one calendar panel: a Monday-first grid of the panel's
  month preceded by the tail of the previous month, and the flags each cell
  carries (outside the month, disabled, selected) together with the guard on
  its click handler.
 */
module DayGrid {
  import opened Options
  import opened Calendar
  import opened DateRange

  /**
    Number of leading cells before the 1st in a Monday-first week: the
    weekday of the 1st, counted from Monday.
   */
  function LeadingCells(currentMonth: Day): (w: int)
    ensures 0 <= w <= 6
    ensures w == 0 <==> Weekday(StartOfMonth(currentMonth)) == 1
    ensures Weekday(StartOfMonth(currentMonth) - w) == 1
  {
    MondayFirst(StartOfMonth(currentMonth));
    (Weekday(StartOfMonth(currentMonth)) + 6) % 7
  }

  /** Weekday arithmetic behind `LeadingCells`, on a bare day number. */
  lemma MondayFirst(first: Day)
    ensures var w := (Weekday(first) + 6) % 7;
            && 0 <= w <= 6
            && (w == 0 <==> Weekday(first) == 1)
            && Weekday(first - w) == 1
  {
    var q := (first + 6) / 7;
    var wd := (first + 6) % 7;
    var w := (wd + 6) % 7;
    assert first + 6 == 7 * q + wd;
    if wd >= 1 {
      assert w == wd - 1;
      assert first - w + 6 == 7 * q + 1;
    } else {
      assert w == 6;
      assert first - w + 6 == 7 * (q - 1) + 1;
    }
  }

  /** moment's `date(i)` setter: day `i` (1-based) of `d`'s month. */
  function DateInMonth(d: Day, i: int): (r: Day)
    requires 1 <= i <= DaysInMonth(d)
    ensures MonthOf(r) == MonthOf(d) && DayOfMonth0(r) == i - 1
  {
    var r := StartOfMonth(d) + (i - 1);
    DayInMonth(MonthOf(d), i - 1, r);
    r
  }

  /**
    The cells of the panel for `currentMonth`: first the days before the 1st
    that fill its week, then every day of the month. The result is one run
    of consecutive days starting `LeadingCells` days before the 1st.
   */
  method BuildGrid(currentMonth: Day) returns (days: seq<Day>)
    ensures |days| == LeadingCells(currentMonth) + DaysInMonth(currentMonth)
    ensures forall i :: 0 <= i < |days| ==>
              days[i] == StartOfMonth(currentMonth) - LeadingCells(currentMonth) + i
  {
    var first := StartOfMonth(currentMonth);
    var w := LeadingCells(currentMonth);
    var n := DaysInMonth(currentMonth);
    days := [];
    var i := 0;
    while i < w
      invariant 0 <= i <= w
      invariant |days| == i
      invariant forall j :: 0 <= j < i ==> days[j] == first - w + j
    {
      days := days + [first - (w - i)];
      i := i + 1;
    }
    i := 1;
    while i <= n
      invariant 1 <= i <= n + 1
      invariant |days| == w + i - 1
      invariant forall j :: 0 <= j < |days| ==> days[j] == first - w + j
    {
      days := days + [DateInMonth(currentMonth, i)];
      i := i + 1;
    }
  }

  /** The cell at position `i` of the grid for `currentMonth`. */
  function Cell(currentMonth: Day, i: int): Day {
    StartOfMonth(currentMonth) - LeadingCells(currentMonth) + i
  }

  /** The grid begins with exactly the leading days before the 1st, then the 1st itself. */
  lemma GridShape(currentMonth: Day)
    ensures forall i :: 0 <= i < LeadingCells(currentMonth) ==> Cell(currentMonth, i) < StartOfMonth(currentMonth)
    ensures Cell(currentMonth, LeadingCells(currentMonth)) == StartOfMonth(currentMonth)
    ensures Cell(currentMonth, LeadingCells(currentMonth) + DaysInMonth(currentMonth) - 1) == EndOfMonth(currentMonth)
  {
  }

  /**
    A cell is greyed as outside the month when its month of the year differs
    from the panel's. The year is not compared: the same month a year later
    does not count as outside.
   */
  function OutsideCurrentMonth(day: Day, currentMonth: Day): (outside: bool)
    ensures MonthOf(day) == MonthOf(currentMonth) ==> !outside
    ensures MonthOf(day) == MonthOf(currentMonth) - 1 ==> outside
    ensures MonthOf(day) == MonthOf(currentMonth) + 12 ==> !outside
  {
    MonthsOfYear(MonthOf(day), MonthOf(currentMonth));
    MonthOfYear(day) != MonthOfYear(currentMonth)
  }

  /** Consecutive months have different months of the year; months a year apart share one. */
  lemma MonthsOfYear(a: MonthIndex, b: MonthIndex)
    ensures a == b - 1 ==> a % 12 != b % 12
    ensures a == b + 12 ==> a % 12 == b % 12
  {
  }

  /** Leading cells belong to the previous month, the others to the panel's month. */
  lemma CellMonth(currentMonth: Day, i: int)
    requires 0 <= i < LeadingCells(currentMonth) + DaysInMonth(currentMonth)
    ensures i < LeadingCells(currentMonth) ==> MonthOf(Cell(currentMonth, i)) == MonthOf(currentMonth) - 1
    ensures i >= LeadingCells(currentMonth) ==> MonthOf(Cell(currentMonth, i)) == MonthOf(currentMonth)
  {
    var m := MonthOf(currentMonth);
    var day := Cell(currentMonth, i);
    if i < LeadingCells(currentMonth) {
      FirstDayStep(m - 1);
      MonthOfUnique(day, m - 1);
    } else {
      FirstDayStep(m);
      MonthOfUnique(day, m);
    }
  }

  /** Exactly the leading cells of the grid are outside the panel's month. */
  lemma OutsideExactlyLeading(currentMonth: Day, i: int)
    requires 0 <= i < LeadingCells(currentMonth) + DaysInMonth(currentMonth)
    ensures OutsideCurrentMonth(Cell(currentMonth, i), currentMonth) <==> i < LeadingCells(currentMonth)
  {
    CellMonth(currentMonth, i);
  }

  /** A cell is disabled past `maxDate`, after today under `disableFuture`, or before today under `disablePast`. */
  function Disabled(day: Day, today: Day, maxDate: Day, disablePast: bool, disableFuture: bool): (disabled: bool)
    ensures !disablePast && !disableFuture ==> (disabled <==> day > maxDate)
    ensures disablePast && disableFuture ==> (disabled <==> day != today || day > maxDate)
    ensures day == today ==> (disabled <==> today > maxDate)
  {
    (disableFuture && day > today) || (disablePast && day < today) || day > maxDate
  }

  /**
    Click on a cell: the day is passed on to the range calendar only when
    the guard lets it through. The guard is the negation of `Disabled`, so a
    click reaches the range exactly on enabled cells.
   */
  function ClickCell(day: Day, today: Day, maxDate: Day, disablePast: bool, disableFuture: bool): (emitted: Option<Day>)
    ensures emitted.Some? <==> !Disabled(day, today, maxDate, disablePast, disableFuture)
    ensures emitted.Some? ==> emitted.value == day
  {
    if !(day > maxDate) && !(disableFuture && day > today) && !(disablePast && day < today) then Some(day)
    else None
  }

  /** No lower bound applies unless `disablePast` is set: every early enough day stays enabled. */
  lemma NoLowerBoundWithoutDisablePast(day: Day, today: Day, maxDate: Day, disableFuture: bool)
    requires day <= today && day <= maxDate
    ensures !Disabled(day, today, maxDate, false, disableFuture)
    ensures ClickCell(day, today, maxDate, false, disableFuture) == Some(day)
  {
  }

  /** A cell is drawn as selected when it is the present start or the present end. */
  function Selected(value: Range, day: Day): (selected: bool)
    ensures IsEmpty(value) ==> !selected
    ensures value.start.Some? && day == value.start.value ==> selected
    ensures value.end.Some? && day == value.end.value ==> selected
    ensures value.start.None? && value.end.Some? ==> (selected <==> day == value.end.value)
  {
    (value.start.Some? && day == value.start.value) || (value.end.Some? && day == value.end.value)
  }

  /** The grid's selected flag agrees with the single calendar's start and end flags, and never with its between flag. */
  lemma SelectedIsStartOrEnd(value: Range, day: Day)
    ensures Selected(value, day) <==> IsStart(value, day) || IsEnd(value, day)
    ensures IsBetween(value, day) ==> !Selected(value, day)
  {
  }
}
