/**
  The picker's range value `[start, end]`, each end a calendar day or absent
  (`[Moment | null, Moment | null]` in the components), and the per-day
  classification the range calendars use to highlight it.
 */
module DateRange {
  import opened Options
  import opened Calendar

  datatype Range = Range(start: Option<Day>, end: Option<Day>)

  /** `[null, null]`: nothing selected. */
  const Empty: Range := Range(None, None)

  predicate IsEmpty(r: Range) { r.start.None? && r.end.None? }

  /** Both ends present. */
  predicate IsComplete(r: Range) { r.start.Some? && r.end.Some? }

  /** A complete range runs forwards. */
  predicate IsOrdered(r: Range) { IsComplete(r) ==> r.start.value <= r.end.value }

  /** Either nothing or a full range is present. */
  predicate AllOrNothing(r: Range) { IsEmpty(r) || IsComplete(r) }

  /** The day is the (present) start of the range. */
  predicate IsStart(r: Range, day: Day) { r.start.Some? && day == r.start.value }

  /** The day is the (present) end of the range. */
  predicate IsEnd(r: Range, day: Day) { r.end.Some? && day == r.end.value }

  /** The day lies strictly inside a complete range, so such a range spans at least three days. */
  function IsBetween(r: Range, day: Day): (between: bool)
    ensures between ==> IsComplete(r) && r.end.value - r.start.value >= 2
  {
    r.start.Some? && r.end.Some? && r.start.value < day && day < r.end.value
  }

  /** A day is strictly inside the range only away from both of its ends. */
  lemma BetweenExcludesEnds(r: Range, day: Day)
    ensures IsBetween(r, day) ==> !IsStart(r, day) && !IsEnd(r, day)
  {
  }

  /** A partial range highlights no day as in between. */
  lemma PartialRangeHasNothingBetween(r: Range, day: Day)
    requires !IsComplete(r)
    ensures !IsBetween(r, day)
  {
  }

  /** A one-day range marks its day as both start and end and nothing in between. */
  lemma SingleDayRange(d: Day, day: Day)
    ensures !IsBetween(Range(Some(d), Some(d)), day)
    ensures IsStart(Range(Some(d), Some(d)), d) && IsEnd(Range(Some(d), Some(d)), d)
  {
  }

  /**
    For a complete, ordered range the three flags cover exactly the days from
    start to end inclusive, and each such day carries either an end flag or
    the between flag, never both.
   */
  lemma ClassificationPartitionsRange(r: Range, day: Day)
    requires IsComplete(r) && IsOrdered(r)
    ensures (IsStart(r, day) || IsEnd(r, day) || IsBetween(r, day))
            <==> r.start.value <= day <= r.end.value
    ensures IsBetween(r, day) <==> (r.start.value <= day <= r.end.value && !IsStart(r, day) && !IsEnd(r, day))
  {
  }

  /** The days from `a` to `b` inclusive (empty when `b < a`). */
  function DaysFromTo(a: Day, b: Day): set<Day>
    decreases b - a
  {
    if b < a then {} else DaysFromTo(a, b - 1) + {b}
  }

  /** `DaysFromTo` holds exactly the days between its bounds. */
  lemma {:induction false} DaysFromToMembers(a: Day, b: Day, d: Day)
    ensures d in DaysFromTo(a, b) <==> a <= d <= b
    decreases b - a
  {
    if a <= b {
      DaysFromToMembers(a, b - 1, d);
    }
  }

  /** An inclusive run of days from `a` to `b` has `b - a + 1` members. */
  lemma {:induction false} DaysFromToSize(a: Day, b: Day)
    requires a <= b + 1
    ensures |DaysFromTo(a, b)| == b - a + 1
    decreases b - a
  {
    if a <= b {
      DaysFromToSize(a, b - 1);
      DaysFromToMembers(a, b - 1, b);
    }
  }
}
