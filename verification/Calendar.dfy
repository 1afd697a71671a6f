/**
  The proleptic Gregorian calendar at day granularity, standing in for the
  parts of the moment date library the picker relies on: start and end of a
  month, the number of days in a month, the weekday, and month addition.

  A calendar day is an integer day number; day 0 is 0000-01-01 (astronomical
  year numbering). A month is a month index `12 * year + month0`, where
  `month0` counts from 0 = January exactly as moment's `month()` does.
 */
module Calendar {

  /** Day number: days since 0000-01-01. */
  type Day = int

  /** Month index: `12 * year + month0`. */
  type MonthIndex = int

  function Min(a: int, b: int): int { if a <= b then a else b }

  predicate IsLeapYear(y: int) {
    y % 4 == 0 && (y % 100 != 0 || y % 400 == 0)
  }

  /** Length of month `m` in days. */
  function DaysIn(m: MonthIndex): (n: int)
    ensures 28 <= n <= 31
  {
    var mo := m % 12;
    if mo == 1 then (if IsLeapYear(m / 12) then 29 else 28)
    else if mo == 3 || mo == 5 || mo == 8 || mo == 10 then 30
    else 31
  }

  /** Days in the years 0 .. y-1 (negative for negative years). */
  function DaysBeforeYear(y: int): int {
    365 * y + (y + 3) / 4 - (y + 99) / 100 + (y + 399) / 400
  }

  /** Days in the months of one year that precede month `mo` (0-based). */
  function DaysBeforeMonth(mo: int, leap: bool): int
    requires 0 <= mo < 12
  {
    var common := [0, 31, 59, 90, 120, 151, 181, 212, 243, 273, 304, 334];
    common[mo] + (if leap && mo >= 2 then 1 else 0)
  }

  /**
    Day number of the first day of month `m`, built month by month outward
    from month 0 (January of year 0), which starts on day 0.
   */
  function FirstDay(m: MonthIndex): Day
    decreases if m < 0 then -m else m
  {
    if m == 0 then 0
    else if m > 0 then FirstDay(m - 1) + DaysIn(m - 1)
    else FirstDay(m + 1) - DaysIn(m)
  }

  /** Months are laid end to end: the next month starts right after this one ends. */
  lemma FirstDayStep(m: MonthIndex)
    ensures FirstDay(m + 1) == FirstDay(m) + DaysIn(m)
  {
  }

  /** Later months start on later days. */
  lemma {:induction false} FirstDayMonotone(a: MonthIndex, b: MonthIndex)
    requires a <= b
    ensures FirstDay(a) <= FirstDay(b)
    ensures a < b ==> FirstDay(a) + 28 * (b - a) <= FirstDay(b)
    decreases b - a
  {
    if a < b {
      FirstDayMonotone(a, b - 1);
      FirstDayStep(b - 1);
    }
  }

  /** Closed form of `FirstDay`: whole years before, then whole months before. */
  function FirstDayOfMonth(m: MonthIndex): Day {
    DaysBeforeYear(m / 12) + DaysBeforeMonth(m % 12, IsLeapYear(m / 12))
  }

  lemma QuarterStep(y: int)
    ensures (y + 4) / 4 - (y + 3) / 4 == (if y % 4 == 0 then 1 else 0)
  {
  }

  lemma CenturyStep(y: int)
    ensures (y + 100) / 100 - (y + 99) / 100 == (if y % 100 == 0 then 1 else 0)
  {
  }

  lemma QuadCenturyStep(y: int)
    ensures (y + 400) / 400 - (y + 399) / 400 == (if y % 400 == 0 then 1 else 0)
  {
  }

  /** A year has 365 days, or 366 when it is a leap year. */
  lemma YearLength(y: int)
    ensures DaysBeforeYear(y + 1) == DaysBeforeYear(y) + (if IsLeapYear(y) then 366 else 365)
  {
    QuarterStep(y);
    CenturyStep(y);
    QuadCenturyStep(y);
    CenturyYearIsFourthYear(y);
    QuadCenturyYearIsCenturyYear(y);
    var q4, q100, q400 := (y + 3) / 4, (y + 99) / 100, (y + 399) / 400;
    var n4, n100, n400 := (y + 4) / 4, (y + 100) / 100, (y + 400) / 400;
    assert DaysBeforeYear(y) == 365 * y + q4 - q100 + q400;
    assert DaysBeforeYear(y + 1) == 365 * y + 365 + n4 - n100 + n400;
    if y % 400 == 0 {
      assert n4 == q4 + 1 && n100 == q100 + 1 && n400 == q400 + 1;
    } else if y % 100 == 0 {
      assert n4 == q4 + 1 && n100 == q100 + 1 && n400 == q400;
    } else if y % 4 == 0 {
      assert n4 == q4 + 1 && n100 == q100 && n400 == q400;
    } else {
      assert n4 == q4 && n100 == q100 && n400 == q400;
    }
  }

  /** Every century year is divisible by four. */
  lemma CenturyYearIsFourthYear(y: int)
    ensures y % 100 == 0 ==> y % 4 == 0
  {
    if y % 100 == 0 {
      var k := y / 100;
      assert y == 4 * (25 * k);
    }
  }

  /** Every fourth century year is a century year. */
  lemma QuadCenturyYearIsCenturyYear(y: int)
    ensures y % 400 == 0 ==> y % 100 == 0
  {
    if y % 400 == 0 {
      var k := y / 400;
      assert y == 100 * (4 * k);
    }
  }

  lemma FirstDayOfMonthStep(m: MonthIndex)
    ensures FirstDayOfMonth(m + 1) == FirstDayOfMonth(m) + DaysIn(m)
  {
    var y, mo := m / 12, m % 12;
    if mo == 11 {
      assert (m + 1) / 12 == y + 1 && (m + 1) % 12 == 0;
      YearLength(y);
    } else {
      assert (m + 1) / 12 == y && (m + 1) % 12 == mo + 1;
    }
  }

  /** The month-by-month definition agrees with the Gregorian closed form. */
  lemma FirstDayClosedForm(m: MonthIndex)
    ensures FirstDay(m) == FirstDayOfMonth(m)
  {
    if m >= 0 {
      FirstDayClosedFormUp(m);
    } else {
      FirstDayClosedFormDown(m);
    }
  }

  /** `FirstDayClosedForm` for January of year 0 and the months after it. */
  lemma {:induction false} FirstDayClosedFormUp(m: MonthIndex)
    requires m >= 0
    ensures FirstDay(m) == FirstDayOfMonth(m)
    decreases m
  {
    if m == 0 {
      FirstDayClosedFormZero(m);
    } else {
      FirstDayClosedFormUp(m - 1);
      ClosedFormStepUp(m - 1);
    }
  }

  /** One month forward: agreement at month `m` carries over to month `m + 1`. */
  lemma ClosedFormStepUp(m: MonthIndex)
    requires FirstDay(m) == FirstDayOfMonth(m)
    ensures FirstDay(m + 1) == FirstDayOfMonth(m + 1)
  {
    FirstDayStep(m);
    FirstDayOfMonthStep(m);
    SameStep(FirstDay(m), FirstDayOfMonth(m), FirstDay(m + 1), FirstDayOfMonth(m + 1), DaysIn(m));
  }

  /** Both definitions put January of year 0 on day 0. */
  lemma FirstDayClosedFormZero(m: MonthIndex)
    requires m == 0
    ensures FirstDay(m) == FirstDayOfMonth(m)
  {
    assert m / 12 == 0 && m % 12 == 0;
  }

  /** `FirstDayClosedForm` for the months before January of year 0. */
  lemma {:induction false} FirstDayClosedFormDown(m: MonthIndex)
    requires m < 0
    ensures FirstDay(m) == FirstDayOfMonth(m)
    decreases -m
  {
    if m < -1 {
      FirstDayClosedFormDown(m + 1);
    } else {
      FirstDayClosedFormZero(m + 1);
    }
    ClosedFormStepDown(m);
  }

  /** One month back: agreement at month `m + 1` carries over to month `m`. */
  lemma ClosedFormStepDown(m: MonthIndex)
    requires FirstDay(m + 1) == FirstDayOfMonth(m + 1)
    ensures FirstDay(m) == FirstDayOfMonth(m)
  {
    FirstDayStep(m);
    FirstDayOfMonthStep(m);
    SameStepBack(FirstDay(m + 1), FirstDayOfMonth(m + 1), FirstDay(m), FirstDayOfMonth(m), DaysIn(m));
  }

  /** Two sequences that agree and take the same step still agree after it. */
  lemma SameStep(a: int, b: int, a': int, b': int, step: int)
    requires a == b && a' == a + step && b' == b + step
    ensures a' == b'
  {
  }

  /** `SameStep`, read backwards. */
  lemma SameStepBack(a: int, b: int, a': int, b': int, step: int)
    requires a == b && a == a' + step && b == b' + step
    ensures a' == b'
  {
  }

  function SearchUp(d: Day, m: MonthIndex): (r: MonthIndex)
    requires FirstDay(m) <= d
    ensures m <= r
    ensures FirstDay(r) <= d < FirstDay(r + 1)
    decreases d - FirstDay(m)
  {
    FirstDayStep(m);
    if d < FirstDay(m + 1) then m else SearchUp(d, m + 1)
  }

  function SearchDown(d: Day, m: MonthIndex): (r: MonthIndex)
    requires d < FirstDay(m + 1)
    ensures r <= m
    ensures FirstDay(r) <= d < FirstDay(r + 1)
    decreases FirstDay(m + 1) - d
  {
    FirstDayStep(m);
    if FirstDay(m) <= d then m else SearchDown(d, m - 1)
  }

  /** The month that contains day `d`. */
  function MonthOf(d: Day): (m: MonthIndex)
    ensures FirstDay(m) <= d < FirstDay(m + 1)
  {
    if d >= 0 then SearchUp(d, 0) else SearchDown(d, -1)
  }

  /** A day belongs to exactly one month. */
  lemma MonthOfUnique(d: Day, m: MonthIndex)
    requires FirstDay(m) <= d < FirstDay(m + 1)
    ensures MonthOf(d) == m
  {
    var k := MonthOf(d);
    if k < m {
      FirstDayMonotone(k + 1, m);
    } else if k > m {
      FirstDayMonotone(m + 1, k);
    }
  }

  /** moment's `startOf("month")` at day granularity: the first day of `d`'s month. */
  function StartOfMonth(d: Day): (r: Day)
    ensures r <= d
    ensures d - r < DaysIn(MonthOf(d))
    ensures MonthOf(r) == MonthOf(d)
    ensures MonthOf(r - 1) == MonthOf(d) - 1
  {
    var m := MonthOf(d);
    FirstDayStep(m);
    FirstDayInMonth(m);
    DayBeforeFirstInMonthBefore(m);
    FirstDay(m)
  }

  /** The first day of month `m` is in `m`. */
  lemma FirstDayInMonth(m: MonthIndex)
    ensures MonthOf(FirstDay(m)) == m
  {
    FirstDayStep(m);
    MonthOfUnique(FirstDay(m), m);
  }

  /** The day before the first of month `m` is in the month before `m`. */
  lemma DayBeforeFirstInMonthBefore(m: MonthIndex)
    ensures MonthOf(FirstDay(m) - 1) == m - 1
  {
    FirstDayStep(m - 1);
    MonthOfUnique(FirstDay(m) - 1, m - 1);
  }

  /** moment's `endOf("month")` at day granularity. */
  function EndOfMonth(d: Day): (r: Day)
    ensures d <= r
    ensures r - StartOfMonth(d) == DaysIn(MonthOf(d)) - 1
    ensures MonthOf(r) == MonthOf(d)
  {
    FirstDayStep(MonthOf(d));
    MonthOfUnique(FirstDay(MonthOf(d) + 1) - 1, MonthOf(d));
    FirstDay(MonthOf(d) + 1) - 1
  }

  /**
    Comparing at month granularity (moment's `isSameOrAfter(b, "month")` and
    `isSameOrBefore(b, "month")`) is comparing with the first and last day of
    `b`'s month.
   */
  lemma MonthOrderIsDayOrder(a: Day, b: Day)
    ensures MonthOf(a) >= MonthOf(b) <==> a >= StartOfMonth(b)
    ensures MonthOf(a) <= MonthOf(b) <==> a <= EndOfMonth(b)
  {
    SameOrAfterMonth(a, b);
    SameOrBeforeMonth(a, b);
  }

  lemma SameOrAfterMonth(a: Day, b: Day)
    ensures MonthOf(a) >= MonthOf(b) <==> a >= FirstDay(MonthOf(b))
  {
    var ma, mb := MonthOf(a), MonthOf(b);
    if ma >= mb {
      FirstDayMonotone(mb, ma);
    } else {
      FirstDayMonotone(ma + 1, mb);
    }
  }

  lemma SameOrBeforeMonth(a: Day, b: Day)
    ensures MonthOf(a) <= MonthOf(b) <==> a < FirstDay(MonthOf(b) + 1)
  {
    var ma, mb := MonthOf(a), MonthOf(b);
    if ma <= mb {
      FirstDayMonotone(ma + 1, mb + 1);
    } else {
      FirstDayMonotone(mb + 1, ma);
    }
  }

  /** moment's `daysInMonth()`. */
  function DaysInMonth(d: Day): (n: int)
    ensures 28 <= n <= 31
    ensures StartOfMonth(d) + n == EndOfMonth(d) + 1
  {
    DaysIn(MonthOf(d))
  }

  /** moment's `month()`: 0 = January .. 11 = December. */
  function MonthOfYear(d: Day): (r: int)
    ensures 0 <= r < 12
  {
    MonthOf(d) % 12
  }

  /** moment's `day()`: 0 = Sunday .. 6 = Saturday; day 0 (0000-01-01) is a Saturday. */
  function Weekday(d: Day): (r: int)
    ensures 0 <= r < 7
  {
    (d + 6) % 7
  }

  /** Zero-based day of the month (moment's `date()` minus one). */
  function DayOfMonth0(d: Day): (r: int)
    ensures 0 <= r < DaysIn(MonthOf(d))
    ensures d == StartOfMonth(d) + r
  {
    d - StartOfMonth(d)
  }

  /** The day `offset` days after the first of month `m`, when it exists, is in `m` at that offset. */
  lemma DayInMonth(m: MonthIndex, offset: int, d: Day)
    requires 0 <= offset < DaysIn(m) && d == FirstDay(m) + offset
    ensures MonthOf(d) == m
    ensures DayOfMonth0(d) == offset
  {
    DayInMonthIsInMonth(m, offset);
    DayOfMonthInMonth(d, m, offset);
  }

  /** A day `offset` days after the first of its month `m` has day-of-month index `offset`. */
  lemma DayOfMonthInMonth(d: Day, m: MonthIndex, offset: int)
    requires MonthOf(d) == m && d == FirstDay(m) + offset
    ensures DayOfMonth0(d) == offset
  {
  }

  /** The month part of `DayInMonth`. */
  lemma DayInMonthIsInMonth(m: MonthIndex, offset: int)
    requires 0 <= offset < DaysIn(m)
    ensures MonthOf(FirstDay(m) + offset) == m
  {
    FirstDayStep(m);
    MonthOfUnique(FirstDay(m) + offset, m);
  }

  /**
    moment's `add(k, "months")` (and `subtract(k, "months")` as `k := -k`):
    move to the month `k` months away and keep the day of the month, clamped
    to the last day of a shorter target month.
   */
  function AddMonths(d: Day, k: int): (r: Day)
    ensures MonthOf(r) == MonthOf(d) + k
    ensures DayOfMonth0(r) == Min(DayOfMonth0(d), DaysIn(MonthOf(d) + k) - 1)
  {
    var target := MonthOf(d) + k;
    var offset := Min(DayOfMonth0(d), DaysIn(target) - 1);
    var r := FirstDay(target) + offset;
    DayInMonth(target, offset, r);
    r
  }

  /** Adding a non-negative number of months never moves backwards, and conversely. */
  lemma AddMonthsMonotone(d: Day, k: int)
    ensures k >= 0 ==> d <= AddMonths(d, k)
    ensures k <= 0 ==> AddMonths(d, k) <= d
    ensures k > 0 ==> d < AddMonths(d, k)
    ensures k < 0 ==> AddMonths(d, k) < d
  {
    if k > 0 {
      AddMonthsForward(d, k);
    } else if k < 0 {
      AddMonthsBackward(d, k);
    }
  }

  lemma AddMonthsForward(d: Day, k: int)
    requires k > 0
    ensures d < AddMonths(d, k)
  {
    EarlierMonthEarlierDay(d, AddMonths(d, k));
  }

  lemma AddMonthsBackward(d: Day, k: int)
    requires k < 0
    ensures AddMonths(d, k) < d
  {
    EarlierMonthEarlierDay(AddMonths(d, k), d);
  }

  /** A day in an earlier month comes before a day in a later month. */
  lemma EarlierMonthEarlierDay(a: Day, b: Day)
    requires MonthOf(a) < MonthOf(b)
    ensures a < b
  {
    LaterMonthLaterDay(a, MonthOf(a), b, MonthOf(b));
  }

  /** `EarlierMonthEarlierDay` with the months given explicitly. */
  lemma LaterMonthLaterDay(a: Day, ma: MonthIndex, b: Day, mb: MonthIndex)
    requires FirstDay(ma) <= a < FirstDay(ma + 1)
    requires FirstDay(mb) <= b < FirstDay(mb + 1)
    requires ma < mb
    ensures a < b
  {
    FirstDayMonotone(ma + 1, mb);
  }

  /** June 2024 starts on day 739403, a Saturday, and has 30 days. */
  lemma JuneTwentyTwentyFour(m: MonthIndex)
    requires m == 2024 * 12 + 5
    ensures FirstDay(m) == 739403
    ensures Weekday(FirstDay(m)) == 6
    ensures DaysIn(m) == 30
  {
    JuneTwentyTwentyFourFirstDay(m);
    JuneTwentyTwentyFourClosedForm(m);
    SaturdayAt(739403);
  }

  /** The month-by-month start of June 2024. */
  lemma JuneTwentyTwentyFourFirstDay(m: MonthIndex)
    requires m == 2024 * 12 + 5
    ensures FirstDay(m) == 739403
  {
    JuneTwentyTwentyFourClosedForm(m);
    FirstDayClosedForm(m);
  }

  /** Day 739403 is a Saturday. */
  lemma SaturdayAt(d: Day)
    requires d == 739403
    ensures Weekday(d) == 6
  {
  }

  /** The closed form evaluated at June 2024. */
  lemma JuneTwentyTwentyFourClosedForm(m: MonthIndex)
    requires m == 2024 * 12 + 5
    ensures FirstDayOfMonth(m) == 739403 && DaysIn(m) == 30
  {
    assert m / 12 == 2024 && m % 12 == 5;
    assert IsLeapYear(2024);
    assert DaysBeforeYear(2024) == 739251;
    assert DaysBeforeMonth(5, true) == 152;
  }
}
