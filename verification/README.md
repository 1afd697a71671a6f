# Date-range picker: selection, presets, day grid and dialog state

A Dafny model of the decision logic of a React date-range picker widget
(an input field that opens a dialog with two month calendars and a column
of shortcut buttons). Calendar days are integer day numbers (day 0 is
0000-01-01 in the proleptic Gregorian calendar) and a range is a pair of
optional days, `[start, end]`, as the components' `[Moment | null, Moment | null]`.

Modules, one per component plus two shared ones:

- `Options` — `Option<T>`, standing for `null` and for optional fields.
- `Calendar` — the Gregorian calendar the moment library supplies: month
  starts and ends, month lengths, weekdays, month-granularity comparison and
  `add(k, "months")` with day-of-month clamping. Month starts are defined
  month by month and proved equal to the closed Gregorian formula.
- `DateRange` — the range value, its completeness and ordering, and the
  start / end / in-between classification the single calendar uses for
  highlighting.
- `RangeCalendar` — the two-panel range calendar: the day-click selection
  rule, the "N days" count and when each panel's month arrows are locked.
- `Presets` — resolving a shortcut item against today and the
  `disablePast` / `disableFuture` flags. A shortcut always yields both ends.
  Day and month offsets follow `disableFuture` even when `disablePast` is
  also set, so they reach into the past; only "Current Month" collapses to
  today under both flags. Clamping never swaps the ends, and "Current Month"
  is the only label with built-in meaning.
- `DayGrid` — building a panel's Monday-first day grid, and each cell's
  outside-month, disabled and selected flags and click guard.
- `Header` — the month header's previous / next arrows (shared by the two
  header components, whose arrow handlers are identical).
- `RangeInput` — the input field's open / committed / draft state and its
  open, close, apply, cancel, date-change and preset handlers, driven by a
  user-action state machine in which "Apply" is clickable only when enabled.
  "Cancel" clears the committed range as well as the draft.

`today` is a parameter everywhere the components read the clock.

## Model

| member | source | states |
|---|---|---|
| `Calendar.StartOfMonth` | src/components/presetSelect.tsx:31 | the start of today's month is on or before today, in the same month, fewer than a month-length back, and the day before it lies in the previous month, so it is the first day of the month |
| `Calendar.EndOfMonth` | src/components/presetSelect.tsx:32 | the end of today's month is on or after today, in the same month, exactly month-length minus one days after the start |
| `Calendar.DaysInMonth` | src/components/DayCalendarForRange.tsx:30 | moment's `daysInMonth()`: between 28 and 31, and exactly the number of days from the first to the last day of the month |
| `Calendar.MonthOfYear` | src/components/DayCalendarForRange.tsx:46 | moment's `month()`: the month of the year, 0 for January to 11 for December |
| `Calendar.Weekday` | src/components/DayCalendarForRange.tsx:28 | moment's `day()`: 0 for Sunday to 6 for Saturday |
| `Calendar.JuneTwentyTwentyFour` | src/components/DayCalendarForRange.tsx:27-28 | the calendar is anchored correctly: 1 June 2024 is a Saturday and June has 30 days |
| `Calendar.AddMonths` | src/components/presetSelect.tsx:57-64 | adding `k` months lands in the month `k` away and keeps the day of the month, clamped to the target month's last day |
| `Calendar.AddMonthsMonotone` | src/components/presetSelect.tsx:56-65 | adding a non-negative number of months never moves earlier, subtracting never moves later (strictly for non-zero offsets) |
| `Calendar.MonthOrderIsDayOrder` | src/components/customDateRangeCalendar.tsx:61-66 | comparing at month granularity is comparing against the first (or last) day of the other day's month |
| `DateRange.BetweenExcludesEnds` | src/components/singleCalendar.tsx:81-84 | a day flagged as in between is neither the start nor the end |
| `DateRange.IsStart` | src/components/singleCalendar.tsx:83 | the start flag: the day is the present start (definition; related to the other flags by the lemmas below) |
| `DateRange.IsEnd` | src/components/singleCalendar.tsx:84 | the end flag: the day is the present end (definition; related to the other flags by the lemmas below) |
| `DateRange.IsBetween` | src/components/singleCalendar.tsx:81-82 | the between flag needs both ends, and a range with an in-between day spans at least three days |
| `DateRange.PartialRangeHasNothingBetween` | src/components/singleCalendar.tsx:81-82 | with either bound absent no day is in between |
| `DateRange.SingleDayRange` | src/components/singleCalendar.tsx:81-84 | a one-day range flags its day as both start and end and no day as in between |
| `DateRange.ClassificationPartitionsRange` | src/components/singleCalendar.tsx:81-84 | for an ordered complete range the three flags cover exactly the days from start to end inclusive, and between means inside that run and not at an end |
| `RangeCalendar.SelectDay` | src/components/customDateRangeCalendar.tsx:39-51 | a click always leaves a start, the clicked day is the start or the end, the result is never a backwards range, it closes the range exactly when there was only a start not after the day (keeping that start), and otherwise it is the clicked day alone |
| `RangeCalendar.ClickStartsNewRange` | src/components/customDateRangeCalendar.tsx:42-43 | with no start, or with both ends present, a click yields (day, absent) |
| `RangeCalendar.ClickBeforeStartMovesStart` | src/components/customDateRangeCalendar.tsx:44-45 | with only a start, a click before it yields (day, absent) |
| `RangeCalendar.ClickFromStartCloses` | src/components/customDateRangeCalendar.tsx:46-47 | with only a start, a click on or after it yields (start, day); clicking the start itself yields (start, start) |
| `RangeCalendar.SelectionCycle` | src/components/customDateRangeCalendar.tsx:42-47 | from nothing, clicks A then B >= A give (A, B), and a third click C gives (C, absent) |
| `RangeCalendar.SelectedDaysCount` | src/components/customDateRangeCalendar.tsx:31-37 | the count is 0 unless both ends are present and at least 1 for an ordered complete range |
| `RangeCalendar.SelectedDaysCountIsHighlightedDays` | src/components/customDateRangeCalendar.tsx:31-37 | for an ordered complete range the count equals the number of days flagged start, end or in between |
| `RangeCalendar.DaysCaptionShownIffOrderedComplete` | src/components/customDateRangeCalendar.tsx:92-96 | the "N days" caption appears exactly for complete ranges whose start is not after their end |
| `RangeCalendar.DaysCaptionShown` | src/components/customDateRangeCalendar.tsx:92 | the caption condition `selectedDaysCount > 0` (definition; characterised by the next row) |
| `RangeCalendar.NextMonthLocked` | src/components/customDateRangeCalendar.tsx:61-63 | the next arrow is locked exactly under `disableFuture` when the panel is on or after the first day of the current month |
| `RangeCalendar.PreviousMonthLocked` | src/components/customDateRangeCalendar.tsx:64-66 | the previous arrow is locked exactly under `disablePast` when the panel is on or before the last day of the current month |
| `RangeCalendar.NoFlagsNoLocks` | src/components/customDateRangeCalendar.tsx:61-66 | without the flags neither arrow is ever locked |
| `RangeCalendar.CurrentMonthPanelLocked` | src/components/customDateRangeCalendar.tsx:54-66 | a panel on the current month is locked in each direction exactly when that direction's flag is set |
| `Presets.ResolveShortcut` | src/components/presetSelect.tsx:25-69 | a shortcut always emits both ends; every offset shortcut has today as one end; "Current Month" gives a range around today inside today's month |
| `Presets.CurrentMonthIgnoresOffsets` | src/components/presetSelect.tsx:30-46 | an item labelled "Current Month" resolves the same whatever offsets it carries |
| `Presets.AdjustDaysIgnoresMonths` | src/components/presetSelect.tsx:46-56 | outside "Current Month", a day offset makes any month offset irrelevant |
| `Presets.CurrentMonthWholeMonth` | src/components/presetSelect.tsx:31-32 | "Current Month" without flags is the first to the last day of today's month, a month-length run |
| `Presets.CurrentMonthClamped` | src/components/presetSelect.tsx:34-45 | under "Current Month", `disablePast` makes the start today and `disableFuture` the end today, each flag alone leaving the other end on the month boundary |
| `Presets.AdjustDaysSpan` | src/components/presetSelect.tsx:46-55 | a day offset n gives a span of exactly n days ending today under `disableFuture` (even with `disablePast`), starting today otherwise |
| `Presets.AdjustMonthsSpan` | src/components/presetSelect.tsx:56-65 | a month offset m gives (today minus m months, today) under `disableFuture`, else (today, today plus m months), m calendar months apart |
| `Presets.PlainItemSelectsToday` | src/components/presetSelect.tsx:27-28 | an item with neither the label nor an offset yields (today, today) |
| `Presets.ShortcutRangeOrdered` | src/components/presetSelect.tsx:27-68 | with non-negative offsets the emitted range runs forwards |
| `Presets.BothFlagsDayOffsetStartsOnDisabledDay` | src/components/presetSelect.tsx:47-49 | with both flags a positive day offset starts the range on a day the grid disables |
| `DayGrid.LeadingCells` | src/components/DayCalendarForRange.tsx:27-28 | the leading offset lies in 0..6, is 0 exactly when the 1st is a Monday, and backs up to a Monday |
| `DayGrid.DateInMonth` | src/components/DayCalendarForRange.tsx:37 | setting the date to i stays in the month and is its i-th day |
| `DayGrid.BuildGrid` | src/components/DayCalendarForRange.tsx:27-38 | the grid has leading-offset plus month-length cells and cell i is the 1st plus (i minus the offset): consecutive days from the Monday on or before the 1st |
| `DayGrid.GridShape` | src/components/DayCalendarForRange.tsx:32-38 | the leading cells come before the 1st, the cell after them is the 1st and the last cell is the end of the month |
| `DayGrid.OutsideExactlyLeading` | src/components/DayCalendarForRange.tsx:46 | a grid cell is flagged outside the current month exactly when it is a leading cell |
| `DayGrid.OutsideCurrentMonth` | src/components/DayCalendarForRange.tsx:46 | a day of the panel's month is never outside, a day of the previous month always is, and the same month a year later is not, since only the month of the year is compared |
| `DayGrid.ClickCell` | src/components/DayCalendarForRange.tsx:57-62 | the click handler passes the day on exactly when the cell is not disabled |
| `DayGrid.Disabled` | src/components/DayCalendarForRange.tsx:49-53 | without flags only days after the max date are disabled; with both flags every day but today is; today itself is disabled only when it is after the max date |
| `DayGrid.NoLowerBoundWithoutDisablePast` | src/components/DayCalendarForRange.tsx:49-53 | without `disablePast` any day up to today and up to the max date is enabled and clickable: no lower bound applies |
| `DayGrid.SelectedIsStartOrEnd` | src/components/DayCalendarForRange.tsx:54-56 | a cell is selected exactly when it is the present start or end, and never when it is in between |
| `DayGrid.Selected` | src/components/DayCalendarForRange.tsx:54-56 | nothing is selected in an empty range; the present start and the present end are always selected; with only an end, exactly the end is |
| `Header.PreviousMonth` | src/components/pickersRangeCalendarHeader.tsx:22-26 | the previous arrow emits nothing exactly when locked, and otherwise an earlier day in the preceding month |
| `Header.NextMonth` | src/components/header.tsx:28-32 | the next arrow emits nothing exactly when locked, and otherwise a later day in the following month |
| `Header.LockedArrowKeepsMonth` | src/components/header.tsx:22-32 | a locked arrow leaves the panel's month as it was |
| `Header.NextThenPreviousSameMonth` | src/components/pickersRangeCalendarHeader.tsx:22-32 | with both arrows free, next then previous returns to the same month |
| `Header.NextThenPreviousSameDay` | src/components/header.tsx:22-32 | with both arrows free, next then previous returns to the same day when its day of the month is at most 28 |
| `Header.NextThenPreviousClampsLateDay` | src/components/pickersRangeCalendarHeader.tsx:24-30 | 31 January 2023 goes to 28 February and back to 28 January, so the round trip is not the identity on days |
| `Header.NextNeverPassesCurrentMonth` | src/components/pickersRangeCalendarHeader.tsx:28-32 | under `disableFuture` a panel at or before the current month is never moved past it by the next arrow |
| `RangeInput.DisplayText` | src/components/dateRangeInput.tsx:57-60 | the field's text is non-empty exactly when both committed ends are present |
| `RangeInput.ApplyEnabledIffDraftComplete` | src/components/dateRangeInput.tsx:62 | Apply is enabled exactly when the draft has both ends |
| `RangeInput.Open` | src/components/dateRangeInput.tsx:29-32 | `handleOpen` (definition; its effect is stated by `OpenCopiesCommitted`) |
| `RangeInput.Close` | src/components/dateRangeInput.tsx:34-36 | `handleClose` (definition; its effect is stated by `CloseKeepsRanges`) |
| `RangeInput.Apply` | src/components/dateRangeInput.tsx:38-41 | `handleApply` (definition; its effect is stated by `ApplyThenReopen`) |
| `RangeInput.Cancel` | src/components/dateRangeInput.tsx:43-47 | `handleCancel` (definition; its effect is stated by `CancelResetsEverything`) |
| `RangeInput.DateChange` | src/components/dateRangeInput.tsx:49-51 | `handleDateChange` (definition; its effect is stated by `ChangesTouchOnlyDraft`) |
| `RangeInput.PresetSelect` | src/components/dateRangeInput.tsx:53-55 | `handlePresetSelect` (definition; its effect is stated by `ChangesTouchOnlyDraft`) |
| `RangeInput.ApplyDisabled` | src/components/dateRangeInput.tsx:62 | `isApplyDisabled` (definition; characterised by `ApplyEnabledIffDraftComplete`) |
| `RangeInput.Step` | src/components/dateRangeInput.tsx:97-105 | the committed range changes only through an enabled Apply or through Cancel; a click on the disabled Apply changes nothing; an enabled Apply commits the draft and closes |
| `RangeInput.OpenCopiesCommitted` | src/components/dateRangeInput.tsx:29-32 | opening copies the committed range into the draft and opens; opening twice equals opening once |
| `RangeInput.CloseKeepsRanges` | src/components/dateRangeInput.tsx:34-36 | closing keeps committed and draft, so close-then-open equals open |
| `RangeInput.ApplyThenReopen` | src/components/dateRangeInput.tsx:38-41 | apply commits the draft and closes, and reopening shows that draft again |
| `RangeInput.CancelResetsEverything` | src/components/dateRangeInput.tsx:43-47 | cancel returns to the initial state, discarding a committed range as well as the draft |
| `RangeInput.ChangesTouchOnlyDraft` | src/components/dateRangeInput.tsx:49-55 | calendar and shortcut changes replace the draft and leave committed and open as they were |
| `RangeInput.StepKeepsConsistent` | src/components/dateRangeInput.tsx:97-105 | with Apply clickable only when enabled, every action keeps the committed range all-or-nothing |
| `RangeInput.RunKeepsConsistent` | src/components/dateRangeInput.tsx:25-62 | any sequence of actions keeps the committed range all-or-nothing |
| `RangeInput.DisplayTextAfterAnyRun` | src/components/dateRangeInput.tsx:57-60 | after any history from the initial state the field shows text exactly when something is committed |
| `RangeInput.ShortcutEnablesApply` | src/components/dateRangeInput.tsx:53-62 | a shortcut's range always enables Apply, and applying it makes the field show text |

The two header components carry identical `handlePreviousMonth` /
`handleNextMonth` handlers (src/components/pickersRangeCalendarHeader.tsx:22-32
and src/components/header.tsx:22-32); `Header` models both.

## Left out

- Rendering: JSX, MUI layout, `sx` styling, theming, the day-of-week labels and the app bootstrap are not logic.
- Date formatting: `DisplayText` takes the formatter as a parameter; format strings and locales are not modelled.
- The clock: every `moment()` call becomes the `today` parameter.
- Time of day: days are whole day numbers, so moment's sub-day parts and fractional `diff` are not modelled; `isBefore` without a unit (src/components/customDateRangeCalendar.tsx:44) compares instants, which at day granularity is `<` on day numbers.
- Calendar range: moment's limits on representable years are not modelled; the calendar is unbounded in both directions.
- `Header.Shown`: the parent's `onMonthChange` handler is not part of this model (its component is not shown); the panel is assumed to show the emitted month.
- `src/components/dateRangeInput.tsx:11` imports a calendar component that is not part of this model; each handler is modelled on its own parameters, not on that wiring.
- The `minDate` passed to the range calendar is never used by the day grid, so it appears nowhere in the model.
- The single calendar's `StaticDatePicker` view state (src/components/singleCalendar.tsx:62-76) belongs to the UI library.
- React hooks and memoisation (`useMemo`, `useCallback`, `React.memo`) do not change results.
- Fractional offsets: `adjustDays` and `adjustMonths` are declared `number` (src/components/presetSelect.tsx:7-8), but the model takes whole numbers; the rounding the date library applies to a fractional amount in `add` / `subtract` is not modelled.
- `RangeInput.Step`: every action is allowed in every state, which over-approximates the UI. For example, Apply, Cancel and calendar changes can happen while the dialog is closed, and the field can be clicked while the dialog is open. Everything proved over `Run` therefore also holds for the sequences the UI actually permits.
- The test file exercises a different interface (controlled `value` / `onChange`, range providers, a null preset) and is not modelled.
