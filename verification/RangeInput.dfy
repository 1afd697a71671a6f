/**
  The read-only input field and its dialog: a committed range shown in the
  field, a draft range edited inside the dialog, and whether the dialog is
  open. The dialog's handlers form a small state machine; Apply is only
  reachable while the draft is a complete range.
 */
module RangeInput {
  import opened Options
  import opened Calendar
  import opened DateRange
  import Presets

  datatype DialogState = DialogState(open: bool, committed: Range, draft: Range)

  /** Closed, with nothing committed and nothing drafted. */
  const Initial: DialogState := DialogState(false, Empty, Empty)

  /** Clicking the field: the draft restarts from the committed range and the dialog opens. */
  function Open(s: DialogState): DialogState {
    s.(draft := s.committed, open := true)
  }

  /** Dismissing the dialog: only closes it; committed and draft are kept. */
  function Close(s: DialogState): DialogState {
    s.(open := false)
  }

  /** "Apply": the draft becomes the committed range and the dialog closes. */
  function Apply(s: DialogState): DialogState {
    s.(committed := s.draft, open := false)
  }

  /** "Cancel": clears the draft and the committed range alike, and closes. */
  function Cancel(s: DialogState): DialogState {
    DialogState(false, Empty, Empty)
  }

  /** A new range from the calendars replaces the draft. */
  function DateChange(s: DialogState, newRange: Range): DialogState {
    s.(draft := newRange)
  }

  /** A range from the shortcut buttons replaces the draft. */
  function PresetSelect(s: DialogState, preset: Range): DialogState {
    s.(draft := preset)
  }

  /** The "Apply" button is disabled unless the draft has both ends. */
  predicate ApplyDisabled(s: DialogState) {
    !(s.draft.start.Some? && s.draft.end.Some?)
  }

  /**
    The field's text: both committed days, formatted by `format` (the date
    library's formatting, left abstract) and joined by " - ", or nothing.
   */
  function DisplayText(s: DialogState, format: Day -> string): (text: string)
    ensures |text| > 0 <==> IsComplete(s.committed)
  {
    if s.committed.start.Some? && s.committed.end.Some? then
      format(s.committed.start.value) + " - " + format(s.committed.end.value)
    else
      ""
  }

  /** What the user can do to the widget. */
  datatype Action =
    | ClickField
    | Dismiss
    | ClickApply
    | ClickCancel
    | CalendarChange(newRange: Range)
    | ShortcutChosen(preset: Range)

  /**
    One user action; a click on the disabled "Apply" button does nothing.
    The committed range changes only through an enabled "Apply" or through
    "Cancel".
   */
  function Step(s: DialogState, a: Action): (t: DialogState)
    ensures t.committed != s.committed ==> (a.ClickApply? && IsComplete(s.draft)) || a.ClickCancel?
    ensures a.ClickApply? && !IsComplete(s.draft) ==> t == s
    ensures a.ClickApply? && IsComplete(s.draft) ==> t.committed == s.draft && !t.open
  {
    match a
    case ClickField => Open(s)
    case Dismiss => Close(s)
    case ClickApply => if ApplyDisabled(s) then s else Apply(s)
    case ClickCancel => Cancel(s)
    case CalendarChange(r) => DateChange(s, r)
    case ShortcutChosen(r) => PresetSelect(s, r)
  }

  /** A sequence of user actions, first to last. */
  function Run(s: DialogState, actions: seq<Action>): DialogState
    decreases |actions|
  {
    if |actions| == 0 then s else Run(Step(s, actions[0]), actions[1..])
  }

  /** Apply is enabled exactly when the draft is a complete range. */
  lemma ApplyEnabledIffDraftComplete(s: DialogState)
    ensures !ApplyDisabled(s) <==> IsComplete(s.draft)
  {
  }

  /** Opening restarts the draft from what is committed; opening twice is opening once. */
  lemma OpenCopiesCommitted(s: DialogState)
    ensures Open(s).open && Open(s).draft == s.committed && Open(s).committed == s.committed
    ensures Open(Open(s)) == Open(s)
  {
  }

  /** Dismissing keeps both ranges, so reopening afterwards is the same as opening now. */
  lemma CloseKeepsRanges(s: DialogState)
    ensures !Close(s).open && Close(s).committed == s.committed && Close(s).draft == s.draft
    ensures Open(Close(s)) == Open(s)
  {
  }

  /** After "Apply" the dialog is closed and reopening it shows the applied draft again. */
  lemma ApplyThenReopen(s: DialogState)
    ensures !Apply(s).open && Apply(s).committed == s.draft
    ensures Open(Apply(s)).draft == s.draft
  {
  }

  /** "Cancel" forgets the committed range too: afterwards the widget is back at its initial state. */
  lemma CancelResetsEverything(s: DialogState)
    ensures Cancel(s) == Initial
    ensures Open(Cancel(s)).draft == Empty
    ensures IsComplete(s.committed) ==> Cancel(s).committed != s.committed
  {
  }

  /** Calendar and shortcut changes touch only the draft. */
  lemma ChangesTouchOnlyDraft(s: DialogState, r: Range)
    ensures DateChange(s, r).committed == s.committed && DateChange(s, r).open == s.open
    ensures PresetSelect(s, r).committed == s.committed && PresetSelect(s, r).open == s.open
    ensures DateChange(s, r).draft == r && PresetSelect(s, r).draft == r
  {
  }

  /** The invariant the guarded "Apply" keeps: the committed range is all or nothing. */
  predicate Consistent(s: DialogState) {
    AllOrNothing(s.committed)
  }

  /** Every action keeps the committed range all or nothing. */
  lemma StepKeepsConsistent(s: DialogState, a: Action)
    requires Consistent(s)
    ensures Consistent(Step(s, a))
  {
  }

  /** From the initial state, any sequence of actions leaves the committed range all or nothing. */
  lemma {:induction false} RunKeepsConsistent(s: DialogState, actions: seq<Action>)
    requires Consistent(s)
    ensures Consistent(Run(s, actions))
    decreases |actions|
  {
    if |actions| > 0 {
      StepKeepsConsistent(s, actions[0]);
      RunKeepsConsistent(Step(s, actions[0]), actions[1..]);
    }
  }

  /** So the field shows text exactly when something is committed, after any history. */
  lemma DisplayTextAfterAnyRun(actions: seq<Action>, format: Day -> string)
    ensures var s := Run(Initial, actions);
            |DisplayText(s, format)| > 0 <==> !IsEmpty(s.committed)
  {
    RunKeepsConsistent(Initial, actions);
  }

  /** A shortcut always drafts a complete range, so it always enables "Apply", and applying it shows text. */
  lemma ShortcutEnablesApply(s: DialogState, item: Presets.ShortcutItem, today: Day, disablePast: bool, disableFuture: bool, format: Day -> string)
    ensures var t := Step(s, ShortcutChosen(Presets.ResolveShortcut(item, today, disablePast, disableFuture)));
            !ApplyDisabled(t) && |DisplayText(Step(t, ClickApply), format)| > 0
  {
  }
}
