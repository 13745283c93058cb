# Habit list controller: gesture and selection state machine

A Dafny model of `HabitCardListController` from Loop Habit Tracker, the
object that sits between the habit list view and the screen's listeners. The
list view reports raw gestures by position (click, long click, start of a
drag, drop); the controller turns them into habit-level notifications (a
habit was clicked, two habits were reordered, a checkmark edit or toggle was
requested) or into a multi-select workflow (selection started, changed,
finished), depending on whether it is in normal mode or selection mode.

The controller and the part of its list adapter it can observe are one
immutable record `ListModel.State`: the ordered list of habits, the set of
selected positions, the active mode, and one flag per optional listener
(set or null). Every public method is a pure function from a state to a
`Step`: the next state and the notifications sent, in order, in one log
shared by both listeners so that the order between them (finish before
reorder) can be stated. The two mode objects of the source become the
enumeration `Mode = Normal | Selection`; their methods live in `Modes`
and require the mode they belong to, which the controller's dispatch
guarantees.

The invariant `ListModel.Valid` says the mode is selection mode exactly
when the selection is non-empty, and every selected position names an item.
Each operation carries `Valid(s) ==> Valid(r.state)`; `GestureTraces.Run`
lifts this to any session of calls. `GestureTraces.Bracket` is an
independent reading of the selection notifications (start only when closed,
change only when open, finish closes) and `RunBrackets` proves that every
session that starts consistent, with the selection listener set and never
cleared, reads well, ending open exactly when the controller ends in
selection mode. The condition is needed: a listener cleared before a long
click and set again afterwards hears a change with no start before it
(`ClearedListenerMissesStart`).

Modules: `ListModel` (values and state), `Adapter` (the two adapter
mutations as value functions), `ControllerSelection` (`toggleSelection`,
`cancelSelection`), `Modes` (the normal and selection modes),
`HabitCardListController` (the public methods), `GestureTraces` (sessions)
and `ControllerProperties` (short call sequences).

Three behaviours of the code are worth noting:
- a drop between distinct positions always sends the selection finish when
  a selection listener is set, even if nothing was selected;
- a model change with an empty selection sends the selection finish even
  when the controller was already in normal mode;
- the controller's own long-click method discards the mode's "consumed"
  answer, so only the mode-level functions return it.

## Model

| member | source | states |
|---|---|---|
| Adapter.Toggled | uhabits-android/src/main/java/org/isoron/uhabits/activities/habits/list/controllers/HabitCardListController.java:189 | the adapter's selection after the toggle differs from the old one exactly at the toggled position |
| Adapter.Move | uhabits-android/src/main/java/org/isoron/uhabits/activities/habits/list/controllers/HabitCardListController.java:79 | the reorder puts the item from `from` at `to`, shifts the items in between by one towards the gap, and leaves the rest and the length alone |
| Adapter.MovePermutes | uhabits-android/src/main/java/org/isoron/uhabits/activities/habits/list/controllers/HabitCardListController.java:79 | a reorder only permutes the list: the multiset of habits is unchanged |
| Adapter.MoveInverse | uhabits-android/src/main/java/org/isoron/uhabits/activities/habits/list/controllers/HabitCardListController.java:79 | moving an item back from `to` to `from` restores the original order |
| ControllerSelection.ToggleSelection | uhabits-android/src/main/java/org/isoron/uhabits/activities/habits/list/controllers/HabitCardListController.java:187-191 | membership of the position is flipped, nothing else in the selection changes, and the mode is re-derived so it is selection mode exactly when the selection is non-empty |
| ControllerSelection.CancelSelection | uhabits-android/src/main/java/org/isoron/uhabits/activities/habits/list/controllers/HabitCardListController.java:196-201 | selection cleared, normal mode, and exactly one finish notification when a selection listener is set (none otherwise), whatever was selected before |
| ControllerSelection.ToggleTwice | uhabits-android/src/main/java/org/isoron/uhabits/activities/habits/list/controllers/HabitCardListController.java:187-191 | toggling the same position twice from a consistent state gives back that state, mode included |
| Modes.NormalItemClick | uhabits-android/src/main/java/org/isoron/uhabits/activities/habits/list/controllers/HabitCardListController.java:264-268 | a normal-mode click reports the habit at the position to the habit listener when set and leaves the state unchanged |
| Modes.StartSelection | uhabits-android/src/main/java/org/isoron/uhabits/activities/habits/list/controllers/HabitCardListController.java:283-288 | the position is toggled, the mode is forced to selection, exactly one start is sent when a listener is set; from a consistent normal state the selection becomes exactly that position |
| Modes.NormalItemLongClick | uhabits-android/src/main/java/org/isoron/uhabits/activities/habits/list/controllers/HabitCardListController.java:270-275 | a normal-mode long click reports the gesture consumed, forces selection mode, flips only the position (so a consistent normal state ends with exactly that position selected), and sends one start when a selection listener is set |
| Modes.NormalStartDrag | uhabits-android/src/main/java/org/isoron/uhabits/activities/habits/list/controllers/HabitCardListController.java:277-281 | a normal-mode drag start forces selection mode, flips only the position (exactly that position selected from a consistent normal state), and sends one start when a selection listener is set |
| Modes.NotifyListener | uhabits-android/src/main/java/org/isoron/uhabits/activities/habits/list/controllers/HabitCardListController.java:320-327 | no notification without a listener; otherwise change while the resulting mode is selection and finish once it is normal |
| Modes.SelectionItemClick | uhabits-android/src/main/java/org/isoron/uhabits/activities/habits/list/controllers/HabitCardListController.java:298-303 | a selection-mode click flips the position and sends exactly one of change (selection still non-empty) and finish (selection now empty), the mode matching the outcome |
| Modes.SelectionItemLongClick | uhabits-android/src/main/java/org/isoron/uhabits/activities/habits/list/controllers/HabitCardListController.java:305-311 | a selection-mode long click reports the gesture consumed, flips only the position, leaves the mode matching the selection, and sends exactly one of change (still non-empty) and finish (now empty) when a listener is set |
| Modes.SelectionStartDrag | uhabits-android/src/main/java/org/isoron/uhabits/activities/habits/list/controllers/HabitCardListController.java:313-318 | a selection-mode drag start flips only the position, leaves the mode matching the selection, and sends exactly one of change (still non-empty) and finish (now empty) when a listener is set |
| HabitCardListController.New | uhabits-android/src/main/java/org/isoron/uhabits/activities/habits/list/controllers/HabitCardListController.java:57-62 | a new controller starts in normal mode with no listeners and is consistent exactly when the adapter starts with nothing selected |
| HabitCardListController.Drop | uhabits-android/src/main/java/org/isoron/uhabits/activities/habits/list/controllers/HabitCardListController.java:71-83 | equal endpoints change nothing and send nothing; otherwise the selection is cleared, the mode is normal, the item is moved, and the log is the finish (if a selection listener) followed by the reorder of the two habits read before the move (if a habit listener) |
| HabitCardListController.OnEdit | uhabits-android/src/main/java/org/isoron/uhabits/activities/habits/list/controllers/HabitCardListController.java:85-89 | the edit request is forwarded with its habit and timestamp when a habit listener is set, and nothing else happens |
| HabitCardListController.OnInvalidEdit | uhabits-android/src/main/java/org/isoron/uhabits/activities/habits/list/controllers/HabitCardListController.java:91-95 | the rejected edit is forwarded when a habit listener is set, and the state is untouched |
| HabitCardListController.OnInvalidToggle | uhabits-android/src/main/java/org/isoron/uhabits/activities/habits/list/controllers/HabitCardListController.java:97-105 | the rejected toggle is forwarded when a habit listener is set, and the state is untouched |
| HabitCardListController.OnToggle | uhabits-android/src/main/java/org/isoron/uhabits/activities/habits/list/controllers/HabitCardListController.java:149-159 | the toggle request is forwarded with its habit and timestamp when a habit listener is set, and the state is untouched |
| HabitCardListController.OnItemClick | uhabits-android/src/main/java/org/isoron/uhabits/activities/habits/list/controllers/HabitCardListController.java:112-116 | the transition table row for click: in normal mode report the habit and keep the state; in selection mode flip the position and send one change or finish |
| HabitCardListController.OnItemLongClick | uhabits-android/src/main/java/org/isoron/uhabits/activities/habits/list/controllers/HabitCardListController.java:123-127 | the transition table row for long click: from consistent normal mode select exactly the position with one start; in selection mode toggle with one change or finish |
| HabitCardListController.StartDrag | uhabits-android/src/main/java/org/isoron/uhabits/activities/habits/list/controllers/HabitCardListController.java:176-180 | a drag start behaves exactly as a long click in both modes |
| HabitCardListController.OnModelChange | uhabits-android/src/main/java/org/isoron/uhabits/activities/habits/list/controllers/HabitCardListController.java:129-137 | with an empty selection the mode becomes normal and one finish is sent when a listener is set; with a non-empty selection nothing changes and nothing is sent |
| HabitCardListController.OnSelectionFinished | uhabits-android/src/main/java/org/isoron/uhabits/activities/habits/list/controllers/HabitCardListController.java:139-147 | an external cancel always leaves the selection empty and the mode normal and sends one finish when a listener is set |
| HabitCardListController.SetHabitListener | uhabits-android/src/main/java/org/isoron/uhabits/activities/habits/list/controllers/HabitCardListController.java:161-164 | only the habit-listener presence changes |
| HabitCardListController.SetSelectionListener | uhabits-android/src/main/java/org/isoron/uhabits/activities/habits/list/controllers/HabitCardListController.java:166-169 | only the selection-listener presence changes |
| GestureTraces.Apply | uhabits-android/src/main/java/org/isoron/uhabits/activities/habits/list/controllers/HabitCardListController.java:71-180 | any single public call keeps the list's length and contents (as a multiset) and preserves the mode invariant |
| GestureTraces.Run | uhabits-android/src/main/java/org/isoron/uhabits/activities/habits/list/controllers/HabitCardListController.java:71-180 | any session of public calls keeps the list's contents as a multiset and preserves the mode invariant after every call |
| GestureTraces.BracketAppend | uhabits-android/src/main/java/org/isoron/uhabits/activities/habits/list/controllers/HabitCardListController.java:237-255 | reading the selection notifications of two logs in turn is reading their concatenation |
| GestureTraces.ApplyBrackets | uhabits-android/src/main/java/org/isoron/uhabits/activities/habits/list/controllers/HabitCardListController.java:237-255 | with the selection listener set, one call's selection notifications come in turn, and the selection is open afterwards exactly when the mode is selection |
| GestureTraces.RunBrackets | uhabits-android/src/main/java/org/isoron/uhabits/activities/habits/list/controllers/HabitCardListController.java:237-255 | for every session that starts consistent, with the selection listener set and never cleared: a change never comes before a start, no start comes while a selection is open, and the log ends open exactly when the controller ends in selection mode |
| GestureTraces.ClearedListenerMissesStart | uhabits-android/src/main/java/org/isoron/uhabits/activities/habits/list/controllers/HabitCardListController.java:283-288 | a selection listener cleared before a long click (so the start goes unheard) and set again before the next click hears a change with no start before it, so the bracket discipline needs the listener kept |
| GestureTraces.ListenersGateEvents | uhabits-android/src/main/java/org/isoron/uhabits/activities/habits/list/controllers/HabitCardListController.java:81-105 | every notification of a call goes to a listener that is set; an absent listener hears nothing |
| GestureTraces.RunSilentWithoutListeners | uhabits-android/src/main/java/org/isoron/uhabits/activities/habits/list/controllers/HabitCardListController.java:47-51 | a session that starts with both listeners null and never sets one sends no notification at all |
| ControllerProperties.LongClickStartsSelection | uhabits-android/src/main/java/org/isoron/uhabits/activities/habits/list/controllers/HabitCardListController.java:270-288 | from consistent normal mode a long click gives selection {p}, selection mode, and exactly one start |
| ControllerProperties.ClickLastSelectedFinishes | uhabits-android/src/main/java/org/isoron/uhabits/activities/habits/list/controllers/HabitCardListController.java:298-327 | clicking the only selected item gives an empty selection, normal mode, and exactly one finish |
| ControllerProperties.ClickOtherExtendsSelection | uhabits-android/src/main/java/org/isoron/uhabits/activities/habits/list/controllers/HabitCardListController.java:298-327 | clicking another item while {p} is selected gives {p, q}, selection mode, and exactly one change |
| ControllerProperties.ClickTwiceInSelection | uhabits-android/src/main/java/org/isoron/uhabits/activities/habits/list/controllers/HabitCardListController.java:298-303 | in selection mode two clicks on one item restore the state unless the first emptied the selection, in which case the second opens the habit |
| ControllerProperties.DropFinishesBeforeReorder | uhabits-android/src/main/java/org/isoron/uhabits/activities/habits/list/controllers/HabitCardListController.java:71-83 | with both listeners, a drop sends exactly finish then reorder, and the reorder's first habit is the one now at the drop position |
| ControllerProperties.DropBackRestoresOrder | uhabits-android/src/main/java/org/isoron/uhabits/activities/habits/list/controllers/HabitCardListController.java:71-83 | dropping an item back where it came from restores the list order, with the selection cleared |
| ControllerProperties.CancelTwice | uhabits-android/src/main/java/org/isoron/uhabits/activities/habits/list/controllers/HabitCardListController.java:144-147 | two external cancels leave the same state as one, and each sends its own finish |
| ControllerProperties.ModelChangeWhenEmptyOnlyNotifies | uhabits-android/src/main/java/org/isoron/uhabits/activities/habits/list/controllers/HabitCardListController.java:129-137 | on a consistent state with nothing selected, a model change leaves the state as it was and only sends the finish |
| ControllerProperties.ModelChangeRestoresInvariant | uhabits-android/src/main/java/org/isoron/uhabits/activities/habits/list/controllers/HabitCardListController.java:129-137 | after the adapter emptied its selection while the controller was in selection mode, a model change restores the invariant by returning to normal mode |

## Left out

- The Android and dependency-injection annotations, and the constructor's registration with the adapter's observable (line 61): framework wiring. `New` models only the initial field values.
- The internals of `HabitCardListAdapter`, which is not part of this model: `getItem` is indexing, `toggleSelection` flips a position, `clearSelection` empties the set, `isSelectionEmpty` tests it, and `performReorder` is taken to be remove-at-`from` then insert-at-`to` that leaves the (already cleared) selection empty. Out-of-range positions, which the adapter would reject, are preconditions.
- Re-entrant calls, such as the adapter firing `onModelChange` from inside its own `toggleSelection`: not visible from the controller, and the model treats each call as one atomic step.
- The listener implementations and the checkmark and number button controllers: represented only as entries in the notification log.
- The `Habit` model and timestamps: opaque values compared by identity.
- The identity of the mode objects (`new NormalMode()` against `NORMAL_MODE`, and the `activeMode == SELECTION_MODE` test): only one selection-mode object is ever installed, so an enumeration loses nothing observable.
- Concurrency: the controller runs on the UI thread only.
