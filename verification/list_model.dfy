/**
 The values the habit-list controller works with: the opaque habit handles it
 reads from its adapter, the two-valued mode, the notifications it sends to
 its two optional listeners, and one state record that stands for the
 controller together with the part of the adapter it can observe.
 */
module ListModel {

  /** A habit, known to the controller only as a handle compared by identity. */
  datatype Habit = Habit(id: int)

  /** A checkmark timestamp (a Java `long`); the controller only forwards it. */
  type Timestamp = int

  /** Which interpretation of clicks, long clicks and drags is active. */
  datatype Mode = Normal | Selection

  /**
   One notification delivered to a listener. The first six go to the habit
   listener, the last three to the selection listener.
   */
  datatype Event =
    | HabitClick(habit: Habit)
    | HabitReorder(from: Habit, to: Habit)
    | Edit(habit: Habit, timestamp: Timestamp)
    | InvalidEdit
    | InvalidToggle
    | Toggle(habit: Habit, timestamp: Timestamp)
    | SelectionStart
    | SelectionChange
    | SelectionFinish
  {
    /** True of the notifications that go to the selection listener. */
    predicate IsSelectionEvent() {
      SelectionStart? || SelectionChange? || SelectionFinish?
    }
  }

  /**
   The controller and its adapter. `items` is the adapter's ordered list,
   `selected` the adapter's set of selected positions, `mode` the active mode,
   and the two flags say whether a habit listener and a selection listener
   are currently set (a non-null reference in the source).
   */
  datatype State = State(
    items: seq<Habit>,
    selected: set<int>,
    mode: Mode,
    hasHabitListener: bool,
    hasSelectionListener: bool
  )

  /** The outcome of one controller call: the new state and the notifications it sent, in order. */
  datatype Step = Step(state: State, events: seq<Event>)

  /** The notification `e` if its listener is set, and nothing otherwise. */
  function Notify(listening: bool, e: Event): (r: seq<Event>)
    ensures listening ==> r == [e]
    ensures !listening ==> r == []
  {
    if listening then [e] else []
  }

  /** A position the adapter can look up. */
  predicate ValidPosition(s: State, p: int) {
    0 <= p < |s.items|
  }

  /** The selection mode is active exactly when some item is selected. */
  predicate ModeMatchesSelection(s: State) {
    s.mode == Selection <==> s.selected != {}
  }

  /** Every selected position names an item of the list. */
  predicate SelectionInRange(s: State) {
    forall q :: q in s.selected ==> 0 <= q < |s.items|
  }

  /** The invariant every controller call preserves. */
  predicate Valid(s: State) {
    ModeMatchesSelection(s) && SelectionInRange(s)
  }
}
