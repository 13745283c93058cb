/**
 The public operations of the habit-list controller. Each takes the current
 state and returns the next state with the notifications sent on the way.
 Gestures are handed to the active mode; drops, model changes, external
 cancels and the checkmark callbacks are handled by the controller itself.
 */
module HabitCardListController {
  import opened ListModel
  import Adapter
  import opened ControllerSelection
  import Modes

  /**
   A freshly built controller over an adapter holding `items` and `selected`:
   normal mode, no listeners. It is consistent exactly when the adapter starts
   with nothing selected.
   */
  function New(items: seq<Habit>, selected: set<int>): (r: State)
    ensures r.mode == Normal
    ensures r.items == items && r.selected == selected
    ensures !r.hasHabitListener && !r.hasSelectionListener
    ensures Valid(r) <==> selected == {}
  {
    State(items, selected, Normal, false, false)
  }

  /**
   The user dropped the item dragged from `from` at `to`. Equal endpoints do
   nothing at all. Otherwise, in this order: the selection is cancelled (the
   selection listener hears the finish even if nothing was selected), the two
   habits at `from` and `to` are read, the item is moved, and the habit
   listener hears the reorder of those two habits as they were before the move.
   */
  function Drop(s: State, from: int, to: int): (r: Step)
    requires from == to || (ValidPosition(s, from) && ValidPosition(s, to))
    ensures from == to ==> r.state == s && r.events == []
    ensures from != to ==> r.state.selected == {} && r.state.mode == Normal
    ensures from != to ==> r.state.items == Adapter.Move(s.items, from, to)
    ensures from != to ==>
              r.events == Notify(s.hasSelectionListener, SelectionFinish)
                        + Notify(s.hasHabitListener, HabitReorder(s.items[from], s.items[to]))
    ensures Valid(s) ==> Valid(r.state)
    ensures r.state.hasHabitListener == s.hasHabitListener
    ensures r.state.hasSelectionListener == s.hasSelectionListener
  {
    if from == to then Step(s, [])
    else
      var cancelled := CancelSelection(s);
      var habitFrom := cancelled.state.items[from];
      var habitTo := cancelled.state.items[to];
      var reordered := cancelled.state.(items := Adapter.Move(cancelled.state.items, from, to));
      Step(reordered, cancelled.events + Notify(reordered.hasHabitListener, HabitReorder(habitFrom, habitTo)))
  }

  /** The user asked to edit the checkmark of `habit` at `timestamp`; forwarded verbatim. */
  function OnEdit(s: State, habit: Habit, timestamp: Timestamp): (r: Step)
    ensures r.state == s
    ensures s.hasHabitListener ==> r.events == [Edit(habit, timestamp)]
    ensures !s.hasHabitListener ==> r.events == []
  {
    Step(s, Notify(s.hasHabitListener, Edit(habit, timestamp)))
  }

  /** An edit attempt was rejected; forwarded. */
  function OnInvalidEdit(s: State): (r: Step)
    ensures r.state == s
    ensures s.hasHabitListener ==> r.events == [InvalidEdit]
    ensures !s.hasHabitListener ==> r.events == []
  {
    Step(s, Notify(s.hasHabitListener, InvalidEdit))
  }

  /** A toggle attempt was rejected; forwarded. */
  function OnInvalidToggle(s: State): (r: Step)
    ensures r.state == s
    ensures s.hasHabitListener ==> r.events == [InvalidToggle]
    ensures !s.hasHabitListener ==> r.events == []
  {
    Step(s, Notify(s.hasHabitListener, InvalidToggle))
  }

  /** The user asked to toggle the checkmark of `habit` at `timestamp`; forwarded verbatim. */
  function OnToggle(s: State, habit: Habit, timestamp: Timestamp): (r: Step)
    ensures r.state == s
    ensures s.hasHabitListener ==> r.events == [Toggle(habit, timestamp)]
    ensures !s.hasHabitListener ==> r.events == []
  {
    Step(s, Notify(s.hasHabitListener, Toggle(habit, timestamp)))
  }

  /**
   A click on `p`. In normal mode it reports the habit and changes nothing;
   in selection mode it flips `p` and sends exactly one of change and finish.
   */
  function OnItemClick(s: State, p: int): (r: Step)
    requires ValidPosition(s, p)
    ensures s.mode == Normal ==> r.state == s
    ensures s.mode == Normal ==> r.events == Notify(s.hasHabitListener, HabitClick(s.items[p]))
    ensures s.mode == Selection ==> r.state.selected == Adapter.Toggled(s.selected, p)
    ensures s.mode == Selection ==>
              r.events == Notify(s.hasSelectionListener, if r.state.selected == {} then SelectionFinish else SelectionChange)
    ensures Valid(s) ==> Valid(r.state)
    ensures r.state.items == s.items
    ensures r.state.hasHabitListener == s.hasHabitListener
    ensures r.state.hasSelectionListener == s.hasSelectionListener
  {
    match s.mode
    case Normal => Modes.NormalItemClick(s, p)
    case Selection => Modes.SelectionItemClick(s, p)
  }

  /**
   A long click on `p`; the mode's "consumed" answer is dropped. In normal
   mode it starts a selection, in selection mode it toggles like a click.
   */
  function OnItemLongClick(s: State, p: int): (r: Step)
    requires ValidPosition(s, p)
    ensures s.mode == Normal && Valid(s) ==> r.state.selected == {p} && r.state.mode == Selection
    ensures s.mode == Normal ==> r.events == Notify(s.hasSelectionListener, SelectionStart)
    ensures s.mode == Selection ==> r.state.selected == Adapter.Toggled(s.selected, p)
    ensures s.mode == Selection ==>
              r.events == Notify(s.hasSelectionListener, if r.state.selected == {} then SelectionFinish else SelectionChange)
    ensures Valid(s) ==> Valid(r.state)
    ensures r.state.items == s.items
    ensures r.state.hasHabitListener == s.hasHabitListener
    ensures r.state.hasSelectionListener == s.hasSelectionListener
  {
    match s.mode
    case Normal => Modes.NormalItemLongClick(s, p).0
    case Selection => Modes.SelectionItemLongClick(s, p).0
  }

  /** The user started dragging `p`; same effect as a long click. */
  function StartDrag(s: State, p: int): (r: Step)
    requires ValidPosition(s, p)
    ensures r == OnItemLongClick(s, p)
  {
    match s.mode
    case Normal => Modes.NormalStartDrag(s, p)
    case Selection => Modes.SelectionStartDrag(s, p)
  }

  /**
   The adapter reported a change of its data. If its selection is now empty,
   the controller returns to normal mode and the selection listener hears the
   finish (also when the mode was already normal); otherwise nothing happens.
   */
  function OnModelChange(s: State): (r: Step)
    ensures s.selected == {} ==> r.state.mode == Normal && Valid(r.state)
    ensures s.selected == {} ==> r.events == Notify(s.hasSelectionListener, SelectionFinish)
    ensures s.selected != {} ==> r.state == s && r.events == []
    ensures r.state.items == s.items && r.state.selected == s.selected
    ensures r.state.hasHabitListener == s.hasHabitListener
    ensures r.state.hasSelectionListener == s.hasSelectionListener
    ensures Valid(s) ==> Valid(r.state)
  {
    if s.selected == {} then
      Step(s.(mode := Normal), Notify(s.hasSelectionListener, SelectionFinish))
    else
      Step(s, [])
  }

  /** The selection was cancelled from outside (the back button, say). */
  function OnSelectionFinished(s: State): (r: Step)
    ensures r.state.selected == {} && r.state.mode == Normal
    ensures r.state.items == s.items
    ensures r.state.hasHabitListener == s.hasHabitListener
    ensures r.state.hasSelectionListener == s.hasSelectionListener
    ensures r.events == Notify(s.hasSelectionListener, SelectionFinish)
  {
    CancelSelection(s)
  }

  /** Sets (`present`) or clears the habit listener; nothing is notified. */
  function SetHabitListener(s: State, present: bool): (r: State)
    ensures r.hasHabitListener == present
    ensures r.items == s.items && r.selected == s.selected && r.mode == s.mode
    ensures r.hasSelectionListener == s.hasSelectionListener
  {
    s.(hasHabitListener := present)
  }

  /** Sets (`present`) or clears the selection listener; nothing is notified. */
  function SetSelectionListener(s: State, present: bool): (r: State)
    ensures r.hasSelectionListener == present
    ensures r.items == s.items && r.selected == s.selected && r.mode == s.mode
    ensures r.hasHabitListener == s.hasHabitListener
  {
    s.(hasSelectionListener := present)
  }
}
