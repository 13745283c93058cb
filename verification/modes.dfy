/**
 The two modes of the list. Each mode says what a click, a long click and
 the start of a drag on position `p` do. A mode's operations run only while
 that mode is the active one, which each function here requires.
 */
module Modes {
  import opened ListModel
  import opened ControllerSelection

  // Normal mode: no items are selected. Clicks open a habit; long clicks and
  // drags start a selection.

  /** A click reports the habit under the finger and changes nothing. */
  function NormalItemClick(s: State, p: int): (r: Step)
    requires s.mode == Normal && ValidPosition(s, p)
    ensures r.state == s
    ensures s.hasHabitListener ==> r.events == [HabitClick(s.items[p])]
    ensures !s.hasHabitListener ==> r.events == []
  {
    var habit := s.items[p];
    Step(s, Notify(s.hasHabitListener, HabitClick(habit)))
  }

  /**
   Starts a selection at `p`: toggles it, forces selection mode and tells the
   selection listener that a selection has started. From a consistent normal
   state (nothing selected) the selection becomes exactly `{p}`.
   */
  function StartSelection(s: State, p: int): (r: Step)
    requires s.mode == Normal && ValidPosition(s, p)
    ensures r.state.mode == Selection
    ensures p in r.state.selected <==> p !in s.selected
    ensures forall q :: q != p ==> (q in r.state.selected <==> q in s.selected)
    ensures ModeMatchesSelection(s) ==> r.state.selected == {p}
    ensures Valid(s) ==> Valid(r.state)
    ensures r.state.items == s.items
    ensures r.state.hasHabitListener == s.hasHabitListener
    ensures r.state.hasSelectionListener == s.hasSelectionListener
    ensures s.hasSelectionListener ==> r.events == [SelectionStart]
    ensures !s.hasSelectionListener ==> r.events == []
  {
    var toggled := ToggleSelection(s, p);
    Step(toggled.(mode := Selection), Notify(toggled.hasSelectionListener, SelectionStart))
  }

  /** A long click starts a selection and reports the gesture as consumed. */
  function NormalItemLongClick(s: State, p: int): (r: (Step, bool))
    requires s.mode == Normal && ValidPosition(s, p)
    ensures r.1
    ensures r.0.state.mode == Selection
    ensures p in r.0.state.selected <==> p !in s.selected
    ensures forall q :: q != p ==> (q in r.0.state.selected <==> q in s.selected)
    ensures ModeMatchesSelection(s) ==> r.0.state.selected == {p}
    ensures Valid(s) ==> Valid(r.0.state)
    ensures r.0.state.items == s.items
    ensures r.0.state.hasHabitListener == s.hasHabitListener
    ensures r.0.state.hasSelectionListener == s.hasSelectionListener
    ensures r.0.events == Notify(s.hasSelectionListener, SelectionStart)
  {
    (StartSelection(s, p), true)
  }

  /** Dragging an item starts a selection at it, like a long click. */
  function NormalStartDrag(s: State, p: int): (r: Step)
    requires s.mode == Normal && ValidPosition(s, p)
    ensures r.state.mode == Selection
    ensures p in r.state.selected <==> p !in s.selected
    ensures forall q :: q != p ==> (q in r.state.selected <==> q in s.selected)
    ensures ModeMatchesSelection(s) ==> r.state.selected == {p}
    ensures Valid(s) ==> Valid(r.state)
    ensures r.state.items == s.items
    ensures r.state.hasHabitListener == s.hasHabitListener
    ensures r.state.hasSelectionListener == s.hasSelectionListener
    ensures r.events == Notify(s.hasSelectionListener, SelectionStart)
  {
    StartSelection(s, p)
  }

  // Selection mode: some items are selected. Clicks, long clicks and drags
  // all flip the item in or out of the selection.

  /**
   What the selection listener hears after a toggle: a change while the mode
   is still selection mode, the end of the selection once the toggle has
   returned the controller to normal mode.
   */
  function NotifyListener(s: State): (r: seq<Event>)
    ensures !s.hasSelectionListener ==> r == []
    ensures s.hasSelectionListener && s.mode == Selection ==> r == [SelectionChange]
    ensures s.hasSelectionListener && s.mode == Normal ==> r == [SelectionFinish]
  {
    if !s.hasSelectionListener then []
    else if s.mode == Selection then [SelectionChange]
    else [SelectionFinish]
  }

  /**
   Toggles `p` and then sends exactly one selection notification: a change
   if something is still selected, the finish if nothing is.
   */
  function SelectionItemClick(s: State, p: int): (r: Step)
    requires s.mode == Selection && ValidPosition(s, p)
    ensures p in r.state.selected <==> p !in s.selected
    ensures forall q :: q != p ==> (q in r.state.selected <==> q in s.selected)
    ensures ModeMatchesSelection(r.state)
    ensures Valid(s) ==> Valid(r.state)
    ensures r.state.items == s.items
    ensures r.state.hasHabitListener == s.hasHabitListener
    ensures r.state.hasSelectionListener == s.hasSelectionListener
    ensures s.hasSelectionListener && r.state.selected != {} ==> r.events == [SelectionChange]
    ensures s.hasSelectionListener && r.state.selected == {} ==> r.events == [SelectionFinish]
    ensures !s.hasSelectionListener ==> r.events == []
  {
    var toggled := ToggleSelection(s, p);
    Step(toggled, NotifyListener(toggled))
  }

  /** A long click toggles and notifies like a click and reports the gesture as consumed. */
  function SelectionItemLongClick(s: State, p: int): (r: (Step, bool))
    requires s.mode == Selection && ValidPosition(s, p)
    ensures r.1
    ensures p in r.0.state.selected <==> p !in s.selected
    ensures forall q :: q != p ==> (q in r.0.state.selected <==> q in s.selected)
    ensures ModeMatchesSelection(r.0.state)
    ensures Valid(s) ==> Valid(r.0.state)
    ensures r.0.state.items == s.items
    ensures r.0.state.hasHabitListener == s.hasHabitListener
    ensures r.0.state.hasSelectionListener == s.hasSelectionListener
    ensures s.hasSelectionListener && r.0.state.selected != {} ==> r.0.events == [SelectionChange]
    ensures s.hasSelectionListener && r.0.state.selected == {} ==> r.0.events == [SelectionFinish]
    ensures !s.hasSelectionListener ==> r.0.events == []
  {
    var toggled := ToggleSelection(s, p);
    (Step(toggled, NotifyListener(toggled)), true)
  }

  /** Dragging an item does exactly what a click does: toggle, then notify. */
  function SelectionStartDrag(s: State, p: int): (r: Step)
    requires s.mode == Selection && ValidPosition(s, p)
    ensures p in r.state.selected <==> p !in s.selected
    ensures forall q :: q != p ==> (q in r.state.selected <==> q in s.selected)
    ensures ModeMatchesSelection(r.state)
    ensures Valid(s) ==> Valid(r.state)
    ensures r.state.items == s.items
    ensures r.state.hasHabitListener == s.hasHabitListener
    ensures r.state.hasSelectionListener == s.hasSelectionListener
    ensures s.hasSelectionListener && r.state.selected != {} ==> r.events == [SelectionChange]
    ensures s.hasSelectionListener && r.state.selected == {} ==> r.events == [SelectionFinish]
    ensures !s.hasSelectionListener ==> r.events == []
  {
    SelectionItemClick(s, p)
  }
}
