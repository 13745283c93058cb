/**
 The controller's two private selection helpers, through which every change
 of selection and mode goes: `toggleSelection` and `cancelSelection`.
 */
module ControllerSelection {
  import opened ListModel
  import Adapter

  /**
   Flips `p` in the adapter's selection and then installs the mode that the
   resulting selection calls for: selection mode when it is non-empty, normal
   mode when it is empty.
   */
  function ToggleSelection(s: State, p: int): (r: State)
    requires ValidPosition(s, p)
    ensures p in r.selected <==> p !in s.selected
    ensures forall q :: q != p ==> (q in r.selected <==> q in s.selected)
    ensures ModeMatchesSelection(r)
    ensures SelectionInRange(s) ==> Valid(r)
    ensures r.items == s.items
    ensures r.hasHabitListener == s.hasHabitListener
    ensures r.hasSelectionListener == s.hasSelectionListener
  {
    var selected := Adapter.Toggled(s.selected, p);
    s.(selected := selected, mode := if selected == {} then Normal else Selection)
  }

  /**
   Clears the selection, returns to normal mode and tells the selection
   listener, if one is set, that the selection is over; it does so whether or
   not anything was selected.
   */
  function CancelSelection(s: State): (r: Step)
    ensures r.state.selected == {} && r.state.mode == Normal
    ensures Valid(r.state)
    ensures r.state.items == s.items
    ensures r.state.hasHabitListener == s.hasHabitListener
    ensures r.state.hasSelectionListener == s.hasSelectionListener
    ensures |r.events| == (if s.hasSelectionListener then 1 else 0)
    ensures forall i :: 0 <= i < |r.events| ==> r.events[i] == SelectionFinish
  {
    Step(s.(selected := {}, mode := Normal), Notify(s.hasSelectionListener, SelectionFinish))
  }

  /** Toggling the same position twice gives back the state one started from. */
  lemma ToggleTwice(s: State, p: int)
    requires Valid(s) && ValidPosition(s, p)
    ensures ToggleSelection(ToggleSelection(s, p), p) == s
  {
  }
}
