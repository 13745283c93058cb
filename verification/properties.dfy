/**
 Facts about short sequences of controller calls: the examples of the
 selection workflow, the order of the drop notifications, and what repeating
 a call does.
 */
module ControllerProperties {
  import opened ListModel
  import opened HabitCardListController

  /**
   From a consistent normal state, a long click on `p` selects exactly `p`,
   enters selection mode and sends one start and nothing else.
   */
  lemma LongClickStartsSelection(s: State, p: int)
    requires Valid(s) && s.mode == Normal && s.hasSelectionListener && ValidPosition(s, p)
    ensures OnItemLongClick(s, p).state.selected == {p}
    ensures OnItemLongClick(s, p).state.mode == Selection
    ensures OnItemLongClick(s, p).events == [SelectionStart]
  {
  }

  /** Clicking the only selected item ends the selection with one finish and no change. */
  lemma ClickLastSelectedFinishes(s: State, p: int)
    requires Valid(s) && s.selected == {p} && s.hasSelectionListener && ValidPosition(s, p)
    ensures OnItemClick(s, p).state.selected == {}
    ensures OnItemClick(s, p).state.mode == Normal
    ensures OnItemClick(s, p).events == [SelectionFinish]
  {
  }

  /** Clicking another item while one is selected adds it, with one change and no finish. */
  lemma ClickOtherExtendsSelection(s: State, p: int, q: int)
    requires Valid(s) && s.selected == {p} && s.hasSelectionListener
    requires ValidPosition(s, q) && q != p
    ensures OnItemClick(s, q).state.selected == {p, q}
    ensures OnItemClick(s, q).state.mode == Selection
    ensures OnItemClick(s, q).events == [SelectionChange]
  {
  }

  /**
   In selection mode, clicking the same item twice gives back the state one
   started from, unless the first click emptied the selection: then the
   second click lands in normal mode and opens the habit instead.
   */
  lemma ClickTwiceInSelection(s: State, p: int)
    requires Valid(s) && s.mode == Selection && ValidPosition(s, p)
    ensures s.selected != {p} ==> OnItemClick(OnItemClick(s, p).state, p).state == s
    ensures s.selected == {p} ==>
              OnItemClick(OnItemClick(s, p).state, p).events
              == Notify(s.hasHabitListener, HabitClick(s.items[p]))
  {
  }

  /**
   With both listeners set, a drop between distinct positions sends exactly
   the finish and then the reorder, naming the habit now at `to` and the
   habit that was at `to` before the move.
   */
  lemma DropFinishesBeforeReorder(s: State, from: int, to: int)
    requires s.hasHabitListener && s.hasSelectionListener
    requires ValidPosition(s, from) && ValidPosition(s, to) && from != to
    ensures Drop(s, from, to).events == [SelectionFinish, HabitReorder(s.items[from], s.items[to])]
    ensures Drop(s, from, to).state.items[to] == Drop(s, from, to).events[1].from
  {
  }

  /** Dropping an item back where it came from restores the list, with the selection gone. */
  lemma DropBackRestoresOrder(s: State, from: int, to: int)
    requires ValidPosition(s, from) && ValidPosition(s, to) && from != to
    ensures Drop(Drop(s, from, to).state, to, from).state
         == s.(selected := {}, mode := Normal)
  {
  }

  /**
   Cancelling twice leaves the same state as cancelling once, and each call
   sends its own finish.
   */
  lemma CancelTwice(s: State)
    ensures OnSelectionFinished(OnSelectionFinished(s).state).state == OnSelectionFinished(s).state
    ensures OnSelectionFinished(OnSelectionFinished(s).state).events
         == OnSelectionFinished(s).events
         == Notify(s.hasSelectionListener, SelectionFinish)
  {
  }

  /** On a consistent state, a model change with nothing selected only sends the finish. */
  lemma ModelChangeWhenEmptyOnlyNotifies(s: State)
    requires Valid(s) && s.selected == {}
    ensures OnModelChange(s).state == s
    ensures OnModelChange(s).events == Notify(s.hasSelectionListener, SelectionFinish)
  {
  }

  /**
   After the adapter has emptied its selection behind the controller's back,
   the model change brings the mode back in line.
   */
  lemma ModelChangeRestoresInvariant(s: State)
    requires s.selected == {} && s.mode == Selection
    ensures Valid(OnModelChange(s).state)
    ensures OnModelChange(s).state == s.(mode := Normal)
  {
  }
}
