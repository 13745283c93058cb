/**
 Whole sessions with the controller: any sequence of calls, the state it
 ends in and every notification sent along the way. The mode invariant holds
 after every call, the list is only ever permuted, and the selection
 notifications form well-nested start/change/finish runs that end open
 exactly when the controller ends in selection mode.
 */
module GestureTraces {
  import opened ListModel
  import Adapter
  import C = HabitCardListController

  /** One call into the controller's public interface. */
  datatype Call =
    | DropAt(from: int, to: int)
    | EditCheckmark(habit: Habit, timestamp: Timestamp)
    | RejectedEdit
    | RejectedToggle
    | ClickAt(position: int)
    | LongClickAt(position: int)
    | ModelChanged
    | SelectionCancelled
    | ToggleCheckmark(habit: Habit, timestamp: Timestamp)
    | SetHabitListener(present: bool)
    | SetSelectionListener(present: bool)
    | DragAt(position: int)

  /** The positions of a call name items of a list of length `n`. */
  predicate Fits(c: Call, n: int) {
    match c
    case DropAt(from, to) => from == to || (0 <= from < n && 0 <= to < n)
    case ClickAt(p) => 0 <= p < n
    case LongClickAt(p) => 0 <= p < n
    case DragAt(p) => 0 <= p < n
    case _ => true
  }

  /** Every call of a session fits a list of length `n`. */
  predicate AllFit(cs: seq<Call>, n: int) {
    forall i :: 0 <= i < |cs| ==> Fits(cs[i], n)
  }

  /** Performs one call. */
  function Apply(s: State, c: Call): (r: Step)
    requires Fits(c, |s.items|)
    ensures |r.state.items| == |s.items|
    ensures multiset(r.state.items) == multiset(s.items)
    ensures Valid(s) ==> Valid(r.state)
  {
    match c
    case DropAt(from, to) =>
      if from != to then Adapter.MovePermutes(s.items, from, to); C.Drop(s, from, to)
      else C.Drop(s, from, to)
    case EditCheckmark(h, t) => C.OnEdit(s, h, t)
    case RejectedEdit => C.OnInvalidEdit(s)
    case RejectedToggle => C.OnInvalidToggle(s)
    case ClickAt(p) => C.OnItemClick(s, p)
    case LongClickAt(p) => C.OnItemLongClick(s, p)
    case ModelChanged => C.OnModelChange(s)
    case SelectionCancelled => C.OnSelectionFinished(s)
    case ToggleCheckmark(h, t) => C.OnToggle(s, h, t)
    case SetHabitListener(on) => Step(C.SetHabitListener(s, on), [])
    case SetSelectionListener(on) => Step(C.SetSelectionListener(s, on), [])
    case DragAt(p) => C.StartDrag(s, p)
  }

  /** Performs the calls one after another, collecting every notification in order. */
  function Run(s: State, cs: seq<Call>): (r: Step)
    requires AllFit(cs, |s.items|)
    ensures |r.state.items| == |s.items|
    ensures multiset(r.state.items) == multiset(s.items)
    ensures Valid(s) ==> Valid(r.state)
    decreases |cs|
  {
    if cs == [] then Step(s, [])
    else
      var first := Apply(s, cs[0]);
      assert AllFit(cs[1..], |first.state.items|) by {
        forall i | 0 <= i < |cs[1..]|
          ensures Fits(cs[1..][i], |first.state.items|)
        {
          assert cs[1..][i] == cs[i + 1];
        }
      }
      var rest := Run(first.state, cs[1..]);
      Step(rest.state, first.events + rest.events)
  }

  datatype Option<T> = None | Some(value: T)

  /**
   How a listener that knows whether a selection is `open` reads one
   notification: a start must open a closed selection, a change needs an open
   one, a finish closes it (closing a closed one is harmless), and anything
   else leaves it as it was. None means the notification came out of turn.
   */
  function BracketStep(open: bool, e: Event): Option<bool> {
    match e
    case SelectionStart => if open then None else Some(true)
    case SelectionChange => if open then Some(true) else None
    case SelectionFinish => Some(false)
    case _ => Some(open)
  }

  /**
   Reads a whole log one notification after another: whether the selection
   is open at the end, or None when some notification came out of turn.
   */
  function Bracket(open: bool, events: seq<Event>): Option<bool>
    decreases |events|
  {
    if events == [] then Some(open)
    else
      match BracketStep(open, events[0])
      case None => None
      case Some(o) => Bracket(o, events[1..])
  }

  /** Reading two logs one after the other is reading their concatenation. */
  lemma {:induction false} BracketAppend(open: bool, a: seq<Event>, b: seq<Event>)
    ensures Bracket(open, a + b) ==
      match Bracket(open, a)
      case None => None
      case Some(o) => Bracket(o, b)
    decreases |a|
  {
    if a == [] {
      assert a + b == b;
    } else {
      assert (a + b)[0] == a[0];
      assert (a + b)[1..] == a[1..] + b;
      match BracketStep(open, a[0])
      case None =>
      case Some(o) => BracketAppend(o, a[1..], b);
    }
  }

  /**
   With the selection listener set and the invariant holding, one call sends
   selection notifications in turn, and the selection is open afterwards
   exactly when the controller is in selection mode.
   */
  lemma ApplyBrackets(s: State, c: Call)
    requires Valid(s) && s.hasSelectionListener && Fits(c, |s.items|)
    requires c != SetSelectionListener(false)
    ensures Apply(s, c).state.hasSelectionListener
    ensures Bracket(s.mode == Selection, Apply(s, c).events) == Some(Apply(s, c).state.mode == Selection)
  {
    var r := Apply(s, c);
    match c
    case DropAt(from, to) =>
      if from != to {
        assert r.events == [SelectionFinish] + Notify(s.hasHabitListener, HabitReorder(s.items[from], s.items[to]));
        BracketAppend(s.mode == Selection, [SelectionFinish], Notify(s.hasHabitListener, HabitReorder(s.items[from], s.items[to])));
      }
    case _ =>
  }

  /**
   A whole session with the selection listener left in place: its selection
   notifications never come out of turn, and the selection is open at the end
   exactly when the controller ends in selection mode.
   */
  lemma {:induction false} RunBrackets(s: State, cs: seq<Call>)
    requires Valid(s) && s.hasSelectionListener && AllFit(cs, |s.items|)
    requires forall i :: 0 <= i < |cs| ==> cs[i] != SetSelectionListener(false)
    ensures Bracket(s.mode == Selection, Run(s, cs).events) == Some(Run(s, cs).state.mode == Selection)
    decreases |cs|
  {
    if cs != [] {
      var first := Apply(s, cs[0]);
      ApplyBrackets(s, cs[0]);
      assert AllFit(cs[1..], |first.state.items|) by {
        forall i | 0 <= i < |cs[1..]|
          ensures Fits(cs[1..][i], |first.state.items|)
        {
          assert cs[1..][i] == cs[i + 1];
        }
      }
      var rest := Run(first.state, cs[1..]);
      assert forall i :: 0 <= i < |cs[1..]| ==> cs[1..][i] != SetSelectionListener(false) by {
        forall i | 0 <= i < |cs[1..]|
          ensures cs[1..][i] != SetSelectionListener(false)
        {
          assert cs[1..][i] == cs[i + 1];
        }
      }
      RunBrackets(first.state, cs[1..]);
      BracketAppend(s.mode == Selection, first.events, rest.events);
    }
  }

  /**
   A listener that is not set hears nothing: every notification of one call
   goes to a listener that was set when the call was made.
   */
  lemma ListenersGateEvents(s: State, c: Call)
    requires Fits(c, |s.items|)
    ensures forall i :: 0 <= i < |Apply(s, c).events| ==>
      var e := Apply(s, c).events[i];
      (e.IsSelectionEvent() ==> s.hasSelectionListener) && (!e.IsSelectionEvent() ==> s.hasHabitListener)
  {
  }

  /** A call that may attach a listener. */
  predicate AttachesListener(c: Call) {
    c == SetHabitListener(true) || c == SetSelectionListener(true)
  }

  /**
   A session that starts with no listener and never attaches one sends no
   notification at all, whatever gestures it contains.
   */
  lemma {:induction false} RunSilentWithoutListeners(s: State, cs: seq<Call>)
    requires !s.hasHabitListener && !s.hasSelectionListener && AllFit(cs, |s.items|)
    requires forall i :: 0 <= i < |cs| ==> !AttachesListener(cs[i])
    ensures Run(s, cs).events == []
    ensures !Run(s, cs).state.hasHabitListener && !Run(s, cs).state.hasSelectionListener
    decreases |cs|
  {
    if cs != [] {
      var first := Apply(s, cs[0]);
      ListenersGateEvents(s, cs[0]);
      assert !first.state.hasHabitListener && !first.state.hasSelectionListener by {
        assert !AttachesListener(cs[0]);
      }
      assert AllFit(cs[1..], |first.state.items|) by {
        forall i | 0 <= i < |cs[1..]|
          ensures Fits(cs[1..][i], |first.state.items|)
        {
          assert cs[1..][i] == cs[i + 1];
        }
      }
      assert forall i :: 0 <= i < |cs[1..]| ==> !AttachesListener(cs[1..][i]) by {
        forall i | 0 <= i < |cs[1..]|
          ensures !AttachesListener(cs[1..][i])
        {
          assert cs[1..][i] == cs[i + 1];
        }
      }
      RunSilentWithoutListeners(first.state, cs[1..]);
    }
  }

  /** Running a non-empty session is running its first call, then the rest. */
  lemma RunCons(s: State, c: Call, cs: seq<Call>)
    requires Fits(c, |s.items|) && AllFit(cs, |s.items|)
    ensures AllFit([c] + cs, |s.items|)
    ensures var first := Apply(s, c);
            var rest := Run(first.state, cs);
            Run(s, [c] + cs) == Step(rest.state, first.events + rest.events)
  {
    var cs' := [c] + cs;
    assert cs'[0] == c && cs'[1..] == cs;
    assert AllFit(cs', |s.items|) by {
      forall i | 0 <= i < |cs'|
        ensures Fits(cs'[i], |s.items|)
      {
        if i > 0 { assert cs'[i] == cs[i - 1]; }
      }
    }
  }

  /**
   Why the selection listener must stay set: cleared before a long click and
   set again before the next click, it hears a change with no start before it.
   */
  lemma ClearedListenerMissesStart()
    ensures var s := State([Habit(0), Habit(1)], {}, Normal, false, true);
            var r := Run(s, [SetSelectionListener(false), LongClickAt(0), SetSelectionListener(true), ClickAt(1)]);
            r.events == [SelectionChange] && Bracket(false, r.events) == None
  {
    var s0 := State([Habit(0), Habit(1)], {}, Normal, false, true);
    var s1 := s0.(hasSelectionListener := false);
    var s2 := s1.(selected := {0}, mode := Selection);
    var s3 := s2.(hasSelectionListener := true);
    var s4 := s3.(selected := {0, 1});
    assert Apply(s3, ClickAt(1)) == Step(s4, [SelectionChange]);
    RunCons(s3, ClickAt(1), []);
    assert [ClickAt(1)] + [] == [ClickAt(1)];
    RunCons(s2, SetSelectionListener(true), [ClickAt(1)]);
    assert Apply(s1, LongClickAt(0)) == Step(s2, []);
    RunCons(s1, LongClickAt(0), [SetSelectionListener(true), ClickAt(1)]);
    RunCons(s0, SetSelectionListener(false), [LongClickAt(0), SetSelectionListener(true), ClickAt(1)]);
  }
}
