/**
 The two mutations the controller asks of its list adapter, stated on values:
 flipping one position in the selection, and moving one item to a new place
 in the list (remove it at `from`, insert it again at `to`).
 */
module Adapter {

  /** The selection with the membership of `p` flipped and every other position untouched. */
  function Toggled(selected: set<int>, p: int): (r: set<int>)
    ensures p in r <==> p !in selected
    ensures forall q :: q != p ==> (q in r <==> q in selected)
  {
    if p in selected then selected - {p} else selected + {p}
  }

  /**
   The position in the old list of the element that ends up at `i` once the
   element at `from` has been moved to `to`.
   */
  function MoveSource(from: int, to: int, i: int): int {
    if i == to then from
    else if from < to && from <= i < to then i + 1
    else if to < from && to < i <= from then i - 1
    else i
  }

  /**
   The list with the element at `from` taken out and put back so that it sits
   at `to`; the elements in between shift by one towards the gap.
   */
  function Move<T>(xs: seq<T>, from: int, to: int): (r: seq<T>)
    requires 0 <= from < |xs| && 0 <= to < |xs|
    ensures |r| == |xs|
    ensures r[to] == xs[from]
    ensures forall i :: 0 <= i < |xs| && i < from && i < to ==> r[i] == xs[i]
    ensures forall i :: 0 <= i < |xs| && i > from && i > to ==> r[i] == xs[i]
    ensures forall i :: from <= i < to ==> r[i] == xs[i + 1]
    ensures forall i :: to < i <= from ==> r[i] == xs[i - 1]
  {
    seq(|xs|, i requires 0 <= i < |xs| => xs[MoveSource(from, to, i)])
  }

  /** A forward move, as list surgery: the block after `from` slides left over it. */
  lemma MoveForwardSplit<T>(xs: seq<T>, from: int, to: int)
    requires 0 <= from <= to < |xs|
    ensures Move(xs, from, to) == xs[..from] + xs[from + 1..to + 1] + [xs[from]] + xs[to + 1..]
  {
  }

  /** A backward move, as list surgery: the block before `from` slides right over it. */
  lemma MoveBackwardSplit<T>(xs: seq<T>, from: int, to: int)
    requires 0 <= to < from < |xs|
    ensures Move(xs, from, to) == xs[..to] + [xs[from]] + xs[to..from] + xs[from + 1..]
  {
  }

  /** Exchanging two adjacent blocks of a list keeps its elements. */
  lemma SwapBlocksPermutes<T>(a: seq<T>, b: seq<T>, c: seq<T>, d: seq<T>)
    ensures multiset(a + b + c + d) == multiset(a + c + b + d)
  {
  }

  /** A move rearranges the list without losing or duplicating any element. */
  lemma MovePermutes<T>(xs: seq<T>, from: int, to: int)
    requires 0 <= from < |xs| && 0 <= to < |xs|
    ensures multiset(Move(xs, from, to)) == multiset(xs)
  {
    if from <= to {
      var a, b, c, d := xs[..from], [xs[from]], xs[from + 1..to + 1], xs[to + 1..];
      MoveForwardSplit(xs, from, to);
      assert xs == a + b + c + d;
      SwapBlocksPermutes(a, b, c, d);
    } else {
      var a, b, c, d := xs[..to], xs[to..from], [xs[from]], xs[from + 1..];
      MoveBackwardSplit(xs, from, to);
      assert xs == a + b + c + d;
      SwapBlocksPermutes(a, b, c, d);
    }
  }

  /** Moving an item back to where it came from restores the list. */
  lemma MoveInverse<T>(xs: seq<T>, from: int, to: int)
    requires 0 <= from < |xs| && 0 <= to < |xs|
    ensures Move(Move(xs, from, to), to, from) == xs
  {
  }
}
