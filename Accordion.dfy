/**
 * The FAQ accordion: a click on an item's question closes every item and then
 * opens the clicked one, unless it was the one already open.
 */
module Accordion {
  import opened Flags

  /** The items' `active` flags after a click on item `k`, given the flags `open` before it. */
  function AfterClick(open: seq<bool>, k: nat): (r: seq<bool>)
    requires k < |open|
    ensures |r| == |open|
  {
    seq(|open|, j => j == k && !open[k])
  }

  /** Whatever the state before, at most one item is open after a click. */
  lemma AtMostOneOpen(open: seq<bool>, k: nat)
    requires k < |open|
    ensures Count(AfterClick(open, k)) <= 1
  {
    OnlyAtCount(AfterClick(open, k), k);
  }

  /** Clicking the open item closes it, and leaves no item open. */
  lemma ClickOpenItemClosesAll(open: seq<bool>, k: nat)
    requires k < |open| && open[k]
    ensures Count(AfterClick(open, k)) == 0
  {
  }

  /** Clicking a closed item leaves exactly that item open. */
  lemma ClickClosedItemOpensIt(open: seq<bool>, k: nat)
    requires k < |open| && !open[k]
    ensures ExactlyAt(AfterClick(open, k), k)
    ensures Count(AfterClick(open, k)) == 1
  {
    ExactlyAtCount(AfterClick(open, k), k);
  }

  /** A click toggles the clicked item. */
  lemma ClickToggles(open: seq<bool>, k: nat)
    requires k < |open|
    ensures AfterClick(open, k)[k] == !open[k]
  {
  }

  /** Two clicks on the same closed item open and close it again: nothing stays open. */
  lemma DoubleClickClosesAll(open: seq<bool>, k: nat)
    requires k < |open| && !open[k]
    ensures Count(AfterClick(AfterClick(open, k), k)) == 0
  {
  }

  /** The FAQ items, each with its `active` class. */
  class Faq {
    const active: array<bool>

    /** The items as the page renders them. */
    constructor (initial: seq<bool>)
      ensures fresh(active) && active[..] == initial
    {
      active := new bool[|initial|](j requires 0 <= j < |initial| => initial[j]);
    }

    /** The click handler of item `k`'s question. */
    method Click(k: nat)
      requires k < active.Length
      modifies active
      ensures active[..] == AfterClick(old(active[..]), k)
    {
      var wasActive := active[k];
      var j := 0;
      while j < active.Length
        invariant 0 <= j <= active.Length
        invariant forall i :: 0 <= i < j ==> !active[i]
        invariant forall i :: j <= i < active.Length ==> active[i] == old(active[i])
      {
        active[j] := false;
        j := j + 1;
      }
      if !wasActive {
        active[k] := true;
      }
    }
  }
}
