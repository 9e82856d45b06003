/**
 * The gallery filter: a click on a filter button makes it the only active button and
 * shows exactly the gallery items of its category (every item for `all`).
 */
module GalleryFilter {
  import opened Wrappers
  import opened Flags

  /** An item's inline `display` style: not set yet, `block` or `none`. */
  datatype Display = Unset | Block | Hidden

  /**
   * Whether an item with `data-category` `category` is shown for a button with
   * `data-filter` `filter`. Either attribute may be missing; `filter === category` then
   * compares nulls, so a button without a filter shows exactly the items without a category.
   */
  predicate Shows(filter: Option<string>, category: Option<string>) {
    filter == Some("all") || filter == category
  }

  /** The visibility of every item after a click on a button with `filter`. */
  function Visible(filter: Option<string>, categories: seq<Option<string>>): (v: seq<bool>)
    ensures |v| == |categories|
  {
    seq(|categories|, j requires 0 <= j < |categories| => Shows(filter, categories[j]))
  }

  /** The `all` button shows every item. */
  lemma AllShowsEverything(categories: seq<Option<string>>)
    ensures Count(Visible(Some("all"), categories)) == |categories|
  {
    var v := Visible(Some("all"), categories);
    CountAllOn(v);
  }

  /** Any other filter shows exactly the items of that category. */
  lemma CategoryFilter(c: string, categories: seq<Option<string>>, j: nat)
    requires c != "all" && j < |categories|
    ensures Visible(Some(c), categories)[j] <==> categories[j] == Some(c)
  {
  }

  /** A filter that no item's category matches hides every item. */
  lemma UnmatchedFilterHidesAll(filter: Option<string>, categories: seq<Option<string>>)
    requires filter != Some("all") && filter !in categories
    ensures Count(Visible(filter, categories)) == 0
  {
    var v := Visible(filter, categories);
    forall j | 0 <= j < |v| ensures !v[j] {
      assert categories[j] in categories;
    }
  }

  /** The filter buttons and gallery items, each with the state the click handler sets. */
  class Gallery {
    const filters: seq<Option<string>>     // each button's `data-filter`
    const categories: seq<Option<string>>  // each item's `data-category`
    const buttonActive: array<bool>        // each button's `active` class
    const display: array<Display>          // each item's `display` style
    const animated: array<bool>            // whether an item has been given the fade-in animation

    ghost predicate Valid() {
      && buttonActive.Length == |filters|
      && display.Length == |categories|
      && animated.Length == |categories|
      && buttonActive != animated
    }

    /** The buttons and items as the page renders them; the markup may mark any buttons as active. */
    constructor (filters: seq<Option<string>>, categories: seq<Option<string>>, initiallyActive: seq<bool>)
      requires |initiallyActive| == |filters|
      ensures Valid() && fresh(buttonActive) && fresh(display) && fresh(animated)
      ensures this.filters == filters && this.categories == categories
      ensures buttonActive[..] == initiallyActive
      ensures forall j :: 0 <= j < |categories| ==> display[j] == Unset && !animated[j]
    {
      this.filters := filters;
      this.categories := categories;
      buttonActive := new bool[|filters|](j requires 0 <= j < |filters| => initiallyActive[j]);
      display := new Display[|categories|](_ => Unset);
      animated := new bool[|categories|](_ => false);
    }

    /** The click handler of button `k`. */
    method Click(k: nat)
      requires Valid() && k < |filters|
      modifies buttonActive, display, animated
      ensures ExactlyAt(buttonActive[..], k) && Count(buttonActive[..]) == 1
      ensures forall j :: 0 <= j < |categories| ==>
        display[j] == if Visible(filters[k], categories)[j] then Block else Hidden
      ensures forall j :: 0 <= j < |categories| ==>
        animated[j] == (old(animated[j]) || Visible(filters[k], categories)[j])
    {
      var filter := filters[k];
      var b := 0;
      while b < buttonActive.Length
        invariant 0 <= b <= buttonActive.Length
        invariant forall j :: 0 <= j < b ==> !buttonActive[j]
        modifies buttonActive
      {
        buttonActive[b] := false;
        b := b + 1;
      }
      buttonActive[k] := true;
      var i := 0;
      while i < display.Length
        invariant 0 <= i <= display.Length
        invariant ExactlyAt(buttonActive[..], k)
        invariant forall j :: 0 <= j < i ==>
          display[j] == if Shows(filter, categories[j]) then Block else Hidden
        invariant forall j :: 0 <= j < i ==> animated[j] == (old(animated[j]) || Shows(filter, categories[j]))
        invariant forall j :: i <= j < animated.Length ==> animated[j] == old(animated[j])
        modifies display, animated
      {
        if Shows(filter, categories[i]) {
          display[i] := Block;
          animated[i] := true;
        } else {
          display[i] := Hidden;
        }
        i := i + 1;
      }
      ExactlyAtCount(buttonActive[..], k);
    }
  }
}
