/**
 * Index rotation in the hero's animated text (a word list cycled with
 * `(currentIndex + 1) % words.length`) and in the mobile testimonials carousel
 * (one testimonial and one navigation dot shown at a time).
 */
module Rotation {
  import opened Wrappers
  import opened Text
  import opened Flags

  /**
   * The words of the animated heading, from its `data-words` attribute: none when the
   * attribute is missing or empty (the animation is then not started), otherwise the
   * comma-separated pieces, of which there is always at least one.
   */
  function RotationWords(attr: Option<string>): (r: Option<seq<string>>)
    ensures r.None? <==> attr == None || attr == Some("")
    ensures r.Some? ==> |r.value| >= 1 && JoinComma(r.value) == attr.value
  {
    match attr
    case None => None
    case Some(s) =>
      if s == "" then None
      else
        JoinSplit(s);
        Some(SplitComma(s))
  }

  /** A non-zero multiple of a positive `n` is at least `n` away from zero. */
  lemma {:induction false} MultipleBound(k: int, n: int)
    requires n > 0
    ensures k >= 1 ==> k * n >= n
    ensures k <= -1 ==> k * n <= -n
    decreases if k < 0 then -k else k
  {
    if k > 1 {
      MultipleBound(k - 1, n);
      assert k * n == (k - 1) * n + n;
    } else if k < -1 {
      MultipleBound(k + 1, n);
      assert k * n == (k + 1) * n - n;
    }
  }

  /** The remainder is the `r` of any decomposition `a == q * n + r` with `0 <= r < n`. */
  lemma ModulusUnique(a: int, n: int, q: int, r: int)
    requires n > 0 && 0 <= r < n && a == q * n + r
    ensures a % n == r
  {
    var q0, r0 := a / n, a % n;
    assert (q - q0) * n == r0 - r;
    MultipleBound(q - q0, n);
  }

  /** Advancing an index that is already reduced modulo `n` agrees with reducing the count. */
  lemma NextModulo(t: nat, n: nat)
    requires n > 0
    ensures ((t % n) + 1) % n == (t + 1) % n
  {
    var q, r := t / n, t % n;
    if r + 1 < n {
      ModulusUnique(t + 1, n, q, r + 1);
      ModulusUnique(r + 1, n, 0, r + 1);
    } else {
      ModulusUnique(t + 1, n, q + 1, 0);
      ModulusUnique(r + 1, n, 1, 0);
    }
  }

  /**
   * The heading's text after `c` changes: the text the page renders until the first
   * change, then the word at `c` wrapped around the list.
   */
  function ShownAfter(words: seq<string>, rendered: string, c: nat): string
    requires |words| >= 1
  {
    if c == 0 then rendered else words[c % |words|]
  }

  /** The animated heading: its word list, the current word's index and its text. */
  class WordRotator {
    const words: seq<string>
    ghost const rendered: string  // the text the page renders before the first change
    var currentIndex: nat
    var text: string
    var fadingOut: bool
    ghost var changes: nat  // how many times the word has been changed

    /**
     * The index is the number of changes so far, wrapped around the word list, and
     * the text is the one shown after that many changes.
     */
    ghost predicate Valid()
      reads this
    {
      && |words| >= 1
      && currentIndex == changes % |words|
      && text == ShownAfter(words, rendered, changes)
    }

    /** The heading as the page renders it, before the first change. */
    constructor (words: seq<string>, text: string)
      requires |words| >= 1
      ensures Valid() && this.words == words && this.text == text && rendered == text
      ensures currentIndex == 0 && changes == 0 && !fadingOut
    {
      this.words := words;
      this.text := text;
      rendered := text;
      currentIndex := 0;
      fadingOut := false;
      changes := 0;
    }

    /** `changeWord`, first half: the `fade-out` class is added. */
    method BeginChange()
      requires Valid()
      modifies this`fadingOut
      ensures Valid() && fadingOut
    {
      fadingOut := true;
    }

    /** `changeWord`, the timer's half: the next word, wrapping to the first, is shown and faded in. */
    method FinishChange()
      requires Valid()
      modifies this`currentIndex, this`text, this`fadingOut, this`changes
      ensures Valid() && changes == old(changes) + 1
      ensures currentIndex == (old(currentIndex) + 1) % |words|
      ensures text == words[changes % |words|] && !fadingOut
    {
      NextModulo(changes, |words|);
      currentIndex := (currentIndex + 1) % |words|;
      text := words[currentIndex];
      fadingOut := false;
      changes := changes + 1;
    }
  }

  /** Adding `n` does not change the remainder modulo `n`. */
  lemma ModuloPeriodic(t: nat, n: nat)
    requires n > 0
    ensures (t + n) % n == t % n
  {
    var q, r := t / n, t % n;
    ModulusUnique(t + n, n, q + 1, r);
  }

  /** `j + m * n` leaves the remainder `j` modulo `n`. */
  lemma {:induction false} ModuloRounds(j: nat, m: nat, n: nat)
    requires j < n
    ensures (j + m * n) % n == j
  {
    if m > 0 {
      ModuloRounds(j, m - 1, n);
      assert j + m * n == (j + (m - 1) * n) + n;
      ModuloPeriodic(j + (m - 1) * n, n);
    }
  }

  /**
   * Once the first change has happened, the heading repeats itself every `|words|`
   * changes.
   */
  lemma RotationPeriodic(words: seq<string>, rendered: string, t: nat)
    requires |words| >= 1 && t >= 1
    ensures ShownAfter(words, rendered, t + |words|) == ShownAfter(words, rendered, t)
  {
    ModuloPeriodic(t, |words|);
  }

  /**
   * Every word is shown: word `j` is the heading after `j + m * |words|` changes, for
   * every round `m` that has at least one change; in particular the first word appears
   * after a whole round, since until the first change the rendered text stays.
   */
  lemma EveryWordShown(words: seq<string>, rendered: string, j: nat, m: nat)
    requires j < |words| && j + m * |words| >= 1
    ensures ShownAfter(words, rendered, j + m * |words|) == words[j]
  {
    ModuloRounds(j, m, |words|);
  }

  /**
   * Until the first change the heading keeps the text the page rendered; the first round
   * then shows the second word, the third, and so on, and ends on the first word.
   */
  lemma RenderedTextUntilFirstChange(words: seq<string>, rendered: string)
    requires |words| >= 1
    ensures ShownAfter(words, rendered, 0) == rendered
    ensures forall c :: 1 <= c < |words| ==> ShownAfter(words, rendered, c) == words[c]
    ensures ShownAfter(words, rendered, |words|) == words[0]
  {
    EveryWordShown(words, rendered, 0, 1);
  }

  /** The carousel is built only on narrow screens and only with more than one testimonial. */
  predicate CarouselEnabled(innerWidth: int, testimonials: nat) {
    innerWidth <= 768 && testimonials > 1
  }

  /**
   * The outcome of the carousel set-up: whether it threw, which cards the script leaves
   * displayed (every card it does not hide), the navigation dots with their `active`
   * class, and whether the auto-slide timer runs.
   */
  datatype Setup = Setup(threw: bool, shown: seq<bool>, dots: seq<bool>, sliding: bool)

  /**
   * The set-up as written: on a narrow screen with more than one card it calls `map` on
   * the `NodeList` of cards, which has no such method, so it throws a `TypeError` before
   * hiding any card, building any dot or starting the timer.
   */
  function SetupAsWritten(innerWidth: int, count: nat): Setup {
    Setup(CarouselEnabled(innerWidth, count), seq(count, _ => true), [], false)
  }

  /** The set-up as intended: one dot per card, only the first card and the first dot on. */
  function SetupIntended(innerWidth: int, count: nat): Setup {
    if CarouselEnabled(innerWidth, count) then
      Setup(false, seq(count, j => j == 0), seq(count, j => j == 0), true)
    else
      Setup(false, seq(count, _ => true), [], false)
  }

  /** As written, whenever the carousel should start, the set-up throws and leaves every card displayed and no dot. */
  lemma AsWrittenCarouselNeverStarts(innerWidth: int, count: nat)
    requires CarouselEnabled(innerWidth, count)
    ensures var s := SetupAsWritten(innerWidth, count);
      s.threw && Count(s.shown) == count && s.dots == [] && !s.sliding
  {
    CountAllOn(SetupAsWritten(innerWidth, count).shown);
  }

  /** As intended, the enabled carousel shows exactly one card and one active dot, with a dot per card. */
  lemma IntendedCarouselShowsOneCard(innerWidth: int, count: nat)
    requires CarouselEnabled(innerWidth, count)
    ensures var s := SetupIntended(innerWidth, count);
      && !s.threw && s.sliding && |s.dots| == |s.shown| == count
      && ExactlyAt(s.shown, 0) && ExactlyAt(s.dots, 0)
      && Count(s.shown) == 1 && Count(s.dots) == 1
  {
    var s := SetupIntended(innerWidth, count);
    ExactlyAtCount(s.shown, 0);
    ExactlyAtCount(s.dots, 0);
  }

  /** Off narrow screens, or with one card, both versions leave the testimonials alone. */
  lemma DisabledCarouselUntouched(innerWidth: int, count: nat)
    requires !CarouselEnabled(innerWidth, count)
    ensures SetupAsWritten(innerWidth, count) == SetupIntended(innerWidth, count)
    ensures Count(SetupIntended(innerWidth, count).shown) == count
  {
    CountAllOn(SetupIntended(innerWidth, count).shown);
  }

  /** The mobile testimonials carousel: which cards are shown, which dot is active, and the index. */
  class Carousel {
    const shown: array<bool>      // whether each testimonial card is displayed
    const dotActive: array<bool>  // whether each navigation dot has the `active` class
    var currentIndex: nat

    /** Exactly the card and the dot at the current index are on. */
    ghost predicate Valid()
      reads this, shown, dotActive
    {
      && shown != dotActive
      && shown.Length == dotActive.Length > 1
      && ExactlyAt(shown[..], currentIndex)
      && ExactlyAt(dotActive[..], currentIndex)
    }

    /** The set-up: every card but the first is hidden and the first dot is active. */
    constructor (innerWidth: int, count: nat)
      requires CarouselEnabled(innerWidth, count)
      ensures Valid() && fresh(shown) && fresh(dotActive)
      ensures shown.Length == count && currentIndex == 0
      ensures shown[..] == SetupIntended(innerWidth, count).shown
      ensures dotActive[..] == SetupIntended(innerWidth, count).dots
    {
      shown := new bool[count](j => j == 0);
      dotActive := new bool[count](j => j == 0);
      currentIndex := 0;
    }

    /** The click handler of dot `index`: the current card and dot are switched off, the clicked ones on. */
    method SelectDot(index: nat)
      requires Valid() && index < shown.Length
      modifies this`currentIndex, shown, dotActive
      ensures Valid() && currentIndex == index
      ensures shown[index] && dotActive[index] && Count(shown[..]) == 1 && Count(dotActive[..]) == 1
    {
      shown[currentIndex] := false;
      dotActive[currentIndex] := false;
      shown[index] := true;
      dotActive[index] := true;
      currentIndex := index;
      ExactlyAtCount(shown[..], index);
      ExactlyAtCount(dotActive[..], index);
    }

    /** The five-second timer: a click on the next dot, wrapping to the first. */
    method AutoSlide()
      requires Valid()
      modifies this`currentIndex, shown, dotActive
      ensures Valid() && currentIndex == (old(currentIndex) + 1) % shown.Length
    {
      SelectDot((currentIndex + 1) % shown.Length);
    }
  }
}
