/**
 * The locator cascade of `extract_attendance_data`: the plus icons that expand
 * each subject are looked up with up to seven selectors, in a fixed order, and
 * the first selector that finds anything wins. A selector that raises counts as
 * finding nothing. Results of different selectors are never merged.
 */
module Cascade {
  import Config

  /** What one `query_selector_all` call gives: an exception or the matching elements. */
  datatype Lookup<T> = Raised | Found(elements: seq<T>)

  /** The elements a lookup leaves in `plus_icons`: none when it raised. */
  function Elements<T>(lookup: Lookup<T>): seq<T> {
    match lookup
    case Raised => []
    case Found(elements) => elements
  }

  /** Strategies 3 to 7: looser selectors tried only when the configured ones find nothing. */
  const AlternativeSelectors: seq<string> := [
    "i[class*='plus']",
    "i[class*='bx-plus']",
    "i[class*='fa-plus']",
    "button[class*='expand']",
    "[class*='expand']"
  ]

  /** All strategies in the order they are tried: CSS, then XPath, then the alternatives. */
  const Strategies: seq<string> :=
    [Config.PlusIconSelector, "xpath=" + Config.PlusIconXPath] + AlternativeSelectors

  /** The number of strategies. */
  const StrategyCount: nat := 7

  lemma StrategyCountIsLength()
    ensures |Strategies| == StrategyCount
  {
  }

  /** Trying `lookups` from position `k` on, the elements of the first one that found any. */
  function FirstNonEmptyFrom<T>(lookups: seq<Lookup<T>>, k: nat): (icons: seq<T>)
    requires k <= |lookups|
    ensures icons == [] <==> forall j :: k <= j < |lookups| ==> Elements(lookups[j]) == []
    ensures icons != [] ==>
      exists i :: k <= i < |lookups| && icons == Elements(lookups[i])
               && forall j :: k <= j < i ==> Elements(lookups[j]) == []
    decreases |lookups| - k
  {
    if k == |lookups| then []
    else if Elements(lookups[k]) != [] then Elements(lookups[k])
    else FirstNonEmptyFrom(lookups, k + 1)
  }

  /** The answers of the page to the strategies, in order. */
  function PageLookups<T>(page: string -> Lookup<T>): (lookups: seq<Lookup<T>>)
    ensures |lookups| == StrategyCount
  {
    StrategyCountIsLength();
    seq(StrategyCount, i requires 0 <= i < StrategyCount => page(Strategies[i]))
  }

  /** The plus icons the cascade settles on for a page. */
  function LocatePlusIcons<T>(page: string -> Lookup<T>): seq<T> {
    FirstNonEmptyFrom(PageLookups(page), 0)
  }

  /** The cascade's result is the first non-empty lookup, unchanged. */
  lemma {:induction false} FirstNonEmptyIsFirst<T>(lookups: seq<Lookup<T>>, k: nat, i: nat)
    requires k <= i < |lookups|
    requires Elements(lookups[i]) != []
    requires forall j :: k <= j < i ==> Elements(lookups[j]) == []
    ensures FirstNonEmptyFrom(lookups, k) == Elements(lookups[i])
    decreases i - k
  {
    if k < i {
      FirstNonEmptyIsFirst(lookups, k + 1, i);
    }
  }

  /** The cascade finds nothing exactly when every strategy raised or found nothing. */
  lemma NoIconsIff<T>(page: string -> Lookup<T>)
    ensures LocatePlusIcons(page) == [] <==>
      forall i :: 0 <= i < StrategyCount ==> Elements(page(Strategies[i])) == []
  {
    var lookups := PageLookups(page);
    assert forall i :: 0 <= i < StrategyCount ==> lookups[i] == page(Strategies[i]);
  }

  /** When strategy `i` is the first to find elements, those elements are the icons. */
  lemma StrategyWins<T>(page: string -> Lookup<T>, i: nat)
    requires i < StrategyCount
    requires Elements(page(Strategies[i])) != []
    requires forall j :: 0 <= j < i ==> Elements(page(Strategies[j])) == []
    ensures LocatePlusIcons(page) == Elements(page(Strategies[i]))
  {
    var lookups := PageLookups(page);
    assert forall j :: 0 <= j < StrategyCount ==> lookups[j] == page(Strategies[j]);
    FirstNonEmptyIsFirst(lookups, 0, i);
  }

  /** Whatever the configured CSS selector finds is taken as is; nothing else is asked. */
  lemma CssFirst<T>(page: string -> Lookup<T>)
    requires Elements(page(Config.PlusIconSelector)) != []
    ensures LocatePlusIcons(page) == Elements(page(Config.PlusIconSelector))
  {
    StrategyCountIsLength();
    assert Strategies[0] == Config.PlusIconSelector;
    StrategyWins(page, 0);
  }
}
