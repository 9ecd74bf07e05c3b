/** Building the study deck (`renderWords`): which pages to load, which
    items to keep, the Fisher-Yates `shuffle`, and the "page cleared" marks
    of `updateStrike`, which use the same filter as study mode. */
module Deck {
  import opened Text
  import opened Cards
  import opened Status

  /** `!hidden.includes(key) && !unlearn.includes(key)`: still to study. */
  predicate Visible(it: Item, hidden: seq<string>, unlearn: seq<string>) {
    Key(it) !in hidden && Key(it) !in unlearn
  }

  /** The `filter` predicate of `renderWords`. */
  predicate Keep(it: Item, review: bool, hidden: seq<string>, unlearn: seq<string>) {
    if review then Key(it) in unlearn else Visible(it, hidden, unlearn)
  }

  function KeepFn(review: bool, hidden: seq<string>, unlearn: seq<string>): Item -> bool {
    (it: Item) => Keep(it, review, hidden, unlearn)
  }

  function DeckFilter(words: seq<Item>, review: bool, hidden: seq<string>, unlearn: seq<string>): seq<Item> {
    Filter(words, KeepFn(review, hidden, unlearn))
  }

  /** `pagesToFetch`: every page button in review mode, else the current page. */
  function PagesToFetch(review: bool, existingPages: seq<nat>, currentPage: nat): seq<nat> {
    if review then existingPages else [currentPage]
  }

  /** The study deck of one page is exactly that page's items whose key is in
      neither list, each as often as the page file lists it. */
  lemma StudyDeckExact(site: Site, page: nat, hidden: seq<string>, unlearn: seq<string>, x: Item)
    requires page in site
    ensures FetchPages([page], site).Some?
    ensures var d := DeckFilter(FetchPages([page], site).value, false, hidden, unlearn);
            (x in d <==> x.page == page && Untag(x) in site[page] && Key(x) !in hidden && Key(x) !in unlearn)
            && multiset(d)[x] == if Visible(x, hidden, unlearn) then multiset(TagPage(site[page], page))[x] else 0
  {
    FetchSinglePage(page, site);
    TagPageMembership(site[page], page, x);
    FilterCount(TagPage(site[page], page), KeepFn(false, hidden, unlearn), x);
  }

  /** The review deck is exactly the items of the registered pages whose key
      is in `unlearnedWords`. */
  lemma ReviewDeckExact(site: Site, pages: seq<nat>, hidden: seq<string>, unlearn: seq<string>, x: Item)
    requires AllLoaded(pages, site)
    ensures var d := DeckFilter(FetchPages(pages, site).value, true, hidden, unlearn);
            x in d <==> x.page in pages && Untag(x) in site[x.page] && Key(x) in unlearn
  {
    FetchPagesComplete(pages, site, x);
    FilterMembership(FetchPages(pages, site).value, KeepFn(true, hidden, unlearn), x);
  }

  /** A review of pages 1 and 2 with `unlearnedWords = ["1_Yes"]` yields the
      one page-1 item "Yes", whatever page 2 holds: no page-2 key can read
      "1_Yes". */
  lemma ReviewScenario(site: Site, tr: string)
    requires 1 in site && 2 in site && site[1] == [RawItem(tr, "Yes")]
    ensures FetchPages([1, 2], site).Some?
    ensures DeckFilter(FetchPages([1, 2], site).value, true, [], ["1_Yes"]) == [Item(tr, "Yes", 1)]
  {
    var keep := KeepFn(true, [], ["1_Yes"]);
    var one := TagPage(site[1], 1);
    var two := TagPage(site[2], 2);
    assert [1] + [2] == [1, 2];
    FetchPagesAppend([1], [2], site);
    FetchSinglePage(1, site);
    FetchSinglePage(2, site);
    assert FetchPages([1, 2], site).value == one + two;
    FilterAppend(one, two, keep);
    ReviewScenarioFirstPage(site, tr);
    ReviewScenarioSecondPage(site, tr);
  }

  lemma ReviewScenarioFirstPage(site: Site, tr: string)
    requires 1 in site && site[1] == [RawItem(tr, "Yes")]
    ensures Filter(TagPage(site[1], 1), KeepFn(true, [], ["1_Yes"])) == [Item(tr, "Yes", 1)]
  {
    var one := TagPage(site[1], 1);
    assert one == [Item(tr, "Yes", 1)];
    assert Key(Item(tr, "Yes", 1)) == "1_Yes";
    assert one[..0] == [];
  }

  lemma ReviewScenarioSecondPage(site: Site, tr: string)
    requires 2 in site
    ensures Filter(TagPage(site[2], 2), KeepFn(true, [], ["1_Yes"])) == []
  {
    var keep := KeepFn(true, [], ["1_Yes"]);
    var two := TagPage(site[2], 2);
    assert Key(Item(tr, "Yes", 1)) == "1_Yes";
    forall x | x in two ensures !keep(x) {
      TagPageMembership(site[2], 2, x);
      KeyInjective(x, Item(tr, "Yes", 1));
    }
    FilterEmpty(two, keep);
  }

  /** `Math.floor(Math.random() * (i + 1))` for a draw in [0, 1): an index
      in [0, i]. */
  function SwapIndex(draw: real, i: nat): (j: nat)
    requires 0.0 <= draw < 1.0
    ensures j <= i
  {
    var x := draw * (i + 1) as real;
    assert 0.0 <= x < (i + 1) as real;
    assert x.Floor as real <= x;
    x.Floor
  }

  ghost predicate IsDrawSource(random: nat -> real) {
    forall k: nat :: 0.0 <= random(k) < 1.0
  }

  /** `shuffle(arr)`. `random(k)` is the value of the k-th call of
      `Math.random()`; the shuffle rearranges the array and keeps its
      elements. */
  method Shuffle<T>(a: array<T>, random: nat -> real)
    requires IsDrawSource(random)
    modifies a
    ensures multiset(a[..]) == multiset(old(a[..]))
  {
    var i := a.Length - 1;
    var draws: nat := 0;
    while i > 0
      invariant -1 <= i < a.Length
      invariant multiset(a[..]) == multiset(old(a[..]))
    {
      var j := SwapIndex(random(draws), i);
      a[i], a[j] := a[j], a[i];
      i := i - 1;
      draws := draws + 1;
    }
  }

  /** The deck `renderWords` deals from the loaded items: the filtered items
      copied into a fresh array and shuffled, so each kept item appears
      exactly as often as it was loaded and nothing else appears. */
  method BuildDeck(words: seq<Item>, review: bool, hidden: seq<string>, unlearn: seq<string>, random: nat -> real)
    returns (deck: seq<Item>)
    requires IsDrawSource(random)
    ensures multiset(deck) == multiset(DeckFilter(words, review, hidden, unlearn))
  {
    var filtered := DeckFilter(words, review, hidden, unlearn);
    var a := new Item[|filtered|](k requires 0 <= k < |filtered| => filtered[k]);
    assert a[..] == filtered;
    Shuffle(a, random);
    deck := a[..];
  }

  /** A loaded page with nothing left to study: every item on it is known
      or marked for review. */
  predicate Cleared(site: Site, page: nat, hidden: seq<string>, unlearn: seq<string>)
    requires page in site
  {
    forall raw :: raw in site[page] ==> !Visible(Tag(raw, page), hidden, unlearn)
  }

  /** `visible.length === 0` in `updateStrike` is `Cleared`. */
  lemma ClearedIffNoneVisible(site: Site, page: nat, hidden: seq<string>, unlearn: seq<string>)
    requires page in site
    ensures Cleared(site, page, hidden, unlearn) <==> DeckFilter(TagPage(site[page], page), false, hidden, unlearn) == []
  {
    var keep := KeepFn(false, hidden, unlearn);
    FilterEmpty(TagPage(site[page], page), keep);
    forall raw | raw in site[page] ensures Tag(raw, page) in TagPage(site[page], page) {
      TagPageMembership(site[page], page, Tag(raw, page));
    }
    forall x | x in TagPage(site[page], page) ensures Untag(x) in site[page] && x == Tag(Untag(x), page) {
      TagPageMembership(site[page], page, x);
    }
  }

  /** The page buttons `updateStrike` strikes through: the registered pages
      that load and have nothing left to study. */
  function StruckPages(pages: seq<nat>, site: Site, hidden: seq<string>, unlearn: seq<string>): set<nat> {
    if pages == [] then {}
    else
      var last := pages[|pages| - 1];
      StruckPages(pages[..|pages| - 1], site, hidden, unlearn)
      + if last in site && Cleared(site, last, hidden, unlearn) then {last} else {}
  }

  lemma {:induction false} StruckPagesMembership(pages: seq<nat>, site: Site, hidden: seq<string>, unlearn: seq<string>, p: nat)
    ensures p in StruckPages(pages, site, hidden, unlearn) <==> p in pages && p in site && Cleared(site, p, hidden, unlearn)
  {
    if pages != [] {
      var front := pages[..|pages| - 1];
      assert pages == front + [pages[|pages| - 1]];
      StruckPagesMembership(front, site, hidden, unlearn, p);
    }
  }

  lemma StruckPagesSnoc(pages: seq<nat>, p: nat, site: Site, hidden: seq<string>, unlearn: seq<string>)
    ensures StruckPages(pages + [p], site, hidden, unlearn) ==
            StruckPages(pages, site, hidden, unlearn) + if p in site && Cleared(site, p, hidden, unlearn) then {p} else {}
  {
    assert (pages + [p])[..|pages|] == pages;
  }

  /** A page is struck through exactly when it is registered, it loads, and
      its study deck would be empty. */
  lemma StruckMeansNothingToStudy(pages: seq<nat>, site: Site, hidden: seq<string>, unlearn: seq<string>, p: nat)
    ensures p in StruckPages(pages, site, hidden, unlearn) <==>
            p in pages && p in site && DeckFilter(FetchPages([p], site).value, false, hidden, unlearn) == []
  {
    StruckPagesMembership(pages, site, hidden, unlearn, p);
    FetchSinglePage(p, site);
    if p in site {
      ClearedIffNoneVisible(site, p, hidden, unlearn);
    }
  }

  /** Two distinct items dealt in some order. */
  lemma TwoItemDeck(deck: seq<Item>, a: Item, b: Item)
    requires a != b && multiset(deck) == multiset{a, b}
    ensures deck == [a, b] || deck == [b, a]
  {
    assert |deck| == |multiset(deck)| == 2;
    assert deck == [deck[0], deck[1]];
    assert multiset(deck) == multiset{deck[0], deck[1]};
    assert a in multiset(deck) && b in multiset(deck);
  }
}
