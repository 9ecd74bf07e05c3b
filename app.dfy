/** The script's module-level state and the handlers that change it: the
    current page, the review flag, the registered pages, the deck and its
    cursor, the browser's storage and the struck-through page buttons. */
module App {
  import opened Text
  import opened Cards
  import opened Status
  import opened Deck
  import opened Discovery
  import opened Search

  /** What `showNextCard` puts on screen: the card at the cursor with its
      key and the progress text, or the completion banner. */
  datatype View = Card(item: Item, key: string, progress: string) | Done(progress: string)

  /** `updateProgress`. */
  function ProgressText(deckLength: nat, index: nat): string {
    if deckLength == 0 then "" else NatToString(index + 1) + "/" + NatToString(deckLength)
  }

  /** `showNextCard`: the banner once `index >= deck.length`, else the card. */
  function ShowNextCard(deck: seq<Item>, index: nat): View {
    if index >= |deck| then Done(NatToString(|deck|) + "/" + NatToString(|deck|))
    else Card(deck[index], Key(deck[index]), ProgressText(|deck|, index))
  }

  /** The banner shows exactly when the cursor has passed the last card; a
      shown card is the one at the cursor, and its progress text reads as
      "position/length" with 1 <= position <= length. */
  lemma ProgressReadsBack(deck: seq<Item>, index: nat, a: nat, b: nat)
    ensures ShowNextCard(deck, index).Done? <==> index >= |deck|
    ensures ShowNextCard(deck, index).Card? ==> ShowNextCard(deck, index).item == deck[index]
    ensures ShowNextCard(deck, index).progress == NatToString(a) + "/" + NatToString(b) <==>
            if index < |deck| then a == index + 1 && b == |deck| else a == |deck| && b == |deck|
  {
    var m := |deck|;
    var n := if index < m then index + 1 else m;
    SeparatedInjective(n, NatToString(m), a, NatToString(b), '/');
    NatToStringInjective(m, b);
  }

  /** An empty deck goes straight to the completion banner, reading "0/0":
      the script does not tell "nothing to study" from "all done". */
  lemma EmptyDeckCompletesAtOnce()
    ensures ShowNextCard([], 0) == Done("0/0")
  {
  }

  class Session {
    var currentPage: nat
    var showUnlearned: bool
    var existingPages: seq<nat>
    var deck: seq<Item>
    var index: nat
    var storage: Storage
    /** The page buttons carrying the "completed" line-through. */
    var struck: set<nat>

    ghost predicate Valid()
      reads this
    {
      StoreValid(storage) && index <= |deck|
    }

    /** Page load: the module-level initialisers; `stored` is what the
        browser kept from earlier visits, all of it written by the script. */
    constructor (stored: Storage)
      requires StoreValid(stored)
      ensures Valid()
      ensures currentPage == 1 && !showUnlearned && existingPages == []
      ensures deck == [] && index == 0 && storage == stored && struck == {}
    {
      currentPage := 1;
      showUnlearned := false;
      existingPages := [];
      deck := [];
      index := 0;
      storage := stored;
      struck := {};
    }

    /** What the screen shows for the current deck and cursor. */
    function Shown(): View
      reads this
    {
      ShowNextCard(deck, index)
    }

    /** `updateStrike`: outside review mode, every button loses its mark and
        each registered page that loads with nothing left to study gets it. */
    method UpdateStrike(site: Site)
      requires Valid()
      modifies this`struck
      ensures Valid()
      ensures struck == if showUnlearned then old(struck)
                        else StruckPages(existingPages, site, Read(storage, Hidden), Read(storage, Unlearned))
    {
      if showUnlearned {
        return;
      }
      var hidden := Read(storage, Hidden);
      var unlearn := Read(storage, Unlearned);
      struck := {};
      var k := 0;
      while k < |existingPages|
        invariant 0 <= k <= |existingPages|
        invariant struck == StruckPages(existingPages[..k], site, hidden, unlearn)
      {
        var page := existingPages[k];
        var words := FetchPages([page], site);
        FetchSinglePage(page, site);
        if words.Some? {
          var visible := DeckFilter(words.value, false, hidden, unlearn);
          ClearedIffNoneVisible(site, page, hidden, unlearn);
          if |visible| == 0 {
            struck := struck + {page};
          }
        }
        StruckPagesSnoc(existingPages[..k], page, site, hidden, unlearn);
        assert existingPages[..k + 1] == existingPages[..k] + [page];
        k := k + 1;
      }
      assert existingPages[..k] == existingPages;
    }

    /** The tail of `showNextCard`: on completion it refreshes the marks. */
    method AfterShow(site: Site)
      requires Valid()
      modifies this`struck
      ensures Valid()
      ensures struck == if index >= |deck| && !showUnlearned
                        then StruckPages(existingPages, site, Read(storage, Hidden), Read(storage, Unlearned))
                        else old(struck)
    {
      if index >= |deck| {
        UpdateStrike(site);
      }
    }

    /** `renderWords`: load the current page (or, in review mode, every
        registered page), keep the items still to study (or, in review mode,
        those marked for review), shuffle them, and restart the cursor. When
        a page fails to load the promise rejects and nothing changes. */
    method RenderWords(site: Site, random: nat -> real)
      requires Valid() && IsDrawSource(random)
      modifies this
      ensures Valid()
      ensures currentPage == old(currentPage) && showUnlearned == old(showUnlearned)
      ensures existingPages == old(existingPages) && storage == old(storage)
      ensures var words := FetchPages(PagesToFetch(showUnlearned, existingPages, currentPage), site);
              if words.None? then deck == old(deck) && index == old(index) && struck == old(struck)
              else
                && multiset(deck) == multiset(DeckFilter(words.value, showUnlearned, Read(storage, Hidden), Read(storage, Unlearned)))
                && index == 0
                && struck == if showUnlearned then old(struck)
                             else StruckPages(existingPages, site, Read(storage, Hidden), Read(storage, Unlearned))
    {
      var pagesToFetch := PagesToFetch(showUnlearned, existingPages, currentPage);
      var words := FetchPages(pagesToFetch, site);
      if words.Some? {
        Deal(words.value, site, random);
      }
    }

    /** The `.then` of `renderWords` once the pages have loaded. */
    method Deal(words: seq<Item>, site: Site, random: nat -> real)
      requires Valid() && IsDrawSource(random)
      modifies this
      ensures Valid()
      ensures currentPage == old(currentPage) && showUnlearned == old(showUnlearned)
      ensures existingPages == old(existingPages) && storage == old(storage)
      ensures multiset(deck) == multiset(DeckFilter(words, showUnlearned, Read(storage, Hidden), Read(storage, Unlearned)))
      ensures index == 0
      ensures struck == if showUnlearned then old(struck)
                        else StruckPages(existingPages, site, Read(storage, Hidden), Read(storage, Unlearned))
    {
      var hidden := Read(storage, Hidden);
      var unlearn := Read(storage, Unlearned);
      deck := BuildDeck(words, showUnlearned, hidden, unlearn, random);
      index := 0;
      // `showNextCard` refreshes the marks itself when the new deck is
      // empty; the refresh `renderWords` then runs gives the same marks.
      UpdateStrike(site);
    }

    /** `handleResult(listName)` for the card at the cursor: record the key
        (moving it out of `unlearnedWords` when it is marked known), then
        advance the cursor by one and show what comes next. */
    method Classify(l: ListName, site: Site)
      requires Valid() && index < |deck|
      modifies this
      ensures Valid()
      ensures storage == Mark(old(storage), l, Key(old(deck)[old(index)]))
      ensures deck == old(deck) && index == old(index) + 1
      ensures currentPage == old(currentPage) && showUnlearned == old(showUnlearned)
      ensures existingPages == old(existingPages)
      ensures struck == if index >= |deck| && !showUnlearned
                        then StruckPages(existingPages, site, Read(storage, Hidden), Read(storage, Unlearned))
                        else old(struck)
    {
      var key := Key(deck[index]);
      var listName := StorageKey(l);
      storage := PushIfAbsent(storage, listName, key);
      if listName == Hidden {
        storage := SpliceOut(storage, Unlearned, key);
      }
      MarkKeepsValid(old(storage), l, key);
      index := index + 1;
      AfterShow(site);
    }

    /** The reset button: drop both lists, clear every mark, leave review
        mode and rebuild the deck. */
    method Reset(site: Site, random: nat -> real)
      requires Valid() && IsDrawSource(random)
      modifies this
      ensures Valid()
      ensures storage == ResetStore(old(storage))
      ensures Read(storage, Hidden) == [] && Read(storage, Unlearned) == []
      ensures !showUnlearned && currentPage == old(currentPage) && existingPages == old(existingPages)
      ensures var words := FetchPages([currentPage], site);
              if words.None? then deck == old(deck) && index == old(index) && struck == {}
              else multiset(deck) == multiset(DeckFilter(words.value, false, [], [])) && index == 0
                   && struck == StruckPages(existingPages, site, [], [])
    {
      storage := ResetStore(storage);
      struck := {};
      showUnlearned := false;
      RenderWords(site, random);
    }

    /** A page button: study that page. */
    method SelectPage(page: nat, site: Site, random: nat -> real)
      requires Valid() && IsDrawSource(random)
      modifies this
      ensures Valid()
      ensures currentPage == page && !showUnlearned
      ensures existingPages == old(existingPages) && storage == old(storage)
      ensures var words := FetchPages([page], site);
              if words.None? then deck == old(deck) && index == old(index) && struck == old(struck)
              else multiset(deck) == multiset(DeckFilter(words.value, false, Read(storage, Hidden), Read(storage, Unlearned)))
                   && index == 0 && struck == StruckPages(existingPages, site, Read(storage, Hidden), Read(storage, Unlearned))
    {
      currentPage := page;
      showUnlearned := false;
      RenderWords(site, random);
    }

    /** The "unlearned" button: review every registered page. */
    method ReviewUnlearned(site: Site, random: nat -> real)
      requires Valid() && IsDrawSource(random)
      modifies this
      ensures Valid()
      ensures showUnlearned && currentPage == old(currentPage)
      ensures existingPages == old(existingPages) && storage == old(storage) && struck == old(struck)
      ensures var words := FetchPages(existingPages, site);
              if words.None? then deck == old(deck) && index == old(index)
              else multiset(deck) == multiset(DeckFilter(words.value, true, Read(storage, Hidden), Read(storage, Unlearned)))
                   && index == 0
    {
      showUnlearned := true;
      RenderWords(site, random);
    }

    /** The start-up routine: register the pages that exist, then render. */
    method Start(site: Site, random: nat -> real)
      requires Valid() && IsDrawSource(random)
      modifies this
      ensures Valid()
      ensures |existingPages| >= |old(existingPages)| && existingPages[..|old(existingPages)|] == old(existingPages)
      ensures var found := existingPages[|old(existingPages)|..];
              && |found| <= MaxCheckPages
              && (forall k :: 0 <= k < |found| ==> found[k] == k + 1)
              && (forall p :: 1 <= p <= |found| ==> p in site)
              && (|found| < MaxCheckPages ==> |found| + 1 !in site)
      ensures currentPage == old(currentPage) && showUnlearned == old(showUnlearned) && storage == old(storage)
      ensures var words := FetchPages(PagesToFetch(showUnlearned, existingPages, currentPage), site);
              if words.None? then deck == old(deck) && index == old(index) && struck == old(struck)
              else
                && multiset(deck) == multiset(DeckFilter(words.value, showUnlearned, Read(storage, Hidden), Read(storage, Unlearned)))
                && index == 0
                && struck == if showUnlearned then old(struck)
                             else StruckPages(existingPages, site, Read(storage, Hidden), Read(storage, Unlearned))
    {
      var found := ProbePages(site);
      existingPages := existingPages + found;
      assert existingPages[|old(existingPages)|..] == found;
      RenderWords(site, random);
    }

    /** Clicking a search result: a one-card deck holding that item, on its
        page. The review flag is left as it was. */
    method JumpTo(item: Item)
      requires Valid()
      modifies this
      ensures Valid()
      ensures deck == [item] && index == 0 && currentPage == item.page
      ensures Shown() == Card(item, Key(item), "1/1")
      ensures showUnlearned == old(showUnlearned) && existingPages == old(existingPages)
      ensures storage == old(storage) && struck == old(struck)
    {
      deck := [item];
      index := 0;
      currentPage := item.page;
    }
  }

  /** Classifying every card of a fresh deck, whatever the outcomes: each
      classification moves the cursor by exactly one, a card is shown until
      the last one is classified, and then the banner shows. */
  method StudyToCompletion(s: Session, outcomes: seq<ListName>, site: Site)
    requires s.Valid() && s.index == 0 && |outcomes| == |s.deck|
    modifies s
    ensures s.Valid() && s.deck == old(s.deck) && s.index == |s.deck|
    ensures s.Shown().Done?
  {
    var k := 0;
    while k < |outcomes|
      invariant 0 <= k <= |outcomes|
      invariant s.Valid() && s.deck == old(s.deck) && s.index == k
      invariant k < |outcomes| ==> s.Shown().Card? && s.Shown().item == s.deck[k]
    {
      s.Classify(outcomes[k], site);
      k := k + 1;
    }
  }

  lemma TwoCardDeal(site: Site)
    requires site == map[1 := [RawItem("Merhaba", "Hello"), RawItem("Evet", "Yes")]]
    ensures FetchPages([1], site).Some?
    ensures DeckFilter(FetchPages([1], site).value, false, [], []) == [Item("Merhaba", "Hello", 1), Item("Evet", "Yes", 1)]
  {
    var hello, yes := Item("Merhaba", "Hello", 1), Item("Evet", "Yes", 1);
    FetchSinglePage(1, site);
    var keep := KeepFn(false, [], []);
    assert TagPage(site[1], 1) == [hello, yes];
    FilterSnoc([], hello, keep);
    FilterSnoc([hello], yes, keep);
    assert [] + [hello] == [hello] && [hello] + [yes] == [hello, yes];
  }

  /** Known first, then marked for review, on an empty store: one key in
      each list. */
  lemma TwoMarks(a: string, b: string)
    requires a != b
    ensures var st := Mark(Mark(map[], HiddenWords, a), UnlearnedWords, b);
            Read(st, Hidden) == [a] && Read(st, Unlearned) == [b]
  {
    var empty: Storage := map[];
    var pushed := PushIfAbsent(empty, Hidden, a);
    assert Read(pushed, Hidden) == [] + [a] == [a];
    assert Read(pushed, Unlearned) == [];
    assert SpliceOut(pushed, Unlearned, a) == pushed;
    var twice := PushIfAbsent(pushed, Unlearned, b);
    assert Read(twice, Unlearned) == [] + [b] == [b];
    assert Read(twice, Hidden) == Read(pushed, Hidden);
  }

  /** Start-up over a site whose only page holds "Merhaba"/"Hello" and
      "Evet"/"Yes", with nothing stored: page 1 is registered and both cards
      are dealt, in either order. */
  method TwoCardStart(site: Site, random: nat -> real) returns (s: Session)
    requires site == map[1 := [RawItem("Merhaba", "Hello"), RawItem("Evet", "Yes")]]
    requires IsDrawSource(random)
    ensures fresh(s) && s.Valid() && s.index == 0 && s.storage == map[] && !s.showUnlearned
    ensures s.deck == [Item("Merhaba", "Hello", 1), Item("Evet", "Yes", 1)]
            || s.deck == [Item("Evet", "Yes", 1), Item("Merhaba", "Hello", 1)]
  {
    s := new Session(map[]);
    s.Start(site, random);
    assert 1 in site && 2 !in site;
    assert s.existingPages == [1];
    TwoCardDeal(site);
    TwoItemDeck(s.deck, Item("Merhaba", "Hello", 1), Item("Evet", "Yes", 1));
  }

  /** The same site: marking the first card known shows the other; marking
      that one for review leaves one key in each list and the banner on
      screen. */
  method TwoCardSession(site: Site, random: nat -> real)
    requires site == map[1 := [RawItem("Merhaba", "Hello"), RawItem("Evet", "Yes")]]
    requires IsDrawSource(random)
  {
    var s := TwoCardStart(site, random);
    var first, second := s.deck[0], s.deck[1];
    KeyInjective(first, second);
    s.Classify(HiddenWords, site);
    assert s.Shown() == Card(second, Key(second), "2/2");
    s.Classify(UnlearnedWords, site);
    TwoMarks(Key(first), Key(second));
    assert Read(s.storage, Hidden) == [Key(first)] && Read(s.storage, Unlearned) == [Key(second)];
    assert s.Shown() == Done("2/2");
  }
}
