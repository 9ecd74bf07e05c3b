/** The search box, read by its search button and by search-as-you-type,
    each with its own result area. Both trim and lower-case the query, scan
    the registered pages in order, skip a page whose fetch or parse fails,
    and collect every item whose lower-cased Turkish or English text
    contains the query. */
module Search {
  import opened Text
  import opened Cards

  /** `searchInput.value.trim().toLowerCase()`. */
  function Normalize(input: string): string {
    Lower(Trim(input))
  }

  /** `tr.toLowerCase().includes(q) || en.toLowerCase().includes(q)`. */
  predicate Matches(it: Item, q: string) {
    Contains(Lower(it.tr), q) || Contains(Lower(it.en), q)
  }

  function MatchFn(q: string): Item -> bool {
    (it: Item) => Matches(it, q)
  }

  /** The matches of one loaded page, tagged with its number, in file order. */
  function PageHits(data: seq<RawItem>, page: nat, q: string): seq<Item> {
    Filter(TagPage(data, page), MatchFn(q))
  }

  /** What a scan over `pages` collects: page after page, failed pages
      contributing nothing. */
  function Hits(pages: seq<nat>, site: Site, q: string): seq<Item> {
    if pages == [] then []
    else
      var last := pages[|pages| - 1];
      Hits(pages[..|pages| - 1], site, q) + if last in site then PageHits(site[last], last, q) else []
  }

  /** Results come in page order: those of `a`'s pages before those of `b`'s. */
  lemma {:induction false} HitsAppend(a: seq<nat>, b: seq<nat>, site: Site, q: string)
    ensures Hits(a + b, site, q) == Hits(a, site, q) + Hits(b, site, q)
    decreases |b|
  {
    if b == [] {
      assert a + b == a;
    } else {
      var b', last := b[..|b| - 1], b[|b| - 1];
      var tail := if last in site then PageHits(site[last], last, q) else [];
      assert (a + b)[..|a + b| - 1] == a + b';
      assert (a + b)[|a + b| - 1] == last;
      HitsAppend(a, b', site, q);
      calc {
        Hits(a + b, site, q);
        Hits(a + b', site, q) + tail;
        Hits(a, site, q) + Hits(b', site, q) + tail;
        Hits(a, site, q) + Hits(b, site, q);
      }
    }
  }

  /** The results are exactly the matching items of the pages that load,
      each tagged with the page it came from. */
  lemma {:induction false} HitsMembership(pages: seq<nat>, site: Site, q: string, x: Item)
    ensures x in Hits(pages, site, q) <==>
            x.page in pages && x.page in site && Untag(x) in site[x.page] && Matches(x, q)
  {
    if pages != [] {
      var front, last := pages[..|pages| - 1], pages[|pages| - 1];
      assert pages == front + [last];
      HitsMembership(front, site, q, x);
      if last in site {
        TagPageMembership(site[last], last, x);
        FilterMembership(TagPage(site[last], last), MatchFn(q), x);
      }
    }
  }

  /** One page that fails to load takes nothing else away. */
  lemma HitsSkipFailed(a: seq<nat>, p: nat, b: seq<nat>, site: Site, q: string)
    requires p !in site
    ensures Hits(a + [p] + b, site, q) == Hits(a + b, site, q)
  {
    HitsAppend(a + [p], b, site, q);
    HitsAppend(a, [p], site, q);
    HitsAppend(a, b, site, q);
    assert [p][..0] == [];
  }

  /** `data.forEach(...)` over one loaded page: push each matching item,
      tagged with the page. */
  method ScanPage(q: string, data: seq<RawItem>, page: nat) returns (hits: seq<Item>)
    ensures hits == PageHits(data, page, q)
  {
    hits := [];
    var m := 0;
    while m < |data|
      invariant 0 <= m <= |data|
      invariant hits == PageHits(data[..m], page, q)
    {
      var item := Tag(data[m], page);
      if Matches(item, q) {
        hits := hits + [item];
      }
      assert data[..m + 1] == data[..m] + [data[m]];
      TagPageSnoc(data[..m], data[m], page);
      FilterSnoc(TagPage(data[..m], page), item, MatchFn(q));
      m := m + 1;
    }
    assert data[..m] == data;
  }

  /** The scan loop shared by both boxes: for each registered page in order,
      load it and collect its matches; a page that fails is skipped. */
  method Scan(q: string, pages: seq<nat>, site: Site) returns (found: seq<Item>)
    ensures found == Hits(pages, site, q)
  {
    found := [];
    var k := 0;
    while k < |pages|
      invariant 0 <= k <= |pages|
      invariant found == Hits(pages[..k], site, q)
    {
      var page := pages[k];
      if page in site {
        var hits := ScanPage(q, site[page], page);
        found := found + hits;
      }
      assert pages[..k + 1][..k] == pages[..k];
      k := k + 1;
    }
    assert pages[..k] == pages;
  }

  datatype SearchOutcome = NotRun | NotFound | Found(items: seq<Item>)

  /** The search button: a blank query does nothing; otherwise the list of
      results, or the "not found" message when there are none. */
  method SearchButton(input: string, pages: seq<nat>, site: Site) returns (out: SearchOutcome)
    ensures out.NotRun? <==> Normalize(input) == []
    ensures out.NotFound? <==> Normalize(input) != [] && Hits(pages, site, Normalize(input)) == []
    ensures out.Found? ==> out.items == Hits(pages, site, Normalize(input)) && out.items != []
  {
    var query := Normalize(input);
    if query == [] {
      return NotRun;
    }
    var found := Scan(query, pages, site);
    if |found| > 0 {
      out := Found(found);
    } else {
      out := NotFound;
    }
  }

  /** An entry of the live result list: a match or the "no match" line. */
  datatype LiveEntry = Hit(item: Item) | NoMatch

  /** Search as you type: the list is cleared; a blank query leaves it empty;
      otherwise it shows every match in scan order, or the single "no match"
      line when there is none. */
  method LiveSearch(input: string, pages: seq<nat>, site: Site) returns (entries: seq<LiveEntry>)
    ensures Normalize(input) == [] ==> entries == []
    ensures Normalize(input) != [] ==> (entries == [NoMatch] <==> Hits(pages, site, Normalize(input)) == [])
    ensures Normalize(input) != [] && Hits(pages, site, Normalize(input)) != [] ==>
            |entries| == |Hits(pages, site, Normalize(input))| &&
            forall k :: 0 <= k < |entries| ==> entries[k] == Hit(Hits(pages, site, Normalize(input))[k])
  {
    entries := [];
    var query := Normalize(input);
    if query == [] {
      return;
    }
    var found := Scan(query, pages, site);
    var k := 0;
    while k < |found|
      invariant 0 <= k <= |found|
      invariant |entries| == k
      invariant forall i :: 0 <= i < k ==> entries[i] == Hit(found[i])
    {
      entries := entries + [Hit(found[k])];
      k := k + 1;
    }
    if |entries| == 0 {
      entries := [NoMatch];
    } else {
      assert entries[0] == Hit(found[0]);
    }
  }

  lemma LowerCharKeepsSpace(c: char)
    ensures IsSpace(LowerChar(c)) <==> IsSpace(c)
  {
  }

  lemma {:induction false} TrimStartLower(s: string)
    ensures TrimStart(Lower(s)) == Lower(TrimStart(s))
    decreases |s|
  {
    if s != [] {
      LowerCharKeepsSpace(s[0]);
      assert Lower(s)[1..] == Lower(s[1..]);
      TrimStartLower(s[1..]);
    }
  }

  lemma {:induction false} TrimEndLower(s: string)
    ensures TrimEnd(Lower(s)) == Lower(TrimEnd(s))
    decreases |s|
  {
    if s != [] {
      LowerCharKeepsSpace(s[|s| - 1]);
      assert Lower(s)[..|s| - 1] == Lower(s[..|s| - 1]);
      TrimEndLower(s[..|s| - 1]);
    }
  }

  /** The search ignores the case of what is typed: two inputs that agree
      up to case run the same query. */
  lemma NormalizeIgnoresCase(a: string, b: string)
    requires Lower(a) == Lower(b)
    ensures Normalize(a) == Normalize(b)
  {
    TrimStartLower(a);
    TrimEndLower(TrimStart(a));
    TrimStartLower(b);
    TrimEndLower(TrimStart(b));
  }

  /** Scanning the one page of a site holding one item finds that item
      exactly when it matches. */
  lemma SinglePageHits(site: Site, it: Item, q: string)
    requires site == map[it.page := [Untag(it)]]
    ensures Hits([it.page], site, q) == if Matches(it, q) then [it] else []
  {
    assert [it.page][..0] == [];
    var page := TagPage(site[it.page], it.page);
    assert page == [it];
    assert page[..0] == [];
  }

  /** A page holding "Merhaba" / "Hello": "mer" finds it through the Turkish
      text, "hel" through the English text, "xyz" finds nothing. */
  lemma SearchScenarioTurkish(site: Site)
    requires site == map[1 := [RawItem("Merhaba", "Hello")]]
    ensures Hits([1], site, Normalize("mer")) == [Item("Merhaba", "Hello", 1)]
  {
    assert Lower("Merhaba") == "merhaba";
    NormalizeWord("mer");
    assert IsPrefix("mer", "merhaba");
    SinglePageHits(site, Item("Merhaba", "Hello", 1), "mer");
  }

  lemma SearchScenarioEnglish(site: Site)
    requires site == map[1 := [RawItem("Merhaba", "Hello")]]
    ensures Hits([1], site, Normalize("hel")) == [Item("Merhaba", "Hello", 1)]
  {
    assert Lower("Hello") == "hello";
    NormalizeWord("hel");
    assert IsPrefix("hel", "hello");
    SinglePageHits(site, Item("Merhaba", "Hello", 1), "hel");
  }

  lemma SearchScenarioNone(site: Site)
    requires site == map[1 := [RawItem("Merhaba", "Hello")]]
    ensures Hits([1], site, Normalize("xyz")) == []
  {
    NormalizeWord("xyz");
    XyzMatchesNeither();
    SinglePageHits(site, Item("Merhaba", "Hello", 1), "xyz");
  }

  lemma XyzMatchesNeither()
    ensures !Matches(Item("Merhaba", "Hello", 1), "xyz")
  {
    assert Lower("Merhaba") == "merhaba";
    NoXNoMatch("merhaba");
    assert Lower("Hello") == "hello";
    NoXNoMatch("hello");
  }

  lemma NormalizeWord(w: string)
    requires |w| == 3 && forall k :: 0 <= k < 3 ==> 'a' <= w[k] <= 'z'
    ensures Normalize(w) == w
  {
    assert TrimStart(w) == w;
    assert TrimEnd(w) == w;
    assert Lower(w) == w;
  }

  lemma NoXNoMatch(s: string)
    requires forall k :: 0 <= k < |s| ==> s[k] != 'x'
    ensures !Contains(s, "xyz")
  {
    ContainsIffOccurs(s, "xyz");
    forall i | 0 <= i <= |s| - 3 ensures !OccursAt(s, "xyz", i) {
      assert s[i..i + 3][0] == s[i];
    }
  }
}
