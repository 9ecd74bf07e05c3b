/** The sentence items, their identity keys, and the loader `fetchPages`,
    which tags every item of a page with that page's number and flattens the
    pages in the order asked for. */
module Cards {
  import opened Text

  datatype Option<T> = None | Some(value: T)

  /** An element of a `data/pageN.json` array. */
  datatype RawItem = RawItem(tr: string, en: string)

  /** An item after loading: `{ ...it, page: p }`. */
  datatype Item = Item(tr: string, en: string, page: nat)

  /** The page files as one operation sees them: page `p` is in the map when
      `data/page<p>.json` loads as an array of items. The loaders and the
      start-up probe share this one test, although the probe checks the
      status and accepts any JSON, and the loaders ignore the status and
      need an array. */
  type Site = map<nat, seq<RawItem>>

  function Tag(raw: RawItem, page: nat): Item {
    Item(raw.tr, raw.en, page)
  }

  function Untag(it: Item): RawItem {
    RawItem(it.tr, it.en)
  }

  /** `d.map((it) => ({ ...it, page: p }))`. */
  function TagPage(data: seq<RawItem>, page: nat): (r: seq<Item>)
    ensures |r| == |data|
  {
    seq(|data|, k requires 0 <= k < |data| => Tag(data[k], page))
  }

  lemma TagPageMembership(data: seq<RawItem>, page: nat, x: Item)
    ensures x in TagPage(data, page) <==> x.page == page && Untag(x) in data
  {
    if Untag(x) in data && x.page == page {
      var k :| 0 <= k < |data| && data[k] == Untag(x);
      assert TagPage(data, page)[k] == x;
    }
  }

  lemma TagPageSnoc(data: seq<RawItem>, raw: RawItem, page: nat)
    ensures TagPage(data + [raw], page) == TagPage(data, page) + [Tag(raw, page)]
  {
  }

  /** The identity key `${page}_${en}`. */
  function Key(it: Item): string {
    NatToString(it.page) + "_" + it.en
  }

  /** Because page numbers are digits only, the key never confuses two items:
      equal keys mean the same page and the same English text, whatever
      characters the text holds. */
  lemma KeyInjective(a: Item, b: Item)
    ensures Key(a) == Key(b) <==> a.page == b.page && a.en == b.en
  {
    SeparatedInjective(a.page, a.en, b.page, b.en, '_');
  }

  predicate AllLoaded(pages: seq<nat>, site: Site) {
    forall k :: 0 <= k < |pages| ==> pages[k] in site
  }

  /** `fetchPages(pages)`: `Promise.all` rejects when any page fails, so the
      loader yields nothing unless every page loaded; otherwise the pages'
      tagged items, page after page in the order of `pages`. */
  function FetchPages(pages: seq<nat>, site: Site): (r: Option<seq<Item>>)
    ensures r.Some? <==> AllLoaded(pages, site)
    ensures r.Some? ==> forall x :: x in r.value ==> x.page in pages && x.page in site && Untag(x) in site[x.page]
  {
    if pages == [] then Some([])
    else
      var front := pages[..|pages| - 1];
      var last := pages[|pages| - 1];
      var rest := FetchPages(front, site);
      if last !in site then None
      else if rest.None? then
        assert !AllLoaded(front, site);
        None
      else
        Some(rest.value + TagPage(site[last], last))
  }

  lemma {:induction false} FetchPagesComplete(pages: seq<nat>, site: Site, x: Item)
    requires AllLoaded(pages, site)
    ensures x in FetchPages(pages, site).value <==> x.page in pages && Untag(x) in site[x.page]
  {
    if pages != [] {
      var front := pages[..|pages| - 1];
      var last := pages[|pages| - 1];
      assert AllLoaded(front, site);
      FetchPagesComplete(front, site, x);
      TagPageMembership(site[last], last, x);
      assert pages == front + [last];
    }
  }

  /** The loaded list of `a + b` is that of `a` followed by that of `b`. */
  lemma {:induction false} FetchPagesAppend(a: seq<nat>, b: seq<nat>, site: Site)
    requires AllLoaded(a + b, site)
    ensures AllLoaded(a, site) && AllLoaded(b, site)
    ensures FetchPages(a + b, site).value == FetchPages(a, site).value + FetchPages(b, site).value
    decreases |b|
  {
    assert forall k :: 0 <= k < |a| ==> a[k] == (a + b)[k];
    assert forall k :: 0 <= k < |b| ==> b[k] == (a + b)[|a| + k];
    if b != [] {
      var b' := b[..|b| - 1];
      assert (a + b)[..|a + b| - 1] == a + b';
      FetchPagesAppend(a, b', site);
    } else {
      assert a + b == a;
    }
  }

  /** A single page loads as its tagged items. */
  lemma FetchSinglePage(page: nat, site: Site)
    ensures FetchPages([page], site) == if page in site then Some(TagPage(site[page], page)) else None
  {
    assert [page][..0] == [];
    if page in site {
      assert [] + TagPage(site[page], page) == TagPage(site[page], page);
    }
  }

  /** `Array.prototype.filter`: keeps, in order, the elements `keep` accepts;
      what it keeps is stated by `FilterCount` and `FilterMembership`. */
  function Filter<T(!new)>(s: seq<T>, keep: T -> bool): (r: seq<T>)
    ensures |r| <= |s|
  {
    if s == [] then []
    else
      Filter(s[..|s| - 1], keep) + if keep(s[|s| - 1]) then [s[|s| - 1]] else []
  }

  /** Each accepted element is kept as often as it occurs, each rejected one
      not at all. */
  lemma {:induction false} FilterCount<T(!new)>(s: seq<T>, keep: T -> bool, x: T)
    ensures multiset(Filter(s, keep))[x] == if keep(x) then multiset(s)[x] else 0
  {
    if s != [] {
      var front, last := s[..|s| - 1], s[|s| - 1];
      assert s == front + [last];
      FilterCount(front, keep, x);
    }
  }

  lemma FilterMembership<T(!new)>(s: seq<T>, keep: T -> bool, x: T)
    ensures x in Filter(s, keep) <==> x in s && keep(x)
  {
    FilterCount(s, keep, x);
  }

  lemma FilterSnoc<T(!new)>(s: seq<T>, x: T, keep: T -> bool)
    ensures Filter(s + [x], keep) == Filter(s, keep) + if keep(x) then [x] else []
  {
    assert (s + [x])[..|s|] == s;
  }

  lemma {:induction false} FilterAppend<T(!new)>(a: seq<T>, b: seq<T>, keep: T -> bool)
    ensures Filter(a + b, keep) == Filter(a, keep) + Filter(b, keep)
    decreases |b|
  {
    if b == [] {
      assert a + b == a;
    } else {
      var b', last := b[..|b| - 1], b[|b| - 1];
      var tail := if keep(last) then [last] else [];
      assert (a + b)[..|a + b| - 1] == a + b';
      assert (a + b)[|a + b| - 1] == last;
      FilterAppend(a, b', keep);
      calc {
        Filter(a + b, keep);
        Filter(a + b', keep) + tail;
        Filter(a, keep) + Filter(b', keep) + tail;
        Filter(a, keep) + (Filter(b', keep) + tail);
        Filter(a, keep) + Filter(b, keep);
      }
    }
  }

  lemma FilterEmpty<T(!new)>(s: seq<T>, keep: T -> bool)
    ensures Filter(s, keep) == [] <==> forall x :: x in s ==> !keep(x)
  {
    var r := Filter(s, keep);
    if r != [] {
      FilterMembership(s, keep, r[0]);
    } else {
      forall x | x in s ensures !keep(x) {
        FilterMembership(s, keep, x);
      }
    }
  }
}
