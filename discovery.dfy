/** Start-up page discovery: probe `data/page1.json`, `data/page2.json`, ...
    and register each page that loads, stopping at the first one that does
    not, or after the fiftieth. */
module Discovery {
  import opened Cards

  const MaxCheckPages: nat := 50

  /** The probe loop. A page counts as present when it is in `site`, the
      same membership test the page loaders use; the source's probe instead
      checks the status and accepts any JSON, which the README's "Left out"
      line on App.Session.Start and Discovery.ProbePages records. The result is the pages 1, 2, ..., n in order, all
      present, where either n is the cap or page n + 1 is missing. */
  method ProbePages(site: Site) returns (pages: seq<nat>)
    ensures |pages| <= MaxCheckPages
    ensures forall k :: 0 <= k < |pages| ==> pages[k] == k + 1
    ensures forall p :: 1 <= p <= |pages| ==> p in site
    ensures |pages| < MaxCheckPages ==> |pages| + 1 !in site
  {
    pages := [];
    var i := 1;
    while i <= MaxCheckPages
      invariant 1 <= i <= MaxCheckPages + 1
      invariant |pages| == i - 1
      invariant forall k :: 0 <= k < |pages| ==> pages[k] == k + 1
      invariant forall p :: 1 <= p <= |pages| ==> p in site
    {
      if i !in site {
        break;
      }
      pages := pages + [i];
      i := i + 1;
    }
  }
}
