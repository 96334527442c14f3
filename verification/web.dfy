/**
 * The paged survey listing as the walkers see it.  A request for page `n`
 * raises a transport error (timeout, DNS failure, connection reset), answers
 * with a status other than 200, or yields the page's items (the table rows,
 * or the result anchors) in document order.  The listing is finite: it holds
 * pages `first .. first + |pages| - 1`, and every other page number answers
 * 200 with nothing on it.
 */
module Web {
  import opened Wrappers
  import opened Collections

  /** The outcome of one listing request. */
  datatype Listing<X> = Ok(items: seq<X>) | BadStatus | Unreachable(message: string)

  datatype Site<X> = Site(first: int, pages: seq<Listing<X>>)

  /** One past the last page that can hold anything. */
  function Horizon<X>(site: Site<X>): int {
    site.first + |site.pages|
  }

  /** The outcome of requesting page `n`; pages outside the listing answer 200 with no items. */
  function Fetch<X>(site: Site<X>, n: int): (r: Listing<X>)
    ensures n < site.first || n >= Horizon(site) ==> r == Ok([])
  {
    if site.first <= n < Horizon(site) then site.pages[n - site.first] else Ok([])
  }

  /** None of the pages `ns` raised a transport error. */
  predicate Reachable<X>(site: Site<X>, ns: seq<int>) {
    forall k | 0 <= k < |ns| :: !Fetch(site, ns[k]).Unreachable?
  }

  /** Reachable pages stay reachable with one more reachable page. */
  lemma ReachableSnoc<X>(site: Site<X>, ns: seq<int>, n: int)
    requires Reachable(site, ns) && !Fetch(site, n).Unreachable?
    ensures Reachable(site, ns + [n])
  {
    forall k | 0 <= k < |ns| + 1 ensures !Fetch(site, (ns + [n])[k]).Unreachable? {
      if k < |ns| {
        assert (ns + [n])[k] == ns[k];
      }
    }
  }

  /** The page numbers `start, start + 1, ..., start + n - 1`. */
  function PageRange(start: int, n: nat): (r: seq<int>)
    ensures |r| == n
  {
    if n == 0 then [] else PageRange(start, n - 1) + [start + n - 1]
  }

  /** The `k`-th page of a range is `start + k`. */
  lemma {:induction false} PageRangeAt(start: int, n: nat, k: nat)
    requires k < n
    ensures PageRange(start, n)[k] == start + k
    decreases n
  {
    if k < n - 1 {
      PageRangeAt(start, n - 1, k);
    }
  }

  /** Every page of a reachable range answered. */
  lemma ReachableInRange<X>(site: Site<X>, start: int, n: nat, p: int)
    requires Reachable(site, PageRange(start, n)) && start <= p < start + n
    ensures !Fetch(site, p).Unreachable?
  {
    PageRangeAt(start, n, p - start);
  }

  /** What a page contributes: nothing when it did not answer 200. */
  function PageEntries<X, E>(site: Site<X>, n: int, f: X -> Option<E>): seq<E>
  {
    match Fetch(site, n)
    case Ok(items) => Somes(items, f)
    case _ => []
  }

  /** Everything `f` extracts from the given pages, page by page, in order. */
  function Harvest<X, E>(site: Site<X>, ns: seq<int>, f: X -> Option<E>): seq<E>
  {
    if ns == [] then []
    else Harvest(site, ns[..|ns| - 1], f) + PageEntries(site, ns[|ns| - 1], f)
  }

  lemma HarvestStep<X, E>(site: Site<X>, ns: seq<int>, n: int, f: X -> Option<E>)
    ensures Harvest(site, ns + [n], f) == Harvest(site, ns, f) + PageEntries(site, n, f)
  {
    assert (ns + [n])[..|ns|] == ns;
  }

  /**
   * Pages at or past the horizon add nothing: walking on from `start` past
   * the horizon harvests what walking up to it does.
   */
  lemma {:induction false} HarvestBeyond<X, E>(site: Site<X>, start: int, m: nat, n: nat, f: X -> Option<E>)
    requires m <= n && start + m >= Horizon(site)
    ensures Harvest(site, PageRange(start, n), f) == Harvest(site, PageRange(start, m), f)
    decreases n
  {
    if n > m {
      var init := PageRange(start, n - 1);
      var last := start + n - 1;
      calc {
        Harvest(site, PageRange(start, n), f);
        { assert PageRange(start, n) == init + [last]; }
        Harvest(site, init + [last], f);
        { HarvestStep(site, init, last, f); }
        Harvest(site, init, f) + PageEntries(site, last, f);
        { assert Fetch(site, last) == Ok([]); }
        Harvest(site, init, f);
        { HarvestBeyond(site, start, m, n - 1, f); }
        Harvest(site, PageRange(start, m), f);
      }
    }
  }
}
