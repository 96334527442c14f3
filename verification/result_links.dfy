/**
 * `collect_result_links` of module_2/scraper.py: an earlier walker that
 * reads every result anchor of each listing page instead of table rows and
 * returns `(result_id, absolute_url)` pairs.  Its pattern is anchored with
 * `$`, so only hrefs that end in `/result/<digits>` count, and its "stop on a
 * page with nothing new" check is commented out: with no `end_page` it ends
 * only by reaching `limit`.  A listing request that raises a transport error
 * is caught nowhere, so the walk raises it.
 */
module ResultLinks {
  import opened Wrappers
  import opened Text
  import opened Patterns
  import opened Collections
  import opened Web

  datatype ResultLink = ResultLink(id: string, url: string)

  function LinkId(l: ResultLink): string {
    l.id
  }

  /** The pair an anchor yields: only an href matched by the `$`-anchored pattern counts. */
  function AnchorLink(href: string, resolve: string -> string): (r: Option<ResultLink>)
    ensures r.None? <==> FindResultIdAtEnd(href).None?
    ensures r.Some? ==> r.value.url == resolve(href) && r.value.id == FindResultIdAtEnd(href).value
  {
    match FindResultIdAtEnd(href)
    case None => None
    case Some(id) => Some(ResultLink(id, resolve(href)))
  }

  /** A pair comes only from an href that ends in `/result/<digits>` (or that and a newline), with those digits. */
  lemma AnchorLinkShape(href: string, resolve: string -> string)
    requires AnchorLink(href, resolve).Some?
    ensures var id := AnchorLink(href, resolve).value.id;
      && |id| >= 1 && AllDigits(id)
      && exists p: string :: href == p + ResultPath + id || href == p + ResultPath + id + "\n"
  {
    var id := FindResultIdAtEnd(href).value;
    FindResultIdAtEndSound(href, id);
    var p := href[..|href| - |id| - 8 - (if href[|href| - 1] == '\n' then 1 else 0)];
    assert href == p + ResultPath + id || href == p + ResultPath + id + "\n";
  }

  function Extract(resolve: string -> string): string -> Option<ResultLink> {
    href => AnchorLink(href, resolve)
  }

  /** The pairs a walk over pages `ns` has collected, before any limit: first occurrence of each id. */
  function Found(site: Site<string>, resolve: string -> string, ns: seq<int>): seq<ResultLink> {
    Dedup(Harvest(site, ns, Extract(resolve)), LinkId)
  }

  predicate Beyond(endPage: Option<int>, n: int) {
    endPage.Some? && n > endPage.value
  }

  /** Having requested the pages `ns`, the walk has not yet reached the limit. */
  predicate Short(site: Site<string>, resolve: string -> string, limit: Option<int>, ns: seq<int>) {
    !LimitHit(Found(site, resolve, ns), limit)
  }

  /** How many pages from `start` can hold anything. */
  function Reach(site: Site<string>, start: int): nat {
    if Horizon(site) > start then Horizon(site) - start else 0
  }

  /**
   * The walk ends: `end_page` bounds it, or the listing holds at least
   * `Cap(limit)` distinct result ids from `start` on, or some page from
   * `start` on raises.  Without one of these the source requests page after
   * page for ever, because pages past the listing answer 200 with nothing
   * new and its empty-page stop is commented out.
   */
  predicate Ends(site: Site<string>, resolve: string -> string, startPage: int, endPage: Option<int>, limit: Option<int>) {
    || endPage.Some?
    || LimitHit(Found(site, resolve, PageRange(startPage, Reach(site, startPage))), limit)
    || exists p | startPage <= p < startPage + Reach(site, startPage) :: Fetch(site, p).Unreachable?
  }

  /** A page of the listing at or after `start` that raises ends the walk, whatever the limit. */
  lemma RaisingPageEnds(site: Site<string>, resolve: string -> string, startPage: int, limit: Option<int>, p: int)
    requires startPage <= p < Horizon(site) && Fetch(site, p).Unreachable?
    ensures Ends(site, resolve, startPage, None, limit)
  {
    assert startPage <= p < startPage + Reach(site, startPage);
  }

  /**
   * Short of the limit, a walk that must end without `end_page` and whose
   * pages have all answered has not yet passed the horizon: it has not yet
   * met the page that makes it end.
   */
  lemma ShortOfHorizon(site: Site<string>, resolve: string -> string, startPage: int, limit: Option<int>, n: nat)
    requires Ends(site, resolve, startPage, None, limit)
    requires Reachable(site, PageRange(startPage, n))
    requires !LimitHit(Found(site, resolve, PageRange(startPage, n)), limit)
    ensures startPage + n < Horizon(site)
  {
    if startPage + n >= Horizon(site) {
      if LimitHit(Found(site, resolve, PageRange(startPage, Reach(site, startPage))), limit) {
        HarvestBeyond(site, startPage, Reach(site, startPage), n, Extract(resolve));
        assert false;
      } else {
        var p :| startPage <= p < startPage + Reach(site, startPage) && Fetch(site, p).Unreachable?;
        ReachableInRange(site, startPage, n, p);
        assert false;
      }
    }
  }

  /** A page that does not answer 200 adds nothing. */
  lemma SkippedAnchors(site: Site<string>, resolve: string -> string, prev: seq<int>, n: int)
    requires Fetch(site, n).BadStatus?
    ensures Found(site, resolve, prev + [n]) == Found(site, resolve, prev)
  {
    HarvestStep(site, prev, n, Extract(resolve));
    assert PageEntries(site, n, Extract(resolve)) == [];
    assert Harvest(site, prev, Extract(resolve)) + [] == Harvest(site, prev, Extract(resolve));
  }

  /** A page that answered 200: its pairs follow the earlier pages' ones. */
  lemma ReadAnchors(site: Site<string>, resolve: string -> string, prev: seq<int>, n: int)
    requires Fetch(site, n).Ok?
    ensures Found(site, resolve, prev + [n])
         == Dedup(Harvest(site, prev, Extract(resolve)) + Somes(Fetch(site, n).items, Extract(resolve)), LinkId)
  {
    HarvestStep(site, prev, n, Extract(resolve));
  }

  /** The limit reached on a page that answered 200: the walk is over, with distinct pairs. */
  lemma LimitOnPage(site: Site<string>, resolve: string -> string, limit: Option<int>, prev: seq<int>, n: int)
    requires Fetch(site, n).Ok?
    requires LimitHit(Dedup(Harvest(site, prev, Extract(resolve)) + Somes(Fetch(site, n).items, Extract(resolve)), LinkId), limit)
    ensures !Short(site, resolve, limit, prev + [n])
    ensures Capped(Dedup(Harvest(site, prev, Extract(resolve)) + Somes(Fetch(site, n).items, Extract(resolve)), LinkId), limit)
         == Capped(Found(site, resolve, prev + [n]), limit)
    ensures Distinct(Capped(Found(site, resolve, prev + [n]), limit), LinkId)
  {
    ReadAnchors(site, resolve, prev, n);
    DedupCappedDistinct(Harvest(site, prev + [n], Extract(resolve)), LinkId, limit);
  }

  /** A bound on the pages the walk requests. */
  function WalkBound(site: Site<string>, endPage: Option<int>): int {
    if endPage.Some? then endPage.value + 1 else Horizon(site)
  }

  /** Requesting one more page keeps the walk short at the earlier prefixes, and at the new one when it is short there. */
  lemma EarlierPrefixes(site: Site<string>, resolve: string -> string, limit: Option<int>, prev: seq<int>, n: int)
    requires forall k | 1 <= k <= |prev| :: Short(site, resolve, limit, prev[..k])
    ensures forall k | 1 <= k <= |prev| :: Short(site, resolve, limit, (prev + [n])[..k])
    ensures Short(site, resolve, limit, prev + [n]) ==>
              forall k | 1 <= k <= |prev + [n]| :: Short(site, resolve, limit, (prev + [n])[..k])
  {
    PrefixesStep(prev, n, ns => Short(site, resolve, limit, ns));
  }

  /**
   * The rest of one turn of the `while True` loop once page `page` has
   * answered: skip it unless it answered 200, otherwise scan its anchors.
   * `done` says whether the walk returns here.
   */
  method WalkPage(site: Site<string>, resolve: string -> string, limit: Option<int>,
                  ghost prev: seq<int>, page: int, response: Listing<string>, links0: seq<ResultLink>, seen0: set<string>)
    returns (links: seq<ResultLink>, seenIds: set<string>, done: bool)
    requires response == Fetch(site, page) && !response.Unreachable?
    requires links0 == Found(site, resolve, prev) && seen0 == Keys(links0, LinkId)
    requires !LimitHit(links0, limit)
    ensures done <==> !Short(site, resolve, limit, prev + [page])
    ensures done ==> links == Capped(Found(site, resolve, prev + [page]), limit)
    ensures !done ==> links == Found(site, resolve, prev + [page]) && seenIds == Keys(links, LinkId)
  {
    if response.BadStatus? {
      SkippedAnchors(site, resolve, prev, page);
      return links0, seen0, false;
    }
    ReadAnchors(site, resolve, prev, page);
    var newFound;
    links, seenIds, newFound, done := ScanItems(response.items, Extract(resolve), LinkId, limit, Harvest(site, prev, Extract(resolve)), links0, seen0);
    if done {
      LimitOnPage(site, resolve, limit, prev, page);
    }
  }

  /**
   * The state of a walk from `startPage` that has requested the pages
   * `requested` and goes on: no page lay past `end_page` or raised, the walk was short
   * of the limit after every page, `links` holds every pair found so far and
   * `seenIds` their ids, and the walk has not passed its last useful page.
   */
  predicate Walking(site: Site<string>, resolve: string -> string, startPage: int, endPage: Option<int>,
                    limit: Option<int>, requested: seq<int>, links: seq<ResultLink>, seenIds: set<string>) {
    && requested == PageRange(startPage, |requested|)
    && (forall k | 0 <= k < |requested| :: !Beyond(endPage, requested[k]))
    && Reachable(site, requested)
    && (forall k | 1 <= k <= |requested| :: Short(site, resolve, limit, requested[..k]))
    && links == Found(site, resolve, requested)
    && seenIds == Keys(links, LinkId)
    && !LimitHit(links, limit)
    && (endPage.None? ==> startPage + |requested| < WalkBound(site, endPage))
  }

  /**
   * What `collect_result_links` promises once it has requested the pages
   * `requested` and returned `links`: the pages are consecutive from
   * `startPage`, none lies past `end_page` or raised, the walk was short of the limit
   * after every earlier page, it reached the limit on the last one or the
   * next lies past `end_page`, and the pairs are the ones found, cut at the
   * limit.
   */
  predicate Walked(site: Site<string>, resolve: string -> string, startPage: int, endPage: Option<int>,
                   limit: Option<int>, requested: seq<int>, links: seq<ResultLink>) {
    && requested == PageRange(startPage, |requested|)
    && (forall k | 0 <= k < |requested| :: !Beyond(endPage, requested[k]))
    && Reachable(site, requested)
    && (forall k | 1 <= k < |requested| :: Short(site, resolve, limit, requested[..k]))
    && (!Short(site, resolve, limit, requested) || Beyond(endPage, startPage + |requested|))
    && links == Capped(Found(site, resolve, requested), limit)
  }

  /**
   * What `collect_result_links` does when a request raises: the pages up to
   * that one are consecutive from `startPage` and inside `end_page`, the
   * earlier ones answered and left the walk short of the limit, and the last
   * one raised the walk's error.
   */
  predicate WalkFailed(site: Site<string>, resolve: string -> string, startPage: int, endPage: Option<int>,
                       limit: Option<int>, requested: seq<int>, message: string) {
    && requested != []
    && requested == PageRange(startPage, |requested|)
    && (forall k | 0 <= k < |requested| :: !Beyond(endPage, requested[k]))
    && Reachable(site, requested[..|requested| - 1])
    && (forall k | 1 <= k < |requested| :: Short(site, resolve, limit, requested[..k]))
    && Fetch(site, requested[|requested| - 1]) == Unreachable(message)
  }

  /** A page inside `end_page` after which the walk is still short of the limit leaves it walking. */
  lemma WalkOn(site: Site<string>, resolve: string -> string, startPage: int, endPage: Option<int>,
               limit: Option<int>, prev: seq<int>, page: int, links: seq<ResultLink>, seenIds: set<string>)
    requires Ends(site, resolve, startPage, endPage, limit)
    requires prev == PageRange(startPage, |prev|)
    requires forall k | 0 <= k < |prev| :: !Beyond(endPage, prev[k])
    requires Reachable(site, prev) && !Fetch(site, page).Unreachable?
    requires forall k | 1 <= k <= |prev| :: Short(site, resolve, limit, prev[..k])
    requires page == startPage + |prev| && !Beyond(endPage, page)
    requires links == Found(site, resolve, prev + [page]) && seenIds == Keys(links, LinkId)
    requires !LimitHit(links, limit)
    ensures Walking(site, resolve, startPage, endPage, limit, prev + [page], links, seenIds)
  {
    var ns := prev + [page];
    assert ns == PageRange(startPage, |ns|);
    forall k | 0 <= k < |ns| ensures !Beyond(endPage, ns[k]) {
      if k < |prev| {
        assert ns[k] == prev[k];
      }
    }
    EarlierPrefixes(site, resolve, limit, prev, page);
    ReachableSnoc(site, prev, page);
    if endPage.None? {
      ShortOfHorizon(site, resolve, startPage, limit, |ns|);
    }
  }

  /** The walk returns on the page where the limit is reached. */
  lemma WalkStops(site: Site<string>, resolve: string -> string, startPage: int, endPage: Option<int>,
                  limit: Option<int>, prev: seq<int>, page: int, links: seq<ResultLink>)
    requires prev == PageRange(startPage, |prev|)
    requires forall k | 0 <= k < |prev| :: !Beyond(endPage, prev[k])
    requires Reachable(site, prev) && !Fetch(site, page).Unreachable?
    requires forall k | 1 <= k <= |prev| :: Short(site, resolve, limit, prev[..k])
    requires page == startPage + |prev| && !Beyond(endPage, page)
    requires !Short(site, resolve, limit, prev + [page])
    requires links == Capped(Found(site, resolve, prev + [page]), limit)
    ensures Walked(site, resolve, startPage, endPage, limit, prev + [page], links)
  {
    ReachableSnoc(site, prev, page);
    var ns := prev + [page];
    assert ns == PageRange(startPage, |ns|);
    forall k | 0 <= k < |ns| ensures !Beyond(endPage, ns[k]) {
      if k < |prev| {
        assert ns[k] == prev[k];
      }
    }
    EarlierPrefixes(site, resolve, limit, prev, page);
  }

  /** A request that raises ends the walk with its error. */
  lemma WalkRaises(site: Site<string>, resolve: string -> string, startPage: int, endPage: Option<int>,
                   limit: Option<int>, prev: seq<int>, page: int, message: string)
    requires Walking(site, resolve, startPage, endPage, limit, prev, Found(site, resolve, prev), Keys(Found(site, resolve, prev), LinkId))
    requires page == startPage + |prev| && !Beyond(endPage, page)
    requires Fetch(site, page) == Unreachable(message)
    ensures WalkFailed(site, resolve, startPage, endPage, limit, prev + [page], message)
  {
    var ns := prev + [page];
    assert ns == PageRange(startPage, |ns|);
    assert ns[..|ns| - 1] == prev;
    forall k | 0 <= k < |ns| ensures !Beyond(endPage, ns[k]) {
      if k < |prev| {
        assert ns[k] == prev[k];
      }
    }
    EarlierPrefixes(site, resolve, limit, prev, page);
  }

  /** The walk returns when the next page would lie past `end_page`. */
  lemma WalkPastEnd(site: Site<string>, resolve: string -> string, startPage: int, endPage: Option<int>,
                    limit: Option<int>, requested: seq<int>, links: seq<ResultLink>, seenIds: set<string>)
    requires Walking(site, resolve, startPage, endPage, limit, requested, links, seenIds)
    requires Beyond(endPage, startPage + |requested|)
    ensures Walked(site, resolve, startPage, endPage, limit, requested, links)
  {
  }

  /**
   * `collect_result_links(survey_base, start_page, end_page, limit)`.
   * `resolve` stands for `urljoin(survey_base, ·)`; the ghost `requested`
   * lists the page numbers requested, in order.  Without `end_page` the walk
   * ends only by reaching the limit, or by a request that raises.
   */
  method CollectResultLinks(site: Site<string>, resolve: string -> string, startPage: int,
                            endPage: Option<int>, limit: Option<int>)
    returns (r: Result<seq<ResultLink>>, ghost requested: seq<int>)
    requires Ends(site, resolve, startPage, endPage, limit)
    ensures r.Success? ==> Walked(site, resolve, startPage, endPage, limit, requested, r.value)
    ensures r.Success? && endPage.None? ==> !Short(site, resolve, limit, requested)
    ensures r.Success? ==> Distinct(r.value, LinkId)
    ensures r.Failure? ==> WalkFailed(site, resolve, startPage, endPage, limit, requested, r.error)
  {
    var seenIds: set<string> := {};
    var links := [];
    requested := [];
    var page := startPage;
    while !Beyond(endPage, page)
      invariant page == startPage + |requested|
      invariant Walking(site, resolve, startPage, endPage, limit, requested, links, seenIds)
      decreases WalkBound(site, endPage) - page
    {
      ghost var prev := requested;
      requested := requested + [page];
      var response := Fetch(site, page);
      if response.Unreachable? {
        WalkRaises(site, resolve, startPage, endPage, limit, prev, page, response.message);
        return Failure(response.message), requested;
      }
      var done;
      links, seenIds, done := WalkPage(site, resolve, limit, prev, page, response, links, seenIds);
      if done {
        WalkStops(site, resolve, startPage, endPage, limit, prev, page, links);
        DedupCappedDistinct(Harvest(site, requested, Extract(resolve)), LinkId, limit);
        return Success(links), requested;
      }
      WalkOn(site, resolve, startPage, endPage, limit, prev, page, links, seenIds);
      page := page + 1;
    }
    WalkPastEnd(site, resolve, startPage, endPage, limit, requested, links, seenIds);
    DedupCappedDistinct(Harvest(site, requested, Extract(resolve)), LinkId, limit);
    r := Success(links);
  }
}
