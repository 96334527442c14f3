/**
 * `collect_survey_entries`, the survey-listing walker shared (up to the
 * names of the record keys) by module_2/scrape.py and module_2/scraper2.py.
 *
 * The walker requests pages `start_page, start_page + 1, ...`.  A request
 * that raises a transport error is caught nowhere, so the walk raises it.  A
 * page that does not answer 200 is skipped.  On a page that does, every row with at
 * least three direct cells and a `/result/<digits>` link whose id has not
 * been seen on any page before yields one entry.  The walk returns as soon
 * as `limit` entries are collected, stops after `end_page`, and, when there
 * is no `end_page`, stops after the first page that yields no new id.
 *
 * The walk is specified by the pages it requested: the entries are the
 * deduplicated harvest of those pages cut at the limit (`Found`, `Capped`),
 * no page before the last one met a stopping condition (`Stops`), and the
 * last one did, or the next page lies past `end_page` (`Beyond`).  A walk
 * that raises is specified by `WalkFailed`.
 */
module Survey {
  import opened Wrappers
  import opened Text
  import opened Patterns
  import opened Collections
  import opened Web
  import opened Markup
  import opened Records

  /** One survey row's findings, before they are given record keys. */
  datatype SurveyEntry = SurveyEntry(id: string, url: string, addedOn: Option<string>, term: Option<string>)

  function EntryId(e: SurveyEntry): string {
    e.id
  }

  /**
   * The dict the walker appends for an entry: `result_id`, the URL under
   * `urlKey`, the "Added On" value under `dateKey` and `term`, with None for
   * a missing date or term.  The two walkers differ only in these two key
   * names.
   */
  function EntryDict(e: SurveyEntry, urlKey: string, dateKey: string): (r: Record)
    requires urlKey != dateKey && urlKey !in {"result_id", "term"} && dateKey !in {"result_id", "term"}
    ensures r.Keys == {"result_id", urlKey, dateKey, "term"}
    ensures r["result_id"] == Str(e.id) && r[urlKey] == Str(e.url)
    ensures r[dateKey] == OptValue(e.addedOn) && r["term"] == OptValue(e.term)
  {
    map["result_id" := Str(e.id), urlKey := Str(e.url), dateKey := OptValue(e.addedOn), "term" := OptValue(e.term)]
  }

  /**
   * The "Added On" value of a row, read from its third cell: the leftmost
   * date in the cell's text; failing that the text itself; None when the
   * text is empty.
   */
  function AddedOn(cell: Strings): (r: Option<string>)
    ensures r.None? <==> GetText(cell, " ") == []
    ensures !NoDate(GetText(cell, " ")) ==> r.Some? && LeftmostDate(GetText(cell, " "), r.value)
    ensures NoDate(GetText(cell, " ")) && r.Some? ==> r.value == GetText(cell, " ")
  {
    var text := GetText(cell, " ");
    FindDateNone(text);
    match FindDate(text)
    case Some(d) =>
      FindDateLeftmost(text);
      Some(d)
    case None =>
      if text == [] then None else Some(text)
  }

  /**
   * The term of a row: the first text string of the following
   * `tr.tw-border-none` in which a season and a year occur, stripped; None
   * when there is no such row or no such string.
   */
  function TermOf(detailRow: Option<Strings>): (r: Option<string>)
    ensures r.Some? ==> Trimmed(r.value)
  {
    match detailRow
    case None => None
    case Some(strs) =>
      match FirstTermString(strs)
      case None => None
      case Some(t) => Some(Strip(t))
  }

  /**
   * The term is found exactly when some string of the following row holds a
   * season and a year, and it is then the first such string, stripped.
   */
  lemma TermOfSpec(detailRow: Option<Strings>)
    ensures TermOf(detailRow).Some? <==> detailRow.Some? && exists k | 0 <= k < |detailRow.value| :: HasTerm(detailRow.value[k])
    ensures TermOf(detailRow).Some? ==> exists i | 0 <= i < |detailRow.value| ::
      (TermOf(detailRow).value == Strip(detailRow.value[i]) && HasTerm(detailRow.value[i])
       && forall j | 0 <= j < i :: !HasTerm(detailRow.value[j]))
  {
    if detailRow.Some? && FirstTermString(detailRow.value).Some? {
      var strs := detailRow.value;
      var i :| 0 <= i < |strs| && strs[i] == FirstTermString(strs).value && HasTerm(strs[i])
               && forall j | 0 <= j < i :: !HasTerm(strs[j]);
      assert TermOf(detailRow).value == Strip(strs[i]);
    }
  }

  /**
   * The entry a table row yields.  A row with fewer than three direct cells,
   * without a result link, or whose link carries no `/result/<digits>` id
   * is skipped.
   */
  function RowEntry(row: Row, resolve: string -> string): (r: Option<SurveyEntry>)
    ensures r.None? <==> |row.cells| < 3 || row.link.None? || FindResultId(row.link.value).None?
  {
    if |row.cells| < 3 || row.link.None? then None
    else
      match FindResultId(row.link.value)
      case None => None
      case Some(id) =>
        Some(SurveyEntry(id, resolve(row.link.value), AddedOn(row.cells[2]), TermOf(row.detailRow)))
  }

  /**
   * What a kept row's entry holds: the digits of the leftmost
   * `/result/<digits>` in its link, the resolved link, the "Added On" value
   * of its third cell and the term of its detail row.
   */
  lemma RowEntryFields(row: Row, resolve: string -> string)
    requires RowEntry(row, resolve).Some?
    ensures var e := RowEntry(row, resolve).value;
      && row.link.Some? && |row.cells| >= 3
      && |e.id| >= 1 && AllDigits(e.id)
      && (exists j | 0 <= j <= |row.link.value| ::
            (ResultIdAt(row.link.value, j) == Some(e.id)
             && forall k | 0 <= k < j :: ResultIdAt(row.link.value, k).None?))
      && e.url == resolve(row.link.value)
      && e.addedOn == AddedOn(row.cells[2])
      && e.term == TermOf(row.detailRow)
  {
    var href := row.link.value;
    var id := FindResultId(href).value;
    FindResultIdLeftmost(href);
    var j :| 0 <= j <= |href| && ResultIdAt(href, j) == Some(id);
    ResultIdAtShape(href, j, id);
  }

  /** Row extraction for a given URL resolver (`urljoin(survey_base, href)`). */
  function Extract(resolve: string -> string): Row -> Option<SurveyEntry> {
    row => RowEntry(row, resolve)
  }

  /** The entries a walk over pages `ns` has collected, before any limit: first occurrence of each id. */
  function Found(site: Site<Row>, resolve: string -> string, ns: seq<int>): seq<SurveyEntry> {
    Dedup(Harvest(site, ns, Extract(resolve)), EntryId)
  }

  /** The next page would lie past `end_page`. */
  predicate Beyond(endPage: Option<int>, n: int) {
    endPage.Some? && n > endPage.value
  }

  /**
   * Having requested the pages `ns`, the walk stops: the limit has been
   * reached, or, with no `end_page`, the last page answered 200 and brought
   * no new id.
   */
  predicate Stops(site: Site<Row>, resolve: string -> string, endPage: Option<int>, limit: Option<int>, ns: seq<int>) {
    && ns != []
    && (|| LimitHit(Found(site, resolve, ns), limit)
        || (&& endPage.None?
            && Fetch(site, ns[|ns| - 1]).Ok?
            && |Found(site, resolve, ns)| == |Found(site, resolve, ns[..|ns| - 1])|))
  }

  /** How far a walk can get: past `end_page`, or past the last page that can hold anything. */
  function WalkBound(site: Site<Row>, startPage: int, endPage: Option<int>): int {
    if endPage.Some? then endPage.value + 1
    else if Horizon(site) > startPage then Horizon(site) + 1
    else startPage + 1
  }

  /** A page that does not answer 200 adds nothing and, short of the limit, does not stop the walk. */
  lemma SkippedPage(site: Site<Row>, resolve: string -> string, endPage: Option<int>, limit: Option<int>,
                    prev: seq<int>, n: int)
    requires Fetch(site, n).BadStatus?
    requires !LimitHit(Found(site, resolve, prev), limit)
    ensures Found(site, resolve, prev + [n]) == Found(site, resolve, prev)
    ensures !Stops(site, resolve, endPage, limit, prev + [n])
  {
    HarvestStep(site, prev, n, Extract(resolve));
    assert PageEntries(site, n, Extract(resolve)) == [];
    assert Harvest(site, prev + [n], Extract(resolve)) == Harvest(site, prev, Extract(resolve)) + [];
    assert Harvest(site, prev, Extract(resolve)) + [] == Harvest(site, prev, Extract(resolve));
    assert Found(site, resolve, prev + [n]) == Found(site, resolve, prev);
    assert (prev + [n])[|prev + [n]| - 1] == n;
  }

  /** After a page that answered 200 is read whole, the walk stops exactly on the limit or, without `end_page`, on no new id. */
  lemma ReadPage(site: Site<Row>, resolve: string -> string, endPage: Option<int>, limit: Option<int>,
                 prev: seq<int>, n: int)
    requires Fetch(site, n).Ok?
    ensures Found(site, resolve, prev + [n])
         == Dedup(Harvest(site, prev, Extract(resolve)) + Somes(Fetch(site, n).items, Extract(resolve)), EntryId)
    ensures Stops(site, resolve, endPage, limit, prev + [n])
        <==> (|| LimitHit(Found(site, resolve, prev + [n]), limit)
              || (endPage.None? && |Found(site, resolve, prev + [n])| == |Found(site, resolve, prev)|))
  {
    HarvestStep(site, prev, n, Extract(resolve));
    assert (prev + [n])[..|prev|] == prev;
  }

  /**
   * Requesting one more page leaves the verdicts on the earlier prefixes as
   * they were; when the walk goes on after it, no prefix of the longer walk
   * has stopped.
   */
  lemma EarlierPrefixes(site: Site<Row>, resolve: string -> string, endPage: Option<int>, limit: Option<int>,
                        prev: seq<int>, n: int)
    requires forall k | 1 <= k <= |prev| :: !Stops(site, resolve, endPage, limit, prev[..k])
    ensures forall k | 1 <= k <= |prev| :: !Stops(site, resolve, endPage, limit, (prev + [n])[..k])
    ensures !Stops(site, resolve, endPage, limit, prev + [n]) ==>
              forall k | 1 <= k <= |prev + [n]| :: !Stops(site, resolve, endPage, limit, (prev + [n])[..k])
  {
    PrefixesStep(prev, n, ns => !Stops(site, resolve, endPage, limit, ns));
  }

  /** Past the horizon a page answers 200 with no rows, so without `end_page` the walk stops there. */
  lemma StopsPastHorizon(site: Site<Row>, resolve: string -> string, limit: Option<int>, prev: seq<int>, n: int)
    requires n < site.first || n >= Horizon(site)
    ensures Stops(site, resolve, None, limit, prev + [n])
  {
    ReadPage(site, resolve, None, limit, prev, n);
    assert Somes(Fetch(site, n).items, Extract(resolve)) == [];
    assert Harvest(site, prev, Extract(resolve)) + [] == Harvest(site, prev, Extract(resolve));
  }

  /**
   * The rest of one turn of the `while True` loop once page `page` has
   * answered: skip it unless it answered 200, otherwise scan its rows.
   * `done` says whether the walk returns here.
   */
  method WalkPage(site: Site<Row>, resolve: string -> string, endPage: Option<int>, limit: Option<int>,
                  ghost prev: seq<int>, page: int, response: Listing<Row>, entries0: seq<SurveyEntry>, seen0: set<string>)
    returns (entries: seq<SurveyEntry>, seen: set<string>, done: bool)
    requires response == Fetch(site, page) && !response.Unreachable?
    requires entries0 == Found(site, resolve, prev) && seen0 == Keys(entries0, EntryId)
    requires !LimitHit(entries0, limit)
    ensures done <==> Stops(site, resolve, endPage, limit, prev + [page])
    ensures done ==> entries == Capped(Found(site, resolve, prev + [page]), limit)
    ensures !done ==> entries == Found(site, resolve, prev + [page]) && seen == Keys(entries, EntryId)
    ensures !done ==> !LimitHit(entries, limit)
  {
    if response.BadStatus? {
      SkippedPage(site, resolve, endPage, limit, prev, page);
      return entries0, seen0, false;
    }
    ReadPage(site, resolve, endPage, limit, prev, page);
    var newFound, full;
    entries, seen, newFound, full := ScanItems(response.items, Extract(resolve), EntryId, limit, Harvest(site, prev, Extract(resolve)), entries0, seen0);
    done := full || (newFound == 0 && endPage.None?);
  }

  /**
   * The state of a walk from `startPage` that has requested the pages
   * `requested` and goes on: no page lay past `end_page` or raised, no prefix of the
   * walk met a stop condition, `entries` holds every id found so far and
   * `seen` their ids, and the walk is still short of the page where it must
   * stop.
   */
  predicate Walking(site: Site<Row>, resolve: string -> string, startPage: int, endPage: Option<int>,
                    limit: Option<int>, requested: seq<int>, entries: seq<SurveyEntry>, seen: set<string>) {
    && requested == PageRange(startPage, |requested|)
    && (forall k | 0 <= k < |requested| :: !Beyond(endPage, requested[k]))
    && Reachable(site, requested)
    && (forall k | 1 <= k <= |requested| :: !Stops(site, resolve, endPage, limit, requested[..k]))
    && entries == Found(site, resolve, requested)
    && seen == Keys(entries, EntryId)
    && !LimitHit(entries, limit)
    && (endPage.None? ==> startPage + |requested| < WalkBound(site, startPage, endPage))
  }

  /** A page inside `end_page` after which the walk does not stop leaves it walking. */
  lemma WalkOn(site: Site<Row>, resolve: string -> string, startPage: int, endPage: Option<int>,
               limit: Option<int>, prev: seq<int>, page: int, entries: seq<SurveyEntry>, seen: set<string>)
    requires Walking(site, resolve, startPage, endPage, limit, prev, Found(site, resolve, prev), Keys(Found(site, resolve, prev), EntryId))
    requires page == startPage + |prev| && !Beyond(endPage, page) && !Fetch(site, page).Unreachable?
    requires !Stops(site, resolve, endPage, limit, prev + [page])
    requires entries == Found(site, resolve, prev + [page]) && seen == Keys(entries, EntryId)
    requires !LimitHit(entries, limit)
    ensures Walking(site, resolve, startPage, endPage, limit, prev + [page], entries, seen)
  {
    var ns := prev + [page];
    assert ns == PageRange(startPage, |ns|);
    forall k | 0 <= k < |ns| ensures !Beyond(endPage, ns[k]) {
      if k < |prev| {
        assert ns[k] == prev[k];
      }
    }
    EarlierPrefixes(site, resolve, endPage, limit, prev, page);
    ReachableSnoc(site, prev, page);
    if endPage.None? {
      if page < site.first || page >= Horizon(site) {
        StopsPastHorizon(site, resolve, limit, prev, page);
        assert false;
      }
      assert page + 1 < WalkBound(site, startPage, endPage);
    }
  }

  /**
   * What `collect_survey_entries` promises once it has requested the pages
   * `requested` and returned `entries`: the pages are consecutive from
   * `startPage`, none lies past `end_page` or raised, no earlier prefix met a stop
   * condition, the last page met one or the next lies past `end_page`, and
   * the entries are the ids found, cut at the limit.
   */
  predicate Walked(site: Site<Row>, resolve: string -> string, startPage: int, endPage: Option<int>,
                   limit: Option<int>, requested: seq<int>, entries: seq<SurveyEntry>) {
    && requested == PageRange(startPage, |requested|)
    && (forall k | 0 <= k < |requested| :: !Beyond(endPage, requested[k]))
    && Reachable(site, requested)
    && (forall k | 1 <= k < |requested| :: !Stops(site, resolve, endPage, limit, requested[..k]))
    && (Stops(site, resolve, endPage, limit, requested) || Beyond(endPage, startPage + |requested|))
    && entries == Capped(Found(site, resolve, requested), limit)
  }

  /**
   * What `collect_survey_entries` does when a request raises: the pages up
   * to that one are consecutive from `startPage` and inside `end_page`, the
   * earlier ones answered and met no stop condition, and the last one raised
   * the walk's error.
   */
  predicate WalkFailed(site: Site<Row>, resolve: string -> string, startPage: int, endPage: Option<int>,
                       limit: Option<int>, requested: seq<int>, message: string) {
    && requested != []
    && requested == PageRange(startPage, |requested|)
    && (forall k | 0 <= k < |requested| :: !Beyond(endPage, requested[k]))
    && Reachable(site, requested[..|requested| - 1])
    && (forall k | 1 <= k < |requested| :: !Stops(site, resolve, endPage, limit, requested[..k]))
    && Fetch(site, requested[|requested| - 1]) == Unreachable(message)
  }

  /** The walk returns on the page where a stop condition holds. */
  lemma WalkStops(site: Site<Row>, resolve: string -> string, startPage: int, endPage: Option<int>,
                  limit: Option<int>, prev: seq<int>, page: int, entries: seq<SurveyEntry>)
    requires prev == PageRange(startPage, |prev|)
    requires forall k | 0 <= k < |prev| :: !Beyond(endPage, prev[k])
    requires Reachable(site, prev) && !Fetch(site, page).Unreachable?
    requires forall k | 1 <= k <= |prev| :: !Stops(site, resolve, endPage, limit, prev[..k])
    requires page == startPage + |prev| && !Beyond(endPage, page)
    requires Stops(site, resolve, endPage, limit, prev + [page])
    requires entries == Capped(Found(site, resolve, prev + [page]), limit)
    ensures Walked(site, resolve, startPage, endPage, limit, prev + [page], entries)
  {
    ReachableSnoc(site, prev, page);
    var ns := prev + [page];
    assert ns == PageRange(startPage, |ns|);
    forall k | 0 <= k < |ns| ensures !Beyond(endPage, ns[k]) {
      if k < |prev| {
        assert ns[k] == prev[k];
      }
    }
    EarlierPrefixes(site, resolve, endPage, limit, prev, page);
  }

  /** A request that raises ends the walk with its error. */
  lemma WalkRaises(site: Site<Row>, resolve: string -> string, startPage: int, endPage: Option<int>,
                   limit: Option<int>, prev: seq<int>, page: int, message: string)
    requires Walking(site, resolve, startPage, endPage, limit, prev, Found(site, resolve, prev), Keys(Found(site, resolve, prev), EntryId))
    requires page == startPage + |prev| && !Beyond(endPage, page)
    requires Fetch(site, page) == Unreachable(message)
    ensures WalkFailed(site, resolve, startPage, endPage, limit, prev + [page], message)
  {
    var ns := prev + [page];
    assert ns == PageRange(startPage, |ns|);
    assert ns[..|ns| - 1] == prev;
    forall k | 0 <= k < |ns| ensures !Beyond(endPage, ns[k]) {
      if k < |prev| {
        assert ns[k] == prev[k];
      }
    }
    EarlierPrefixes(site, resolve, endPage, limit, prev, page);
  }

  /** The walk returns when the next page would lie past `end_page`. */
  lemma WalkPastEnd(site: Site<Row>, resolve: string -> string, startPage: int, endPage: Option<int>,
                    limit: Option<int>, requested: seq<int>, entries: seq<SurveyEntry>, seen: set<string>)
    requires Walking(site, resolve, startPage, endPage, limit, requested, entries, seen)
    requires Beyond(endPage, startPage + |requested|)
    ensures Walked(site, resolve, startPage, endPage, limit, requested, entries)
  {
  }

  /**
   * `collect_survey_entries(survey_base, start_page, end_page, limit)`.
   * `resolve` stands for `urljoin(survey_base, ·)`; the ghost `requested`
   * lists the page numbers requested, in order.  The result is the entries,
   * or the error of the first request that raised.
   */
  method CollectSurveyEntries(site: Site<Row>, resolve: string -> string, startPage: int,
                              endPage: Option<int>, limit: Option<int>)
    returns (r: Result<seq<SurveyEntry>>, ghost requested: seq<int>)
    ensures r.Success? ==> Walked(site, resolve, startPage, endPage, limit, requested, r.value)
    ensures r.Success? ==> Distinct(r.value, EntryId)
    ensures r.Failure? ==> WalkFailed(site, resolve, startPage, endPage, limit, requested, r.error)
  {
    var seen: set<string> := {};
    var entries := [];
    requested := [];
    var page := startPage;
    while !Beyond(endPage, page)
      invariant page == startPage + |requested|
      invariant Walking(site, resolve, startPage, endPage, limit, requested, entries, seen)
      decreases WalkBound(site, startPage, endPage) - page
    {
      ghost var prev := requested;
      requested := requested + [page];
      var response := Fetch(site, page);
      if response.Unreachable? {
        WalkRaises(site, resolve, startPage, endPage, limit, prev, page, response.message);
        return Failure(response.message), requested;
      }
      var done;
      entries, seen, done := WalkPage(site, resolve, endPage, limit, prev, page, response, entries, seen);
      if done {
        WalkStops(site, resolve, startPage, endPage, limit, prev, page, entries);
        DedupCappedDistinct(Harvest(site, requested, Extract(resolve)), EntryId, limit);
        return Success(entries), requested;
      }
      WalkOn(site, resolve, startPage, endPage, limit, prev, page, entries, seen);
      page := page + 1;
    }
    WalkPastEnd(site, resolve, startPage, endPage, limit, requested, entries, seen);
    DedupCappedDistinct(Harvest(site, requested, Extract(resolve)), EntryId, limit);
    r := Success(entries);
  }

  // ---------------------------------------------------------------- properties of the walk

  /**
   * A page that does not answer 200 never ends the walk: it adds nothing,
   * and the walk goes on to the next page unless that lies past `end_page`.
   */
  lemma NonOkPageNeverStops(site: Site<Row>, resolve: string -> string, endPage: Option<int>, limit: Option<int>,
                            ns: seq<int>)
    requires ns != [] && Fetch(site, ns[|ns| - 1]).BadStatus?
    requires |ns| == 1 || !Stops(site, resolve, endPage, limit, ns[..|ns| - 1])
    ensures Found(site, resolve, ns) == Found(site, resolve, ns[..|ns| - 1])
    ensures !Stops(site, resolve, endPage, limit, ns)
  {
    var prev := ns[..|ns| - 1];
    assert ns == prev + [ns[|ns| - 1]];
    if |ns| == 1 {
      assert prev == [];
      assert Found(site, resolve, prev) == [];
    }
    SkippedPage(site, resolve, endPage, limit, prev, ns[|ns| - 1]);
  }

  /**
   * Short of the limit, the walk keeps one entry for every id it met: the
   * ids of its entries are exactly the ids of the qualifying rows on the
   * pages it requested.
   */
  lemma FoundAllIds(site: Site<Row>, resolve: string -> string, ns: seq<int>, limit: Option<int>)
    requires !LimitHit(Found(site, resolve, ns), limit)
    ensures Keys(Capped(Found(site, resolve, ns), limit), EntryId) == Keys(Harvest(site, ns, Extract(resolve)), EntryId)
  {
    DedupKeys(Harvest(site, ns, Extract(resolve)), EntryId);
  }

  /** Every entry the walk returns was found on one of the pages it requested, first of its id. */
  lemma FoundFromPages(site: Site<Row>, resolve: string -> string, ns: seq<int>, limit: Option<int>)
    ensures forall i | 0 <= i < |Capped(Found(site, resolve, ns), limit)| ::
      Capped(Found(site, resolve, ns), limit)[i] in Harvest(site, ns, Extract(resolve))
  {
    var d := Found(site, resolve, ns);
    DedupFrom(Harvest(site, ns, Extract(resolve)), EntryId);
    forall i | 0 <= i < |Capped(d, limit)| ensures Capped(d, limit)[i] in Harvest(site, ns, Extract(resolve)) {
      assert Capped(d, limit)[i] == d[i];
    }
  }
}
