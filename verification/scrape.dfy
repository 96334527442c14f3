/**
 * module_2/scrape.py: the `scrape_data` class.  Creating one runs the whole
 * harvest: the survey walk from page 1 with no `end_page`, one detail
 * request per survey entry (a failed request leaves a record carrying
 * `detail_error` instead of ending the run), and the merge.  A listing
 * request that raises is caught nowhere, so creating the object fails.
 */
module Scrape {
  import opened Wrappers
  import opened Text
  import opened Collections
  import opened Web
  import opened Markup
  import opened Records
  import opened Survey
  import opened Fields
  import opened Merge

  const Base := "https://www.thegradcafe.com"
  const SurveyBase := Base + "/survey/"
  const ResultBase := Base + "/result/"

  // ---------------------------------------------------------------- get_detail_fields

  /** `f"{result_base.rstrip('/')}/{rid}"`. */
  function DetailUrl(resultBase: string, rid: string): string {
    RStrip(resultBase, '/') + "/" + rid
  }

  /** The message of the exception a non-200 detail response raises; it names the URL. */
  function StatusErrorAt(status: int, url: string): string {
    StatusError(status) + " for " + url
  }

  /** Case A of the `dl` loop: the filled pairs of the `dl`'s direct `div` children. */
  function ChildDivPairs(dl: DefList): seq<Pair> {
    Somes(dl.childDivs, Keep(true))
  }

  /** The writes before the list items: the `result_id` seed, then every `dl`'s pairs. */
  function DefListPhase(page: DetailPage, rid: string): seq<Pair> {
    [("result_id", rid)] + DefListWrites(page.defLists, ChildDivPairs)
  }

  /** The dict a result page that answered 200 yields, or the error its list items raise. */
  function PageFields(page: DetailPage, rid: string): Result<Fields> {
    AfterItems(DefListPhase(page, rid), page.scoreItems, LastSpan)
  }

  /** `get_detail_fields(result_base, rid)`: its dict, or the message of what it raises. */
  function DetailFields(server: Server, resultBase: string, rid: string): Result<Fields> {
    var url := DetailUrl(resultBase, rid);
    match server(url)
    case NetworkFailure(message) => Failure(message)
    case Response(status, page) =>
      if status != 200 then Failure(StatusErrorAt(status, url)) else PageFields(page, rid)
  }

  /** The seeded dict after the `dl` loop. */
  method WriteDefLists(page: DetailPage, rid: string) returns (result: Fields)
    ensures result == Assoc(DefListPhase(page, rid))
  {
    result := map["result_id" := rid];
    ghost var w := [("result_id", rid)];
    assert Assoc(w) == Assoc([])["result_id" := rid];
    assert DefListWrites(page.defLists[..0], ChildDivPairs) == [];
    for i := 0 to |page.defLists|
      invariant w == [("result_id", rid)] + DefListWrites(page.defLists[..i], ChildDivPairs)
      invariant result == Assoc(w)
    {
      result := WriteBoxes(result, w, page.defLists[i].childDivs, true);
      DefListWritesNext(page.defLists, i, ChildDivPairs);
      w := w + ChildDivPairs(page.defLists[i]);
    }
    assert page.defLists[..|page.defLists|] == page.defLists;
  }

  method GetDetailFields(server: Server, resultBase: string, rid: string) returns (r: Result<Fields>)
    ensures r == DetailFields(server, resultBase, rid)
  {
    var url := RStrip(resultBase, '/') + "/" + rid;
    var response := server(url);
    if response.NetworkFailure? {
      return Failure(response.message);
    }
    if response.status != 200 {
      return Failure(StatusErrorAt(response.status, url));
    }
    var page := response.page;
    var result := WriteDefLists(page, rid);
    r := WriteItems(result, DefListPhase(page, rid), page.scoreItems, LastSpan);
  }

  // ---------------------------------------------------------------- properties of get_detail_fields

  /**
   * The request fails exactly on a transport error, on a status other than
   * 200 (with a message naming the status and the URL), or on a list item
   * with no span at all (with `IndexError`'s message).
   */
  lemma DetailFieldsFailure(server: Server, resultBase: string, rid: string)
    ensures var url := DetailUrl(resultBase, rid);
            var r := DetailFields(server, resultBase, rid);
            && (server(url).NetworkFailure? ==> r == Failure(server(url).message))
            && (server(url).Response? && server(url).status != 200 ==>
                  r == Failure(StatusErrorAt(server(url).status, url)))
            && (server(url).Response? && server(url).status == 200 ==>
                  (r.Failure? <==> SomeItemRaises(server(url).page.scoreItems, LastSpan))
                  && (r.Failure? ==> r.error == IndexErrorMessage))
  {
    var url := DetailUrl(resultBase, rid);
    if server(url).Response? && server(url).status == 200 {
      ItemWritesFail(server(url).page.scoreItems, LastSpan);
    }
  }

  /**
   * The dict is built in three layers, each overriding the one before: the
   * `result_id` seed, the filled `dl` pairs in document order, and the list
   * items' pairs.
   */
  lemma PageFieldsLayers(page: DetailPage, rid: string)
    requires PageFields(page, rid).Success?
    ensures ItemWrites(page.scoreItems, LastSpan).Success?
    ensures PageFields(page, rid).value
         == map["result_id" := rid]
          + Assoc(DefListWrites(page.defLists, ChildDivPairs))
          + Assoc(ItemWrites(page.scoreItems, LastSpan).value)
    ensures AllFilled(DefListWrites(page.defLists, ChildDivPairs))
  {
    var seed := [("result_id", rid)];
    var dlw := DefListWrites(page.defLists, ChildDivPairs);
    var ws := ItemWrites(page.scoreItems, LastSpan).value;
    assert PageFields(page, rid).value == Assoc(seed + dlw + ws);
    AssocAppend(seed + dlw, ws);
    AssocAppend(seed, dlw);
    AssocSingle(("result_id", rid));
    DefListPairsFilled(page.defLists);
  }

  /** Case A keeps only pairs whose label and value are both non-empty. */
  lemma DefListPairsFilled(dls: seq<DefList>)
    ensures AllFilled(DefListWrites(dls, ChildDivPairs))
  {
    forall dl ensures AllFilled(ChildDivPairs(dl)) {
      SomesFilled(dl.childDivs);
    }
    DefListWritesFilled(dls, ChildDivPairs);
  }

  /** Unless a `dl` label or a list item's label is `result_id`, the dict keeps the seeded id. */
  lemma PageFieldsKeepId(page: DetailPage, rid: string)
    requires PageFields(page, rid).Success?
    requires "result_id" !in Keys(DefListWrites(page.defLists, ChildDivPairs), Fst)
    requires "result_id" !in Keys(ItemWrites(page.scoreItems, LastSpan).value, Fst)
    ensures "result_id" in PageFields(page, rid).value && PageFields(page, rid).value["result_id"] == rid
  {
    PageFieldsLayers(page, rid);
    AssocKeys(DefListWrites(page.defLists, ChildDivPairs));
    AssocKeys(ItemWrites(page.scoreItems, LastSpan).value);
  }

  /** scrape.py's URL for a result is scraper2.py's `result_base + rid` for the site's result base. */
  lemma DetailUrlOfResultBase(rid: string)
    ensures DetailUrl(ResultBase, rid) == ResultBase + rid
  {
    var r := RStrip(ResultBase, '/');
    assert ResultBase[|ResultBase| - 1] == '/' && ResultBase[|ResultBase| - 2] == 't';
    assert |r| == |ResultBase| - 1;
    assert r + "/" == ResultBase;
  }

  // ---------------------------------------------------------------- __init__

  /** The detail record kept for `rid`: the fields, or `{"result_id": rid, "detail_error": str(e)}`. */
  function DetailRecord(server: Server, rid: string): (d: Fields)
    ensures "result_id" in d
    ensures DetailFields(server, ResultBase, rid).Failure? ==>
              d == map["result_id" := rid, "detail_error" := DetailFields(server, ResultBase, rid).error]
  {
    match DetailFields(server, ResultBase, rid)
    case Failure(e) => map["result_id" := rid, "detail_error" := e]
    case Success(m) =>
      assert "result_id" in m by {
        PageFieldsLayers(server(DetailUrl(ResultBase, rid)).page, rid);
      }
      m
  }

  /** A survey entry as the walker's dict: `result_id`, `result_url`, `added_on`, `term`. */
  function SurveyRecord(e: SurveyEntry): Record {
    EntryDict(e, "result_url", "added_on")
  }

  /** `self.links` as `survey_map` sees them: each record with its `r["result_id"]`. */
  function SurveyPairs(links: seq<SurveyEntry>): (ks: seq<Keyed>)
    ensures |ks| == |links|
    ensures forall i | 0 <= i < |links| :: ks[i] == (links[i].id, SurveyRecord(links[i]))
  {
    seq(|links|, i requires 0 <= i < |links| => (links[i].id, SurveyRecord(links[i])))
  }

  class ScrapeData {
    /** `self.links`: the survey entries, in the order the walk found them. */
    var links: seq<SurveyEntry>
    /** `self.data`: one detail record per survey entry, in the same order. */
    var data: seq<Fields>
    /** `self.combined`: the merged records. */
    var combined: seq<Record>
    /** The listing pages the walk requested, in order. */
    ghost var requested: seq<int>

    /**
     * The rest of `__init__` once the survey walk has returned `entries`
     * after requesting `pages`: the detail loop, then the merge.
     */
    constructor (entries: seq<SurveyEntry>, ghost pages: seq<int>, server: Server)
      ensures links == entries && requested == pages
      ensures |data| == |links|
      ensures forall i | 0 <= i < |links| :: data[i] == DetailRecord(server, links[i].id)
      ensures combined == Merged(SurveyPairs(links), data)
    {
      var records := FetchDetails(server, entries);
      var merged := MergeRecords(SurveyPairs(entries), records);
      combined := merged;
      links := entries;
      data := records;
      requested := pages;
    }

    /**
     * `scrape_data(limit)`.  `site` and `resolve` stand for the survey listing
     * under `SURVEY_BASE` and `urljoin(SURVEY_BASE, ·)`; `server` answers the
     * detail requests.  When a listing request raises, the error escapes
     * `__init__` and no object is made; the ghost `requested` lists the
     * listing pages requested either way.
     */
    static method Create(site: Site<Row>, resolve: string -> string, server: Server, limit: Option<int>)
      returns (r: Result<ScrapeData>, ghost requested: seq<int>)
      ensures r.Success? ==> fresh(r.value) && r.value.requested == requested
      ensures r.Success? ==> Survey.Walked(site, resolve, 1, None, limit, requested, r.value.links)
      ensures r.Success? ==> Distinct(r.value.links, EntryId)
      ensures r.Success? ==> |r.value.data| == |r.value.links|
      ensures r.Success? ==> forall i | 0 <= i < |r.value.links| :: r.value.data[i] == DetailRecord(server, r.value.links[i].id)
      ensures r.Success? ==> r.value.combined == Merged(SurveyPairs(r.value.links), r.value.data)
      ensures r.Failure? ==> Survey.WalkFailed(site, resolve, 1, None, limit, requested, r.error)
    {
      var walk;
      walk, requested := CollectSurveyEntries(site, resolve, 1, None, limit);
      if walk.Failure? {
        r := Failure(walk.error);
      } else {
        var harvest := new ScrapeData(walk.value, requested, server);
        r := Success(harvest);
      }
    }
  }

  /** One turn of the detail loop: `get_detail_fields`, or the error record when it raises. */
  method FetchDetail(server: Server, rid: string) returns (d: Fields)
    ensures d == DetailRecord(server, rid)
  {
    var detail := GetDetailFields(server, ResultBase, rid);
    if detail.Failure? {
      d := map["result_id" := rid, "detail_error" := detail.error];
    } else {
      d := detail.value;
    }
  }

  /** The detail loop of `scrape_data`: one record per entry, in order. */
  method FetchDetails(server: Server, entries: seq<SurveyEntry>) returns (records: seq<Fields>)
    ensures |records| == |entries|
    ensures forall i | 0 <= i < |entries| :: records[i] == DetailRecord(server, entries[i].id)
  {
    records := [];
    for i := 0 to |entries|
      invariant |records| == i
      invariant forall k | 0 <= k < i :: records[k] == DetailRecord(server, entries[k].id)
    {
      var d := FetchDetail(server, entries[i].id);
      records := records + [d];
    }
  }

  // ---------------------------------------------------------------- properties of the harvest

  /** Distinct entries keep their ids distinct as keyed records. */
  lemma KeyedDistinct(links: seq<SurveyEntry>)
    requires Distinct(links, EntryId)
    ensures Distinct(SurveyPairs(links), Fst)
  {
    forall i, j | 0 <= i < j < |links| ensures Fst(SurveyPairs(links)[i]) != Fst(SurveyPairs(links)[j]) {
      assert EntryId(links[i]) != EntryId(links[j]);
    }
  }

  /**
   * The harvest's outcome: one combined record per survey entry, in walk
   * order.  When no detail page relabels `result_id`, each is the entry's
   * survey record overridden by its own detail record; a failed request
   * leaves its message under `detail_error`.
   */
  lemma CombinedPerEntry(links: seq<SurveyEntry>, data: seq<Fields>, server: Server)
    requires Distinct(links, EntryId) && |data| == |links|
    requires forall i | 0 <= i < |links| :: data[i] == DetailRecord(server, links[i].id)
    requires forall i | 0 <= i < |links| :: "result_id" in data[i] && data[i]["result_id"] == links[i].id
    ensures |Merged(SurveyPairs(links), data)| == |links|
    ensures forall i | 0 <= i < |links| :: Merged(SurveyPairs(links), data)[i] == SurveyRecord(links[i]) + Lift(data[i])
    ensures forall i | 0 <= i < |links| && DetailFields(server, ResultBase, links[i].id).Failure? ::
              && "detail_error" in Merged(SurveyPairs(links), data)[i]
              && Merged(SurveyPairs(links), data)[i]["detail_error"] == Str(DetailFields(server, ResultBase, links[i].id).error)
  {
    KeyedDistinct(links);
    MergedPerEntry(SurveyPairs(links), data);
    DetailMapAligned(SurveyPairs(links), data);
  }

  /** A failed request still yields a record carrying its entry's id. */
  lemma FailedDetailKeepsId(server: Server, rid: string)
    requires DetailFields(server, ResultBase, rid).Failure?
    ensures DetailRecord(server, rid)["result_id"] == rid
    ensures DetailRecord(server, rid).Keys == {"result_id", "detail_error"}
  {
  }
}
