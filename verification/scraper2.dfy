/**
 * module_2/scraper2.py, the working copy before scrape.py: the same survey
 * walker under the canonical key names (`url`, `date_added`), a detail
 * extractor that searches `div`s at any depth inside each `dl`, reads a
 * list item's value from its second span and returns a list, and a main
 * run in which a failed detail request ends the run.
 */
module Scraper2 {
  import opened Wrappers
  import opened Text
  import opened Collections
  import opened Web
  import opened Markup
  import opened Records
  import opened Survey
  import opened Fields
  import opened Merge

  const Base := "https://www.thegradcafe.com/"
  const SurveyBase := Base + "survey/"
  const ResultBase := Base + "result/"

  /** The `limit` the main run passes to the walker. */
  const RunLimit := 20

  /** A survey entry under scraper2.py's keys: `result_id`, `url`, `date_added`, `term`. */
  function EntryRecord(e: SurveyEntry): Record {
    EntryDict(e, "url", "date_added")
  }

  // ---------------------------------------------------------------- get_detail_fields

  /** The `dl` loop: the filled pairs of every `div` inside the `dl`, at any depth. */
  function DeepDivPairs(dl: DefList): seq<Pair> {
    Somes(dl.descendantDivs, Keep(true))
  }

  function DefListPhase(page: DetailPage, rid: string): seq<Pair> {
    [("result_id", rid)] + DefListWrites(page.defLists, DeepDivPairs)
  }

  /** `if result: data_output.append(result)`, after the loops. */
  function PageList(page: DetailPage, rid: string): Result<seq<Fields>> {
    match AfterItems(DefListPhase(page, rid), page.scoreItems, SecondSpan)
    case Failure(e) => Failure(e)
    case Success(m) => Success(if m != map[] then [m] else [])
  }

  /** `get_detail_fields(url, rid)`, which requests `url + rid`. */
  function DetailList(server: Server, resultBase: string, rid: string): Result<seq<Fields>> {
    match server(resultBase + rid)
    case NetworkFailure(message) => Failure(message)
    case Response(status, page) =>
      if status != 200 then Failure(StatusError(status)) else PageList(page, rid)
  }

  /** The seeded dict after the `dl` loop. */
  method WriteDefLists(page: DetailPage, rid: string) returns (result: Fields)
    ensures result == Assoc(DefListPhase(page, rid))
  {
    result := map["result_id" := rid];
    ghost var w := [("result_id", rid)];
    assert Assoc(w) == Assoc([])["result_id" := rid];
    assert DefListWrites(page.defLists[..0], DeepDivPairs) == [];
    for i := 0 to |page.defLists|
      invariant w == [("result_id", rid)] + DefListWrites(page.defLists[..i], DeepDivPairs)
      invariant result == Assoc(w)
    {
      result := WriteBoxes(result, w, page.defLists[i].descendantDivs, true);
      DefListWritesNext(page.defLists, i, DeepDivPairs);
      w := w + DeepDivPairs(page.defLists[i]);
    }
    assert page.defLists[..|page.defLists|] == page.defLists;
  }

  method GetDetailFields(server: Server, resultBase: string, rid: string) returns (r: Result<seq<Fields>>)
    ensures r == DetailList(server, resultBase, rid)
  {
    var response := server(resultBase + rid);
    if response.NetworkFailure? {
      return Failure(response.message);
    }
    if response.status != 200 {
      return Failure(StatusError(response.status));
    }
    var page := response.page;
    assert DetailList(server, resultBase, rid) == PageList(page, rid);
    var result := WriteDefLists(page, rid);
    var filled := WriteItems(result, DefListPhase(page, rid), page.scoreItems, SecondSpan);
    if filled.Failure? {
      return Failure(filled.error);
    }
    var dataOutput: seq<Fields> := [];
    if filled.value != map[] {
      dataOutput := dataOutput + [filled.value];
    }
    assert dataOutput == if filled.value != map[] then [filled.value] else [];
    r := Success(dataOutput);
  }

  // ---------------------------------------------------------------- properties of get_detail_fields

  /** The seeded dict is never empty, so a request that succeeds yields exactly one dict, holding `result_id`. */
  lemma DetailListSingle(server: Server, resultBase: string, rid: string)
    requires DetailList(server, resultBase, rid).Success?
    ensures |DetailList(server, resultBase, rid).value| == 1
    ensures "result_id" in DetailList(server, resultBase, rid).value[0]
  {
    var page := server(resultBase + rid).page;
    var ws := ItemWrites(page.scoreItems, SecondSpan).value;
    var ps := DefListPhase(page, rid) + ws;
    assert AfterItems(DefListPhase(page, rid), page.scoreItems, SecondSpan) == Success(Assoc(ps));
    AssocKeys(ps);
    assert Fst(ps[0]) == "result_id";
    assert "result_id" in Assoc(ps);
  }

  /**
   * The request fails exactly on a transport error, on a status other than
   * 200, or on a list item with fewer than two spans (with `IndexError`'s
   * message).
   */
  lemma DetailListFailure(server: Server, resultBase: string, rid: string)
    ensures var resp := server(resultBase + rid);
            var r := DetailList(server, resultBase, rid);
            && (resp.NetworkFailure? ==> r == Failure(resp.message))
            && (resp.Response? && resp.status != 200 ==> r == Failure(StatusError(resp.status)))
            && (resp.Response? && resp.status == 200 ==>
                  (r.Failure? <==> SomeItemRaises(resp.page.scoreItems, SecondSpan))
                  && (r.Failure? ==> r.error == IndexErrorMessage))
  {
    var resp := server(resultBase + rid);
    if resp.Response? && resp.status == 200 {
      ItemWritesFail(resp.page.scoreItems, SecondSpan);
    }
  }

  /**
   * The dict in the list: the `result_id` seed, overridden by the filled
   * pairs of every `div` inside each `dl`, overridden by the list items'
   * first-span to second-span pairs.
   */
  lemma DetailListLayers(server: Server, resultBase: string, rid: string)
    requires DetailList(server, resultBase, rid).Success?
    ensures var page := server(resultBase + rid).page;
            && ItemWrites(page.scoreItems, SecondSpan).Success?
            && DetailList(server, resultBase, rid).value
               == [map["result_id" := rid]
                   + Assoc(DefListWrites(page.defLists, DeepDivPairs))
                   + Assoc(ItemWrites(page.scoreItems, SecondSpan).value)]
            && AllFilled(DefListWrites(page.defLists, DeepDivPairs))
  {
    var page := server(resultBase + rid).page;
    var seed := [("result_id", rid)];
    var dlw := DefListWrites(page.defLists, DeepDivPairs);
    var ws := ItemWrites(page.scoreItems, SecondSpan).value;
    DetailListSingle(server, resultBase, rid);
    AssocAppend(seed + dlw, ws);
    AssocAppend(seed, dlw);
    AssocSingle(("result_id", rid));
    forall dl ensures AllFilled(DeepDivPairs(dl)) {
      SomesFilled(dl.descendantDivs);
    }
    DefListWritesFilled(page.defLists, DeepDivPairs);
  }

  // ---------------------------------------------------------------- the main run

  /** `data.extend(details)` over the entries, or the first failure, which ends the run. */
  function AllDetails(server: Server, links: seq<SurveyEntry>): Result<seq<Fields>> {
    if links == [] then Success([])
    else
      match AllDetails(server, links[..|links| - 1])
      case Failure(e) => Failure(e)
      case Success(data) =>
        match DetailList(server, ResultBase, links[|links| - 1].id)
        case Failure(e) => Failure(e)
        case Success(details) => Success(data + details)
  }

  lemma AllDetailsNext(server: Server, links: seq<SurveyEntry>, i: nat, data: seq<Fields>)
    requires i < |links| && AllDetails(server, links[..i]) == Success(data)
    ensures DetailList(server, ResultBase, links[i].id).Failure? ==>
              AllDetails(server, links[..i + 1]) == Failure(DetailList(server, ResultBase, links[i].id).error)
    ensures DetailList(server, ResultBase, links[i].id).Success? ==>
              AllDetails(server, links[..i + 1]) == Success(data + DetailList(server, ResultBase, links[i].id).value)
  {
    assert links[..i + 1][..i] == links[..i];
  }

  /** A failure part-way leaves the run failed, whatever follows. */
  lemma {:induction false} AllDetailsFailed(server: Server, links: seq<SurveyEntry>, n: nat)
    requires n <= |links| && AllDetails(server, links[..n]).Failure?
    ensures AllDetails(server, links) == AllDetails(server, links[..n])
    decreases |links| - n
  {
    if n < |links| {
      assert links[..n + 1][..n] == links[..n];
      AllDetailsFailed(server, links, n + 1);
    } else {
      assert links[..n] == links;
    }
  }

  /** The request for `rid` succeeded with the single dict `d`. */
  predicate OneDict(server: Server, rid: string, d: Fields) {
    DetailList(server, ResultBase, rid) == Success([d])
  }

  /**
   * When every request succeeds there is one detail dict per entry, in
   * order, each holding `result_id`.
   */
  lemma {:induction false} AllDetailsAligned(server: Server, links: seq<SurveyEntry>)
    requires AllDetails(server, links).Success?
    ensures |AllDetails(server, links).value| == |links|
    ensures forall i | 0 <= i < |links| ::
              OneDict(server, links[i].id, AllDetails(server, links).value[i]) && "result_id" in AllDetails(server, links).value[i]
    decreases |links|
  {
    if links != [] {
      var init := links[..|links| - 1];
      var last := links[|links| - 1];
      AllDetailsAligned(server, init);
      DetailListSingle(server, ResultBase, last.id);
      var prev := AllDetails(server, init).value;
      var details := DetailList(server, ResultBase, last.id).value;
      assert details == [details[0]];
      var data := AllDetails(server, links).value;
      assert data == prev + details;
      forall i | 0 <= i < |links|
        ensures OneDict(server, links[i].id, data[i]) && "result_id" in data[i]
      {
        if i < |init| {
          assert links[i] == init[i] && data[i] == prev[i];
        }
      }
    }
  }

  /** The entries as `survey_keys` sees them: each record keyed by its id. */
  function SurveyPairs(links: seq<SurveyEntry>): (ks: seq<Keyed>)
    ensures |ks| == |links|
    ensures forall i | 0 <= i < |links| :: ks[i] == (links[i].id, EntryRecord(links[i]))
  {
    seq(|links|, i requires 0 <= i < |links| => (links[i].id, EntryRecord(links[i])))
  }

  /**
   * The `__main__` block: walk the listing from page 1 with `limit=20`,
   * fetch every entry's details (stopping at the first failure) and merge.
   * A listing request that raises ends the run with its error before any
   * detail request.  `details_keys` has no `is not None` filter, but every
   * detail dict holds `result_id`, so it is `DetailMap` of the details.
   */
  method Run(site: Site<Row>, resolve: string -> string, server: Server)
    returns (walk: Result<seq<SurveyEntry>>, combined: Result<seq<Record>>, ghost requested: seq<int>)
    ensures walk.Failure? ==> Survey.WalkFailed(site, resolve, 1, None, Some(RunLimit), requested, walk.error)
    ensures walk.Failure? ==> combined == Failure(walk.error)
    ensures walk.Success? ==> Survey.Walked(site, resolve, 1, None, Some(RunLimit), requested, walk.value)
    ensures walk.Success? ==> Distinct(walk.value, EntryId) && |walk.value| <= RunLimit
    ensures walk.Success? && AllDetails(server, walk.value).Failure? ==>
              combined == Failure(AllDetails(server, walk.value).error)
    ensures walk.Success? && AllDetails(server, walk.value).Success? ==>
              combined == Success(Merged(SurveyPairs(walk.value), AllDetails(server, walk.value).value))
  {
    walk, requested := CollectSurveyEntries(site, resolve, 1, None, Some(RunLimit));
    if walk.Failure? {
      return walk, Failure(walk.error), requested;
    }
    var links := walk.value;
    var data: seq<Fields> := [];
    assert links[..0] == [];
    for i := 0 to |links|
      invariant AllDetails(server, links[..i]) == Success(data)
    {
      var details := GetDetailFields(server, ResultBase, links[i].id);
      AllDetailsNext(server, links, i, data);
      if details.Failure? {
        AllDetailsFailed(server, links, i + 1);
        return walk, Failure(details.error), requested;
      }
      data := data + details.value;
    }
    assert links[..|links|] == links;
    var merged := MergeRecords(SurveyPairs(links), data);
    combined := Success(merged);
  }

  /**
   * The main run's outcome when every request succeeds: one record per
   * entry, in walk order, the entry's record overridden by its detail dict
   * (unless that dict relabelled `result_id`).
   */
  lemma RunPerEntry(server: Server, links: seq<SurveyEntry>)
    requires Distinct(links, EntryId) && AllDetails(server, links).Success?
    requires forall i | 0 <= i < |links| && i < |AllDetails(server, links).value| ::
               "result_id" in AllDetails(server, links).value[i] && AllDetails(server, links).value[i]["result_id"] == links[i].id
    ensures |AllDetails(server, links).value| == |links|
    ensures |Merged(SurveyPairs(links), AllDetails(server, links).value)| == |links|
    ensures forall i | 0 <= i < |links| ::
              Merged(SurveyPairs(links), AllDetails(server, links).value)[i]
              == EntryRecord(links[i]) + Lift(AllDetails(server, links).value[i])
  {
    var data := AllDetails(server, links).value;
    AllDetailsAligned(server, links);
    forall i, j | 0 <= i < j < |links| ensures Fst(SurveyPairs(links)[i]) != Fst(SurveyPairs(links)[j]) {
      assert EntryId(links[i]) != EntryId(links[j]);
    }
    MergedPerEntry(SurveyPairs(links), data);
    DetailMapAligned(SurveyPairs(links), data);
  }
}
