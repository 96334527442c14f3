/**
 * `get_detail_fields(url)` of module_2/test2.py, the second one-page
 * experiment: for every `dl` of the page it reads the `dt`/`dd` boxes of
 * every `div` inside the `dl` at any depth, then every direct `dt` child with
 * its next sibling `dd`, and keeps a pair only when label and value are
 * both non-empty.  Nothing seeds the dict and list items are not read.
 */
module DeepFields {
  import opened Wrappers
  import opened Text
  import opened Collections
  import opened Markup
  import opened Fields

  /** One `dl`: the filled pairs of its nested `div`s, then of its flat `dt`/`dd` siblings. */
  function DeepAndFlatPairs(dl: DefList): seq<Pair> {
    Somes(dl.descendantDivs, FilledPair) + Somes(dl.childDts, FilledPair)
  }

  /** The dict the `dl`s yield, written in document order. */
  function DefListFields(dls: seq<DefList>): Fields {
    Assoc(DefListWrites(dls, DeepAndFlatPairs))
  }

  /**
   * `get_detail_fields(url)`: the outcome of one request.  It fails exactly
   * on a transport error or on a status other than 200.
   */
  function DetailFields(server: Server, url: string): (r: Result<Fields>)
    ensures r.Failure? <==> server(url).NetworkFailure? || server(url).status != 200
    ensures server(url).NetworkFailure? ==> r == Failure(server(url).message)
    ensures server(url).Response? && server(url).status != 200 ==> r == Failure(StatusError(server(url).status))
  {
    match server(url)
    case NetworkFailure(message) => Failure(message)
    case Response(status, page) =>
      if status != 200 then Failure(StatusError(status)) else Success(DefListFields(page.defLists))
  }

  /** One turn of the `for dl in dls` loop: its two inner loops. */
  method WriteDefList(result0: Fields, ghost w0: seq<Pair>, dl: DefList) returns (result: Fields)
    requires result0 == Assoc(w0)
    ensures result == Assoc(w0 + DeepAndFlatPairs(dl))
  {
    assert Keep(true) == FilledPair;
    result := WriteBoxes(result0, w0, dl.descendantDivs, true);
    result := WriteBoxes(result, w0 + Somes(dl.descendantDivs, FilledPair), dl.childDts, true);
    assert w0 + Somes(dl.descendantDivs, FilledPair) + Somes(dl.childDts, FilledPair) == w0 + DeepAndFlatPairs(dl);
  }

  /** The `for dl in dls` loop. */
  method WriteDefLists(dls: seq<DefList>) returns (result: Fields)
    ensures result == DefListFields(dls)
  {
    result := map[];
    assert DefListWrites(dls[..0], DeepAndFlatPairs) == [];
    for i := 0 to |dls|
      invariant result == Assoc(DefListWrites(dls[..i], DeepAndFlatPairs))
    {
      result := WriteDefList(result, DefListWrites(dls[..i], DeepAndFlatPairs), dls[i]);
      DefListWritesNext(dls, i, DeepAndFlatPairs);
    }
    assert dls[..|dls|] == dls;
  }

  method GetDetailFields(server: Server, url: string) returns (r: Result<Fields>)
    ensures r == DetailFields(server, url)
  {
    var response := server(url);
    if response.NetworkFailure? {
      return Failure(response.message);
    }
    if response.status != 200 {
      return Failure(StatusError(response.status));
    }
    var result := WriteDefLists(response.page.defLists);
    return Success(result);
  }

  // ---------------------------------------------------------------- properties

  /** Both inner loops keep only filled pairs. */
  lemma DeepAndFlatFilled(dl: DefList)
    ensures AllFilled(DeepAndFlatPairs(dl))
  {
    SomesFilled(dl.descendantDivs);
    SomesFilled(dl.childDts);
  }

  /** `if key and val`: every label in the dict, and every value, is non-empty. */
  lemma DefListFieldsFilled(dls: seq<DefList>)
    ensures forall k | k in DefListFields(dls) :: k != [] && DefListFields(dls)[k] != []
  {
    var ps := DefListWrites(dls, DeepAndFlatPairs);
    forall dl ensures AllFilled(DeepAndFlatPairs(dl)) {
      DeepAndFlatFilled(dl);
    }
    DefListWritesFilled(dls, DeepAndFlatPairs);
    AssocLastWins(ps);
    forall k | k in Assoc(ps) ensures k != [] && Assoc(ps)[k] != [] {
      var i :| LastWrite(ps, i, k) && Assoc(ps)[k] == ps[i].1;
    }
  }

  /** A `dl` none of whose boxes, nested or flat, holds a non-empty label and a non-empty value. */
  predicate Unfilled(dl: DefList) {
    && (forall j | 0 <= j < |dl.descendantDivs| :: FilledPair(dl.descendantDivs[j]).None?)
    && (forall j | 0 <= j < |dl.childDts| :: FilledPair(dl.childDts[j]).None?)
  }

  /** The result is `{}` (the "No dt/dd pairs found" case) exactly when no `dl` has a filled box. */
  lemma DefListFieldsEmpty(dls: seq<DefList>)
    ensures DefListFields(dls) == map[] <==> forall i | 0 <= i < |dls| :: Unfilled(dls[i])
  {
    var ps := DefListWrites(dls, DeepAndFlatPairs);
    AssocKeys(ps);
    if ps != [] {
      assert Fst(ps[0]) in Keys(ps, Fst);
      assert Fst(ps[0]) in Assoc(ps);
    }
    DefListWritesEmpty(dls, DeepAndFlatPairs);
    forall i | 0 <= i < |dls| ensures DeepAndFlatPairs(dls[i]) == [] <==> Unfilled(dls[i]) {
      SomesNone(dls[i].descendantDivs, FilledPair);
      SomesNone(dls[i].childDts, FilledPair);
    }
  }

  /**
   * `result[key] = val` across the loops: a later `dl` overrides the earlier
   * ones, and within a `dl` a flat `dt`/`dd` pair overrides a nested one.
   */
  lemma DefListFieldsLayers(dls: seq<DefList>, dl: DefList)
    ensures DefListFields(dls + [dl])
         == DefListFields(dls) + Assoc(Somes(dl.descendantDivs, FilledPair)) + Assoc(Somes(dl.childDts, FilledPair))
  {
    var before := DefListWrites(dls, DeepAndFlatPairs);
    var deep := Somes(dl.descendantDivs, FilledPair);
    var flat := Somes(dl.childDts, FilledPair);
    DefListWritesStep(dls, dl, DeepAndFlatPairs);
    assert before + DeepAndFlatPairs(dl) == (before + deep) + flat;
    AssocAppend(before + deep, flat);
    AssocAppend(before, deep);
  }
}
