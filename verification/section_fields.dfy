/**
 * `get_detail_fields(url)` of module_2/test.py, the first one-page
 * experiment: it reads only the first `dl` of the first `div.tw-mt-6`, takes
 * that `dl`'s direct `div` children, and keeps every box that holds a `dt`
 * and a `dd`, empty label or empty value included.  Nothing seeds the dict
 * and list items are not read.
 */
module SectionFields {
  import opened Wrappers
  import opened Text
  import opened Collections
  import opened Markup
  import opened Fields

  /** The boxes the loop visits: the first `dl`'s direct `div`s, or none when the section or the `dl` is missing. */
  function SectionBoxes(page: DetailPage): seq<LabelBox> {
    match page.mainSection
    case None => []
    case Some(section) =>
      match section.firstDl
      case None => []
      case Some(dl) => dl.childDivs
  }

  /** The dict the page yields: the boxes' pairs written in document order. */
  function PageFields(page: DetailPage): Fields {
    Assoc(Somes(SectionBoxes(page), BoxPair))
  }

  /**
   * `get_detail_fields(url)`: the outcome of one request.  It fails exactly
   * on a transport error or on a status other than 200; a page of any shape
   * gives a dict.
   */
  function DetailFields(server: Server, url: string): (r: Result<Fields>)
    ensures r.Failure? <==> server(url).NetworkFailure? || server(url).status != 200
    ensures server(url).NetworkFailure? ==> r == Failure(server(url).message)
    ensures server(url).Response? && server(url).status != 200 ==> r == Failure(StatusError(server(url).status))
  {
    match server(url)
    case NetworkFailure(message) => Failure(message)
    case Response(status, page) =>
      if status != 200 then Failure(StatusError(status)) else Success(PageFields(page))
  }

  method GetDetailFields(server: Server, url: string) returns (r: Result<Fields>)
    ensures r == DetailFields(server, url)
  {
    var response := server(url);
    if response.NetworkFailure? {
      return Failure(response.message);
    }
    if response.status != 200 {
      return Failure(StatusError(response.status));
    }
    var section := response.page.mainSection;
    if section.None? {
      return Success(map[]);
    }
    var dl := section.value.firstDl;
    if dl.None? {
      return Success(map[]);
    }
    var result := WriteBoxes(map[], [], dl.value.childDivs, false);
    assert [] + Somes(dl.value.childDivs, Keep(false)) == Somes(SectionBoxes(response.page), BoxPair);
    return Success(result);
  }

  // ---------------------------------------------------------------- properties

  /** Box `j` holds a `dt` and a `dd`, and its label is `k`. */
  predicate Labels(boxes: seq<LabelBox>, j: int, k: string) {
    0 <= j < |boxes| && BoxPair(boxes[j]).Some? && BoxPair(boxes[j]).value.0 == k
  }

  /** The dict's keys are exactly the labels of the boxes holding both a `dt` and a `dd`. */
  lemma {:induction false} PageFieldsKeys(boxes: seq<LabelBox>)
    ensures forall k :: k in Assoc(Somes(boxes, BoxPair)) <==> exists j :: Labels(boxes, j, k)
  {
    var ps := Somes(boxes, BoxPair);
    AssocKeys(ps);
    SomesFrom(boxes, BoxPair);
    SomesOf(boxes, BoxPair);
    forall k ensures k in Assoc(ps) <==> exists j :: Labels(boxes, j, k) {
      if k in Assoc(ps) {
        var i :| 0 <= i < |ps| && Fst(ps[i]) == k;
        assert ps[i] in ps;
        var j :| 0 <= j < |boxes| && BoxPair(boxes[j]) == Some(ps[i]);
        assert Labels(boxes, j, k);
      }
      if exists j :: Labels(boxes, j, k) {
        var j :| Labels(boxes, j, k);
        var p := BoxPair(boxes[j]).value;
        var i :| 0 <= i < |ps| && ps[i] == p;
        assert Fst(ps[i]) == k && ps[i] in ps;
      }
    }
  }

  /**
   * A box whose `dt` holds only whitespace still writes its value, under
   * the empty label: unlike the later extractors, nothing filters it.
   */
  lemma BlankLabelKept(boxes: seq<LabelBox>, j: nat)
    requires j < |boxes| && boxes[j].dt.Some? && boxes[j].dd.Some?
    requires forall i | 0 <= i < |boxes[j].dt.value| :: Blank(boxes[j].dt.value[i])
    ensures "" in Assoc(Somes(boxes, BoxPair))
  {
    GetTextEmpty(boxes[j].dt.value, "");
    assert Labels(boxes, j, "");
    PageFieldsKeys(boxes);
  }

  /** The page gives `{}` exactly when no box the loop visits holds both a `dt` and a `dd`. */
  lemma PageFieldsEmpty(page: DetailPage)
    ensures PageFields(page) == map[] <==>
            forall j | 0 <= j < |SectionBoxes(page)| :: SectionBoxes(page)[j].dt.None? || SectionBoxes(page)[j].dd.None?
  {
    var boxes := SectionBoxes(page);
    PageFieldsKeys(boxes);
    if PageFields(page) != map[] {
      var k :| k in PageFields(page);
      var j :| Labels(boxes, j, k);
      assert !(boxes[j].dt.None? || boxes[j].dd.None?);
    }
    if exists j | 0 <= j < |boxes| :: !(boxes[j].dt.None? || boxes[j].dd.None?) {
      var j :| 0 <= j < |boxes| && !(boxes[j].dt.None? || boxes[j].dd.None?);
      assert Labels(boxes, j, BoxPair(boxes[j]).value.0);
      assert BoxPair(boxes[j]).value.0 in PageFields(page);
    }
  }

  /** `result[key] = val`: a later box with the same label replaces the earlier value; other keys are untouched. */
  lemma LaterBoxWins(boxes: seq<LabelBox>, b: LabelBox)
    requires b.dt.Some? && b.dd.Some?
    ensures var m := Assoc(Somes(boxes + [b], BoxPair));
            var p := BoxPair(b).value;
            && p.0 in m && m[p.0] == p.1
            && forall k | k in Assoc(Somes(boxes, BoxPair)) && k != p.0 :: k in m && m[k] == Assoc(Somes(boxes, BoxPair))[k]
  {
    SomesStep(boxes, b, BoxPair);
    AssocSnoc(Somes(boxes, BoxPair), BoxPair(b).value);
  }
}
