/**
 * The join of survey records with detail records, as scrape.py's `__init__`
 * and scraper2.py's `__main__` write it:
 *
 *   survey_map = {r["result_id"]: r for r in links}
 *   detail_map = {d.get("result_id"): d for d in data if d.get("result_id") is not None}
 *   combined   = [{**srec, **detail_map.get(rid, {})} for rid, srec in survey_map.items()]
 *
 * A Python dict comprehension keeps its keys in first-insertion order and
 * each key's last value; `survey_map` is modelled as that order (`Dedup`)
 * together with the values (`Assoc`).
 */
module Merge {
  import opened Wrappers
  import opened Collections
  import opened Records
  import opened Fields

  /** A survey record with the `result_id` that keys it. */
  type Keyed = (string, Record)

  /** The entries of `survey_map` in the dict's order: the first record of each id. */
  function SurveyOrder(survey: seq<Keyed>): seq<Keyed> {
    Dedup(survey, Fst)
  }

  /** `d.get("result_id")` with the record, when that is not None. */
  function DetailEntry(d: Fields): (e: Option<(string, Fields)>)
    ensures e.Some? <==> "result_id" in d
    ensures e.Some? ==> e.value == (d["result_id"], d)
  {
    if "result_id" in d then Some((d["result_id"], d)) else None
  }

  function DetailMap(data: seq<Fields>): map<string, Fields> {
    Assoc(Somes(data, DetailEntry))
  }

  /** `detail_map.get(rid, {})`. */
  function DetailOf(dmap: map<string, Fields>, rid: string): Fields {
    if rid in dmap then dmap[rid] else map[]
  }

  /** Every id of `survey_map`'s order is a key of the dict. */
  lemma OrderInMap(survey: seq<Keyed>)
    ensures forall i | 0 <= i < |SurveyOrder(survey)| :: SurveyOrder(survey)[i].0 in Assoc(survey)
  {
    var order := SurveyOrder(survey);
    DedupKeys(survey, Fst);
    AssocKeys(survey);
    forall i | 0 <= i < |order| ensures order[i].0 in Assoc(survey) {
      assert Fst(order[i]) in Keys(order, Fst);
    }
  }

  /** The merged list: per id of `survey_map`, its record overridden by the detail record for it. */
  function Merged(survey: seq<Keyed>, data: seq<Fields>): (combined: seq<Record>)
    ensures |combined| == |SurveyOrder(survey)|
  {
    var order := SurveyOrder(survey);
    var smap := Assoc(survey);
    var dmap := DetailMap(data);
    OrderInMap(survey);
    seq(|order|, i requires 0 <= i < |order| => smap[order[i].0] + Lift(DetailOf(dmap, order[i].0)))
  }

  /** `{r["result_id"]: r for r in links}`: the dict's key order and its values. */
  method SurveyMap(survey: seq<Keyed>) returns (order: seq<Keyed>, smap: map<string, Record>)
    ensures order == SurveyOrder(survey) && smap == Assoc(survey)
    ensures smap.Keys == Keys(order, Fst)
  {
    order := [];
    smap := map[];
    ghost var done: seq<Keyed> := [];
    for i := 0 to |survey|
      invariant done == survey[..i]
      invariant order == Dedup(done, Fst)
      invariant smap == Assoc(done)
      invariant smap.Keys == Keys(order, Fst)
    {
      var r := survey[i];
      DedupStep(done, r, Fst);
      AssocSnoc(done, r);
      if r.0 !in smap {
        KeysSnoc(order, r, Fst);
        order := order + [r];
      }
      smap := smap[r.0 := r.1];
      done := done + [r];
    }
    assert done == survey;
  }

  /** `{d.get("result_id"): d for d in data if d.get("result_id") is not None}`. */
  method DetailMapOf(data: seq<Fields>) returns (dmap: map<string, Fields>)
    ensures dmap == DetailMap(data)
  {
    dmap := map[];
    for j := 0 to |data|
      invariant dmap == Assoc(Somes(data[..j], DetailEntry))
    {
      SomesNext([], data, j, DetailEntry);
      assert [] + Somes(data[..j], DetailEntry) == Somes(data[..j], DetailEntry);
      assert [] + Somes(data[..j + 1], DetailEntry) == Somes(data[..j + 1], DetailEntry);
      if "result_id" in data[j] {
        AssocSnoc(Somes(data[..j], DetailEntry), (data[j]["result_id"], data[j]));
        dmap := dmap[data[j]["result_id"] := data[j]];
      }
    }
    assert data[..|data|] == data;
  }

  /** The merge: the two dicts, then one merged record per key of `survey_map`. */
  method MergeRecords(survey: seq<Keyed>, data: seq<Fields>) returns (combined: seq<Record>)
    ensures combined == Merged(survey, data)
  {
    var order, smap := SurveyMap(survey);
    var dmap := DetailMapOf(data);
    combined := [];
    for i := 0 to |order|
      invariant |combined| == i
      invariant forall k | 0 <= k < i :: combined[k] == smap[order[k].0] + Lift(DetailOf(dmap, order[k].0))
    {
      var rid := order[i].0;
      assert Fst(order[i]) in Keys(order, Fst);
      var drec := if rid in dmap then dmap[rid] else map[];
      combined := combined + [smap[rid] + Lift(drec)];
    }
  }

  // ---------------------------------------------------------------- properties

  /**
   * `survey_map` loses no id and repeats none: the merged records follow
   * the survey ids in first-seen order, each id once.
   */
  lemma MergedIds(survey: seq<Keyed>)
    ensures Keys(SurveyOrder(survey), Fst) == Keys(survey, Fst)
    ensures Distinct(SurveyOrder(survey), Fst)
  {
    DedupKeys(survey, Fst);
    DedupDistinct(survey, Fst);
  }

  /**
   * With distinct survey ids (as the walker guarantees), there is exactly
   * one merged record per survey entry, in survey order: the entry's record
   * overridden by the detail record for its id, or by `{}`.
   */
  lemma MergedPerEntry(survey: seq<Keyed>, data: seq<Fields>)
    requires Distinct(survey, Fst)
    ensures |Merged(survey, data)| == |survey|
    ensures forall i | 0 <= i < |survey| ::
      Merged(survey, data)[i] == survey[i].1 + Lift(DetailOf(DetailMap(data), survey[i].0))
  {
    DedupOfDistinct(survey, Fst);
    AssocDistinct(survey);
  }

  /**
   * `{**srec, **drec}`: on a key the detail record holds, the detail value
   * wins; every other key keeps the survey value; no other key appears.
   */
  lemma MergedDetailWins(survey: seq<Keyed>, data: seq<Fields>, i: nat)
    requires i < |Merged(survey, data)|
    ensures SurveyOrder(survey)[i].0 in Assoc(survey)
    ensures var rid := SurveyOrder(survey)[i].0;
            var drec := DetailOf(DetailMap(data), rid);
            var srec := Assoc(survey)[rid];
            && Merged(survey, data)[i].Keys == srec.Keys + drec.Keys
            && (forall k | k in drec :: Merged(survey, data)[i][k] == Str(drec[k]))
            && (forall k | k in srec && k !in drec :: Merged(survey, data)[i][k] == srec[k])
  {
    OrderInMap(survey);
  }

  /**
   * Detail records aligned with distinct survey entries, each still carrying
   * its entry's id, are found again by the merge: entry `i` is joined with
   * `data[i]`.
   */
  lemma DetailMapAligned(survey: seq<Keyed>, data: seq<Fields>)
    requires Distinct(survey, Fst) && |data| == |survey|
    requires forall i | 0 <= i < |data| :: "result_id" in data[i] && data[i]["result_id"] == survey[i].0
    ensures forall i | 0 <= i < |survey| :: DetailOf(DetailMap(data), survey[i].0) == data[i]
  {
    SomesAll(data, DetailEntry);
    var ps := Somes(data, DetailEntry);
    assert forall i | 0 <= i < |ps| :: ps[i] == (survey[i].0, data[i]);
    forall i, j | 0 <= i < j < |ps| ensures Fst(ps[i]) != Fst(ps[j]) {
      assert Fst(survey[i]) != Fst(survey[j]);
    }
    AssocDistinct(ps);
  }
}
