/**
 * module_2/clean.py: `clean_data` takes a `scrape_data` harvest and cleans
 * its combined records in place.  `self.data` is the harvest's own
 * `combined` list, so the harvest sees the cleaned records too.  Each
 * record has the whitespace of every text value collapsed, then up to seven
 * keys renamed to the canonical names; a rename never overwrites a key
 * that is already present.
 */
module Clean {
  import opened Text
  import opened Records
  import opened Scrape

  // ---------------------------------------------------------------- whitespace

  /** `" ".join(val.split()).strip()` on a string value; None is left alone. */
  function CollapseValue(v: Value): Value {
    if v.Str? then Str(Normalize(v.s)) else v
  }

  /** The record after the `for key, val in list(record.items())` loop. */
  function Collapsed(r: Record): (c: Record)
    ensures c.Keys == r.Keys
    ensures forall k | k in r :: c[k] == CollapseValue(r[k])
  {
    map k | k in r :: CollapseValue(r[k])
  }

  // ---------------------------------------------------------------- renaming

  /** `rename_map`, in its insertion order: old key, new key. */
  const Renames: seq<(string, string)> := [
    ("result_url", "url"),
    ("added_on", "date_added"),
    ("Decision", "status"),
    ("Institution", "university"),
    ("Program", "program"),
    ("Degree's Country of Origin", "US/International"),
    ("Degree Type", "Degree")
  ]

  /** `if old_key in record and new_key not in record: record[new_key] = record.pop(old_key)`. */
  function RenameOne(r: Record, oldKey: string, newKey: string): Record {
    if oldKey in r && newKey !in r then (r - {oldKey})[newKey := r[oldKey]] else r
  }

  /** The renames of `rs`, applied in order. */
  function RenameAll(r: Record, rs: seq<(string, string)>): Record {
    if rs == [] then r
    else
      var last := rs[|rs| - 1];
      RenameOne(RenameAll(r, rs[..|rs| - 1]), last.0, last.1)
  }

  /** One record, cleaned. */
  function CleanRecord(r: Record): Record {
    RenameAll(Collapsed(r), Renames)
  }

  /** A list of records, each cleaned, in the same order. */
  function Cleaned(rs: seq<Record>): (c: seq<Record>)
    ensures |c| == |rs|
    ensures forall i | 0 <= i < |rs| :: c[i] == CleanRecord(rs[i])
  {
    seq(|rs|, i requires 0 <= i < |rs| => CleanRecord(rs[i]))
  }

  /** `k` is an old or a new key of the table. */
  predicate Renamed(rs: seq<(string, string)>, k: string) {
    exists j | 0 <= j < |rs| :: rs[j].0 == k || rs[j].1 == k
  }

  /**
   * A table whose renames cannot interfere: no new key is an old key, and
   * the old keys, like the new keys, are pairwise distinct.
   */
  predicate Separate(rs: seq<(string, string)>) {
    && (forall i, j | 0 <= i < |rs| && 0 <= j < |rs| :: rs[i].1 != rs[j].0)
    && (forall i, j | 0 <= i < j < |rs| :: rs[i].0 != rs[j].0 && rs[i].1 != rs[j].1)
  }

  /** A string's length and first character, which tell the table's keys apart. */
  function Signature(s: string): (int, char) {
    (|s|, if s == [] then ' ' else s[0])
  }

  lemma RenamesSeparate()
    ensures Separate(Renames)
  {
    var olds := [(10, 'r'), (8, 'a'), (8, 'D'), (11, 'I'), (7, 'P'), (26, 'D'), (11, 'D')];
    var news := [(3, 'u'), (10, 'd'), (6, 's'), (10, 'u'), (7, 'p'), (16, 'U'), (6, 'D')];
    forall i | 0 <= i < |Renames| ensures Signature(Renames[i].0) == olds[i] && Signature(Renames[i].1) == news[i] {
    }
    forall i, j | 0 <= i < |Renames| && 0 <= j < |Renames| ensures Renames[i].1 != Renames[j].0 {
      assert news[i] != olds[j];
    }
    forall i, j | 0 <= i < j < |Renames| ensures Renames[i].0 != Renames[j].0 && Renames[i].1 != Renames[j].1 {
      assert olds[i] != olds[j] && news[i] != news[j];
    }
  }

  // ---------------------------------------------------------------- the class

  class CleanData {
    /** The harvest whose `combined` list `self.data` is. */
    const source: ScrapeData

    /** `clean_data(data)`: keeps the harvest and cleans its records. */
    constructor (data: ScrapeData)
      modifies data
      ensures source == data
      ensures data.combined == Cleaned(old(data.combined))
      ensures data.links == old(data.links) && data.data == old(data.data)
      ensures data.requested == old(data.requested)
    {
      source := data;
      new;
      Clean();
    }

    /** `clean()`: every record of `self.data`, in place; nothing else of the harvest changes. */
    method Clean()
      modifies source
      ensures source.combined == Cleaned(old(source.combined))
      ensures source.links == old(source.links) && source.data == old(source.data)
      ensures source.requested == old(source.requested)
    {
      ghost var records := source.combined;
      var n := |source.combined|;
      for i := 0 to n
        invariant |source.combined| == |records|
        invariant forall k | 0 <= k < i :: source.combined[k] == CleanRecord(records[k])
        invariant forall k | i <= k < |records| :: source.combined[k] == records[k]
        invariant source.links == old(source.links) && source.data == old(source.data)
        invariant source.requested == old(source.requested)
      {
        var record := CollapseFields(source.combined[i]);
        record := RenameFields(record);
        source.combined := source.combined[i := record];
      }
    }
  }

  /** The whitespace loop over a snapshot of the record's items. */
  method CollapseFields(r0: Record) returns (r: Record)
    ensures r == Collapsed(r0)
  {
    r := r0;
    var todo := r0.Keys;
    while todo != {}
      invariant todo <= r0.Keys && r.Keys == r0.Keys
      invariant forall k | k in todo :: r[k] == r0[k]
      invariant forall k | k in r0 && k !in todo :: r[k] == CollapseValue(r0[k])
      decreases |todo|
    {
      var key :| key in todo;
      var val := r[key];
      if val.Str? {
        r := r[key := CollapseValue(val)];
      }
      todo := todo - {key};
    }
    CollapsedFrom(r0, r);
  }

  lemma CollapsedFrom(r0: Record, r: Record)
    requires r.Keys == r0.Keys
    requires forall k | k in r0 :: r[k] == CollapseValue(r0[k])
    ensures r == Collapsed(r0)
  {
  }

  /** The rename loop. */
  method RenameFields(r0: Record) returns (r: Record)
    ensures r == RenameAll(r0, Renames)
  {
    r := r0;
    for j := 0 to |Renames|
      invariant r == RenameAll(r0, Renames[..j])
    {
      var (oldKey, newKey) := Renames[j];
      assert Renames[..j + 1][..j] == Renames[..j];
      if oldKey in r && newKey !in r {
        var v := r[oldKey];
        r := r - {oldKey};
        r := r[newKey := v];
      }
    }
    assert Renames[..|Renames|] == Renames;
  }

  // ---------------------------------------------------------------- properties of the renames

  /** Renames that neither read nor write `k` leave it as it was. */
  lemma {:induction false} RenamePrefixOther(r: Record, rs: seq<(string, string)>, n: nat, k: string)
    requires n <= |rs|
    requires forall i | 0 <= i < n :: rs[i].0 != k && rs[i].1 != k
    ensures k in RenameAll(r, rs[..n]) <==> k in r
    ensures k in r ==> RenameAll(r, rs[..n])[k] == r[k]
    decreases n
  {
    if n > 0 {
      assert rs[..n][..n - 1] == rs[..n - 1];
      RenamePrefixOther(r, rs, n - 1, k);
    }
  }

  /** What the first `n` renames of a separate table do to the two keys of rename `j`, one of them. */
  predicate PairOutcome(r: Record, m: Record, a: string, b: string) {
    && (b in r ==> b in m && m[b] == r[b] && (a in r <==> a in m) && (a in r ==> m[a] == r[a]))
    && (a in r && b !in r ==> a !in m && b in m && m[b] == r[a])
    && (a !in r && b !in r ==> a !in m && b !in m)
  }

  lemma {:induction false} RenamePrefixPair(r: Record, rs: seq<(string, string)>, n: nat, j: nat)
    requires Separate(rs) && j < n <= |rs|
    ensures PairOutcome(r, RenameAll(r, rs[..n]), rs[j].0, rs[j].1)
    decreases n
  {
    var a, b := rs[j].0, rs[j].1;
    assert rs[..n][..n - 1] == rs[..n - 1];
    if n == j + 1 {
      RenamePrefixOther(r, rs, j, a);
      RenamePrefixOther(r, rs, j, b);
    } else {
      RenamePrefixPair(r, rs, n - 1, j);
      assert rs[n - 1].0 != a && rs[n - 1].0 != b && rs[n - 1].1 != a && rs[n - 1].1 != b;
    }
  }

  /** Every rename of the table has done what it could: its old key is gone or its new key is present. */
  predicate Settled(m: Record, rs: seq<(string, string)>) {
    forall j | 0 <= j < |rs| :: rs[j].0 !in m || rs[j].1 in m
  }

  lemma RenameAllSettles(r: Record, rs: seq<(string, string)>)
    requires Separate(rs)
    ensures Settled(RenameAll(r, rs), rs)
  {
    assert rs[..|rs|] == rs;
    forall j | 0 <= j < |rs| ensures rs[j].0 !in RenameAll(r, rs) || rs[j].1 in RenameAll(r, rs) {
      RenamePrefixPair(r, rs, |rs|, j);
    }
  }

  /** On a settled record no rename fires. */
  lemma {:induction false} RenameAllOfSettled(m: Record, rs: seq<(string, string)>)
    requires Settled(m, rs)
    ensures RenameAll(m, rs) == m
    decreases |rs|
  {
    if rs != [] {
      var init := rs[..|rs| - 1];
      assert Settled(m, init) by {
        forall j | 0 <= j < |init| ensures init[j].0 !in m || init[j].1 in m {
          assert init[j] == rs[j];
        }
      }
      RenameAllOfSettled(m, init);
    }
  }

  /** Every text value is in whitespace normal form. */
  predicate TextsSingleSpaced(m: Record) {
    forall k | k in m && m[k].Str? :: SingleSpaced(m[k].s)
  }

  /** Renames move values and create none. */
  lemma {:induction false} RenameAllSingleSpaced(r: Record, rs: seq<(string, string)>)
    requires TextsSingleSpaced(r)
    ensures TextsSingleSpaced(RenameAll(r, rs))
    decreases |rs|
  {
    if rs != [] {
      RenameAllSingleSpaced(r, rs[..|rs| - 1]);
    }
  }

  // ---------------------------------------------------------------- properties of a cleaned record

  /** Every text value of a cleaned record is single-spaced, with no whitespace at either end. */
  lemma CleanSingleSpaced(r: Record)
    ensures TextsSingleSpaced(CleanRecord(r))
  {
    forall k | k in Collapsed(r) && Collapsed(r)[k].Str? ensures SingleSpaced(Collapsed(r)[k].s) {
      NormalizeSingleSpaced(r[k].s);
    }
    RenameAllSingleSpaced(Collapsed(r), Renames);
  }

  /** A key the table does not name keeps its presence and its collapsed value. */
  lemma CleanOtherKeys(r: Record, k: string)
    requires !Renamed(Renames, k)
    ensures k in CleanRecord(r) <==> k in r
    ensures k in r ==> CleanRecord(r)[k] == CollapseValue(r[k])
  {
    assert Renames[..|Renames|] == Renames;
    RenamePrefixOther(Collapsed(r), Renames, |Renames|, k);
  }

  /**
   * Rename `j` of `rename_map`: a present new key is never overwritten (and
   * then the old key stays); otherwise a present old key moves to the new
   * key with its collapsed value; with neither present, neither appears.
   */
  lemma CleanRenames(r: Record, j: nat)
    requires j < |Renames|
    ensures PairOutcome(Collapsed(r), CleanRecord(r), Renames[j].0, Renames[j].1)
  {
    RenamesSeparate();
    assert Renames[..|Renames|] == Renames;
    RenamePrefixPair(Collapsed(r), Renames, |Renames|, j);
  }

  /** Cleaning a cleaned record changes nothing. */
  lemma CleanIdempotent(r: Record)
    ensures CleanRecord(CleanRecord(r)) == CleanRecord(r)
  {
    var c := CleanRecord(r);
    CleanSingleSpaced(r);
    forall k | k in c ensures CollapseValue(c[k]) == c[k] {
      if c[k].Str? {
        NormalizeIdempotent(c[k].s);
      }
    }
    assert Collapsed(c) == c;
    RenamesSeparate();
    RenameAllSettles(Collapsed(r), Renames);
    RenameAllOfSettled(c, Renames);
  }
}
