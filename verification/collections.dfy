/**
 * Sequence and map bookkeeping shared by the harvester's loops:
 *   - `Dedup`: keep the first element for every key, in order, as a loop
 *     that checks a shared `seen` set before appending does;
 *   - `Capped`: the list a `len(out) >= limit` early return leaves behind;
 *   - `Assoc`: the dict that successive `d[k] = v` writes build;
 *   - `Somes`: what a loop that skips the items it cannot use collects.
 */
module Collections {
  import opened Wrappers

  /** The keys carried by the elements of `xs`. */
  function Keys<T, K(==)>(xs: seq<T>, key: T -> K): set<K> {
    set i | 0 <= i < |xs| :: key(xs[i])
  }

  /** No key occurs twice. */
  predicate Distinct<T, K(==)>(xs: seq<T>, key: T -> K) {
    forall i, j | 0 <= i < j < |xs| :: key(xs[i]) != key(xs[j])
  }

  /** Appending an element adds its key. */
  lemma KeysSnoc<T, K>(xs: seq<T>, x: T, key: T -> K)
    ensures Keys(xs + [x], key) == Keys(xs, key) + {key(x)}
  {
    var e := xs + [x];
    forall k | k in Keys(e, key) ensures k in Keys(xs, key) + {key(x)} {
      var i :| 0 <= i < |e| && key(e[i]) == k;
      if i < |xs| {
        assert e[i] == xs[i];
      }
    }
    forall k | k in Keys(xs, key) ensures k in Keys(e, key) {
      var i :| 0 <= i < |xs| && key(xs[i]) == k;
      assert e[i] == xs[i];
    }
    assert e[|xs|] == x;
  }

  /**
   * The elements of `xs` whose key has not been seen before them, in order:
   * what appending `x` only when `key(x) !in seen` (then adding it to `seen`)
   * collects.
   */
  function Dedup<T, K(==)>(xs: seq<T>, key: T -> K): seq<T>
  {
    if xs == [] then []
    else
      var d := Dedup(xs[..|xs| - 1], key);
      if key(xs[|xs| - 1]) in Keys(d, key) then d else d + [xs[|xs| - 1]]
  }

  lemma DedupStep<T, K>(xs: seq<T>, x: T, key: T -> K)
    ensures Dedup(xs + [x], key)
         == if key(x) in Keys(Dedup(xs, key), key) then Dedup(xs, key) else Dedup(xs, key) + [x]
  {
    assert (xs + [x])[..|xs|] == xs;
  }

  /** The result of `Dedup` carries each key at most once. */
  lemma {:induction false} DedupDistinct<T, K>(xs: seq<T>, key: T -> K)
    ensures Distinct(Dedup(xs, key), key)
    decreases |xs|
  {
    if xs != [] {
      var d := Dedup(xs[..|xs| - 1], key);
      DedupDistinct(xs[..|xs| - 1], key);
      var x := xs[|xs| - 1];
      if key(x) !in Keys(d, key) {
        var e := d + [x];
        forall i, j | 0 <= i < j < |e| ensures key(e[i]) != key(e[j]) {
          if j == |d| {
            assert key(e[i]) in Keys(d, key);
          } else {
            assert e[i] == d[i] && e[j] == d[j];
          }
        }
      }
    }
  }

  /** Nothing is lost but repeats: `Dedup` keeps exactly the keys of its input. */
  lemma {:induction false} DedupKeys<T, K>(xs: seq<T>, key: T -> K)
    ensures Keys(Dedup(xs, key), key) == Keys(xs, key)
    decreases |xs|
  {
    if xs != [] {
      var init := xs[..|xs| - 1];
      var x := xs[|xs| - 1];
      DedupKeys(init, key);
      assert xs == init + [x];
      assert Keys(xs, key) == Keys(init, key) + {key(x)} by {
        forall k | k in Keys(xs, key) ensures k in Keys(init, key) + {key(x)} {
          var i :| 0 <= i < |xs| && key(xs[i]) == k;
          if i < |init| {
            assert xs[i] == init[i];
          }
        }
        forall k | k in Keys(init, key) ensures k in Keys(xs, key) {
          var i :| 0 <= i < |init| && key(init[i]) == k;
          assert xs[i] == init[i];
        }
      }
      var d := Dedup(init, key);
      if key(x) !in Keys(d, key) {
        var e := d + [x];
        assert Keys(e, key) == Keys(d, key) + {key(x)} by {
          forall k | k in Keys(e, key) ensures k in Keys(d, key) + {key(x)} {
            var i :| 0 <= i < |e| && key(e[i]) == k;
            if i < |d| {
              assert e[i] == d[i];
            }
          }
          forall k | k in Keys(d, key) ensures k in Keys(e, key) {
            var i :| 0 <= i < |d| && key(d[i]) == k;
            assert e[i] == d[i];
          }
          assert e[|d|] == x;
        }
      }
    }
  }

  /** Every element `Dedup` keeps is an element of its input. */
  lemma {:induction false} DedupFrom<T, K>(xs: seq<T>, key: T -> K)
    ensures forall i | 0 <= i < |Dedup(xs, key)| :: Dedup(xs, key)[i] in xs
    decreases |xs|
  {
    if xs != [] {
      var init := xs[..|xs| - 1];
      DedupFrom(init, key);
      var d := Dedup(init, key);
      forall i | 0 <= i < |d| ensures d[i] in xs {
        assert d[i] in init;
        var j :| 0 <= j < |init| && init[j] == d[i];
        assert xs[j] == init[j];
      }
    }
  }

  /** Walking further only appends: the deduplicated prefix is a prefix of the deduplicated whole. */
  lemma {:induction false} DedupPrefix<T, K>(xs: seq<T>, ys: seq<T>, key: T -> K)
    ensures |Dedup(xs, key)| <= |Dedup(xs + ys, key)|
    ensures Dedup(xs + ys, key)[..|Dedup(xs, key)|] == Dedup(xs, key)
    decreases |ys|
  {
    if ys == [] {
      assert xs + ys == xs;
    } else {
      var init := ys[..|ys| - 1];
      DedupPrefix(xs, init, key);
      assert xs + ys == (xs + init) + [ys[|ys| - 1]];
      DedupStep(xs + init, ys[|ys| - 1], key);
    }
  }

  /** A list whose keys are already distinct is its own deduplication. */
  lemma {:induction false} DedupOfDistinct<T, K>(xs: seq<T>, key: T -> K)
    requires Distinct(xs, key)
    ensures Dedup(xs, key) == xs
    decreases |xs|
  {
    if xs != [] {
      var init, last := xs[..|xs| - 1], xs[|xs| - 1];
      assert init + [last] == xs;
      assert Distinct(init, key) by {
        forall i, j | 0 <= i < j < |init| ensures key(init[i]) != key(init[j]) {
          assert init[i] == xs[i] && init[j] == xs[j];
        }
      }
      DedupOfDistinct(init, key);
      forall i | 0 <= i < |init| ensures key(init[i]) != key(last) {
        assert init[i] == xs[i];
      }
      DedupStep(init, last, key);
    }
  }

  // ---------------------------------------------------------------- limit

  /**
   * The number of entries after which `if len(out) >= limit: return out`
   * fires: the limit test runs only right after an append, so a limit of
   * zero or below still lets the first entry through.
   */
  function Cap(limit: int): (n: nat)
    ensures n >= 1 && n >= limit
    ensures limit >= 1 ==> n == limit
  {
    if limit >= 1 then limit else 1
  }

  /** Whether a walk with this `limit` has collected enough to return. */
  predicate LimitHit<T>(xs: seq<T>, limit: Option<int>) {
    limit.Some? && |xs| >= Cap(limit.value)
  }

  /** What survives of `xs` when collection stops at the limit. */
  function Capped<T>(xs: seq<T>, limit: Option<int>): (r: seq<T>)
    ensures r <= xs
    ensures limit.Some? ==> |r| <= Cap(limit.value)
    ensures limit.None? || |xs| <= Cap(limit.value) ==> r == xs
    ensures limit.Some? && |xs| >= Cap(limit.value) ==> |r| == Cap(limit.value)
  {
    if limit.Some? && |xs| > Cap(limit.value) then xs[..Cap(limit.value)] else xs
  }

  /** A prefix of a key-distinct list is key-distinct. */
  lemma DistinctPrefix<T, K>(xs: seq<T>, n: nat, key: T -> K)
    requires Distinct(xs, key) && n <= |xs|
    ensures Distinct(xs[..n], key)
  {
    forall i, j | 0 <= i < j < n ensures key(xs[..n][i]) != key(xs[..n][j]) {
      assert xs[..n][i] == xs[i] && xs[..n][j] == xs[j];
    }
  }

  /** Stopping at the limit keeps the keys of a deduplicated list distinct. */
  lemma DedupCappedDistinct<T, K>(xs: seq<T>, key: T -> K, limit: Option<int>)
    ensures Distinct(Capped(Dedup(xs, key), limit), key)
  {
    var d := Dedup(xs, key);
    DedupDistinct(xs, key);
    DistinctPrefix(d, |Capped(d, limit)|, key);
    assert Capped(d, limit) == d[..|Capped(d, limit)|];
  }

  /**
   * Once exactly `Cap(limit)` distinct keys are collected, reading further
   * input changes nothing about what the limit lets through.
   */
  lemma DedupCappedExtend<T, K>(xs: seq<T>, ys: seq<T>, key: T -> K, limit: Option<int>)
    requires limit.Some? && |Dedup(xs, key)| == Cap(limit.value)
    ensures LimitHit(Dedup(xs + ys, key), limit)
    ensures Capped(Dedup(xs + ys, key), limit) == Dedup(xs, key)
  {
    DedupPrefix(xs, ys, key);
  }

  // ---------------------------------------------------------------- successive writes

  /** The dict that the writes `d[k] = v`, for each pair in turn, build from `{}`. */
  function Assoc<K(==), V>(ps: seq<(K, V)>): map<K, V>
  {
    if ps == [] then map[]
    else Assoc(ps[..|ps| - 1])[ps[|ps| - 1].0 := ps[|ps| - 1].1]
  }

  /** The key a pair writes. */
  function Fst<K, V>(p: (K, V)): K {
    p.0
  }

  /** The dict holds exactly the keys some pair writes. */
  lemma {:induction false} AssocKeys<K, V>(ps: seq<(K, V)>)
    ensures Assoc(ps).Keys == Keys(ps, Fst)
    decreases |ps|
  {
    if ps != [] {
      var init := ps[..|ps| - 1];
      AssocKeys(init);
      KeysSnoc(init, ps[|ps| - 1], Fst);
      assert init + [ps[|ps| - 1]] == ps;
    }
  }

  /** With distinct keys, every pair's value is the one the dict keeps. */
  lemma AssocDistinct<K, V>(ps: seq<(K, V)>)
    requires Distinct(ps, Fst)
    ensures forall i | 0 <= i < |ps| :: ps[i].0 in Assoc(ps) && Assoc(ps)[ps[i].0] == ps[i].1
  {
    AssocLastWins(ps);
    forall i | 0 <= i < |ps| ensures ps[i].0 in Assoc(ps) && Assoc(ps)[ps[i].0] == ps[i].1 {
      var k := ps[i].0;
      assert exists j | 0 <= j < |ps| :: ps[j].0 == k;
      var j :| LastWrite(ps, j, k) && Assoc(ps)[k] == ps[j].1;
      assert Fst(ps[i]) == Fst(ps[j]);
    }
  }

  /** The position of the write that decides key `k`: it writes `k` and no later one does. */
  predicate LastWrite<K(==), V>(ps: seq<(K, V)>, i: int, k: K) {
    0 <= i < |ps| && ps[i].0 == k && forall j | i < j < |ps| :: ps[j].0 != k
  }

  /**
   * The dict holds a key exactly when some pair writes it, and then it holds
   * the value of the last such write.
   */
  lemma {:induction false} AssocLastWins<K, V>(ps: seq<(K, V)>)
    ensures forall k :: k in Assoc(ps) <==> exists i | 0 <= i < |ps| :: ps[i].0 == k
    ensures forall k | k in Assoc(ps) :: exists i | LastWrite(ps, i, k) :: Assoc(ps)[k] == ps[i].1
    decreases |ps|
  {
    if ps != [] {
      var init := ps[..|ps| - 1];
      var n := |ps| - 1;
      AssocLastWins(init);
      forall k ensures k in Assoc(ps) <==> exists i | 0 <= i < |ps| :: ps[i].0 == k {
        if k in Assoc(ps) && k != ps[n].0 {
          assert Assoc(ps) == Assoc(init)[ps[n].0 := ps[n].1];
          assert k in Assoc(init);
          var i :| 0 <= i < |init| && init[i].0 == k;
          assert ps[i] == init[i];
        }
        if exists i | 0 <= i < |ps| :: ps[i].0 == k {
          var i :| 0 <= i < |ps| && ps[i].0 == k;
          if i < n {
            assert init[i] == ps[i];
          }
        }
      }
      forall k | k in Assoc(ps) ensures exists i | LastWrite(ps, i, k) :: Assoc(ps)[k] == ps[i].1 {
        if k == ps[n].0 {
          assert LastWrite(ps, n, k);
        } else {
          var i :| LastWrite(init, i, k) && Assoc(init)[k] == init[i].1;
          assert ps[i] == init[i];
          assert LastWrite(ps, i, k);
        }
      }
    }
  }

  /** One more write: `d[k] = v`. */
  lemma AssocSnoc<K, V>(ps: seq<(K, V)>, p: (K, V))
    ensures Assoc(ps + [p]) == Assoc(ps)[p.0 := p.1]
  {
    assert (ps + [p])[..|ps|] == ps;
  }

  /** A single write is a one-entry dict. */
  lemma AssocSingle<K, V>(p: (K, V))
    ensures Assoc([p]) == map[p.0 := p.1]
  {
    AssocSnoc([], p);
    assert [] + [p] == [p];
  }

  /** Writing `ps` then `qs` is writing `ps` and letting `qs` win: `{**a, **b}`. */
  lemma {:induction false} AssocAppend<K, V>(ps: seq<(K, V)>, qs: seq<(K, V)>)
    ensures Assoc(ps + qs) == Assoc(ps) + Assoc(qs)
    decreases |qs|
  {
    if qs == [] {
      assert ps + qs == ps;
    } else {
      var init := qs[..|qs| - 1];
      AssocAppend(ps, init);
      assert (ps + qs)[..|ps + qs| - 1] == ps + init;
    }
  }

  // ---------------------------------------------------------------- extraction

  /** The values `f` extracts from the items it accepts, in order. */
  function Somes<X, E>(items: seq<X>, f: X -> Option<E>): seq<E>
  {
    if items == [] then []
    else
      var last := f(items[|items| - 1]);
      Somes(items[..|items| - 1], f) + (if last.Some? then [last.value] else [])
  }

  lemma SomesStep<X, E>(items: seq<X>, x: X, f: X -> Option<E>)
    ensures Somes(items + [x], f) == Somes(items, f) + (if f(x).Some? then [f(x).value] else [])
  {
    assert (items + [x])[..|items|] == items;
  }

  /** Extraction distributes over concatenation: reading part of a page, then the rest, reads the page. */
  lemma {:induction false} SomesAppend<X, E>(a: seq<X>, b: seq<X>, f: X -> Option<E>)
    ensures Somes(a + b, f) == Somes(a, f) + Somes(b, f)
    decreases |b|
  {
    if b == [] {
      assert a + b == a;
    } else {
      var init := b[..|b| - 1];
      SomesAppend(a, init, f);
      assert (a + b)[..|a + b| - 1] == a + init;
    }
  }

  /** Reading item `j` appends its value, if `f` accepts it, to what has been extracted so far. */
  lemma SomesNext<X, E>(h: seq<E>, items: seq<X>, j: nat, f: X -> Option<E>)
    requires j < |items|
    ensures f(items[j]).Some? ==> h + Somes(items[..j + 1], f) == (h + Somes(items[..j], f)) + [f(items[j]).value]
    ensures f(items[j]).None? ==> h + Somes(items[..j + 1], f) == h + Somes(items[..j], f)
  {
    SomesStep(items[..j], items[j], f);
    assert items[..j + 1] == items[..j] + [items[j]];
  }

  /**
   * A property of every non-empty prefix: appending an element keeps it on
   * the old prefixes, and on the new whole sequence when it holds there.
   */
  lemma PrefixesStep<T>(xs: seq<T>, x: T, p: seq<T> -> bool)
    requires forall k | 1 <= k <= |xs| :: p(xs[..k])
    ensures forall k | 1 <= k <= |xs| :: p((xs + [x])[..k])
    ensures p(xs + [x]) ==> forall k | 1 <= k <= |xs + [x]| :: p((xs + [x])[..k])
  {
    forall k | 1 <= k <= |xs| ensures (xs + [x])[..k] == xs[..k] {
    }
    assert (xs + [x])[..|xs + [x]|] == xs + [x];
  }

  /**
   * The limit reached after item `j - 1` of a page: what the walk returns is
   * what it had then, and it would have reached the limit reading the whole page.
   */
  lemma LimitInItems<X, E, K>(h: seq<E>, items: seq<X>, j: nat, f: X -> Option<E>, key: E -> K, limit: Option<int>)
    requires j <= |items| && limit.Some?
    requires |Dedup(h + Somes(items[..j], f), key)| == Cap(limit.value)
    ensures LimitHit(Dedup(h + Somes(items, f), key), limit)
    ensures Capped(Dedup(h + Somes(items, f), key), limit) == Dedup(h + Somes(items[..j], f), key)
  {
    assert items == items[..j] + items[j..];
    SomesAppend(items[..j], items[j..], f);
    assert h + Somes(items, f) == (h + Somes(items[..j], f)) + Somes(items[j..], f);
    DedupCappedExtend(h + Somes(items[..j], f), Somes(items[j..], f), key, limit);
  }

  /** Everything extracted comes from some item. */
  lemma {:induction false} SomesFrom<X, E>(items: seq<X>, f: X -> Option<E>)
    ensures forall e | e in Somes(items, f) :: exists i | 0 <= i < |items| :: f(items[i]) == Some(e)
    decreases |items|
  {
    if items != [] {
      var init := items[..|items| - 1];
      SomesFrom(init, f);
      forall e | e in Somes(items, f) ensures exists i | 0 <= i < |items| :: f(items[i]) == Some(e) {
        if e in Somes(init, f) {
          var i :| 0 <= i < |init| && f(init[i]) == Some(e);
          assert items[i] == init[i];
        } else {
          assert f(items[|items| - 1]) == Some(e);
        }
      }
    }
  }

  /** Every item `f` accepts contributes its value. */
  lemma {:induction false} SomesOf<X, E>(items: seq<X>, f: X -> Option<E>)
    ensures forall i | 0 <= i < |items| && f(items[i]).Some? :: f(items[i]).value in Somes(items, f)
    decreases |items|
  {
    if items != [] {
      var init := items[..|items| - 1];
      SomesOf(init, f);
      forall i | 0 <= i < |items| && f(items[i]).Some? ensures f(items[i]).value in Somes(items, f) {
        if i < |init| {
          assert items[i] == init[i];
        }
      }
    }
  }

  /** When `f` accepts every item, it extracts one value per item, in order. */
  lemma {:induction false} SomesAll<X, E>(items: seq<X>, f: X -> Option<E>)
    requires forall i | 0 <= i < |items| :: f(items[i]).Some?
    ensures |Somes(items, f)| == |items|
    ensures forall i | 0 <= i < |items| :: Somes(items, f)[i] == f(items[i]).value
    decreases |items|
  {
    if items != [] {
      var init := items[..|items| - 1];
      forall i | 0 <= i < |init| ensures f(init[i]).Some? {
        assert init[i] == items[i];
      }
      SomesAll(init, f);
      forall i | 0 <= i < |items| ensures Somes(items, f)[i] == f(items[i]).value {
        if i < |init| {
          assert init[i] == items[i];
        }
      }
    }
  }

  /** Nothing is extracted exactly when `f` rejects every item. */
  lemma {:induction false} SomesNone<X, E>(items: seq<X>, f: X -> Option<E>)
    ensures Somes(items, f) == [] <==> forall i | 0 <= i < |items| :: f(items[i]).None?
    decreases |items|
  {
    if items != [] {
      var init := items[..|items| - 1];
      SomesNone(init, f);
      if Somes(items, f) == [] {
        forall i | 0 <= i < |items| ensures f(items[i]).None? {
          if i < |init| {
            assert items[i] == init[i];
          }
        }
      }
    }
  }

  // ---------------------------------------------------------------- one listing page

  /**
   * The end of one turn of a page's item loop, once the item has given a
   * value: a key already seen is skipped; a new one is marked seen and the
   * value appended, and `full` says whether the limit is now reached
   * (`if limit is not None and len(out) >= limit`).
   */
  method AddItem<E, K(==)>(x: E, key: E -> K, limit: Option<int>, ghost before: seq<E>,
                           found0: seq<E>, seen0: set<K>)
    returns (found: seq<E>, seen: set<K>, added: bool, full: bool)
    requires found0 == Dedup(before, key) && seen0 == Keys(found0, key)
    ensures found == Dedup(before + [x], key) && seen == Keys(found, key)
    ensures added <==> key(x) !in seen0
    ensures found == if added then found0 + [x] else found0
    ensures full <==> added && LimitHit(found, limit)
  {
    DedupStep(before, x, key);
    if key(x) in seen0 {
      return found0, seen0, false, false;
    }
    KeysSnoc(found0, x, key);
    seen := seen0 + {key(x)};
    found := found0 + [x];
    added := true;
    full := limit.Some? && |found| >= limit.value;
  }

  /** Item `j` of a page: what has been taken from the items before it, and what is found and seen of that. */
  ghost predicate ScanState<X, E, K>(items: seq<X>, f: X -> Option<E>, key: E -> K, h: seq<E>, j: nat,
                                taken: seq<E>, found: seq<E>, seen: set<K>) {
    && j <= |items|
    && taken == h + Somes(items[..j], f)
    && found == Dedup(taken, key)
    && seen == Keys(found, key)
  }

  /** One turn of a page's item loop: item `j` gives a value or not, and a new key is kept. */
  method ScanItem<X, E, K(==)>(items: seq<X>, f: X -> Option<E>, key: E -> K, limit: Option<int>,
                               ghost h: seq<E>, j: nat, ghost taken0: seq<E>, found0: seq<E>, seen0: set<K>)
    returns (ghost taken: seq<E>, found: seq<E>, seen: set<K>, added: bool, full: bool)
    requires j < |items| && ScanState(items, f, key, h, j, taken0, found0, seen0)
    ensures ScanState(items, f, key, h, j + 1, taken, found, seen)
    ensures |found| == if added then |found0| + 1 else |found0|
    ensures full <==> added && LimitHit(found, limit)
  {
    var value := f(items[j]);
    SomesNext(h, items, j, f);
    if value.Some? {
      found, seen, added, full := AddItem(value.value, key, limit, taken0, found0, seen0);
      taken := taken0 + [value.value];
    } else {
      taken, found, seen, added, full := taken0, found0, seen0, false, false;
    }
  }

  /**
   * The item loop over one page that answered 200, continuing a walk that
   * has found `Dedup(h)` so far, with `f` giving each item's value.  Either
   * the limit is reached on this page (`full`), and the walk's result is the
   * first `Cap(limit)` finds, or the whole page is read and `newFound`
   * counts the values it added.
   */
  method ScanItems<X, E, K(==)>(items: seq<X>, f: X -> Option<E>, key: E -> K, limit: Option<int>,
                                ghost h: seq<E>, found0: seq<E>, seen0: set<K>)
    returns (found: seq<E>, seen: set<K>, newFound: nat, full: bool)
    requires found0 == Dedup(h, key) && seen0 == Keys(found0, key)
    requires !LimitHit(found0, limit)
    ensures full ==> LimitHit(Dedup(h + Somes(items, f), key), limit)
    ensures full ==> found == Capped(Dedup(h + Somes(items, f), key), limit)
    ensures !full ==> found == Dedup(h + Somes(items, f), key)
    ensures !full ==> seen == Keys(found, key) && !LimitHit(found, limit)
    ensures !full ==> newFound == |found| - |found0|
  {
    found, seen, newFound, full := found0, seen0, 0, false;
    ghost var taken := h;
    var j := 0;
    assert h + Somes(items[..0], f) == h;
    while j < |items|
      invariant ScanState(items, f, key, h, j, taken, found, seen)
      invariant !LimitHit(found, limit)
      invariant newFound == |found| - |found0|
      invariant !full
    {
      var added;
      taken, found, seen, added, full := ScanItem(items, f, key, limit, h, j, taken, found, seen);
      if added {
        newFound := newFound + 1;
      }
      if full {
        assert |found| == Cap(limit.value);
        LimitInItems(h, items, j + 1, f, key, limit);
        return;
      }
      j := j + 1;
    }
    assert items[..|items|] == items;
  }
}
