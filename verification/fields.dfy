/**
 * The label/value pairs a result page offers, in the two markup idioms the
 * detail extractors read:
 *   - a `dt` label and a `dd` value inside one box (a `div` of a `dl`, or a
 *     `dt` with its next sibling `dd`);
 *   - a `ul.tw-list-none > li` whose first `span` is the label (a trailing
 *     colon dropped) and another `span` the value.
 * A dict filled by `result[key] = val` in document order is `Assoc` of the
 * pairs written, in that order.
 */
module Fields {
  import opened Wrappers
  import opened Text
  import opened Collections
  import opened Markup

  type Pair = (string, string)

  type Fields = map<string, string>

  /** The label and value of a box that holds both a `dt` and a `dd` (`if dt and dd`). */
  function BoxPair(b: LabelBox): (p: Option<Pair>)
    ensures p.Some? <==> b.dt.Some? && b.dd.Some?
    ensures p.Some? ==> Trimmed(p.value.0) && Trimmed(p.value.1)
  {
    if b.dt.Some? && b.dd.Some? then
      GetTextTrimmed(b.dt.value, "");
      GetTextTrimmed(b.dd.value, " ");
      Some((GetText(b.dt.value, ""), GetText(b.dd.value, " ")))
    else None
  }

  /**
   * The same pair, kept only when label and value are both non-empty
   * (`if key and val`): when both the `dt` and the `dd` hold some text that
   * is not all whitespace.
   */
  function FilledPair(b: LabelBox): (p: Option<Pair>)
    ensures p.Some? <==> (&& b.dt.Some? && b.dd.Some?
                          && (exists i | 0 <= i < |b.dt.value| :: !Blank(b.dt.value[i]))
                          && (exists i | 0 <= i < |b.dd.value| :: !Blank(b.dd.value[i])))
    ensures p.Some? ==> p == BoxPair(b) && p.value.0 != [] && p.value.1 != []
  {
    var p := BoxPair(b);
    if p.Some? then
      GetTextEmpty(b.dt.value, "");
      GetTextEmpty(b.dd.value, " ");
      if p.value.0 != [] && p.value.1 != [] then p else None
    else None
  }

  /** Pairs of a `dl` pass: every pair in `ps` passed the `if key and val` test. */
  predicate AllFilled(ps: seq<Pair>) {
    forall i | 0 <= i < |ps| :: ps[i].0 != [] && ps[i].1 != []
  }

  lemma SomesFilled(boxes: seq<LabelBox>)
    ensures AllFilled(Somes(boxes, FilledPair))
  {
    var ps := Somes(boxes, FilledPair);
    SomesFrom(boxes, FilledPair);
    forall i | 0 <= i < |ps| ensures ps[i].0 != [] && ps[i].1 != [] {
      assert ps[i] in ps;
      var j :| 0 <= j < |boxes| && FilledPair(boxes[j]) == Some(ps[i]);
    }
  }

  /** What the `dt`/`dd` loop keeps of a box: every pair, or only filled ones. */
  function Keep(filter: bool): LabelBox -> Option<Pair> {
    if filter then FilledPair else BoxPair
  }

  /**
   * The `for row in boxes` loop: `if dt and dd` (and, when `filter` holds,
   * `if key and val`) then `result[key] = val`.  The dict written so far is
   * `Assoc(w0)`; afterwards it is `Assoc` of those writes and the boxes' pairs.
   */
  method WriteBoxes(result0: Fields, ghost w0: seq<Pair>, boxes: seq<LabelBox>, filter: bool)
    returns (result: Fields)
    requires result0 == Assoc(w0)
    ensures result == Assoc(w0 + Somes(boxes, Keep(filter)))
  {
    result := result0;
    assert w0 + Somes(boxes[..0], Keep(filter)) == w0;
    for j := 0 to |boxes|
      invariant result == Assoc(w0 + Somes(boxes[..j], Keep(filter)))
    {
      var row := boxes[j];
      SomesNext(w0, boxes, j, Keep(filter));
      if row.dt.Some? && row.dd.Some? {
        var key := GetText(row.dt.value, "");
        var val := GetText(row.dd.value, " ");
        if !filter || (key != [] && val != []) {
          AssocSnoc(w0 + Somes(boxes[..j], Keep(filter)), (key, val));
          result := result[key := val];
        }
      }
    }
    assert boxes[..|boxes|] == boxes;
  }

  /** The writes of one pass over every `dl` of the page, `dl` by `dl`. */
  function DefListWrites(dls: seq<DefList>, pass: DefList -> seq<Pair>): seq<Pair>
  {
    if dls == [] then [] else DefListWrites(dls[..|dls| - 1], pass) + pass(dls[|dls| - 1])
  }

  lemma DefListWritesStep(dls: seq<DefList>, dl: DefList, pass: DefList -> seq<Pair>)
    ensures DefListWrites(dls + [dl], pass) == DefListWrites(dls, pass) + pass(dl)
  {
    assert (dls + [dl])[..|dls|] == dls;
  }

  /** Writes for later `dl` blocks follow those for earlier ones. */
  lemma {:induction false} DefListWritesAppend(a: seq<DefList>, b: seq<DefList>, pass: DefList -> seq<Pair>)
    ensures DefListWrites(a + b, pass) == DefListWrites(a, pass) + DefListWrites(b, pass)
    decreases |b|
  {
    if b == [] {
      assert a + b == a;
    } else {
      var init := b[..|b| - 1];
      DefListWritesAppend(a, init, pass);
      assert (a + b)[..|a + b| - 1] == a + init;
    }
  }

  lemma DefListWritesNext(dls: seq<DefList>, i: nat, pass: DefList -> seq<Pair>)
    requires i < |dls|
    ensures DefListWrites(dls[..i + 1], pass) == DefListWrites(dls[..i], pass) + pass(dls[i])
  {
    assert dls[..i + 1] == dls[..i] + [dls[i]];
    DefListWritesStep(dls[..i], dls[i], pass);
  }

  /** A page writes nothing exactly when the pass writes nothing for any of its `dl`s. */
  lemma {:induction false} DefListWritesEmpty(dls: seq<DefList>, pass: DefList -> seq<Pair>)
    ensures DefListWrites(dls, pass) == [] <==> forall i | 0 <= i < |dls| :: pass(dls[i]) == []
    decreases |dls|
  {
    if dls != [] {
      var init := dls[..|dls| - 1];
      DefListWritesEmpty(init, pass);
      if DefListWrites(dls, pass) == [] {
        forall i | 0 <= i < |dls| ensures pass(dls[i]) == [] {
          if i < |init| {
            assert dls[i] == init[i];
          }
        }
      }
    }
  }

  /** Every write of a pass that keeps only filled pairs is filled. */
  lemma {:induction false} DefListWritesFilled(dls: seq<DefList>, pass: DefList -> seq<Pair>)
    requires forall dl :: AllFilled(pass(dl))
    ensures AllFilled(DefListWrites(dls, pass))
    decreases |dls|
  {
    if dls != [] {
      var init := dls[..|dls| - 1];
      DefListWritesFilled(init, pass);
      var ws := DefListWrites(dls, pass);
      var n := |DefListWrites(init, pass)|;
      forall i | 0 <= i < |ws| ensures ws[i].0 != [] && ws[i].1 != [] {
        if i < n {
          assert ws[i] == DefListWrites(init, pass)[i];
        } else {
          assert ws[i] == pass(dls[|dls| - 1])[i - n];
        }
      }
    }
  }

  // ---------------------------------------------------------------- list items

  /** Which `span` of a list item holds the value: `spans[-1]` or `spans[1]`. */
  datatype ValueSpan = LastSpan | SecondSpan

  /** `IndexError`'s message, as `str(e)` gives it. */
  const IndexErrorMessage := "list index out of range"

  /** The message of the exception a detail response other than 200 raises. */
  function StatusError(status: int): string {
    "Request failed with status " + IntText(status)
  }

  /** The number of spans a list item needs before both indexings succeed. */
  function SpansNeeded(v: ValueSpan): nat {
    match v
    case LastSpan => 1
    case SecondSpan => 2
  }

  /**
   * `key = spans[0].get_text(strip=True).rstrip(":")` and
   * `val = spans[v].get_text(strip=True)`; too few spans raise `IndexError`.
   */
  function ItemPair(li: ListItem, v: ValueSpan): (r: Result<Pair>)
    ensures r.Failure? <==> |li.spans| < SpansNeeded(v)
    ensures r.Failure? ==> r.error == IndexErrorMessage
  {
    if |li.spans| < SpansNeeded(v) then Failure(IndexErrorMessage)
    else
      var key := RStrip(GetText(li.spans[0], ""), ':');
      var val := GetText(li.spans[if v == LastSpan then |li.spans| - 1 else 1], "");
      Success((key, val))
  }

  /** The pair an item writes: its key has no trailing colon and its value is trimmed. */
  lemma ItemPairText(li: ListItem, v: ValueSpan)
    requires ItemPair(li, v).Success?
    ensures var (key, val) := ItemPair(li, v).value;
            (key == [] || key[|key| - 1] != ':') && Trimmed(val)
  {
    GetTextTrimmed(li.spans[if v == LastSpan then |li.spans| - 1 else 1], "");
  }

  /** The writes of the list-item loop, or the error of the first item that raises. */
  function ItemWrites(items: seq<ListItem>, v: ValueSpan): Result<seq<Pair>>
  {
    if items == [] then Success([])
    else
      match ItemWrites(items[..|items| - 1], v)
      case Failure(e) => Failure(e)
      case Success(ws) =>
        match ItemPair(items[|items| - 1], v)
        case Failure(e) => Failure(e)
        case Success(p) => Success(ws + [p])
  }

  /** The dict after the list-item loop, starting from `Assoc(w0)`: or the error it raises. */
  function AfterItems(w0: seq<Pair>, items: seq<ListItem>, v: ValueSpan): Result<Fields> {
    match ItemWrites(items, v)
    case Failure(e) => Failure(e)
    case Success(ws) => Success(Assoc(w0 + ws))
  }

  /**
   * The `for li in soup.select("ul.tw-list-none > li")` loop: each item
   * writes its label and value, and an item with too few spans raises.
   */
  method WriteItems(result0: Fields, ghost w0: seq<Pair>, items: seq<ListItem>, v: ValueSpan)
    returns (r: Result<Fields>)
    requires result0 == Assoc(w0)
    ensures r == AfterItems(w0, items, v)
  {
    var result := result0;
    ghost var ws: seq<Pair> := [];
    assert w0 + [] == w0;
    for i := 0 to |items|
      invariant ItemWrites(items[..i], v) == Success(ws)
      invariant result == Assoc(w0 + ws)
    {
      var spans := items[i].spans;
      ItemWritesNext(items, i, v, ws);
      if |spans| < SpansNeeded(v) {
        ItemRaises(items, i, v);
        return Failure(IndexErrorMessage);
      }
      var key := RStrip(GetText(spans[0], ""), ':');
      var val := GetText(spans[if v == LastSpan then |spans| - 1 else 1], "");
      assert ItemPair(items[i], v) == Success((key, val));
      AssocSnoc(w0 + ws, (key, val));
      assert w0 + (ws + [(key, val)]) == w0 + ws + [(key, val)];
      ws := ws + [(key, val)];
      result := result[key := val];
    }
    assert items[..|items|] == items;
    r := Success(result);
  }

  lemma ItemWritesNext(items: seq<ListItem>, i: nat, v: ValueSpan, ws: seq<Pair>)
    requires i < |items| && ItemWrites(items[..i], v) == Success(ws)
    ensures ItemPair(items[i], v).Success? ==> ItemWrites(items[..i + 1], v) == Success(ws + [ItemPair(items[i], v).value])
  {
    var prefix := items[..i + 1];
    assert prefix[..|prefix| - 1] == items[..i];
    assert prefix[|prefix| - 1] == items[i];
  }

  lemma ItemRaises(items: seq<ListItem>, i: nat, v: ValueSpan)
    requires i < |items| && |items[i].spans| < SpansNeeded(v)
    ensures ItemWrites(items, v) == Failure(IndexErrorMessage)
  {
    ItemWritesFail(items, v);
  }

  /** Some item has too few spans for the indexing to succeed. */
  predicate SomeItemRaises(items: seq<ListItem>, v: ValueSpan) {
    exists i | 0 <= i < |items| :: |items[i].spans| < SpansNeeded(v)
  }

  /** The list-item loop raises exactly when some item has too few spans, and then with `IndexError`'s message. */
  lemma {:induction false} ItemWritesFail(items: seq<ListItem>, v: ValueSpan)
    ensures ItemWrites(items, v).Failure? <==> SomeItemRaises(items, v)
    ensures ItemWrites(items, v).Failure? ==> ItemWrites(items, v).error == IndexErrorMessage
    decreases |items|
  {
    if items != [] {
      var init := items[..|items| - 1];
      ItemWritesFail(init, v);
      SomeItemRaisesSnoc(items, v);
    }
  }

  /** An item raises in `items` exactly when one raises before the last item, or the last one does. */
  lemma SomeItemRaisesSnoc(items: seq<ListItem>, v: ValueSpan)
    requires items != []
    ensures SomeItemRaises(items, v)
        <==> SomeItemRaises(items[..|items| - 1], v) || |items[|items| - 1].spans| < SpansNeeded(v)
  {
    var init := items[..|items| - 1];
    if SomeItemRaises(init, v) {
      var i :| 0 <= i < |init| && |init[i].spans| < SpansNeeded(v);
      assert items[i] == init[i];
    }
    if SomeItemRaises(items, v) {
      var i :| 0 <= i < |items| && |items[i].spans| < SpansNeeded(v);
      if i < |init| {
        assert items[i] == init[i];
      }
    }
  }

  /** A loop that succeeds on `items` succeeded on all but the last item, and the last item added one pair. */
  lemma ItemWritesSnoc(items: seq<ListItem>, v: ValueSpan)
    requires items != [] && ItemWrites(items, v).Success?
    ensures ItemWrites(items[..|items| - 1], v).Success?
    ensures ItemPair(items[|items| - 1], v).Success?
    ensures ItemWrites(items, v).value
         == ItemWrites(items[..|items| - 1], v).value + [ItemPair(items[|items| - 1], v).value]
  {
  }

  /** When no item raises, the loop writes one pair per item, in order. */
  lemma {:induction false} ItemWritesPairs(items: seq<ListItem>, v: ValueSpan)
    requires ItemWrites(items, v).Success?
    ensures |ItemWrites(items, v).value| == |items|
    ensures forall i | 0 <= i < |items| :: ItemPair(items[i], v) == Success(ItemWrites(items, v).value[i])
    decreases |items|
  {
    if items != [] {
      var init := items[..|items| - 1];
      ItemWritesSnoc(items, v);
      ItemWritesPairs(init, v);
      var wi := ItemWrites(init, v).value;
      var ws := ItemWrites(items, v).value;
      forall i | 0 <= i < |items| ensures ItemPair(items[i], v) == Success(ws[i]) {
        if i < |init| {
          assert items[i] == init[i] && ws[i] == wi[i];
        }
      }
    }
  }
}
