/**
 * The regular expressions of the harvester, written out as matchers over
 * strings.  `\d` and `\w` are taken as their ASCII classes ([0-9] and
 * [A-Za-z0-9_]); `\s` is Python's whitespace (`Text.IsSpace`).
 *
 *   RESULT_RE (scrape.py, scraper2.py)  /result/(\d+)\b          used with search()
 *   RESULT_RE (scraper.py)              /result/(\d+)$           used with search()
 *   DATE_RE                             [A-Z][a-z]+ \d{1,2}, \d{4}
 *   TERM_RE                             \b(Spring|Summer|Fall|Winter)\s+\d{4}\b
 */
module Patterns {
  import opened Wrappers
  import opened Text

  predicate IsUpper(c: char) { 'A' <= c <= 'Z' }
  predicate IsLower(c: char) { 'a' <= c <= 'z' }

  /** `\w`, ASCII only. */
  predicate IsWordChar(c: char) { IsDigit(c) || IsUpper(c) || IsLower(c) || c == '_' }

  /** `w` occurs in `s` at position `i`. */
  predicate StartsAt(s: string, i: nat, w: string) {
    i + |w| <= |s| && s[i..i + |w|] == w
  }

  /** Number of digits in the run that starts at `s[i]`. */
  function DigitRun(s: string, i: nat): (n: nat)
    requires i <= |s|
    ensures i + n <= |s|
    ensures forall k | i <= k < i + n :: IsDigit(s[k])
    ensures i + n == |s| || !IsDigit(s[i + n])
    decreases |s| - i
  {
    if i < |s| && IsDigit(s[i]) then 1 + DigitRun(s, i + 1) else 0
  }

  /** Number of lower-case letters in the run that starts at `s[i]`. */
  function LowerRun(s: string, i: nat): (n: nat)
    requires i <= |s|
    ensures i + n <= |s|
    ensures forall k | i <= k < i + n :: IsLower(s[k])
    ensures i + n == |s| || !IsLower(s[i + n])
    decreases |s| - i
  {
    if i < |s| && IsLower(s[i]) then 1 + LowerRun(s, i + 1) else 0
  }

  /** Number of whitespace characters in the run that starts at `s[i]`. */
  function SpaceRun(s: string, i: nat): (n: nat)
    requires i <= |s|
    ensures i + n <= |s|
    ensures forall k | i <= k < i + n :: IsSpace(s[k])
    ensures i + n == |s| || !IsSpace(s[i + n])
    decreases |s| - i
  {
    if i < |s| && IsSpace(s[i]) then 1 + SpaceRun(s, i + 1) else 0
  }

  /** Number of digits at the end of `t`. */
  function TrailingDigits(t: string): (n: nat)
    ensures n <= |t|
    ensures forall k | |t| - n <= k < |t| :: IsDigit(t[k])
    ensures n == |t| || !IsDigit(t[|t| - n - 1])
  {
    if t != [] && IsDigit(t[|t| - 1]) then 1 + TrailingDigits(t[..|t| - 1]) else 0
  }

  lemma {:induction false} DigitRunExact(s: string, i: nat, n: nat)
    requires i + n <= |s|
    requires forall k | i <= k < i + n :: IsDigit(s[k])
    requires i + n == |s| || !IsDigit(s[i + n])
    ensures DigitRun(s, i) == n
    decreases n
  {
    if n > 0 {
      DigitRunExact(s, i + 1, n - 1);
    }
  }

  lemma {:induction false} LowerRunExact(s: string, i: nat, n: nat)
    requires i + n <= |s|
    requires forall k | i <= k < i + n :: IsLower(s[k])
    requires i + n == |s| || !IsLower(s[i + n])
    ensures LowerRun(s, i) == n
    decreases n
  {
    if n > 0 {
      LowerRunExact(s, i + 1, n - 1);
    }
  }

  lemma {:induction false} SpaceRunExact(s: string, i: nat, n: nat)
    requires i + n <= |s|
    requires forall k | i <= k < i + n :: IsSpace(s[k])
    requires i + n == |s| || !IsSpace(s[i + n])
    ensures SpaceRun(s, i) == n
    decreases n
  {
    if n > 0 {
      SpaceRunExact(s, i + 1, n - 1);
    }
  }

  lemma {:induction false} TrailingDigitsExact(t: string, n: nat)
    requires n <= |t|
    requires forall k | |t| - n <= k < |t| :: IsDigit(t[k])
    requires n == |t| || !IsDigit(t[|t| - n - 1])
    ensures TrailingDigits(t) == n
    decreases n
  {
    if n > 0 {
      var u := t[..|t| - 1];
      assert forall k | |u| - (n - 1) <= k < |u| :: u[k] == t[k];
      TrailingDigitsExact(u, n - 1);
    }
  }

  const ResultPath: string := "/result/"

  // ================================================================ RESULT_RE with \b

  /** The id `/result/(\d+)\b` captures when its match starts at `s[i]`, if it matches there. */
  function ResultIdAt(s: string, i: nat): Option<string>
    requires i <= |s|
  {
    if StartsAt(s, i, ResultPath) then
      var n := DigitRun(s, i + 8);
      if n >= 1 && (i + 8 + n == |s| || !IsWordChar(s[i + 8 + n])) then Some(s[i + 8..i + 8 + n])
      else None
    else None
  }

  function SearchResultIdFrom(s: string, i: nat): Option<string>
    requires i <= |s|
    decreases |s| - i
  {
    if ResultIdAt(s, i).Some? then ResultIdAt(s, i)
    else if i == |s| then None
    else SearchResultIdFrom(s, i + 1)
  }

  /** `RESULT_RE.search(href).group(1)`; None when `search` finds nothing. */
  function FindResultId(s: string): Option<string>
  {
    SearchResultIdFrom(s, 0)
  }

  /** A match at `i` is `/result/` followed by a maximal non-empty digit run that no word character follows. */
  lemma ResultIdAtShape(s: string, i: nat, d: string)
    requires i <= |s| && ResultIdAt(s, i) == Some(d)
    ensures |d| >= 1 && AllDigits(d)
    ensures StartsAt(s, i, ResultPath + d)
    ensures i + 8 + |d| == |s| || !IsWordChar(s[i + 8 + |d|])
  {
    assert s[i..i + 8 + |d|] == s[i..i + 8] + s[i + 8..i + 8 + |d|];
  }

  /** Any `/result/<digits>` not followed by a word character is a match at its own position. */
  lemma ResultIdAtParts(p: string, d: string, q: string)
    requires |d| >= 1 && AllDigits(d)
    requires q == [] || !IsWordChar(q[0])
    ensures ResultIdAt(p + ResultPath + d + q, |p|) == Some(d)
  {
    var s := p + ResultPath + d + q;
    var i := |p|;
    assert s[i..i + 8] == ResultPath;
    var n := DigitRun(s, i + 8);
    forall k | i + 8 <= k < i + 8 + |d| ensures IsDigit(s[k]) {
      assert s[k] == d[k - i - 8];
    }
    if q != [] {
      assert s[i + 8 + |d|] == q[0];
    }
    DigitRunExact(s, i + 8, |d|);
    assert s[i + 8..i + 8 + n] == d;
  }

  lemma {:induction false} SearchResultIdFromSpec(s: string, i: nat)
    requires i <= |s|
    ensures SearchResultIdFrom(s, i).Some? ==>
      exists j | i <= j <= |s| :: ResultIdAt(s, j) == SearchResultIdFrom(s, i)
        && forall k | i <= k < j :: ResultIdAt(s, k).None?
    ensures SearchResultIdFrom(s, i).None? ==> forall k | i <= k <= |s| :: ResultIdAt(s, k).None?
    decreases |s| - i
  {
    if ResultIdAt(s, i).Some? {
      assert ResultIdAt(s, i) == SearchResultIdFrom(s, i);
    } else if i < |s| {
      SearchResultIdFromSpec(s, i + 1);
      if SearchResultIdFrom(s, i + 1).Some? {
        var j :| i + 1 <= j <= |s| && ResultIdAt(s, j) == SearchResultIdFrom(s, i + 1)
                 && forall k | i + 1 <= k < j :: ResultIdAt(s, k).None?;
        assert forall k | i <= k < j :: ResultIdAt(s, k).None?;
      }
    }
  }

  /**
   * `search` returns the leftmost match: the id found is the one captured at
   * the first position where the pattern matches, and nothing is found only
   * when the pattern matches nowhere.
   */
  lemma FindResultIdLeftmost(s: string)
    ensures FindResultId(s).Some? ==>
      exists j | 0 <= j <= |s| :: ResultIdAt(s, j) == FindResultId(s)
        && forall k | 0 <= k < j :: ResultIdAt(s, k).None?
    ensures FindResultId(s).None? <==> forall k | 0 <= k <= |s| :: ResultIdAt(s, k).None?
  {
    SearchResultIdFromSpec(s, 0);
  }

  // ================================================================ RESULT_RE with $ (scraper.py)

  /**
   * `re.search(r"/result/(\d+)$", s).group(1)`: `$` matches at the very end
   * or just before a final newline, so the id is the digit run ending there.
   */
  function FindResultIdAtEnd(s: string): Option<string>
  {
    ResultIdAtEnd(FinalNewlineStripped(s))
  }

  /** Where `$` matches last: the end of `s`, or just before its final newline. */
  function FinalNewlineStripped(s: string): string {
    if s != [] && s[|s| - 1] == '\n' then s[..|s| - 1] else s
  }

  /** The digit run `/result/(\d+)` captures when its match ends exactly at the end of `t`. */
  function ResultIdAtEnd(t: string): Option<string> {
    var n := TrailingDigits(t);
    if n >= 1 && |t| - n >= 8 && t[|t| - n - 8..|t| - n] == ResultPath then Some(t[|t| - n..])
    else None
  }

  /** An id is found only when `s` ends with `/result/<digits>`, possibly followed by one newline. */
  lemma FindResultIdAtEndSound(s: string, d: string)
    requires FindResultIdAtEnd(s) == Some(d)
    ensures |d| >= 1 && AllDigits(d)
    ensures var p := s[..|s| - |d| - 8 - (if s[|s| - 1] == '\n' then 1 else 0)];
      s == p + ResultPath + d || s == p + ResultPath + d + "\n"
  {
    var t := FinalNewlineStripped(s);
    TrailingResultId(t, TrailingDigits(t));
    if s != [] && s[|s| - 1] == '\n' {
      SplitLast(s);
      assert s[..|s| - |d| - 8 - 1] == t[..|t| - |d| - 8];
    }
  }

  /** A non-empty sequence is its last element appended to the rest. */
  lemma SplitLast<T>(s: seq<T>)
    requires s != []
    ensures s == s[..|s| - 1] + [s[|s| - 1]]
  {
  }

  /** `t` ends with `/result/` and then its `n` trailing digits. */
  lemma TrailingResultId(t: string, n: nat)
    requires n == TrailingDigits(t) && n >= 1 && |t| - n >= 8
    requires t[|t| - n - 8..|t| - n] == ResultPath
    ensures AllDigits(t[|t| - n..])
    ensures t == t[..|t| - n - 8] + ResultPath + t[|t| - n..]
  {
    var d := t[|t| - n..];
    forall k | 0 <= k < |d| ensures IsDigit(d[k]) {
      assert d[k] == t[|t| - n + k];
    }
    SplitThree(t, |t| - n - 8, |t| - n);
  }

  /** A sequence is its three slices at `a` and `b`, joined. */
  lemma SplitThree<T>(t: seq<T>, a: nat, b: nat)
    requires a <= b <= |t|
    ensures t == t[..a] + t[a..b] + t[b..]
  {
  }

  /** Every href ending in `/result/<digits>` (or that plus a newline) yields exactly those digits. */
  lemma FindResultIdAtEndComplete(p: string, d: string, newline: bool)
    requires |d| >= 1 && AllDigits(d)
    ensures FindResultIdAtEnd(p + ResultPath + d + (if newline then "\n" else "")) == Some(d)
  {
    var t := p + ResultPath + d;
    var s := t + (if newline then "\n" else "");
    calc {
      FindResultIdAtEnd(s);
      ResultIdAtEnd(FinalNewlineStripped(s));
      { if newline {
          assert s[..|s| - 1] == t;
        } else {
          assert s == t && t[|t| - 1] == d[|d| - 1] && IsDigit(d[|d| - 1]);
        }
      }
      ResultIdAtEnd(t);
      { ResultIdAtEndOf(p, d); }
      Some(d);
    }
  }

  /** `/result/(\d+)` matches at the end of `p + "/result/" + d` and captures `d`. */
  lemma ResultIdAtEndOf(p: string, d: string)
    requires |d| >= 1 && AllDigits(d)
    ensures ResultIdAtEnd(p + ResultPath + d) == Some(d)
  {
    var t := p + ResultPath + d;
    forall k | |t| - |d| <= k < |t| ensures IsDigit(t[k]) {
      assert t[k] == d[k - |t| + |d|];
    }
    assert t[|t| - |d| - 1] == '/';
    TrailingDigitsExact(t, |d|);
    assert t[|t| - |d| - 8..|t| - |d|] == ResultPath;
    assert t[|t| - |d|..] == d;
  }

  // ================================================================ DATE_RE

  /** `s[p..]` starts with `, ` and four digits: the tail of a DATE_RE match. */
  predicate YearTailAt(s: string, p: nat) {
    p + 6 <= |s| && s[p] == ',' && s[p + 1] == ' '
    && IsDigit(s[p + 2]) && IsDigit(s[p + 3]) && IsDigit(s[p + 4]) && IsDigit(s[p + 5])
  }

  /** Length of the DATE_RE match that starts at `s[i]`, if one does. */
  function DateAt(s: string, i: nat): Option<nat>
    requires i <= |s|
  {
    if i < |s| && IsUpper(s[i]) then
      var k := LowerRun(s, i + 1);
      var j := i + 1 + k;
      if k >= 1 && j + 2 <= |s| && s[j] == ' ' && IsDigit(s[j + 1]) then
        if j + 2 < |s| && IsDigit(s[j + 2]) && YearTailAt(s, j + 3) then Some(j + 9 - i)
        else if YearTailAt(s, j + 2) then Some(j + 8 - i)
        else None
      else None
    else None
  }

  /**
   * A date as DATE_RE spells it, starting at `s[i]`: a capital, `m`
   * lower-case letters, a space, a day of `dd` digits, a comma, a space and
   * a four-digit year.
   */
  predicate DateShapeAt(s: string, i: nat, m: nat, dd: nat) {
    && 1 <= m && 1 <= dd <= 2
    && i + m + dd + 8 <= |s|
    && IsUpper(s[i])
    && (forall k | i + 1 <= k <= i + m :: IsLower(s[k]))
    && s[i + m + 1] == ' '
    && (forall k | i + m + 2 <= k < i + m + 2 + dd :: IsDigit(s[k]))
    && YearTailAt(s, i + m + 2 + dd)
  }

  /** `t` is exactly one date of shape (`m`, `dd`). */
  predicate DateShape(t: string, m: nat, dd: nat) {
    |t| == m + dd + 8 && DateShapeAt(t, 0, m, dd)
  }

  predicate IsDate(t: string) {
    exists m: nat, dd: nat {:trigger DateShape(t, m, dd)} | m < |t| && dd <= 2 :: DateShape(t, m, dd)
  }

  /** A date at `s[i]` is a date of the slice it spans, and back. */
  lemma DateShapeSlice(s: string, i: nat, m: nat, dd: nat)
    requires i + m + dd + 8 <= |s|
    ensures DateShapeAt(s, i, m, dd) <==> DateShape(s[i..i + m + dd + 8], m, dd)
  {
    var t := s[i..i + m + dd + 8];
    assert forall q | 0 <= q < |t| :: t[q] == s[i + q];
    var p := m + 2 + dd;
    assert s[i + p] == t[p] && s[i + p + 1] == t[p + 1];
    assert s[i + p + 2] == t[p + 2] && s[i + p + 3] == t[p + 3];
    assert s[i + p + 4] == t[p + 4] && s[i + p + 5] == t[p + 5];
    if DateShape(t, m, dd) {
      forall k | i + 1 <= k <= i + m ensures IsLower(s[k]) {
        assert s[k] == t[k - i];
      }
      forall k | i + m + 2 <= k < i + m + 2 + dd ensures IsDigit(s[k]) {
        assert s[k] == t[k - i];
      }
    }
  }

  /** DATE_RE matches at `s[i]` exactly a date of shape (`m`, `dd`) there. */
  lemma DateAtOfShape(s: string, i: nat, m: nat, dd: nat)
    requires DateShapeAt(s, i, m, dd)
    ensures DateAt(s, i) == Some(m + dd + 8)
  {
    LowerRunExact(s, i + 1, m);
    var j := i + 1 + m;
    if dd == 1 {
      assert !IsDigit(s[j + 2]);
    }
  }

  /** A match found at `i` is a well-formed date. */
  lemma DateAtSound(s: string, i: nat)
    requires i <= |s| && DateAt(s, i).Some?
    ensures i + DateAt(s, i).value <= |s|
    ensures IsDate(s[i..i + DateAt(s, i).value])
  {
    var k := LowerRun(s, i + 1);
    var j := i + 1 + k;
    var dd := if j + 2 < |s| && IsDigit(s[j + 2]) && YearTailAt(s, j + 3) then 2 else 1;
    assert DateShapeAt(s, i, k, dd);
    DateShapeSlice(s, i, k, dd);
  }

  /** Wherever a well-formed date starts, DATE_RE matches there and takes exactly that date. */
  lemma DateAtComplete(s: string, i: nat, n: nat)
    requires i + n <= |s| && IsDate(s[i..i + n])
    ensures DateAt(s, i) == Some(n)
  {
    var m: nat, dd: nat :| m < n && dd <= 2 && DateShape(s[i..i + n], m, dd);
    DateShapeSlice(s, i, m, dd);
    DateAtOfShape(s, i, m, dd);
  }

  function SearchDateFrom(s: string, i: nat): Option<string>
    requires i <= |s|
    decreases |s| - i
  {
    match DateAt(s, i)
    case Some(n) => if i + n <= |s| then Some(s[i..i + n]) else None
    case None => if i == |s| then None else SearchDateFrom(s, i + 1)
  }

  /** `DATE_RE.search(text).group(0)`; None when there is no date in `text`. */
  function FindDate(s: string): Option<string>
  {
    SearchDateFrom(s, 0)
  }

  lemma {:induction false} SearchDateFromSpec(s: string, i: nat)
    requires i <= |s|
    ensures SearchDateFrom(s, i).Some? ==>
      exists j | i <= j <= |s| :: DateAt(s, j).Some? && j + DateAt(s, j).value <= |s|
        && SearchDateFrom(s, i).value == s[j..j + DateAt(s, j).value]
        && forall k | i <= k < j :: DateAt(s, k).None?
    ensures SearchDateFrom(s, i).None? ==> forall k | i <= k <= |s| :: DateAt(s, k).None?
    decreases |s| - i
  {
    if DateAt(s, i).Some? {
      DateAtSound(s, i);
    } else if i < |s| {
      SearchDateFromSpec(s, i + 1);
    }
  }

  /** No well-formed date occurs anywhere in `s`. */
  predicate NoDate(s: string) {
    forall k, e | 0 <= k <= e <= |s| :: !IsDate(s[k..e])
  }

  /** `d` is a date that occurs in `s` at some position before which no date starts. */
  predicate LeftmostDate(s: string, d: string) {
    && IsDate(d)
    && exists j | 0 <= j <= |s| ::
         (StartsAt(s, j, d) && forall k, e | 0 <= k < j && k <= e <= |s| :: !IsDate(s[k..e]))
  }

  /** No date starts before the first position where DATE_RE matches. */
  lemma NoDateBefore(s: string, j: nat)
    requires j <= |s| && forall k | 0 <= k < j :: DateAt(s, k).None?
    ensures forall k, e | 0 <= k < j && k <= e <= |s| :: !IsDate(s[k..e])
  {
    forall k, e | 0 <= k < j && k <= e <= |s| ensures !IsDate(s[k..e]) {
      if IsDate(s[k..e]) {
        DateAtComplete(s, k, e - k);
      }
    }
  }

  /** What `DATE_RE.search` yields is a well-formed date of the text, and no date starts further left. */
  lemma FindDateLeftmost(s: string)
    requires FindDate(s).Some?
    ensures LeftmostDate(s, FindDate(s).value)
  {
    SearchDateFromSpec(s, 0);
    var d := FindDate(s).value;
    var j :| 0 <= j <= |s| && DateAt(s, j).Some? && j + DateAt(s, j).value <= |s|
      && d == s[j..j + DateAt(s, j).value]
      && forall k | 0 <= k < j :: DateAt(s, k).None?;
    LeftmostDateAt(s, j, d);
  }

  /** The date DATE_RE matches at the first position where it matches at all is the leftmost date. */
  lemma LeftmostDateAt(s: string, j: nat, d: string)
    requires j <= |s| && DateAt(s, j).Some? && j + DateAt(s, j).value <= |s|
    requires d == s[j..j + DateAt(s, j).value]
    requires forall k | 0 <= k < j :: DateAt(s, k).None?
    ensures LeftmostDate(s, d)
  {
    DateAtSound(s, j);
    NoDateBefore(s, j);
    assert StartsAt(s, j, d);
  }

  /** `DATE_RE.search` finds nothing exactly when no well-formed date occurs in the text. */
  lemma FindDateNone(s: string)
    ensures FindDate(s).None? <==> NoDate(s)
  {
    SearchDateFromSpec(s, 0);
    if FindDate(s).None? {
      forall k, e | 0 <= k <= e <= |s| ensures !IsDate(s[k..e]) {
        if IsDate(s[k..e]) {
          DateAtComplete(s, k, e - k);
        }
      }
    } else {
      FindDateLeftmost(s);
      var j :| 0 <= j <= |s| && StartsAt(s, j, FindDate(s).value);
      assert s[j..j + |FindDate(s).value|] == FindDate(s).value;
    }
  }

  // ================================================================ TERM_RE

  const Seasons: seq<string> := ["Spring", "Summer", "Fall", "Winter"]

  /** Length of the season name at `s[i]`, 0 when none starts there. */
  function SeasonLen(s: string, i: nat): (n: nat)
    ensures n == 0 || (i + n <= |s| && s[i..i + n] in Seasons)
  {
    if StartsAt(s, i, "Spring") then 6
    else if StartsAt(s, i, "Summer") then 6
    else if StartsAt(s, i, "Winter") then 6
    else if StartsAt(s, i, "Fall") then 4
    else 0
  }

  /** TERM_RE matches at `s[i]`. */
  predicate TermAt(s: string, i: nat)
    requires i <= |s|
  {
    && (i == 0 || !IsWordChar(s[i - 1]))
    && var w := SeasonLen(s, i);
    && w > 0
    && var k := SpaceRun(s, i + w);
    && k >= 1
    && var p := i + w + k;
    && p + 4 <= |s|
    && IsDigit(s[p]) && IsDigit(s[p + 1]) && IsDigit(s[p + 2]) && IsDigit(s[p + 3])
    && (p + 4 == |s| || !IsWordChar(s[p + 4]))
  }

  /** `TERM_RE.search(s)` succeeds. */
  predicate HasTerm(s: string) {
    exists i | 0 <= i <= |s| :: TermAt(s, i)
  }

  lemma SeasonLenOf(s: string, i: nat, season: string)
    requires season in Seasons && StartsAt(s, i, season)
    ensures SeasonLen(s, i) == |season|
  {
    if season == "Summer" {
      assert !StartsAt(s, i, "Spring") by { assert s[i + 1] == season[1]; }
    } else if season == "Winter" {
      assert s[i] == season[0];
    } else if season == "Fall" {
      assert s[i] == season[0];
    }
  }

  /** TERM_RE matches at `s[i]` when a season, a whitespace run of length `g` and four digits follow in turn. */
  lemma TermAtIntro(s: string, i: nat, season: string, g: nat)
    requires season in Seasons && StartsAt(s, i, season)
    requires g >= 1 && i + |season| + g + 4 <= |s|
    requires forall k | i + |season| <= k < i + |season| + g :: IsSpace(s[k])
    requires forall k | i + |season| + g <= k < i + |season| + g + 4 :: IsDigit(s[k])
    requires i == 0 || !IsWordChar(s[i - 1])
    requires i + |season| + g + 4 == |s| || !IsWordChar(s[i + |season| + g + 4])
    ensures TermAt(s, i)
  {
    SeasonLenOf(s, i, season);
    var at := i + |season| + g;
    assert IsDigit(s[at]);
    SpaceRunExact(s, i + |season|, g);
  }

  /** A season name, whitespace and a four-digit year, set off from neighbouring word characters, is a term. */
  lemma TermAtParts(p: string, season: string, gap: string, year: string, q: string)
    requires season in Seasons
    requires gap != [] && forall k | 0 <= k < |gap| :: IsSpace(gap[k])
    requires |year| == 4 && AllDigits(year)
    requires p == [] || !IsWordChar(p[|p| - 1])
    requires q == [] || !IsWordChar(q[0])
    ensures HasTerm(p + season + gap + year + q)
  {
    var s := p + season + gap + year + q;
    var i := |p|;
    var w := |season|;
    var at := i + w + |gap|;
    assert s[i..i + w] == season;
    forall k | i + w <= k < at ensures IsSpace(s[k]) {
      assert s[k] == gap[k - i - w];
    }
    forall k | at <= k < at + 4 ensures IsDigit(s[k]) {
      assert s[k] == year[k - at];
    }
    if at + 4 < |s| {
      assert s[at + 4] == q[0];
    }
    if i > 0 {
      assert s[i - 1] == p[|p| - 1];
    }
    TermAtIntro(s, i, season, |gap|);
  }

  /** The first of `strs[i..]` in which TERM_RE matches. */
  function FirstTermFrom(strs: seq<string>, i: nat): Option<string>
    requires i <= |strs|
    decreases |strs| - i
  {
    if i == |strs| then None
    else if HasTerm(strs[i]) then Some(strs[i])
    else FirstTermFrom(strs, i + 1)
  }

  lemma {:induction false} FirstTermFromSpec(strs: seq<string>, i: nat)
    requires i <= |strs|
    ensures FirstTermFrom(strs, i).Some? ==> exists j | i <= j < |strs| ::
      (strs[j] == FirstTermFrom(strs, i).value && HasTerm(strs[j]) && forall k | i <= k < j :: !HasTerm(strs[k]))
    ensures FirstTermFrom(strs, i).None? <==> forall k | i <= k < |strs| :: !HasTerm(strs[k])
    decreases |strs| - i
  {
    if i < |strs| && !HasTerm(strs[i]) {
      FirstTermFromSpec(strs, i + 1);
      if FirstTermFrom(strs, i + 1).Some? {
        var j :| i + 1 <= j < |strs| && strs[j] == FirstTermFrom(strs, i + 1).value && HasTerm(strs[j])
                 && forall k | i + 1 <= k < j :: !HasTerm(strs[k]);
        assert forall k | i <= k < j :: !HasTerm(strs[k]);
      }
    }
  }

  /** BeautifulSoup's `row.find(string=TERM_RE)`: the first text string in which TERM_RE matches. */
  function FirstTermString(strs: seq<string>): (r: Option<string>)
    ensures r.Some? ==> exists i | 0 <= i < |strs| ::
      (strs[i] == r.value && HasTerm(strs[i]) && forall j | 0 <= j < i :: !HasTerm(strs[j]))
    ensures r.None? <==> forall k | 0 <= k < |strs| :: !HasTerm(strs[k])
  {
    FirstTermFromSpec(strs, 0);
    FirstTermFrom(strs, 0)
  }
}
