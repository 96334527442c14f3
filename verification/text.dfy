/**
 * Python string helpers the harvester leans on: `str.isspace`, `str.strip`,
 * `str.split()` with no argument, `sep.join`, `str.rstrip(c)`, BeautifulSoup's
 * `get_text(sep, strip=True)`, and the decimal rendering of a status code.
 */
module Text {

  /** The characters for which Python's `str.isspace()` holds. */
  predicate IsSpace(c: char) {
    c == ' ' || ('\t' <= c <= '\r') || ('\U{1C}' <= c <= '\U{1F}')
    || c == '\U{85}' || c == '\U{A0}' || c == '\U{1680}'
    || ('\U{2000}' <= c <= '\U{200A}') || c == '\U{2028}' || c == '\U{2029}'
    || c == '\U{202F}' || c == '\U{205F}' || c == '\U{3000}'
  }

  predicate NoSpace(s: string) {
    forall i | 0 <= i < |s| :: !IsSpace(s[i])
  }

  /** No whitespace at either end. */
  predicate Trimmed(s: string) {
    s == [] || (!IsSpace(s[0]) && !IsSpace(s[|s| - 1]))
  }

  /**
   * The whitespace normal form: every whitespace character is a plain space
   * standing strictly inside the string between two non-space characters.
   */
  predicate SingleSpaced(t: string) {
    forall i | 0 <= i < |t| && IsSpace(t[i]) ::
      t[i] == ' ' && 0 < i < |t| - 1 && !IsSpace(t[i - 1]) && !IsSpace(t[i + 1])
  }

  // ---------------------------------------------------------------- strip

  function TrimStart(s: string): (r: string)
    ensures |r| <= |s| && r == s[|s| - |r|..]
    ensures r == [] || !IsSpace(r[0])
    ensures forall i | 0 <= i < |s| - |r| :: IsSpace(s[i])
  {
    if s != [] && IsSpace(s[0]) then TrimStart(s[1..]) else s
  }

  function TrimEnd(s: string): (r: string)
    ensures |r| <= |s| && r == s[..|r|]
    ensures r == [] || !IsSpace(r[|r| - 1])
    ensures forall i | |r| <= i < |s| :: IsSpace(s[i])
  {
    if s != [] && IsSpace(s[|s| - 1]) then TrimEnd(s[..|s| - 1]) else s
  }

  /** `s.strip()`: the longest infix of `s` with no whitespace at its ends. */
  function Strip(s: string): (r: string)
    ensures Trimmed(r)
  {
    TrimEnd(TrimStart(s))
  }

  lemma StripTrimmed(s: string)
    requires Trimmed(s)
    ensures Strip(s) == s
  {
  }

  /** `s.rstrip(c)`: drops every trailing copy of `c`. */
  function RStrip(s: string, c: char): (r: string)
    ensures |r| <= |s| && r == s[..|r|]
    ensures r == [] || r[|r| - 1] != c
    ensures forall i | |r| <= i < |s| :: s[i] == c
  {
    if s != [] && s[|s| - 1] == c then RStrip(s[..|s| - 1], c) else s
  }

  // ---------------------------------------------------------------- split / join

  /** Length of the run of non-space characters that starts `s`. */
  function WordLen(s: string): (n: nat)
    ensures n <= |s|
    ensures forall i | 0 <= i < n :: !IsSpace(s[i])
    ensures n == |s| || IsSpace(s[n])
  {
    if s == [] || IsSpace(s[0]) then 0 else 1 + WordLen(s[1..])
  }

  /** `s.split()`: the maximal runs of non-space characters, in order. */
  function Words(s: string): (ws: seq<string>)
    ensures forall i | 0 <= i < |ws| :: ws[i] != [] && NoSpace(ws[i])
    decreases |s|
  {
    if s == [] then []
    else if IsSpace(s[0]) then Words(s[1..])
    else
      var n := WordLen(s);
      [s[..n]] + Words(s[n..])
  }

  /** `sep.join(ws)`. */
  function Join(ws: seq<string>, sep: string): string
  {
    if ws == [] then []
    else if |ws| == 1 then ws[0]
    else ws[0] + sep + Join(ws[1..], sep)
  }

  /** `" ".join(s.split()).strip()`, the cleaner's treatment of a text field. */
  function Normalize(s: string): string
  {
    Strip(Join(Words(s), " "))
  }

  // ---------------------------------------------------------------- get_text

  /** The text strings of an element after `strip()`, empty ones dropped. */
  function StrippedPieces(strs: seq<string>): seq<string>
  {
    if strs == [] then []
    else
      var rest := StrippedPieces(strs[1..]);
      if Strip(strs[0]) == [] then rest else [Strip(strs[0])] + rest
  }

  /** Every piece is non-empty and has no whitespace at either end. */
  lemma {:induction false} StrippedPiecesTrimmed(strs: seq<string>)
    ensures forall i | 0 <= i < |StrippedPieces(strs)| :: StrippedPieces(strs)[i] != [] && Trimmed(StrippedPieces(strs)[i])
  {
    if strs != [] {
      var rest := StrippedPieces(strs[1..]);
      StrippedPiecesTrimmed(strs[1..]);
      var piece := Strip(strs[0]);
      if piece != [] {
        assert StrippedPieces(strs) == [piece] + rest;
        forall i | 0 <= i < |StrippedPieces(strs)|
          ensures StrippedPieces(strs)[i] != [] && Trimmed(StrippedPieces(strs)[i])
        {
          if i > 0 {
            assert StrippedPieces(strs)[i] == rest[i - 1];
          }
        }
      }
    }
  }

  /** A text string that `strip()` empties. */
  predicate Blank(s: string) {
    Strip(s) == []
  }

  lemma {:induction false} StrippedPiecesEmpty(strs: seq<string>)
    ensures StrippedPieces(strs) == [] <==> forall i | 0 <= i < |strs| :: Blank(strs[i])
  {
    if strs != [] {
      var tail := strs[1..];
      StrippedPiecesEmpty(tail);
      assert StrippedPieces(strs) == [] <==> Blank(strs[0]) && StrippedPieces(tail) == [];
      assert (forall i | 0 <= i < |strs| :: Blank(strs[i]))
        <==> Blank(strs[0]) && forall i | 0 <= i < |tail| :: Blank(tail[i])
      by {
        forall i | 0 < i < |strs| ensures strs[i] == tail[i - 1] {
        }
      }
    }
  }

  /** BeautifulSoup's `get_text(sep, strip=True)` over an element's text strings. */
  function GetText(strs: seq<string>, sep: string): string
  {
    Join(StrippedPieces(strs), sep)
  }

  // ---------------------------------------------------------------- decimal

  predicate IsDigit(c: char) { '0' <= c <= '9' }

  predicate AllDigits(s: string) { forall k | 0 <= k < |s| :: IsDigit(s[k]) }

  function DigitChar(d: nat): (c: char)
    requires d < 10
    ensures IsDigit(c)
  {
    ('0' as int + d) as char
  }

  /** `int(c)` for one digit. */
  function DigitValue(c: char): nat
    requires IsDigit(c)
  {
    c as int - '0' as int
  }

  /** `int(s)` for a string of digits, most significant first. */
  function DigitsValue(s: string): nat
    requires AllDigits(s)
  {
    if s == [] then 0 else DigitsValue(s[..|s| - 1]) * 10 + DigitValue(s[|s| - 1])
  }

  /** A numeral as `str` writes a non-negative integer: digits, and no leading zero unless it is "0". */
  predicate Canonical(s: string) {
    |s| >= 1 && AllDigits(s) && (s[0] == '0' ==> |s| == 1)
  }

  /** A numeral as `str` writes any integer: a canonical one, or a minus sign before a canonical one other than "0". */
  predicate IntNumeral(s: string) {
    || Canonical(s)
    || (|s| >= 2 && s[0] == '-' && Canonical(s[1..]) && s[1] != '0')
  }

  /** `int(s)` for such a numeral. */
  function IntValue(s: string): int
    requires IntNumeral(s)
  {
    if s[0] == '-' then -(DigitsValue(s[1..]) as int) else DigitsValue(s)
  }

  /** `str(n)` for a non-negative integer: a canonical numeral that `int` reads back as `n`. */
  function Decimal(n: nat): (r: string)
    ensures Canonical(r)
    ensures DigitsValue(r) == n
  {
    if n < 10 then [DigitChar(n)]
    else
      var init := Decimal(n / 10);
      var r := init + [DigitChar(n % 10)];
      assert r[..|r| - 1] == init;
      r
  }

  /** `str(n)` for any integer: a minus sign exactly for a negative one, before the digits of its magnitude. */
  function IntText(n: int): (r: string)
    ensures IntNumeral(r)
    ensures r[0] == '-' <==> n < 0
  {
    if n >= 0 then Decimal(n)
    else
      var r := "-" + Decimal(-n);
      assert r[1..] == Decimal(-n);
      r
  }

  /** Every canonical numeral is `str` of its value: `Decimal` is onto the canonical numerals. */
  lemma {:induction false} DecimalOfDigits(s: string)
    requires Canonical(s)
    ensures Decimal(DigitsValue(s)) == s
    decreases |s|
  {
    var v := DigitsValue(s);
    if |s| == 1 {
      assert s[..|s| - 1] == [] && DigitsValue([]) == 0;
      assert v == DigitValue(s[0]);
      assert [DigitChar(v)] == s;
    } else {
      var init := s[..|s| - 1];
      assert init[0] == s[0];
      DecimalOfDigits(init);
      assert v / 10 == DigitsValue(init) && v % 10 == DigitValue(s[|s| - 1]);
      assert Decimal(v) == init + [s[|s| - 1]];
    }
  }

  /** `int(str(n)) == n` and `str(int(s)) == s`: the status code's text and its value determine each other. */
  lemma IntTextRoundTrip(n: int, s: string)
    ensures IntValue(IntText(n)) == n
    ensures IntNumeral(s) ==> IntText(IntValue(s)) == s
  {
    if n < 0 {
      assert IntText(n)[1..] == Decimal(-n);
    }
    if IntNumeral(s) {
      if s[0] == '-' {
        DecimalOfDigits(s[1..]);
        assert s == "-" + s[1..];
      } else {
        DecimalOfDigits(s);
      }
    }
  }

  // ---------------------------------------------------------------- lemmas

  /** A join of non-empty pieces starts with the first piece's first character and ends with the last piece's last one. */
  lemma {:induction false} JoinEnds(ps: seq<string>, sep: string)
    requires ps != []
    requires forall i | 0 <= i < |ps| :: ps[i] != []
    ensures Join(ps, sep) != []
    ensures Join(ps, sep)[0] == ps[0][0]
    ensures Join(ps, sep)[|Join(ps, sep)| - 1] == ps[|ps| - 1][|ps[|ps| - 1]| - 1]
  {
    if |ps| > 1 {
      JoinEnds(ps[1..], sep);
    }
  }

  lemma JoinTrimmed(ps: seq<string>, sep: string)
    requires forall i | 0 <= i < |ps| :: ps[i] != [] && Trimmed(ps[i])
    ensures Trimmed(Join(ps, sep))
  {
    if ps != [] {
      JoinEnds(ps, sep);
    }
  }

  /** `get_text(sep, strip=True)` never starts or ends with whitespace. */
  lemma GetTextTrimmed(strs: seq<string>, sep: string)
    ensures Trimmed(GetText(strs, sep))
  {
    StrippedPiecesTrimmed(strs);
    JoinTrimmed(StrippedPieces(strs), sep);
  }

  /** `get_text(sep, strip=True)` is empty exactly when every text string is blank. */
  lemma GetTextEmpty(strs: seq<string>, sep: string)
    ensures GetText(strs, sep) == [] <==> forall i | 0 <= i < |strs| :: Blank(strs[i])
  {
    var ps := StrippedPieces(strs);
    StrippedPiecesEmpty(strs);
    StrippedPiecesTrimmed(strs);
    if ps != [] {
      JoinEnds(ps, sep);
    }
  }

  lemma {:induction false} WordLenOfWord(w: string, t: string)
    requires NoSpace(w)
    requires t == [] || IsSpace(t[0])
    ensures WordLen(w + t) == |w|
  {
    if w != [] {
      assert (w + t)[1..] == w[1..] + t;
      WordLenOfWord(w[1..], t);
    }
  }

  /** Splitting a single-space join of words gives the words back. */
  lemma {:induction false} WordsOfJoin(ws: seq<string>)
    requires forall i | 0 <= i < |ws| :: ws[i] != [] && NoSpace(ws[i])
    ensures Words(Join(ws, " ")) == ws
  {
    if ws == [] {
    } else if |ws| == 1 {
      var w := ws[0];
      WordLenOfWord(w, []);
      assert w + [] == w;
      assert w[|w|..] == [];
    } else {
      var w := ws[0];
      var j := Join(ws[1..], " ");
      var s := w + " " + j;
      assert s == w + (" " + j);
      WordLenOfWord(w, " " + j);
      assert s[..|w|] == w;
      assert s[|w|..] == " " + j;
      assert (" " + j)[1..] == j;
      WordsOfJoin(ws[1..]);
      assert ws == [w] + ws[1..];
    }
  }

  /** A single-space join of words is in whitespace normal form. */
  lemma {:induction false} JoinSingleSpaced(ws: seq<string>)
    requires forall i | 0 <= i < |ws| :: ws[i] != [] && NoSpace(ws[i])
    ensures SingleSpaced(Join(ws, " "))
  {
    if |ws| > 1 {
      var w := ws[0];
      var j := Join(ws[1..], " ");
      JoinSingleSpaced(ws[1..]);
      JoinEnds(ws[1..], " ");
      var t := w + " " + j;
      forall i | 0 <= i < |t| && IsSpace(t[i])
        ensures t[i] == ' ' && 0 < i < |t| - 1 && !IsSpace(t[i - 1]) && !IsSpace(t[i + 1])
      {
        if i < |w| {
          assert false;
        } else if i == |w| {
          assert t[i - 1] == w[|w| - 1];
          assert t[i + 1] == j[0];
        } else {
          var k := i - |w| - 1;
          assert t[i] == j[k];
          if k == 0 {
            assert false;
          }
          assert t[i - 1] == j[k - 1];
          assert t[i + 1] == j[k + 1];
        }
      }
    }
  }

  /** What the cleaner writes back is in whitespace normal form. */
  lemma NormalizeSingleSpaced(s: string)
    ensures Normalize(s) == Join(Words(s), " ")
    ensures SingleSpaced(Normalize(s))
  {
    var ws := Words(s);
    JoinSingleSpaced(ws);
    if ws != [] {
      JoinEnds(ws, " ");
    }
    StripTrimmed(Join(ws, " "));
  }

  /** Normalizing keeps exactly the words of the original text. */
  lemma NormalizeKeepsWords(s: string)
    ensures Words(Normalize(s)) == Words(s)
  {
    NormalizeSingleSpaced(s);
    WordsOfJoin(Words(s));
  }

  /** What follows a space of a single-spaced string is single-spaced. */
  lemma SingleSpacedAfter(t: string, n: nat)
    requires SingleSpaced(t) && n < |t| && IsSpace(t[n])
    ensures SingleSpaced(t[n + 1..])
  {
    var rest := t[n + 1..];
    forall i | 0 <= i < |rest| && IsSpace(rest[i])
      ensures rest[i] == ' ' && 0 < i < |rest| - 1 && !IsSpace(rest[i - 1]) && !IsSpace(rest[i + 1])
    {
      assert rest[i] == t[n + 1 + i];
      if i == 0 {
        assert false;
      }
      assert rest[i - 1] == t[n + i];
      assert rest[i + 1] == t[n + 2 + i];
    }
  }

  /** Strings already in whitespace normal form are left as they are. */
  lemma {:induction false} SingleSpacedFixed(t: string)
    requires SingleSpaced(t)
    ensures Join(Words(t), " ") == t
    decreases |t|
  {
    if t != [] {
      assert !IsSpace(t[0]);
      var n := WordLen(t);
      var w := t[..n];
      if n == |t| {
        assert t[n..] == [];
        assert t[..n] == t;
        assert Words(t) == [t];
      } else {
        var rest := t[n + 1..];
        assert t[n] == ' ';
        assert t[n..][1..] == rest;
        assert Words(t[n..]) == Words(rest);
        SingleSpacedAfter(t, n);
        SingleSpacedFixed(rest);
        assert rest != [] && !IsSpace(rest[0]);
        assert Words(rest) != [];
        assert |Words(t)| > 1;
        assert Words(t)[1..] == Words(rest);
        assert t == w + " " + rest;
      }
    }
  }

  /** Normalizing is idempotent, and its fixed points are the single-spaced strings. */
  lemma NormalizeIdempotent(s: string)
    ensures Normalize(Normalize(s)) == Normalize(s)
    ensures SingleSpaced(s) ==> Normalize(s) == s
  {
    NormalizeSingleSpaced(s);
    NormalizeKeepsWords(s);
    NormalizeSingleSpaced(Normalize(s));
    if SingleSpaced(s) {
      SingleSpacedFixed(s);
    }
  }
}
