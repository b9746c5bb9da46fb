/**
 * Text normalisation of the crosswalk analyser: `clean_text` and
 * `extract_keywords` (crosswalk.py:88-114).
 *
 * Characters follow Python's `str` semantics restricted to ASCII for case and
 * for the word class `\w` (letters, digits and `_`); the whitespace class is
 * Python's full `str.isspace` set.
 */
module Text {
  import opened Base

  predicate IsUpper(c: char) { 'A' <= c <= 'Z' }

  predicate IsDigit(c: char) { '0' <= c <= '9' }

  /** Python's `\w`: letters, digits and the underscore. */
  predicate IsWordChar(c: char) { 'a' <= c <= 'z' || 'A' <= c <= 'Z' || IsDigit(c) || c == '_' }

  /** Python's `\s` and the separators of `str.split()` / `str.strip()`. */
  predicate IsSpace(c: char)
  {
    c == ' ' || '\t' <= c <= '\r' || '\U{1C}' <= c <= '\U{1F}' || c == '\U{85}' || c == '\U{A0}'
    || c == '\U{1680}' || '\U{2000}' <= c <= '\U{200A}' || c == '\U{2028}' || c == '\U{2029}'
    || c == '\U{202F}' || c == '\U{205F}' || c == '\U{3000}'
  }

  /** `str.lower()` on one character. */
  function Lower(c: char): char
  {
    if IsUpper(c) then (c as int + 32) as char else c
  }

  /** `str.lower()`. */
  function LowerStr(s: string): string
  {
    seq(|s|, i requires 0 <= i < |s| => Lower(s[i]))
  }

  /** The characters that `re.sub(r'[^\w\s\-]', ' ', ...)` leaves alone. */
  predicate Kept(c: char) { IsWordChar(c) || IsSpace(c) || c == '-' }

  /** `re.sub(r'[^\w\s\-]', ' ', s)`: every other character becomes a space. */
  function Scrub(s: string): string
  {
    seq(|s|, i requires 0 <= i < |s| => if Kept(s[i]) then s[i] else ' ')
  }

  /** Drops the leading run of whitespace (`str.lstrip()`). */
  function DropSpaces(s: string): (r: string)
    ensures |r| <= |s| && r == s[|s| - |r|..]
    ensures r == [] || !IsSpace(r[0])
    ensures forall i :: 0 <= i < |s| - |r| ==> IsSpace(s[i])
  {
    if s != [] && IsSpace(s[0]) then DropSpaces(s[1..]) else s
  }

  /** Drops the trailing run of whitespace (`str.rstrip()`). */
  function TrimEnd(s: string): (r: string)
    ensures |r| <= |s| && r == s[..|r|]
    ensures r == [] || !IsSpace(r[|r| - 1])
    ensures forall i :: |r| <= i < |s| ==> IsSpace(s[i])
  {
    if s != [] && IsSpace(s[|s| - 1]) then TrimEnd(s[..|s| - 1]) else s
  }

  /** `str.strip()`. */
  function Strip(s: string): string
  {
    TrimEnd(DropSpaces(s))
  }

  /** Neither starts nor ends with whitespace. */
  predicate Trimmed(s: string)
  {
    s == [] || (!IsSpace(s[0]) && !IsSpace(s[|s| - 1]))
  }

  /** `str.strip()` yields a trimmed text, and leaves a trimmed text unchanged. */
  lemma StripTrimmed(s: string)
    ensures Trimmed(Strip(s))
    ensures Trimmed(s) ==> Strip(s) == s
  {
    var u := DropSpaces(s);
    var r := TrimEnd(u);
    if r != [] {
      assert r[0] == u[0];
    }
    if Trimmed(s) && s != [] {
      assert u == s;
    }
  }

  /** `re.sub(r'\s+', ' ', s)`: every maximal whitespace run becomes one space. */
  function Collapse(s: string): string
    decreases |s|
  {
    if s == [] then []
    else if IsSpace(s[0]) then [' '] + Collapse(DropSpaces(s))
    else [s[0]] + Collapse(s[1..])
  }

  /** `clean_text` (crosswalk.py:88-102); `None` is an absent (NaN) value. */
  function CleanText(t: Option<string>): string
  {
    match t
    case None => ""
    case Some(s) => Strip(Collapse(Scrub(LowerStr(s))))
  }

  /** A character that may appear in a cleaned text. */
  predicate CleanChar(c: char)
  {
    !IsUpper(c) && (IsWordChar(c) || c == ' ' || c == '-')
  }

  /** Positions `i` and `i + 1` of `s` both hold a space. */
  predicate DoubleSpaceAt(s: string, i: int)
    requires 0 <= i < |s| - 1
  {
    s[i] == ' ' && s[i + 1] == ' '
  }

  /** Only clean characters, and no two spaces in a row. */
  predicate NoRuns(s: string)
  {
    (forall i :: 0 <= i < |s| ==> CleanChar(s[i]))
    && (forall i :: 0 <= i < |s| - 1 ==> !DoubleSpaceAt(s, i))
  }

  /** The shape of every output of `clean_text`. */
  predicate IsClean(s: string)
  {
    NoRuns(s) && (s != [] ==> s[0] != ' ' && s[|s| - 1] != ' ')
  }

  lemma CleanCharNotSpace(c: char)
    requires CleanChar(c) && c != ' '
    ensures !IsSpace(c)
  {
  }

  lemma NoRunsSlice(s: string, a: nat, b: nat)
    requires NoRuns(s) && a <= b <= |s|
    ensures NoRuns(s[a..b])
  {
    var t := s[a..b];
    forall i | 0 <= i < |t| - 1
      ensures !DoubleSpaceAt(t, i)
    {
      assert !DoubleSpaceAt(s, a + i);
      assert t[i] == s[a + i] && t[i + 1] == s[a + i + 1];
    }
  }

  /** The output of `Collapse` has no runs, and starts with a space exactly when its input starts with whitespace. */
  lemma {:induction false} CollapseNoRuns(s: string)
    requires forall i :: 0 <= i < |s| ==> Kept(s[i]) && !IsUpper(s[i])
    ensures NoRuns(Collapse(s))
    ensures Collapse(s) == [] <==> s == []
    ensures s != [] ==> (Collapse(s)[0] == ' ' <==> IsSpace(s[0]))
    decreases |s|
  {
    if s == [] {
    } else if IsSpace(s[0]) {
      var t := DropSpaces(s);
      assert forall i :: 0 <= i < |t| ==> t[i] == s[|s| - |t| + i];
      CollapseNoRuns(t);
      assert Collapse(s) == [' '] + Collapse(t);
      NoRunsCons(' ', Collapse(t));
    } else {
      CollapseNoRuns(s[1..]);
      assert Collapse(s) == [s[0]] + Collapse(s[1..]);
      NoRunsCons(s[0], Collapse(s[1..]));
    }
  }

  /** A clean character in front of a text without runs makes no run, unless a space meets a space. */
  lemma NoRunsCons(x: char, c: string)
    requires CleanChar(x) && NoRuns(c)
    requires x == ' ' ==> c == [] || c[0] != ' '
    ensures NoRuns([x] + c)
  {
    var r := [x] + c;
    forall i | 0 <= i < |r| - 1
      ensures !DoubleSpaceAt(r, i)
    {
      if i > 0 {
        assert !DoubleSpaceAt(c, i - 1);
        assert r[i] == c[i - 1] && r[i + 1] == c[i];
      }
    }
  }

  /** Stripping a text without runs leaves a cleaned text. */
  lemma StripClean(s: string)
    requires NoRuns(s)
    ensures IsClean(Strip(s))
  {
    StripNoRuns(s);
    StripTrimmed(s);
    assert IsSpace(' ');
  }

  /** `str.strip()` keeps a text without runs free of runs. */
  lemma StripNoRuns(s: string)
    requires NoRuns(s)
    ensures NoRuns(Strip(s))
  {
    DropSpacesNoRuns(s);
    TrimEndNoRuns(DropSpaces(s));
  }

  lemma DropSpacesNoRuns(s: string)
    requires NoRuns(s)
    ensures NoRuns(DropSpaces(s))
  {
    var u := DropSpaces(s);
    NoRunsDrop(s, |s| - |u|);
  }

  lemma TrimEndNoRuns(u: string)
    requires NoRuns(u)
    ensures NoRuns(TrimEnd(u))
  {
    NoRunsTake(u, |TrimEnd(u)|);
  }

  lemma NoRunsDrop(s: string, a: nat)
    requires NoRuns(s) && a <= |s|
    ensures NoRuns(s[a..])
  {
    NoRunsSlice(s, a, |s|);
    assert s[a..|s|] == s[a..];
  }

  lemma NoRunsTake(s: string, b: nat)
    requires NoRuns(s) && b <= |s|
    ensures NoRuns(s[..b])
  {
    NoRunsSlice(s, 0, b);
    assert s[0..b] == s[..b];
  }

  /**
   * `clean_text` never yields an upper-case letter or a character outside
   * word characters, space and hyphen, nor a leading, trailing or doubled
   * space; absent input yields the empty text.
   */
  lemma CleanTextIsClean(t: Option<string>)
    ensures IsClean(CleanText(t))
    ensures t.None? ==> CleanText(t) == ""
  {
    if t.Some? {
      var s := Scrub(LowerStr(t.value));
      assert forall i :: 0 <= i < |s| ==> Kept(s[i]) && !IsUpper(s[i]);
      CollapseNoRuns(s);
      StripClean(Collapse(s));
    }
  }

  lemma {:induction false} CollapseFixed(s: string)
    requires NoRuns(s)
    ensures Collapse(s) == s
    decreases |s|
  {
    if s != [] {
      NoRunsDrop(s, 1);
      CollapseFixed(s[1..]);
      if IsSpace(s[0]) {
        assert s[0] == ' ';
        assert |s| > 1 ==> !DoubleSpaceAt(s, 0);
        assert |s| > 1 ==> s[1] != ' ' && CleanChar(s[1]);
        assert DropSpaces(s) == DropSpaces(s[1..]) == s[1..];
      }
    }
  }

  /** A cleaned text is a fixed point of every step of `clean_text`. */
  lemma CleanFixed(s: string)
    requires IsClean(s)
    ensures CleanText(Some(s)) == s
  {
    assert LowerStr(s) == s;
    assert Scrub(s) == s;
    CollapseFixed(s);
    assert s != [] ==> !IsSpace(s[0]) && !IsSpace(s[|s| - 1]);
    assert DropSpaces(s) == s;
    assert TrimEnd(s) == s;
  }

  /** The texts `clean_text` leaves unchanged are exactly the cleaned ones. */
  lemma CleanTextFixpoints(s: string)
    ensures CleanText(Some(s)) == s <==> IsClean(s)
  {
    if IsClean(s) {
      CleanFixed(s);
    } else {
      CleanTextIsClean(Some(s));
    }
  }

  /** `clean_text` is idempotent. */
  lemma CleanTextIdempotent(t: Option<string>)
    ensures CleanText(Some(CleanText(t))) == CleanText(t)
  {
    CleanTextIsClean(t);
    CleanFixed(CleanText(t));
  }

  /** A non-empty token without whitespace. */
  predicate IsToken(w: string)
  {
    w != [] && forall i :: 0 <= i < |w| ==> !IsSpace(w[i])
  }

  /** The longest whitespace-free prefix. */
  function TakeToken(s: string): (w: string)
    ensures |w| <= |s| && w == s[..|w|]
    ensures forall i :: 0 <= i < |w| ==> !IsSpace(w[i])
    ensures |w| < |s| ==> IsSpace(s[|w|])
    ensures s != [] && !IsSpace(s[0]) ==> w != []
  {
    if s != [] && !IsSpace(s[0]) then [s[0]] + TakeToken(s[1..]) else []
  }

  /** `str.split()` with no separator: the tokens between whitespace runs. */
  function Words(s: string): (ws: seq<string>)
    ensures forall k :: 0 <= k < |ws| ==> IsToken(ws[k])
    decreases |s|
  {
    var t := DropSpaces(s);
    if t == [] then []
    else
      var w := TakeToken(t);
      var rest := Words(t[|w|..]);
      TokensCons(w, rest);
      [w] + rest
  }

  lemma TokensCons(w: string, ws: seq<string>)
    requires w != [] && forall i :: 0 <= i < |w| ==> !IsSpace(w[i])
    requires forall k :: 0 <= k < |ws| ==> IsToken(ws[k])
    ensures forall k :: 0 <= k < |[w] + ws| ==> IsToken(([w] + ws)[k])
  {
  }

  /** `' '.join(ws)`. */
  function Join(ws: seq<string>): string
  {
    if |ws| == 0 then ""
    else if |ws| == 1 then ws[0]
    else ws[0] + " " + Join(ws[1..])
  }

  lemma WordsAfterSpace(s: string)
    ensures Words([' '] + s) == Words(s)
  {
    DropLeadingSpace(s);
  }

  lemma DropLeadingSpace(s: string)
    ensures DropSpaces([' '] + s) == DropSpaces(s)
  {
    assert ([' '] + s)[1..] == s;
  }

  lemma {:induction false} TakeWholeToken(w: string, rest: string)
    requires IsToken(w) && (rest == [] || IsSpace(rest[0]))
    ensures TakeToken(w + rest) == w
  {
    var s := w + rest;
    assert s[0] == w[0] && s[1..] == w[1..] + rest;
    if |w| == 1 {
      assert s[1..] == rest;
    } else {
      TakeWholeToken(w[1..], rest);
      assert w == [w[0]] + w[1..];
    }
  }

  /** A token followed by whitespace (or nothing) is the first word. */
  lemma WordsCons(w: string, rest: string)
    requires IsToken(w) && (rest == [] || IsSpace(rest[0]))
    ensures Words(w + rest) == [w] + Words(rest)
  {
    var s := w + rest;
    assert s[0] == w[0];
    assert DropSpaces(s) == s;
    TakeWholeToken(w, rest);
    assert s[|w|..] == rest;
  }

  /** Splitting the join of tokens gives the tokens back. */
  lemma {:induction false} WordsOfJoin(ws: seq<string>)
    requires forall k :: 0 <= k < |ws| ==> IsToken(ws[k])
    ensures Words(Join(ws)) == ws
  {
    if |ws| == 0 {
      assert Join(ws) == [];
      assert DropSpaces([]) == [];
    } else if |ws| == 1 {
      WordsCons(ws[0], []);
      assert ws[0] + [] == ws[0];
      assert Words([]) == [];
    } else if |ws| > 1 {
      var w, j := ws[0], Join(ws[1..]);
      WordsOfJoin(ws[1..]);
      JoinCons(ws);
      WordsCons(w, [' '] + j);
      WordsAfterSpace(j);
      ConsSplit(ws);
    }
  }

  lemma JoinCons(ws: seq<string>)
    requires |ws| > 1
    ensures Join(ws) == ws[0] + ([' '] + Join(ws[1..]))
  {
  }

  lemma CleanSpaceIsBlank(c: char)
    requires CleanChar(c) && IsSpace(c)
    ensures c == ' '
  {
  }

  /** After the first token of a cleaned text come one space and another cleaned, non-empty text. */
  lemma CleanAfterToken(s: string, w: string)
    requires IsClean(s) && w == TakeToken(s) && |w| < |s|
    ensures s[|w|] == ' ' && |w| + 1 < |s|
    ensures IsClean(s[|w| + 1..]) && !IsSpace(s[|w| + 1])
  {
    CleanAfterSpace(s, |w|);
  }

  /** In a cleaned text, a whitespace character is a single inner space. */
  lemma CleanAfterSpace(s: string, k: nat)
    requires IsClean(s) && k < |s| && IsSpace(s[k])
    ensures s[k] == ' ' && k + 1 < |s|
    ensures IsClean(s[k + 1..]) && !IsSpace(s[k + 1])
  {
    CleanSpaceIsBlank(s[k]);
    assert k + 1 < |s| by {
      assert s[|s| - 1] != ' ';
    }
    assert !DoubleSpaceAt(s, k);
    CleanCharNotSpace(s[k + 1]);
    NoRunsDrop(s, k + 1);
    var t := s[k + 1..];
    assert t[0] == s[k + 1] && t[|t| - 1] == s[|s| - 1];
  }

  /** One step of `str.split()` on a text that starts with a token. */
  lemma WordsUnfold(s: string)
    requires s != [] && !IsSpace(s[0])
    ensures Words(s) == [TakeToken(s)] + Words(s[|TakeToken(s)|..])
  {
    assert DropSpaces(s) == s;
  }

  /** Joining the tokens of a cleaned text gives the text back. */
  lemma {:induction false} JoinOfWords(s: string)
    requires IsClean(s)
    ensures Join(Words(s)) == s
    decreases |s|
  {
    if s != [] {
      CleanCharNotSpace(s[0]);
      var w := TakeToken(s);
      WordsUnfold(s);
      if |w| == |s| {
        assert s[|w|..] == [];
        assert Words([]) == [];
        assert Words(s) == [w];
      } else {
        CleanAfterToken(s, w);
        var tail := s[|w| + 1..];
        JoinOfWords(tail);
        JoinOfWordsStep(s, w, tail);
      }
    }
  }

  lemma JoinOfWordsStep(s: string, w: string, tail: string)
    requires |w| < |s| && w == s[..|w|] && s[|w|] == ' ' && tail == s[|w| + 1..]
    requires Words(s) == [w] + Words(s[|w|..])
    requires tail != [] && !IsSpace(tail[0])
    requires Join(Words(tail)) == tail
    ensures Join(Words(s)) == s
  {
    var rest := s[|w|..];
    SuffixCons(s, |w|);
    var more := Words(tail);
    assert |more| > 0 by {
      WordsUnfold(tail);
    }
    calc {
      Join(Words(s));
      Join([w] + Words(rest));
      { WordsAfterSpace(tail); }
      Join([w] + more);
      { ConsTail(w, more); JoinCons([w] + more); }
      w + ([' '] + Join(more));
      w + ([' '] + tail);
      { SplitAt(s, |w|); }
      s;
    }
  }

  /** The fixed stop-word set of `extract_keywords` (crosswalk.py:109). */
  const StopWords: set<string> := {"the", "and", "or", "but", "in", "on", "at", "to", "for", "of", "with", "by", "a", "an"}

  predicate IsKeyword(w: string)
  {
    w !in StopWords && |w| > 2
  }

  /** The list comprehension of `extract_keywords` (crosswalk.py:112). */
  function KeepKeywords(ws: seq<string>): seq<string>
  {
    if ws == [] then []
    else (if IsKeyword(ws[0]) then [ws[0]] else []) + KeepKeywords(ws[1..])
  }

  /** `extract_keywords` (crosswalk.py:104-114). */
  function ExtractKeywords(t: Option<string>): seq<string>
  {
    KeepKeywords(Words(CleanText(t)))
  }

  /**
   * The comprehension keeps, in order, exactly the keyword tokens:
   * each one as often as it occurs, and nothing else.
   */
  lemma {:induction false} KeepKeywordsSpec(ws: seq<string>)
    ensures IsSubseq(KeepKeywords(ws), ws)
    ensures forall w :: w in KeepKeywords(ws) ==> IsKeyword(w)
    ensures forall w :: IsKeyword(w) ==> multiset(KeepKeywords(ws))[w] == multiset(ws)[w]
  {
    if ws != [] {
      KeepKeywordsSpec(ws[1..]);
      var r := KeepKeywords(ws[1..]);
      assert ws == [ws[0]] + ws[1..];
      if IsKeyword(ws[0]) {
        assert KeepKeywords(ws) == [ws[0]] + r;
        assert KeepKeywords(ws)[1..] == r;
      } else {
        assert KeepKeywords(ws) == r;
        assert IsSubseq(r, ws) by {
          if r != [] {
            assert r[0] != ws[0];
          }
        }
      }
    }
  }

  /**
   * `extract_keywords` returns, in input order, exactly the tokens of the
   * cleaned text that are not stop words and are longer than two characters.
   */
  lemma ExtractKeywordsSpec(t: Option<string>)
    ensures IsSubseq(ExtractKeywords(t), Words(CleanText(t)))
    ensures forall w :: w in ExtractKeywords(t) ==> IsKeyword(w) && IsToken(w)
    ensures forall w :: IsKeyword(w) ==>
      multiset(ExtractKeywords(t))[w] == multiset(Words(CleanText(t)))[w]
  {
    var ws := Words(CleanText(t));
    KeepKeywordsSpec(ws);
    KeptTokens(ws);
  }

  /** The keywords kept from a list of tokens are tokens. */
  lemma KeptTokens(ws: seq<string>)
    requires forall k :: 0 <= k < |ws| ==> IsToken(ws[k])
    ensures forall w :: w in KeepKeywords(ws) ==> IsToken(w)
  {
    KeepKeywordsSpec(ws);
    forall w | w in KeepKeywords(ws)
      ensures IsToken(w)
    {
      assert multiset(ws)[w] > 0;
      assert w in ws;
    }
  }
}
