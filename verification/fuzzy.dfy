/**
 * The approximate matcher `fuzzy_matching` (crosswalk.py:253-286).
 *
 * The similarity scorer (`fuzz.WRatio`) is a parameter: any function from a
 * query and a choice to a score between 0 and 100. `process.extract` with
 * `limit=3` ranks the choices by descending score, equal scores in choice
 * order, and keeps the first three.
 */
module Fuzzy {
  import opened Base
  import opened Text
  import opened Catalog

  /** A similarity score of the external scorer. */
  type Score = r: real | 0.0 <= r <= 100.0

  /** The text a catalog item is compared by (crosswalk.py:259-262). */
  function ItemText(it: CatalogItem): string
  {
    CleanText(Some(it.name + " " + Show(it.description)))
  }

  /** The query: the cleaned `f"{subcategory} {description}"` (crosswalk.py:256, 268). */
  function QueryText(subcategory: Cell, description: Cell): string
  {
    CleanText(Some(Show(subcategory) + " " + Show(description)))
  }

  /** `ndis_descriptions`: the texts of the items, in catalog order. */
  function Texts(items: seq<CatalogItem>): (ts: seq<string>)
    ensures |ts| == |items|
    ensures forall j :: 0 <= j < |items| ==> ts[j] == ItemText(items[j])
  {
    seq(|items|, j requires 0 <= j < |items| => ItemText(items[j]))
  }

  /** The score of every choice against the query. */
  function ScoresOf(query: string, texts: seq<string>, scorer: (string, string) -> Score): (s: seq<Score>)
    ensures |s| == |texts|
    ensures forall j :: 0 <= j < |texts| ==> s[j] == scorer(query, texts[j])
  {
    seq(|texts|, j requires 0 <= j < |texts| => scorer(query, texts[j]))
  }

  /** Choice `x` ranks before choice `y`: a higher score, or the same score and an earlier position. */
  predicate Before(scores: seq<Score>, x: nat, y: nat)
    requires x < |scores| && y < |scores|
  {
    scores[x] > scores[y] || (scores[x] == scores[y] && x < y)
  }

  /** `r` lists choices in ranking order. */
  predicate Ranked(scores: seq<Score>, r: seq<nat>)
  {
    (forall a :: 0 <= a < |r| ==> r[a] < |scores|) &&
    (forall a, b :: 0 <= a < b < |r| ==> Before(scores, r[a], r[b]))
  }

  /** Places choice `i` after every listed choice that scores at least as high. */
  function Insert(scores: seq<Score>, i: nat, r: seq<nat>): (q: seq<nat>)
    requires i < |scores|
    requires forall a :: 0 <= a < |r| ==> r[a] < |scores|
    ensures |q| == |r| + 1
    ensures forall x :: x in q <==> x in r || x == i
    ensures forall a :: 0 <= a < |q| ==> q[a] == i || q[a] in r
  {
    if r == [] then [i]
    else if scores[r[0]] >= scores[i] then [r[0]] + Insert(scores, i, r[1..])
    else [i] + r
  }

  /** The first `n` choices, ranked. */
  function Ranking(scores: seq<Score>, n: nat): (r: seq<nat>)
    requires n <= |scores|
    ensures |r| == n
    ensures forall x :: x in r <==> 0 <= x < n
    ensures forall a :: 0 <= a < |r| ==> r[a] < n
  {
    if n == 0 then [] else Insert(scores, n - 1, Ranking(scores, n - 1))
  }

  /** `process.extract(..., limit=3)`: the three best-ranked choices. */
  function Extract(scores: seq<Score>): (e: seq<nat>)
    ensures forall a :: 0 <= a < |e| ==> e[a] < |scores|
  {
    var r := Ranking(scores, |scores|);
    if |r| <= 3 then r else r[..3]
  }

  /** Position of the first text equal to `t` (crosswalk.py:279). */
  function FirstWithText(texts: seq<string>, t: string): (j: nat)
    requires t in texts
    ensures j < |texts| && texts[j] == t
    ensures forall k :: 0 <= k < j ==> texts[k] != t
  {
    if texts[0] == t then 0 else 1 + FirstWithText(texts[1..], t)
  }

  /** One entry of `best_matches`: the row label of the first item with the matched text, the score and the text. */
  datatype Candidate = Candidate(rowLabel: nat, score: Score, text: string)

  function CandidateAt(items: seq<CatalogItem>, texts: seq<string>, scores: seq<Score>, x: nat): Candidate
    requires |texts| == |items| == |scores| && x < |items|
  {
    Candidate(items[FirstWithText(texts, texts[x])].rowLabel, scores[x], texts[x])
  }

  /** The extracted choices whose score reaches the threshold, in extraction order (crosswalk.py:276-284). */
  function Passing(items: seq<CatalogItem>, texts: seq<string>, scores: seq<Score>, top: seq<nat>, threshold: int): seq<Candidate>
    requires |texts| == |items| == |scores|
    requires forall a :: 0 <= a < |top| ==> top[a] < |items|
  {
    if top == [] then []
    else
      var x := top[|top| - 1];
      Passing(items, texts, scores, top[..|top| - 1], threshold) +
        (if scores[x] >= threshold as real then [CandidateAt(items, texts, scores, x)] else [])
  }

  /** `fuzzy_matching` (crosswalk.py:253-286): `None` for an empty catalog or when no extracted choice passes. */
  function FuzzyMatches(items: seq<CatalogItem>, query: string, scorer: (string, string) -> Score, threshold: int): (r: Option<seq<Candidate>>)
    ensures r.Some? ==> r.value != []
  {
    if items == [] then None
    else
      var texts := Texts(items);
      var scores := ScoresOf(query, texts, scorer);
      var passing := Passing(items, texts, scores, Extract(scores), threshold);
      if passing == [] then None else Some(passing)
  }

  // ---------------------------------------------------------------------
  // Ranking.
  // ---------------------------------------------------------------------

  /** A choice that ranks before every listed choice can head the list. */
  lemma RankedCons(scores: seq<Score>, y: nat, s: seq<nat>)
    requires y < |scores| && Ranked(scores, s)
    requires forall b :: 0 <= b < |s| ==> Before(scores, y, s[b])
    ensures Ranked(scores, [y] + s)
  {
    var q := [y] + s;
    forall a, b | 0 <= a < b < |q|
      ensures Before(scores, q[a], q[b])
    {
      assert q[b] == s[b - 1];
      if a > 0 {
        assert q[a] == s[a - 1];
      }
    }
  }

  /** The tail of a ranked list is ranked, and its head ranks before all of it. */
  lemma RankedTail(scores: seq<Score>, r: seq<nat>)
    requires Ranked(scores, r) && r != []
    ensures Ranked(scores, r[1..])
    ensures forall b :: 0 <= b < |r| - 1 ==> Before(scores, r[0], r[1..][b])
  {
    var tail := r[1..];
    forall a, b | 0 <= a < b < |tail|
      ensures Before(scores, tail[a], tail[b])
    {
      assert tail[a] == r[a + 1] && tail[b] == r[b + 1];
    }
    forall b | 0 <= b < |tail|
      ensures Before(scores, r[0], tail[b])
    {
      assert tail[b] == r[b + 1];
    }
  }

  /** Inserting a later choice into a ranked list keeps it ranked. */
  lemma {:induction false} InsertRanked(scores: seq<Score>, i: nat, r: seq<nat>)
    requires i < |scores| && Ranked(scores, r)
    requires forall x :: x in r ==> x < i
    ensures Ranked(scores, Insert(scores, i, r))
  {
    if r == [] {
      RankedCons(scores, i, []);
    } else if scores[r[0]] >= scores[i] {
      var tail := r[1..];
      RankedTail(scores, r);
      assert forall x :: x in tail ==> x in r;
      InsertRanked(scores, i, tail);
      var qt := Insert(scores, i, tail);
      forall b | 0 <= b < |qt|
        ensures Before(scores, r[0], qt[b])
      {
        if qt[b] == i {
          assert r[0] in r;
        } else {
          var k :| 0 <= k < |tail| && tail[k] == qt[b];
        }
      }
      RankedCons(scores, r[0], qt);
    } else {
      forall b | 0 <= b < |r|
        ensures Before(scores, i, r[b])
      {
        if b > 0 {
          assert Before(scores, r[0], r[b]);
        }
      }
      RankedCons(scores, i, r);
    }
  }

  /** The ranking lists every choice once, best first, equal scores in choice order. */
  lemma {:induction false} RankingRanked(scores: seq<Score>, n: nat)
    requires n <= |scores|
    ensures Ranked(scores, Ranking(scores, n))
  {
    if n > 0 {
      RankingRanked(scores, n - 1);
      InsertRanked(scores, n - 1, Ranking(scores, n - 1));
    }
  }

  /**
   * The extracted choices are the `min(3, n)` best-ranked ones, in ranking
   * order: each ranks before every choice left out.
   */
  lemma ExtractSpec(scores: seq<Score>)
    ensures var e := Extract(scores);
      Ranked(scores, e) && |e| == if |scores| <= 3 then |scores| else 3
    ensures var e := Extract(scores);
      forall a, j :: 0 <= a < |e| && 0 <= j < |scores| && j !in e ==> Before(scores, e[a], j)
  {
    var r := Ranking(scores, |scores|);
    RankingRanked(scores, |scores|);
    var e := Extract(scores);
    forall a, j | 0 <= a < |e| && 0 <= j < |scores| && j !in e
      ensures Before(scores, e[a], j)
    {
      assert j in r;
      var b :| 0 <= b < |r| && r[b] == j;
      assert e[a] == r[a];
    }
  }

  // ---------------------------------------------------------------------
  // The threshold filter.
  // ---------------------------------------------------------------------

  /** Scores do not increase along `top`. */
  predicate Descending(scores: seq<Score>, top: seq<nat>)
    requires forall a :: 0 <= a < |top| ==> top[a] < |scores|
  {
    forall a, b :: 0 <= a < b < |top| ==> scores[top[a]] >= scores[top[b]]
  }

  /**
   * Over choices in descending score order, the passing candidates are a
   * prefix of the choices: exactly those before the first one that scores
   * below the threshold.
   */
  lemma {:induction false} PassingPrefix(items: seq<CatalogItem>, texts: seq<string>, scores: seq<Score>, top: seq<nat>, threshold: int)
    requires |texts| == |items| == |scores|
    requires forall a :: 0 <= a < |top| ==> top[a] < |items|
    requires Descending(scores, top)
    ensures var p := Passing(items, texts, scores, top, threshold);
      |p| <= |top| &&
      (forall a :: 0 <= a < |p| ==> p[a] == CandidateAt(items, texts, scores, top[a]) && scores[top[a]] >= threshold as real) &&
      (|p| < |top| ==> scores[top[|p|]] < threshold as real)
  {
    if top != [] {
      var init := top[..|top| - 1];
      var x := top[|top| - 1];
      PassingPrefix(items, texts, scores, init, threshold);
      var p0 := Passing(items, texts, scores, init, threshold);
      var p := Passing(items, texts, scores, top, threshold);
      if scores[x] >= threshold as real {
        assert p == p0 + [CandidateAt(items, texts, scores, x)];
      } else {
        assert p == p0;
      }
    }
  }

  /** A higher threshold never lets more candidates through. */
  lemma {:induction false} PassingCount(items: seq<CatalogItem>, texts: seq<string>, scores: seq<Score>, top: seq<nat>, t1: int, t2: int)
    requires |texts| == |items| == |scores|
    requires forall a :: 0 <= a < |top| ==> top[a] < |items|
    requires t1 <= t2
    ensures |Passing(items, texts, scores, top, t2)| <= |Passing(items, texts, scores, top, t1)|
  {
    if top != [] {
      PassingCount(items, texts, scores, top[..|top| - 1], t1, t2);
    }
  }

  // ---------------------------------------------------------------------
  // Properties of `fuzzy_matching`.
  // ---------------------------------------------------------------------

  /** The extracted choices descend in score. */
  lemma ExtractDescending(scores: seq<Score>)
    ensures Descending(scores, Extract(scores))
  {
    ExtractSpec(scores);
  }

  /** With some choice, the first extracted choice scores the highest of all. */
  lemma ExtractBest(scores: seq<Score>)
    requires scores != []
    ensures Extract(scores) != []
    ensures forall j :: 0 <= j < |scores| ==> scores[j] <= scores[Extract(scores)[0]]
  {
    var e := Extract(scores);
    ExtractSpec(scores);
    forall j | 0 <= j < |scores|
      ensures scores[j] <= scores[e[0]]
    {
      if j !in e {
        assert Before(scores, e[0], j);
      } else {
        var a :| 0 <= a < |e| && e[a] == j;
        if a > 0 {
          assert Before(scores, e[0], e[a]);
        }
      }
    }
  }

  /**
   * The matcher returns nothing exactly when the catalog is empty or no item
   * text scores at least the threshold.
   */
  lemma FuzzyNone(items: seq<CatalogItem>, query: string, scorer: (string, string) -> Score, threshold: int)
    ensures FuzzyMatches(items, query, scorer, threshold).None? <==>
      forall j :: 0 <= j < |items| ==> scorer(query, ItemText(items[j])) < threshold as real
  {
    if items != [] {
      var texts := Texts(items);
      var scores := ScoresOf(query, texts, scorer);
      var e := Extract(scores);
      ExtractBest(scores);
      ExtractDescending(scores);
      PassingPrefix(items, texts, scores, e, threshold);
    }
  }

  /** A candidate carries the choice's score and text, and the label of the first item with that text. */
  lemma CandidateAtSpec(items: seq<CatalogItem>, texts: seq<string>, scores: seq<Score>, x: nat)
    requires |texts| == |items| == |scores| && x < |items|
    ensures var c := CandidateAt(items, texts, scores, x);
      c.score == scores[x] && c.text == texts[x] &&
      exists j :: 0 <= j < |items| && items[j].rowLabel == c.rowLabel && texts[j] == c.text &&
        forall k :: 0 <= k < j ==> texts[k] != c.text
  {
    var j := FirstWithText(texts, texts[x]);
    assert items[j].rowLabel == CandidateAt(items, texts, scores, x).rowLabel;
  }

  /** The same, for the texts and scores of the catalog items. */
  lemma CandidateOfItem(items: seq<CatalogItem>, query: string, scorer: (string, string) -> Score, x: nat)
    requires x < |items|
    ensures var texts := Texts(items);
      var c := CandidateAt(items, texts, ScoresOf(query, texts, scorer), x);
      c.score == scorer(query, c.text) &&
      exists j :: (0 <= j < |items| && items[j].rowLabel == c.rowLabel && ItemText(items[j]) == c.text &&
        forall k :: 0 <= k < j ==> ItemText(items[k]) != c.text)
  {
    var texts := Texts(items);
    var scores := ScoresOf(query, texts, scorer);
    var c := CandidateAt(items, texts, scores, x);
    CandidateAtSpec(items, texts, scores, x);
    var j :| 0 <= j < |items| && items[j].rowLabel == c.rowLabel && texts[j] == c.text &&
      forall k :: 0 <= k < j ==> texts[k] != c.text;
    assert ItemText(items[j]) == c.text;
  }

  /**
   * The candidates passing the threshold among the extracted choices: at most
   * three, each the candidate of an extracted choice, in descending score order,
   * the first scoring the highest of all choices.
   */
  lemma PassingExtracted(items: seq<CatalogItem>, texts: seq<string>, scores: seq<Score>, threshold: int)
    requires |texts| == |items| == |scores| && scores != []
    ensures var e, p := Extract(scores), Passing(items, texts, scores, Extract(scores), threshold);
      |p| <= 3 && |p| <= |e| &&
      (forall a :: 0 <= a < |p| ==> p[a] == CandidateAt(items, texts, scores, e[a]) && p[a].score >= threshold as real) &&
      (forall a, b :: 0 <= a < b < |p| ==> p[a].score >= p[b].score) &&
      (p != [] ==> forall j :: 0 <= j < |scores| ==> scores[j] <= p[0].score)
  {
    var e := Extract(scores);
    ExtractSpec(scores);
    ExtractBest(scores);
    ExtractDescending(scores);
    PassingPrefix(items, texts, scores, e, threshold);
  }

  /**
   * The candidates: one to three of them, in descending score order, each
   * scoring at least the threshold, the first scoring the highest of all
   * items.
   */
  lemma FuzzyRanked(items: seq<CatalogItem>, query: string, scorer: (string, string) -> Score, threshold: int)
    ensures var r := FuzzyMatches(items, query, scorer, threshold);
      r.Some? ==> (1 <= |r.value| <= 3 &&
        (forall a :: 0 <= a < |r.value| ==> r.value[a].score >= threshold as real) &&
        (forall a, b :: 0 <= a < b < |r.value| ==> r.value[a].score >= r.value[b].score) &&
        (forall j :: 0 <= j < |items| ==> scorer(query, ItemText(items[j])) <= r.value[0].score))
  {
    if items != [] {
      var texts := Texts(items);
      var scores := ScoresOf(query, texts, scorer);
      PassingExtracted(items, texts, scores, threshold);
    }
  }

  /**
   * Each candidate names the row label of the first item whose text is the
   * matched text, and its score is that text's score.
   */
  lemma FuzzyCandidates(items: seq<CatalogItem>, query: string, scorer: (string, string) -> Score, threshold: int)
    ensures var r := FuzzyMatches(items, query, scorer, threshold);
      r.Some? ==> forall a :: 0 <= a < |r.value| ==>
        (r.value[a].score == scorer(query, r.value[a].text) &&
         exists j :: (0 <= j < |items| && items[j].rowLabel == r.value[a].rowLabel && ItemText(items[j]) == r.value[a].text &&
           forall k :: 0 <= k < j ==> ItemText(items[k]) != r.value[a].text))
  {
    if items != [] {
      var texts := Texts(items);
      var scores := ScoresOf(query, texts, scorer);
      var e := Extract(scores);
      PassingExtracted(items, texts, scores, threshold);
      var p := Passing(items, texts, scores, e, threshold);
      forall a | 0 <= a < |p|
        ensures p[a].score == scorer(query, p[a].text)
        ensures exists j :: (0 <= j < |items| && items[j].rowLabel == p[a].rowLabel && ItemText(items[j]) == p[a].text &&
          forall k :: 0 <= k < j ==> ItemText(items[k]) != p[a].text)
      {
        CandidateOfItem(items, query, scorer, e[a]);
      }
    }
  }

  /**
   * The best candidate: it scores at least the threshold and at least every
   * item, and names the first item whose text is the matched text.
   */
  lemma FuzzyBest(items: seq<CatalogItem>, query: string, scorer: (string, string) -> Score, threshold: int)
    requires FuzzyMatches(items, query, scorer, threshold).Some?
    ensures var c := FuzzyMatches(items, query, scorer, threshold).value[0];
      c.score >= threshold as real && c.score == scorer(query, c.text) &&
      forall l :: 0 <= l < |items| ==> scorer(query, ItemText(items[l])) <= c.score
    ensures var c := FuzzyMatches(items, query, scorer, threshold).value[0];
      exists j :: (0 <= j < |items| && items[j].rowLabel == c.rowLabel && ItemText(items[j]) == c.text &&
        forall k :: 0 <= k < j ==> ItemText(items[k]) != c.text)
  {
    FuzzyRanked(items, query, scorer, threshold);
    FuzzyCandidates(items, query, scorer, threshold);
  }

  /**
   * Raising the threshold never adds candidates: what passes a higher
   * threshold is a prefix of what passes a lower one.
   */
  lemma FuzzyThresholdMonotone(items: seq<CatalogItem>, query: string, scorer: (string, string) -> Score, t1: int, t2: int)
    requires t1 <= t2
    ensures FuzzyMatches(items, query, scorer, t2).Some? ==>
      FuzzyMatches(items, query, scorer, t1).Some? &&
      FuzzyMatches(items, query, scorer, t2).value <= FuzzyMatches(items, query, scorer, t1).value
  {
    if items != [] {
      var texts := Texts(items);
      var scores := ScoresOf(query, texts, scorer);
      var e := Extract(scores);
      ExtractDescending(scores);
      PassingPrefix(items, texts, scores, e, t1);
      PassingPrefix(items, texts, scores, e, t2);
      PassingCount(items, texts, scores, e, t1, t2);
    }
  }
}
