/**
 * The keyword rule table of the analyser (crosswalk.py:21-86), its rule
 * engine `rule_based_matching` (crosswalk.py:229-251) as a specification,
 * and the confidence classifier `determine_confidence_level`
 * (crosswalk.py:288-298).
 */
module Rules {
  import opened Base
  import opened Text

  /** The three confidence tiers attached to every mapping record. */
  datatype Tier = High | BestFit | Review

  /** The tier strings the analyser writes into `Mapping_Confidence`. */
  function TierLabel(t: Tier): string
  {
    match t
    case High => "Direct line item (High confidence)"
    case BestFit => "Best-fit (Functional equivalent)"
    case Review => "No clear equivalent (Review required)"
  }

  lemma TierLabelsDistinct(a: Tier, b: Tier)
    ensures TierLabel(a) == TierLabel(b) <==> a == b
  {
    if a != b {
      assert TierLabel(a)[0] != TierLabel(b)[0];
    }
  }

  /** One entry of `mapping_rules`: its name, trigger keywords, target category and fixed tier. */
  datatype Rule = Rule(name: string, keywords: seq<string>, category: string, tier: Tier)

  /** The rule table in declaration order (crosswalk.py:21-86). */
  function DefaultRules(): seq<Rule>
  {
    [ Rule("manual wheelchair", ["manual", "wheelchair", "push"], "Personal Mobility", High),
      Rule("power wheelchair", ["power", "electric", "motorised", "wheelchair"], "Personal Mobility", High),
      Rule("mobility scooter", ["scooter", "mobility"], "Personal Mobility", High),
      Rule("walking frame", ["walking frame", "walker", "rollator"], "Personal Mobility", High),
      Rule("speech device", ["speech", "communication", "voice", "aac"], "Communication", High),
      Rule("hearing aid", ["hearing", "audio", "amplification"], "Hearing", High),
      Rule("magnifier", ["magnify", "vision", "low vision", "sight"], "Vision", High),
      Rule("braille", ["braille", "tactile"], "Vision", High),
      Rule("bathroom aid", ["bathroom", "toilet", "shower", "bath"], "Daily Living", BestFit),
      Rule("kitchen aid", ["kitchen", "cooking", "dining"], "Daily Living", BestFit),
      Rule("cushion", ["cushion", "seating", "positioning"], "Seating and Positioning", High) ]
  }

  /** What `rule_based_matching` returns for a firing rule. */
  datatype RuleMatch = RuleMatch(rule: string, category: string, tier: Tier, keywords: seq<string>, score: real)

  /** The fixed score of a rule-based match (crosswalk.py:248). */
  const RuleScore: real := 95.0

  /** `sub` occurs in `text` starting at position `i`. */
  predicate OccursAt(text: string, sub: string, i: int)
  {
    0 <= i && i + |sub| <= |text| && text[i..i + |sub|] == sub
  }

  /** Python's `sub in text`: raw substring containment. */
  predicate Contains(text: string, sub: string)
    decreases |text|
  {
    sub <= text || (text != [] && Contains(text[1..], sub))
  }

  /** `Contains` holds exactly when the substring occurs at some position. */
  lemma {:induction false} ContainsOccurs(text: string, sub: string)
    ensures Contains(text, sub) <==> exists i :: OccursAt(text, sub, i)
    decreases |text|
  {
    if sub <= text {
      assert OccursAt(text, sub, 0);
    } else if text != [] {
      ContainsOccurs(text[1..], sub);
      if exists i :: OccursAt(text[1..], sub, i) {
        var i :| OccursAt(text[1..], sub, i);
        assert text[1..][i..i + |sub|] == text[i + 1..i + 1 + |sub|];
        assert OccursAt(text, sub, i + 1);
      }
      if exists i :: OccursAt(text, sub, i) {
        var i :| OccursAt(text, sub, i);
        if i > 0 {
          assert text[1..][i - 1..i - 1 + |sub|] == text[i..i + |sub|];
          assert OccursAt(text[1..], sub, i - 1);
        }
      }
    }
  }

  /** The text rules are tested against: `f"{subcategory} {description}".lower()` (crosswalk.py:232). */
  function MatchText(subcategory: Cell, description: Cell): string
  {
    LowerStr(Show(subcategory) + " " + Show(description))
  }

  /** The keywords of one rule found in the text, in declared order (crosswalk.py:236-239). */
  function FoundKeywords(keywords: seq<string>, text: string): seq<string>
  {
    if keywords == [] then []
    else
      var last := keywords[|keywords| - 1];
      FoundKeywords(keywords[..|keywords| - 1], text) + (if Contains(text, last) then [last] else [])
  }

  /** Some keyword of the rule is present in the text. */
  predicate Fires(r: Rule, text: string)
  {
    exists k :: k in r.keywords && Contains(text, k)
  }

  /** The match a firing rule produces. */
  function MatchOf(r: Rule, text: string): RuleMatch
  {
    RuleMatch(r.name, r.category, r.tier, FoundKeywords(r.keywords, text), RuleScore)
  }

  /** First-match policy: the earliest rule with a keyword present wins. */
  function FirstRuleMatch(rules: seq<Rule>, text: string): Option<RuleMatch>
  {
    if rules == [] then None
    else if FoundKeywords(rules[0].keywords, text) != [] then Some(MatchOf(rules[0], text))
    else FirstRuleMatch(rules[1..], text)
  }

  /**
   * The found keywords are the rule's keywords present in the text, in
   * declared order, and there are some exactly when the rule fires.
   */
  lemma {:induction false} FoundKeywordsSpec(keywords: seq<string>, text: string)
    ensures IsSubseq(FoundKeywords(keywords, text), keywords)
    ensures forall k :: k in FoundKeywords(keywords, text) <==> k in keywords && Contains(text, k)
    ensures FoundKeywords(keywords, text) != [] <==> exists k :: k in keywords && Contains(text, k)
  {
    if keywords != [] {
      var init, last := keywords[..|keywords| - 1], keywords[|keywords| - 1];
      FoundKeywordsSpec(init, text);
      var f := FoundKeywords(init, text);
      assert keywords == init + [last];
      if Contains(text, last) {
        SubseqSnocBoth(f, init, last);
        assert last in FoundKeywords(keywords, text);
      } else {
        SubseqSnoc(f, init, last);
        assert FoundKeywords(keywords, text) == f;
      }
    }
  }

  /** Rule `k` fires and no rule before it does. */
  predicate IsFirstFiring(rules: seq<Rule>, text: string, k: int)
  {
    0 <= k < |rules| && Fires(rules[k], text) && forall j :: 0 <= j < k ==> !Fires(rules[j], text)
  }

  /**
   * `rule_based_matching` returns nothing exactly when no rule fires, and
   * otherwise the match of the earliest-declared firing rule, whose matched
   * keywords are the non-empty, in-order subsequence of that rule's keywords
   * present in the text, with score 95.
   */
  lemma {:induction false} FirstRuleMatchSpec(rules: seq<Rule>, text: string)
    ensures FirstRuleMatch(rules, text).None? <==> forall j :: 0 <= j < |rules| ==> !Fires(rules[j], text)
    ensures FirstRuleMatch(rules, text).Some? ==>
      exists k :: IsFirstFiring(rules, text, k) && FirstRuleMatch(rules, text).value == MatchOf(rules[k], text)
    ensures FirstRuleMatch(rules, text).Some? ==>
      var m := FirstRuleMatch(rules, text).value;
      m.keywords != [] && m.score == 95.0 && forall w :: w in m.keywords ==> Contains(text, w)
  {
    if rules != [] {
      FoundKeywordsSpec(rules[0].keywords, text);
      if FoundKeywords(rules[0].keywords, text) != [] {
        assert IsFirstFiring(rules, text, 0);
      } else {
        FirstRuleMatchSpec(rules[1..], text);
        if FirstRuleMatch(rules[1..], text).Some? {
          var k :| IsFirstFiring(rules[1..], text, k) && FirstRuleMatch(rules[1..], text).value == MatchOf(rules[1..][k], text);
          assert IsFirstFiring(rules, text, k + 1) by {
            forall j | 0 <= j < k + 1
              ensures !Fires(rules[j], text)
            {
              if j > 0 {
                assert rules[j] == rules[1..][j - 1];
              }
            }
          }
        } else {
          forall j | 0 <= j < |rules|
            ensures !Fires(rules[j], text)
          {
            if j > 0 {
              assert rules[j] == rules[1..][j - 1];
            }
          }
        }
      }
    }
  }

  /** The match of a rule that fires: its found keywords are non-empty and its score is 95. */
  lemma MatchOfFiring(r: Rule, text: string)
    requires Fires(r, text)
    ensures MatchOf(r, text).keywords != [] && IsSubseq(MatchOf(r, text).keywords, r.keywords)
    ensures MatchOf(r, text).tier == r.tier && MatchOf(r, text).score == RuleScore
  {
    FoundKeywordsSpec(r.keywords, text);
  }

  /** Presence is raw substring containment: the keyword "power" is found in "powered". */
  lemma PrefixKeywordExample()
    ensures Contains(MatchText(Value("Powered chairs"), Value("")), "power")
  {
    var t := MatchText(Value("Powered chairs"), Value(""));
    assert t[..5] == "power";
  }

  /** `determine_confidence_level` (crosswalk.py:288-298). */
  function ConfidenceLevel(score: real, ruleBased: bool): Tier
  {
    if ruleBased then High
    else if score >= 90.0 then High
    else if score >= 75.0 then BestFit
    else Review
  }

  /** The tiers ordered from Review (lowest) to High. */
  function Rank(t: Tier): nat
  {
    match t
    case Review => 0
    case BestFit => 1
    case High => 2
  }

  /**
   * The classifier is monotone: a higher score never yields a lower tier,
   * and a rule-based origin always yields the top tier.
   */
  lemma ConfidenceMonotone(s1: real, s2: real, ruleBased: bool)
    requires s1 <= s2
    ensures Rank(ConfidenceLevel(s1, ruleBased)) <= Rank(ConfidenceLevel(s2, ruleBased))
    ensures Rank(ConfidenceLevel(s1, false)) <= Rank(ConfidenceLevel(s1, true))
  {
  }

  /** The classifier's bands: at least 90 is High, 75 up to 90 is Best-fit, below 75 is Review. */
  lemma ConfidenceBands(score: real)
    ensures ConfidenceLevel(score, true) == High
    ensures ConfidenceLevel(score, false) == High <==> score >= 90.0
    ensures ConfidenceLevel(score, false) == BestFit <==> 75.0 <= score < 90.0
    ensures ConfidenceLevel(score, false) == Review <==> score < 75.0
  {
  }
}
