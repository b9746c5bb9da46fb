/**
 * The per-row decision of `run_crosswalk` (crosswalk.py:300-402): the
 * default unmapped record, binding through a rule and the catalog filter of
 * crosswalk.py:348-351, the approximate fallback, and the repair lookup
 * `find_repair_code` (crosswalk.py:421-439).
 */
module Records {
  import opened Base
  import opened Text
  import opened Rules
  import opened Catalog
  import opened Fuzzy

  /** The analyser's settings (crosswalk.py:16-86, and the assignments of app.py:85-86). */
  datatype Config = Config(threshold: int, includeRepairCodes: bool, rules: seq<Rule>)

  /** One source row: its category, subcategory and description (an empty one when the column is absent). */
  datatype SourceRow = SourceRow(category: Cell, subcategory: Cell, description: Cell)

  /** `Matching_Method`. */
  datatype Method = Unmatched | RuleBased | Approximate

  function MethodLabel(m: Method): string
  {
    match m
    case Unmatched => "None"
    case RuleBased => "Rule-based"
    case Approximate => "Fuzzy matching"
  }

  /** One crosswalk record (crosswalk.py:328-343); `None` is Python's `None`. */
  datatype Record = Record(
    category: Cell,
    subcategory: Cell,
    description: Cell,
    itemNumber: Option<string>,
    itemName: Option<string>,
    ndisCategory: Option<Cell>,
    ndisDescription: Option<Cell>,
    unitPrice: Option<Cell>,
    sourceTable: Option<Cell>,
    tier: Tier,
    score: real,
    matching: Method,
    keywords: string,
    repairCode: Option<string>)

  /** The record a row starts from: nothing bound, tier Review, score 0 (crosswalk.py:328-343). */
  function Unmapped(row: SourceRow): Record
  {
    Record(row.category, row.subcategory, row.description, None, None, None, None, None, None, Review, 0.0, Unmatched, "", None)
  }

  /** `sep.join(ws)`. */
  function JoinWith(ws: seq<string>, sep: string): string
  {
    if |ws| == 0 then ""
    else if |ws| == 1 then ws[0]
    else ws[0] + sep + JoinWith(ws[1..], sep)
  }

  /** A cell as `extract_keywords` and `clean_text` see it: NaN is absent. */
  function CellText(c: Cell): Option<string>
  {
    match c
    case Missing => None
    case Value(s) => Some(s)
  }

  // ---------------------------------------------------------------------
  // Catalog lookups.
  // ---------------------------------------------------------------------

  /**
   * The catalog filter of a rule match (crosswalk.py:348-351): the category
   * contains the rule's category, or the name contains one of the matched
   * keywords, ignoring case; a NaN category does not match.
   */
  predicate RuleCandidate(m: RuleMatch, it: CatalogItem)
  {
    (it.category.Value? && Contains(LowerStr(it.category.text), LowerStr(m.category))) ||
    FoundKeywords(m.keywords, LowerStr(it.name)) != []
  }

  /** Position of the first item from `c` on that the rule's filter keeps (`matching_ndis.iloc[0]`). */
  function FirstRuleItem(items: seq<CatalogItem>, m: RuleMatch, c: nat): (r: Option<nat>)
    ensures r.Some? ==> c <= r.value < |items| && RuleCandidate(m, items[r.value])
    ensures forall j :: c <= j < |items| && (r.None? || j < r.value) ==> !RuleCandidate(m, items[j])
    decreases |items| - c
  {
    if c >= |items| then None
    else if RuleCandidate(m, items[c]) then Some(c)
    else FirstRuleItem(items, m, c + 1)
  }

  /** The patterns of `find_repair_code`, in the order they are tried (crosswalk.py:427). */
  const RepairPatterns: seq<string> := ["repair", "maintenance", "service"]

  /** The name contains the pattern, ignoring case. */
  predicate NameHas(pattern: string, it: CatalogItem)
  {
    Contains(LowerStr(it.name), pattern)
  }

  /** Position of the first item from `c` on whose name contains the pattern (`repair_items.iloc[0]`). */
  function FirstNamed(items: seq<CatalogItem>, pattern: string, c: nat): (r: Option<nat>)
    ensures r.Some? ==> c <= r.value < |items| && NameHas(pattern, items[r.value])
    ensures forall j :: c <= j < |items| && (r.None? || j < r.value) ==> !NameHas(pattern, items[j])
    decreases |items| - c
  {
    if c >= |items| then None
    else if NameHas(pattern, items[c]) then Some(c)
    else FirstNamed(items, pattern, c + 1)
  }

  /** The code of the first item whose name matches the earliest pattern that any name matches. */
  function RepairFrom(items: seq<CatalogItem>, patterns: seq<string>): Option<string>
  {
    if patterns == [] then None
    else
      match FirstNamed(items, patterns[0], 0)
      case Some(j) => Some(items[j].code)
      case None => RepairFrom(items, patterns[1..])
  }

  /** `find_repair_code` (crosswalk.py:421-439): the input code only matters when it is NaN. */
  function RepairCode(code: Cell, items: seq<CatalogItem>): Option<string>
  {
    if code.Missing? then None else RepairFrom(items, RepairPatterns)
  }

  /** `ndis_df.iloc[p]`: the item at position `p`; `None` where pandas raises `IndexError`. */
  function Iloc(items: seq<CatalogItem>, p: nat): Option<CatalogItem>
  {
    if p < |items| then Some(items[p]) else None
  }

  /** `ndis_df.loc[label]`: the first item, from position `c` on, carrying the row label. */
  function Loc(items: seq<CatalogItem>, rowLabel: nat, c: nat): Option<CatalogItem>
    decreases |items| - c
  {
    if c >= |items| then None
    else if items[c].rowLabel == rowLabel then Some(items[c])
    else Loc(items, rowLabel, c + 1)
  }

  // ---------------------------------------------------------------------
  // The record of one row.
  // ---------------------------------------------------------------------

  /** The fields `result.update` copies from the bound item (crosswalk.py:357-363, 385-391). */
  function Bind(rec: Record, it: CatalogItem): Record
  {
    rec.(itemNumber := Some(it.code), itemName := Some(it.name), ndisCategory := Some(it.category),
         ndisDescription := Some(it.description), unitPrice := Some(it.unitPrice),
         sourceTable := Some(if it.sourceTable.Some? then it.sourceTable.value else Value("Unknown")))
  }

  /** The repair code attached to a bound record, when the analyser is asked for one. */
  function WithRepair(cfg: Config, rec: Record, it: CatalogItem, items: seq<CatalogItem>): Record
  {
    if cfg.includeRepairCodes then rec.(repairCode := RepairCode(Value(it.code), items)) else rec
  }

  /** The record bound through a rule (crosswalk.py:353-371). */
  function RuleRecord(cfg: Config, items: seq<CatalogItem>, rec: Record, m: RuleMatch, it: CatalogItem): Record
  {
    var bound := Bind(rec, it).(tier := m.tier, score := m.score, matching := RuleBased, keywords := JoinWith(m.keywords, ", "));
    WithRepair(cfg, bound, it, items)
  }

  /** The record bound by the approximate matcher (crosswalk.py:376-400). */
  function FuzzyRecord(cfg: Config, items: seq<CatalogItem>, rec: Record, c: Candidate, it: CatalogItem): Record
  {
    var ks := ExtractKeywords(CellText(rec.subcategory));
    var bound := Bind(rec, it).(tier := ConfidenceLevel(c.score, false), score := c.score, matching := Approximate,
                                keywords := JoinWith(if |ks| <= 3 then ks else ks[..3], ", "));
    WithRepair(cfg, bound, it, items)
  }

  /** The record after the rule stage: bound to the first catalog item the rule's filter keeps, if any. */
  function AfterRules(cfg: Config, items: seq<CatalogItem>, row: SourceRow): Record
  {
    var rec := Unmapped(row);
    match FirstRuleMatch(cfg.rules, MatchText(row.subcategory, row.description))
    case None => rec
    case Some(m) =>
      match FirstRuleItem(items, m, 0)
      case None => rec
      case Some(j) => RuleRecord(cfg, items, rec, m, items[j])
  }

  /** The record bound to the item carrying the best candidate's row label. */
  function BindCandidate(cfg: Config, items: seq<CatalogItem>, rec: Record, c: Candidate): Record
  {
    match Loc(items, c.rowLabel, 0)
    case None => rec
    case Some(it) => FuzzyRecord(cfg, items, rec, c, it)
  }

  /**
   * The record of one source row. An unbound record falls through to the
   * approximate matcher, whose best candidate is looked up by its row label.
   */
  function RecordFor(cfg: Config, items: seq<CatalogItem>, row: SourceRow, scorer: (string, string) -> Score): Record
  {
    var rec := AfterRules(cfg, items, row);
    if rec.itemNumber.Some? then rec
    else
      match FuzzyMatches(items, QueryText(row.subcategory, row.description), scorer, cfg.threshold)
      case None => rec
      case Some(cs) => BindCandidate(cfg, items, rec, cs[0])
  }

  // ---------------------------------------------------------------------
  // Lookups by position and by label.
  // ---------------------------------------------------------------------

  /** Row labels increase along the catalog, as they do after validation drops rows. */
  predicate LabelsIncreasing(items: seq<CatalogItem>)
  {
    forall k, l :: 0 <= k < l < |items| ==> items[k].rowLabel < items[l].rowLabel
  }

  /** `Loc` finds an item exactly when one carries the label, and then the first one. */
  lemma {:induction false} LocSpec(items: seq<CatalogItem>, rowLabel: nat, c: nat)
    ensures Loc(items, rowLabel, c).None? <==> forall j :: c <= j < |items| ==> items[j].rowLabel != rowLabel
    ensures Loc(items, rowLabel, c).Some? ==>
      exists j :: c <= j < |items| && Loc(items, rowLabel, c).value == items[j] && items[j].rowLabel == rowLabel &&
        forall k :: c <= k < j ==> items[k].rowLabel != rowLabel
    decreases |items| - c
  {
    if c < |items| && items[c].rowLabel != rowLabel {
      LocSpec(items, rowLabel, c + 1);
    }
  }

  /** Looked up by its own label, every item of a catalog with increasing labels is found. */
  lemma LocFinds(items: seq<CatalogItem>, k: nat)
    requires LabelsIncreasing(items) && k < |items|
    ensures Loc(items, items[k].rowLabel, 0) == Some(items[k])
  {
    LocSpec(items, items[k].rowLabel, 0);
  }

  /**
   * Positional lookup by a row label binds another item, or none, as soon as
   * the label differs from the position: the approximate matcher's `iloc`
   * with the label `iterrows` gave it.
   */
  lemma IlocMisbinds(items: seq<CatalogItem>, k: nat)
    requires LabelsIncreasing(items) && k < |items| && items[k].rowLabel != k
    ensures Iloc(items, items[k].rowLabel) != Some(items[k])
  {
    var p := items[k].rowLabel;
    if p < |items| {
      assert items[p].rowLabel != items[k].rowLabel;
    }
  }

  /** Positional and label lookup agree on a catalog from which validation dropped no row. */
  lemma IlocAgreesWhenNoneDropped(items: seq<CatalogItem>, k: nat)
    requires forall j :: 0 <= j < |items| ==> items[j].rowLabel == j
    requires k < |items|
    ensures Iloc(items, items[k].rowLabel) == Loc(items, items[k].rowLabel, 0) == Some(items[k])
  {
    LocFinds(items, k);
  }

  /**
   * When validation drops row 0 and keeps row 1 (which `Catalog.ValidatedRows`
   * reads off the rows), the first surviving item carries the label 1 at
   * position 0, and positional lookup by that label misses it.
   */
  lemma DroppedFirstRowShiftsLabels(items: seq<CatalogItem>)
    requires LabelsIncreasing(items)
    requires forall k :: 0 <= k < |items| ==> items[k].rowLabel != 0
    requires exists k :: 0 <= k < |items| && items[k].rowLabel == 1
    ensures items[0].rowLabel == 1 && Iloc(items, items[0].rowLabel) != Some(items[0])
  {
    IlocMisbinds(items, 0);
  }

  // ---------------------------------------------------------------------
  // The repair lookup.
  // ---------------------------------------------------------------------

  /**
   * Item `j` is the repair choice for the pattern at position `i`: its name
   * contains that pattern, no name contains an earlier pattern, and no
   * earlier item's name contains this one.
   */
  predicate RepairChoice(items: seq<CatalogItem>, patterns: seq<string>, i: int, j: int)
  {
    0 <= i < |patterns| && 0 <= j < |items| && NameHas(patterns[i], items[j]) &&
    (forall q :: 0 <= q < i ==> forall l :: 0 <= l < |items| ==> !NameHas(patterns[q], items[l])) &&
    (forall l :: 0 <= l < j ==> !NameHas(patterns[i], items[l]))
  }

  lemma RepairFromSpec(items: seq<CatalogItem>, patterns: seq<string>)
    ensures RepairFrom(items, patterns).None? <==>
      forall q, l :: 0 <= q < |patterns| && 0 <= l < |items| ==> !NameHas(patterns[q], items[l])
    ensures RepairFrom(items, patterns).Some? ==>
      exists i, j :: RepairChoice(items, patterns, i, j) && RepairFrom(items, patterns).value == items[j].code
  {
    RepairFromNone(items, patterns);
    if RepairFrom(items, patterns).Some? {
      RepairFromChoice(items, patterns);
    }
  }

  /** The search comes back empty exactly when no pattern occurs in any name. */
  lemma {:induction false} RepairFromNone(items: seq<CatalogItem>, patterns: seq<string>)
    ensures RepairFrom(items, patterns).None? <==>
      forall q, l :: 0 <= q < |patterns| && 0 <= l < |items| ==> !NameHas(patterns[q], items[l])
  {
    if patterns != [] {
      var f := FirstNamed(items, patterns[0], 0);
      if f.None? {
        var rest := patterns[1..];
        RepairFromNone(items, rest);
        assert RepairFrom(items, patterns) == RepairFrom(items, rest);
        forall q, l | 0 <= q < |patterns| && 0 <= l < |items| && q > 0
          ensures NameHas(patterns[q], items[l]) == NameHas(rest[q - 1], items[l])
        {
          assert patterns[q] == rest[q - 1];
        }
      }
    }
  }

  /** A code found is that of the first item named by the earliest pattern that occurs at all. */
  lemma {:induction false} RepairFromChoice(items: seq<CatalogItem>, patterns: seq<string>)
    requires RepairFrom(items, patterns).Some?
    ensures exists i, j :: RepairChoice(items, patterns, i, j) && RepairFrom(items, patterns).value == items[j].code
  {
    match FirstNamed(items, patterns[0], 0)
    case Some(j) =>
      assert RepairChoice(items, patterns, 0, j);
    case None =>
      var rest := patterns[1..];
      assert RepairFrom(items, patterns) == RepairFrom(items, rest);
      RepairFromChoice(items, rest);
      var i, j :| RepairChoice(items, rest, i, j) && RepairFrom(items, rest).value == items[j].code;
      assert RepairChoice(items, patterns, i + 1, j) by {
        forall q | 0 <= q < i + 1
          ensures forall l :: 0 <= l < |items| ==> !NameHas(patterns[q], items[l])
        {
          if q > 0 {
            assert patterns[q] == rest[q - 1];
          }
        }
      }
  }

  /**
   * `find_repair_code`: nothing for a NaN item number or when no item name
   * contains "repair", "maintenance" or "service"; otherwise the number of
   * the first item whose name contains the earliest of those that any name
   * contains. Which item number was given does not otherwise matter.
   */
  lemma RepairCodeSpec(code: Cell, items: seq<CatalogItem>)
    ensures RepairCode(code, items).None? <==>
      code.Missing? || forall q, l :: 0 <= q < 3 && 0 <= l < |items| ==> !NameHas(RepairPatterns[q], items[l])
    ensures RepairCode(code, items).Some? ==>
      exists i, j :: RepairChoice(items, RepairPatterns, i, j) && RepairCode(code, items).value == items[j].code
    ensures forall other: Cell :: other.Value? && code.Value? ==> RepairCode(other, items) == RepairCode(code, items)
  {
    RepairFromSpec(items, RepairPatterns);
  }

  /** An item whose name says "repair" is chosen over every "maintenance" or "service" item. */
  lemma RepairPreferred(code: string, items: seq<CatalogItem>, j: nat)
    requires j < |items| && NameHas("repair", items[j])
    ensures RepairCode(Value(code), items).Some?
    ensures exists l :: 0 <= l <= j && NameHas("repair", items[l]) && RepairCode(Value(code), items).value == items[l].code
  {
    RepairFromSpec(items, RepairPatterns);
    var i, l :| RepairChoice(items, RepairPatterns, i, l) && RepairCode(Value(code), items).value == items[l].code;
  }

  // ---------------------------------------------------------------------
  // The record of one row.
  // ---------------------------------------------------------------------

  /** The fields of a record bound through a rule. */
  lemma RuleRecordFields(cfg: Config, items: seq<CatalogItem>, row: SourceRow, m: RuleMatch, it: CatalogItem)
    ensures var rec := RuleRecord(cfg, items, Unmapped(row), m, it);
      rec.category == row.category && rec.subcategory == row.subcategory && rec.description == row.description &&
      rec.itemNumber == Some(it.code) && rec.itemName == Some(it.name) && rec.ndisCategory == Some(it.category) &&
      rec.sourceTable.Some? && rec.matching == RuleBased && rec.tier == m.tier && rec.score == m.score &&
      rec.keywords == JoinWith(m.keywords, ", ") &&
      rec.repairCode == (if cfg.includeRepairCodes then RepairCode(Value(it.code), items) else None)
  {
  }

  /** The fields of a record bound by the approximate matcher; its keywords are the first three keywords of the subcategory alone. */
  lemma FuzzyRecordFields(cfg: Config, items: seq<CatalogItem>, row: SourceRow, c: Candidate, it: CatalogItem)
    ensures var rec := FuzzyRecord(cfg, items, Unmapped(row), c, it);
      rec.category == row.category && rec.subcategory == row.subcategory && rec.description == row.description &&
      rec.itemNumber == Some(it.code) && rec.itemName == Some(it.name) && rec.ndisCategory == Some(it.category) &&
      rec.sourceTable.Some? && rec.matching == Approximate && rec.tier == ConfidenceLevel(c.score, false) &&
      rec.score == c.score &&
      rec.repairCode == (if cfg.includeRepairCodes then RepairCode(Value(it.code), items) else None)
    ensures var rec, ks := FuzzyRecord(cfg, items, Unmapped(row), c, it), ExtractKeywords(CellText(row.subcategory));
      (|ks| <= 3 ==> rec.keywords == JoinWith(ks, ", ")) && (|ks| > 3 ==> rec.keywords == JoinWith(ks[..3], ", "))
  {
  }

  /** How `RecordFor` decides, stage by stage. */
  lemma RecordForCases(cfg: Config, items: seq<CatalogItem>, row: SourceRow, scorer: (string, string) -> Score)
    ensures var after, f := AfterRules(cfg, items, row), FuzzyMatches(items, QueryText(row.subcategory, row.description), scorer, cfg.threshold);
      RecordFor(cfg, items, row, scorer) ==
        if after.itemNumber.Some? then after
        else if f.None? then after
        else BindCandidate(cfg, items, after, f.value[0])
  {
  }

  /**
   * The rule stage leaves the row unmapped exactly when no rule fires or the
   * firing rule's filter keeps no catalog item.
   */
  lemma AfterRulesUnbound(cfg: Config, items: seq<CatalogItem>, row: SourceRow)
    ensures var m := FirstRuleMatch(cfg.rules, MatchText(row.subcategory, row.description));
      AfterRules(cfg, items, row).itemNumber.None? <==>
        m.None? || forall j :: 0 <= j < |items| ==> !RuleCandidate(m.value, items[j])
    ensures AfterRules(cfg, items, row).itemNumber.None? ==> AfterRules(cfg, items, row) == Unmapped(row)
  {
  }

  /** The best candidate binds the item carrying its label; with increasing labels, the only one. */
  lemma BindCandidateFound(cfg: Config, items: seq<CatalogItem>, row: SourceRow, c: Candidate, j: nat)
    requires j < |items| && items[j].rowLabel == c.rowLabel
    ensures exists it :: BindCandidate(cfg, items, Unmapped(row), c) == FuzzyRecord(cfg, items, Unmapped(row), c, it)
    ensures LabelsIncreasing(items) ==>
      BindCandidate(cfg, items, Unmapped(row), c) == FuzzyRecord(cfg, items, Unmapped(row), c, items[j])
  {
    LocSpec(items, c.rowLabel, 0);
    var it := Loc(items, c.rowLabel, 0).value;
    assert BindCandidate(cfg, items, Unmapped(row), c) == FuzzyRecord(cfg, items, Unmapped(row), c, it);
    if LabelsIncreasing(items) {
      LocFinds(items, j);
    }
  }

  /** A rule-based match always scores 95. */
  lemma RuleMatchScore(rules: seq<Rule>, text: string)
    ensures FirstRuleMatch(rules, text).Some? ==> FirstRuleMatch(rules, text).value.score == RuleScore
  {
    FirstRuleMatchSpec(rules, text);
  }

  /**
   * A row whose first firing rule keeps some catalog item is bound to the
   * first item kept, with the rule's tier, score 95, the rule's matched
   * keywords joined by commas, and the repair code when one is asked for.
   */
  lemma RecordRuleBound(cfg: Config, items: seq<CatalogItem>, row: SourceRow, scorer: (string, string) -> Score, m: RuleMatch)
    requires FirstRuleMatch(cfg.rules, MatchText(row.subcategory, row.description)) == Some(m)
    requires exists j :: 0 <= j < |items| && RuleCandidate(m, items[j])
    ensures var rec := RecordFor(cfg, items, row, scorer);
      exists j :: 0 <= j < |items| && RuleCandidate(m, items[j]) && (forall l :: 0 <= l < j ==> !RuleCandidate(m, items[l])) &&
        rec.itemNumber == Some(items[j].code) && rec.itemName == Some(items[j].name) && rec.ndisCategory == Some(items[j].category)
    ensures var rec := RecordFor(cfg, items, row, scorer);
      rec.matching == RuleBased && rec.tier == m.tier && rec.score == RuleScore && rec.keywords == JoinWith(m.keywords, ", ")
    ensures var rec := RecordFor(cfg, items, row, scorer);
      rec.repairCode == (if cfg.includeRepairCodes then RepairCode(Value(rec.itemNumber.value), items) else None)
  {
    RuleMatchScore(cfg.rules, MatchText(row.subcategory, row.description));
    var j :| 0 <= j < |items| && RuleCandidate(m, items[j]);
    var k := FirstRuleItem(items, m, 0).value;
    assert AfterRules(cfg, items, row) == RuleRecord(cfg, items, Unmapped(row), m, items[k]);
    RuleRecordFields(cfg, items, row, m, items[k]);
    RecordForCases(cfg, items, row, scorer);
  }

  /**
   * A row the rules leave unmapped, with some catalog text scoring at least
   * the threshold, is bound to an item with the highest score of all, as an
   * approximate match whose tier the score decides; the item is the first
   * one carrying the matched text.
   */
  lemma RecordFuzzyBound(cfg: Config, items: seq<CatalogItem>, row: SourceRow, scorer: (string, string) -> Score)
    requires LabelsIncreasing(items)
    requires AfterRules(cfg, items, row).itemNumber.None?
    requires exists j :: 0 <= j < |items| && scorer(QueryText(row.subcategory, row.description), ItemText(items[j])) >= cfg.threshold as real
    ensures var rec := RecordFor(cfg, items, row, scorer);
      rec.matching == Approximate && rec.score >= cfg.threshold as real && rec.tier == ConfidenceLevel(rec.score, false)
    ensures var rec, q := RecordFor(cfg, items, row, scorer), QueryText(row.subcategory, row.description);
      forall l :: 0 <= l < |items| ==> scorer(q, ItemText(items[l])) <= rec.score
    ensures var rec, q := RecordFor(cfg, items, row, scorer), QueryText(row.subcategory, row.description);
      exists j :: 0 <= j < |items| && rec.itemNumber == Some(items[j].code) && rec.itemName == Some(items[j].name) &&
        rec.score == scorer(q, ItemText(items[j])) && forall l :: 0 <= l < j ==> ItemText(items[l]) != ItemText(items[j])
  {
    var q := QueryText(row.subcategory, row.description);
    FuzzyNone(items, q, scorer, cfg.threshold);
    FuzzyBest(items, q, scorer, cfg.threshold);
    var c := FuzzyMatches(items, q, scorer, cfg.threshold).value[0];
    var j :| 0 <= j < |items| && items[j].rowLabel == c.rowLabel && ItemText(items[j]) == c.text &&
      forall k :: 0 <= k < j ==> ItemText(items[k]) != c.text;
    AfterRulesUnbound(cfg, items, row);
    BindCandidateFound(cfg, items, row, c, j);
    FuzzyRecordFields(cfg, items, row, c, items[j]);
    RecordForCases(cfg, items, row, scorer);
  }

  /**
   * A row stays unmapped exactly when the rules bind nothing and no catalog
   * text scores the threshold; it is then the initial record unchanged.
   */
  lemma RecordUnbound(cfg: Config, items: seq<CatalogItem>, row: SourceRow, scorer: (string, string) -> Score)
    ensures var q := QueryText(row.subcategory, row.description);
      RecordFor(cfg, items, row, scorer).itemNumber.None? <==>
        AfterRules(cfg, items, row).itemNumber.None? &&
        forall j :: 0 <= j < |items| ==> scorer(q, ItemText(items[j])) < cfg.threshold as real
    ensures RecordFor(cfg, items, row, scorer).itemNumber.None? ==> RecordFor(cfg, items, row, scorer) == Unmapped(row)
  {
    var q := QueryText(row.subcategory, row.description);
    AfterRulesUnbound(cfg, items, row);
    FuzzyNone(items, q, scorer, cfg.threshold);
    RecordForCases(cfg, items, row, scorer);
    var f := FuzzyMatches(items, q, scorer, cfg.threshold);
    if AfterRules(cfg, items, row).itemNumber.None? && f.Some? {
      FuzzyBest(items, q, scorer, cfg.threshold);
      var c := f.value[0];
      var j :| 0 <= j < |items| && items[j].rowLabel == c.rowLabel && ItemText(items[j]) == c.text &&
        forall k :: 0 <= k < j ==> ItemText(items[k]) != c.text;
      BindCandidateFound(cfg, items, row, c, j);
      var it :| BindCandidate(cfg, items, Unmapped(row), c) == FuzzyRecord(cfg, items, Unmapped(row), c, it);
      FuzzyRecordFields(cfg, items, row, c, it);
    }
  }

  /**
   * Every record keeps its row's own fields; it is unmatched exactly when it
   * names no item, and then carries no catalog field; a repair code appears
   * only on a bound record of an analyser asked for one; a rule-based record
   * scores 95 and an approximate one at least the threshold, with the tier
   * its score decides.
   */
  lemma RecordShape(cfg: Config, items: seq<CatalogItem>, row: SourceRow, scorer: (string, string) -> Score)
    ensures var rec := RecordFor(cfg, items, row, scorer);
      rec.category == row.category && rec.subcategory == row.subcategory && rec.description == row.description
    ensures var rec := RecordFor(cfg, items, row, scorer);
      (rec.matching == Unmatched <==> rec.itemNumber.None?) &&
      (rec.itemNumber.None? <==> rec.ndisCategory.None?) &&
      (rec.itemNumber.None? <==> rec.sourceTable.None?)
    ensures var rec := RecordFor(cfg, items, row, scorer);
      rec.repairCode.Some? ==> cfg.includeRepairCodes && rec.itemNumber.Some?
    ensures var rec := RecordFor(cfg, items, row, scorer);
      rec.matching == RuleBased ==> rec.score == RuleScore
    ensures var rec := RecordFor(cfg, items, row, scorer);
      rec.matching == Approximate ==> rec.score >= cfg.threshold as real && rec.tier == ConfidenceLevel(rec.score, false)
  {
    var q := QueryText(row.subcategory, row.description);
    var after := AfterRules(cfg, items, row);
    var f := FuzzyMatches(items, q, scorer, cfg.threshold);
    RecordForCases(cfg, items, row, scorer);
    AfterRulesUnbound(cfg, items, row);
    if after.itemNumber.Some? {
      var text := MatchText(row.subcategory, row.description);
      RuleMatchScore(cfg.rules, text);
      var m := FirstRuleMatch(cfg.rules, text).value;
      var k := FirstRuleItem(items, m, 0).value;
      RuleRecordFields(cfg, items, row, m, items[k]);
    } else if f.Some? {
      FuzzyBest(items, q, scorer, cfg.threshold);
      var c := f.value[0];
      var j :| 0 <= j < |items| && items[j].rowLabel == c.rowLabel && ItemText(items[j]) == c.text &&
        forall k :: 0 <= k < j ==> ItemText(items[k]) != c.text;
      BindCandidateFound(cfg, items, row, c, j);
      var it :| BindCandidate(cfg, items, Unmapped(row), c) == FuzzyRecord(cfg, items, Unmapped(row), c, it);
      FuzzyRecordFields(cfg, items, row, c, it);
    }
  }

  /**
   * Lowering the threshold never unbinds a row nor changes how a bound row
   * is bound: the candidates passing the higher threshold lead those
   * passing the lower one.
   */
  lemma RecordThresholdAntitone(cfg: Config, items: seq<CatalogItem>, row: SourceRow, scorer: (string, string) -> Score, t1: int, t2: int)
    requires t1 <= t2
    ensures var r1, r2 := RecordFor(cfg.(threshold := t1), items, row, scorer), RecordFor(cfg.(threshold := t2), items, row, scorer);
      r2.itemNumber.Some? ==> r1 == r2
  {
    var q := QueryText(row.subcategory, row.description);
    var c1, c2 := cfg.(threshold := t1), cfg.(threshold := t2);
    assert AfterRules(c1, items, row) == AfterRules(c2, items, row);
    assert forall c: Candidate :: BindCandidate(c1, items, AfterRules(c1, items, row), c) == BindCandidate(c2, items, AfterRules(c2, items, row), c);
    RecordForCases(c1, items, row, scorer);
    RecordForCases(c2, items, row, scorer);
    FuzzyThresholdMonotone(items, q, scorer, t1, t2);
    var f1, f2 := FuzzyMatches(items, q, scorer, t1), FuzzyMatches(items, q, scorer, t2);
    if f2.Some? {
      assert f1.value[0] == f2.value[0];
    }
  }

  // ---------------------------------------------------------------------
  // The record of one row as `run_crosswalk` computes it.
  // ---------------------------------------------------------------------

  /** Why the loop of `run_crosswalk` raises on a row. */
  datatype RowError =
    | CategoryNotText               // AttributeError: `.str` on a `Category` column without text (crosswalk.py:349)
    | PositionPastEnd(position: nat) // IndexError: `ndis_df.iloc[...]` past the last item (crosswalk.py:382)

  /**
   * The rule stage as written (crosswalk.py:343-373). `categoryText` says
   * whether the catalog's `Category` column has a text type; without one,
   * evaluating the filter of crosswalk.py:349 raises as soon as a rule fires.
   */
  function RulesAsWritten(cfg: Config, items: seq<CatalogItem>, categoryText: bool, row: SourceRow): Result<Record, RowError>
  {
    if !categoryText && FirstRuleMatch(cfg.rules, MatchText(row.subcategory, row.description)).Some? then Err(CategoryNotText)
    else Ok(AfterRules(cfg, items, row))
  }

  /** The approximate binding as written (crosswalk.py:381-382): the best candidate's row label is used as a position. */
  function BindAtPosition(cfg: Config, items: seq<CatalogItem>, rec: Record, c: Candidate): Result<Record, RowError>
  {
    match Iloc(items, c.rowLabel)
    case None => Err(PositionPastEnd(c.rowLabel))
    case Some(it) => Ok(FuzzyRecord(cfg, items, rec, c, it))
  }

  /** The record of one source row as `run_crosswalk` computes it (crosswalk.py:320-402), or the error it raises. */
  function RowRecord(cfg: Config, items: seq<CatalogItem>, categoryText: bool, row: SourceRow, scorer: (string, string) -> Score): Result<Record, RowError>
  {
    match RulesAsWritten(cfg, items, categoryText, row)
    case Err(e) => Err(e)
    case Ok(rec) =>
      if rec.itemNumber.Some? then Ok(rec)
      else
        match FuzzyMatches(items, QueryText(row.subcategory, row.description), scorer, cfg.threshold)
        case None => Ok(rec)
        case Some(cs) => BindAtPosition(cfg, items, rec, cs[0])
  }

  /**
   * When the catalog's `Category` column has a text type and no catalog row
   * was dropped, so that row labels are positions, the record as written is
   * the record bound by label.
   */
  lemma RowRecordAgrees(cfg: Config, items: seq<CatalogItem>, row: SourceRow, scorer: (string, string) -> Score)
    requires forall j :: 0 <= j < |items| ==> items[j].rowLabel == j
    ensures RowRecord(cfg, items, true, row, scorer) == Ok(RecordFor(cfg, items, row, scorer))
  {
    var q := QueryText(row.subcategory, row.description);
    var f := FuzzyMatches(items, q, scorer, cfg.threshold);
    RecordForCases(cfg, items, row, scorer);
    if AfterRules(cfg, items, row).itemNumber.None? && f.Some? {
      FuzzyBest(items, q, scorer, cfg.threshold);
      var c := f.value[0];
      var j :| 0 <= j < |items| && items[j].rowLabel == c.rowLabel && ItemText(items[j]) == c.text;
      IlocAgreesWhenNoneDropped(items, j);
    }
  }

  /**
   * A row fails on the `Category` filter exactly when the column has no
   * text type and some rule fires; it fails on the positional lookup
   * exactly when it gets past the rule stage unbound and the best
   * approximate candidate's label is no position of the catalog.
   */
  lemma RowRecordFails(cfg: Config, items: seq<CatalogItem>, categoryText: bool, row: SourceRow, scorer: (string, string) -> Score)
    ensures var m := FirstRuleMatch(cfg.rules, MatchText(row.subcategory, row.description));
      RowRecord(cfg, items, categoryText, row, scorer) == Err(CategoryNotText) <==> !categoryText && m.Some?
    ensures var m, f := FirstRuleMatch(cfg.rules, MatchText(row.subcategory, row.description)),
                        FuzzyMatches(items, QueryText(row.subcategory, row.description), scorer, cfg.threshold);
      (RowRecord(cfg, items, categoryText, row, scorer).Err? && RowRecord(cfg, items, categoryText, row, scorer).error.PositionPastEnd?) <==>
        (categoryText || m.None?) && AfterRules(cfg, items, row).itemNumber.None? && f.Some? && f.value[0].rowLabel >= |items|
  {
  }

  /** A record as written keeps its row's own fields, and its binding has the shape of `RecordShape`. */
  lemma RowRecordShape(cfg: Config, items: seq<CatalogItem>, categoryText: bool, row: SourceRow, scorer: (string, string) -> Score)
    requires RowRecord(cfg, items, categoryText, row, scorer).Ok?
    ensures var rec := RowRecord(cfg, items, categoryText, row, scorer).value;
      rec.category == row.category && rec.subcategory == row.subcategory && rec.description == row.description
    ensures var rec := RowRecord(cfg, items, categoryText, row, scorer).value;
      (rec.matching == Unmatched <==> rec.itemNumber.None?) &&
      (rec.repairCode.Some? ==> cfg.includeRepairCodes && rec.itemNumber.Some?) &&
      (rec.matching == RuleBased ==> rec.score == RuleScore) &&
      (rec.matching == Approximate ==> rec.score >= cfg.threshold as real && rec.tier == ConfidenceLevel(rec.score, false))
  {
    var q := QueryText(row.subcategory, row.description);
    var after := AfterRules(cfg, items, row);
    var f := FuzzyMatches(items, q, scorer, cfg.threshold);
    AfterRulesUnbound(cfg, items, row);
    if after.itemNumber.Some? {
      var text := MatchText(row.subcategory, row.description);
      RuleMatchScore(cfg.rules, text);
      var m := FirstRuleMatch(cfg.rules, text).value;
      var k := FirstRuleItem(items, m, 0).value;
      RuleRecordFields(cfg, items, row, m, items[k]);
    } else if f.Some? {
      FuzzyBest(items, q, scorer, cfg.threshold);
      var c := f.value[0];
      FuzzyRecordFields(cfg, items, row, c, items[c.rowLabel]);
    }
  }

  /**
   * A record as written that was not bound approximately is the intended
   * record, whatever the labels: the rule-bound record of `RecordRuleBound`,
   * or the initial record (tier Review, score 0) when nothing binds.
   */
  lemma RowRecordNotApproximate(cfg: Config, items: seq<CatalogItem>, categoryText: bool, row: SourceRow, scorer: (string, string) -> Score)
    requires RowRecord(cfg, items, categoryText, row, scorer).Ok?
    ensures var rec := RowRecord(cfg, items, categoryText, row, scorer).value;
      rec.matching != Approximate ==> rec == RecordFor(cfg, items, row, scorer)
    ensures var rec := RowRecord(cfg, items, categoryText, row, scorer).value;
      rec.itemNumber.None? ==> rec == Unmapped(row)
  {
    var after := AfterRules(cfg, items, row);
    var f := FuzzyMatches(items, QueryText(row.subcategory, row.description), scorer, cfg.threshold);
    AfterRulesUnbound(cfg, items, row);
    RecordForCases(cfg, items, row, scorer);
    if after.itemNumber.None? && f.Some? && f.value[0].rowLabel < |items| {
      FuzzyRecordFields(cfg, items, row, f.value[0], items[f.value[0].rowLabel]);
    }
  }

  /** With increasing labels starting above 0, every label lies beyond its position. */
  lemma {:induction false} LabelsAbovePositions(items: seq<CatalogItem>, k: nat)
    requires LabelsIncreasing(items) && |items| > 0 && items[0].rowLabel > 0
    requires k < |items|
    ensures items[k].rowLabel > k
  {
    if k > 0 {
      LabelsAbovePositions(items, k - 1);
    }
  }

  /** A row reaching the positional lookup with a label past the end raises `IndexError` naming that label. */
  lemma RowRecordLabelPastEnd(cfg: Config, items: seq<CatalogItem>, categoryText: bool, row: SourceRow, scorer: (string, string) -> Score)
    requires categoryText || FirstRuleMatch(cfg.rules, MatchText(row.subcategory, row.description)).None?
    requires AfterRules(cfg, items, row).itemNumber.None?
    requires var f := FuzzyMatches(items, QueryText(row.subcategory, row.description), scorer, cfg.threshold);
      f.Some? && f.value[0].rowLabel >= |items|
    ensures var f := FuzzyMatches(items, QueryText(row.subcategory, row.description), scorer, cfg.threshold);
      RowRecord(cfg, items, categoryText, row, scorer) == Err(PositionPastEnd(f.value[0].rowLabel))
  {
    var f := FuzzyMatches(items, QueryText(row.subcategory, row.description), scorer, cfg.threshold);
    var rec := AfterRules(cfg, items, row);
    assert RulesAsWritten(cfg, items, categoryText, row) == Ok(rec);
    assert BindAtPosition(cfg, items, rec, f.value[0]) == Err(PositionPastEnd(f.value[0].rowLabel));
  }
}
