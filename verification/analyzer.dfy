/**
 * `CrosswalkAnalyzer` (crosswalk.py:11-474): the analyser's settings and
 * the loops of `rule_based_matching`, `fuzzy_matching`, `find_repair_code`,
 * `run_crosswalk` and `generate_pivot_summary`, each proved to compute the
 * function that specifies it in the other modules.
 */
module Crosswalk {
  import opened Base
  import opened Text
  import opened Rules
  import opened Catalog
  import opened Fuzzy
  import opened Records
  import opened Summary

  /** The source columns `run_crosswalk` reads (crosswalk.py:322-324). */
  const SourceCategoryCol := "Category"
  const SubcategoryCol := "Subcategory"

  /**
   * Why `run_crosswalk` raises. A `MissingColumn` is re-raised as the
   * ValueError "NDIS data validation failed" (crosswalk.py:307-310); an
   * `EmptySample` is a ZeroDivisionError, which that `except ValueError`
   * does not wrap and which propagates as it is.
   */
  datatype CrosswalkError =
    | ValidationFailed(schema: SchemaError)
    | MissingSourceColumn                    // KeyError on `row['Category']` or `row['Subcategory']`
    | MatchingFailed(row: RowError)          // raised by the loop over the source rows
    | SummaryFailed(summary: SummaryError)   // raised by `generate_pivot_summary`

  /** The result of `run_crosswalk`: the records, the summary and the metadata (crosswalk.py:410-419). */
  datatype Report = Report(records: seq<Record>, pivot: seq<PivotRow>, totalItems: nat, mappedItems: nat, threshold: int)

  /**
   * One source row as the loop reads it (crosswalk.py:322-324); a
   * `Description` column that is absent has been added empty (crosswalk.py:312-313).
   */
  function ReadRow(h: seq<string>, row: seq<Cell>): SourceRow
  {
    SourceRow(Lookup(h, row, SourceCategoryCol), Lookup(h, row, SubcategoryCol),
              if DescriptionCol in h then Lookup(h, row, DescriptionCol) else Value(""))
  }

  /** The source rows in order; `None` when a row is read from a table without a category or subcategory column. */
  function SourceRows(t: Table): Option<seq<SourceRow>>
  {
    if t.rows != [] && (SourceCategoryCol !in t.header || SubcategoryCol !in t.header) then None
    else Some(seq(|t.rows|, i requires 0 <= i < |t.rows| => ReadRow(t.header, t.rows[i])))
  }

  /**
   * The records of the rows bound by label, one per row, appended in
   * order: the intended `crosswalk_results` (see `Records.RecordFor`).
   */
  function RecordsFor(cfg: Config, items: seq<CatalogItem>, rows: seq<SourceRow>, scorer: (string, string) -> Score): seq<Record>
  {
    if rows == [] then []
    else RecordsFor(cfg, items, rows[..|rows| - 1], scorer) + [RecordFor(cfg, items, rows[|rows| - 1], scorer)]
  }

  /** The results of `step` on the rows appended in order, or the error of the first row it fails on. */
  function Collect(rows: seq<SourceRow>, step: SourceRow -> Result<Record, RowError>): Result<seq<Record>, RowError>
  {
    if rows == [] then Ok([])
    else
      match Collect(rows[..|rows| - 1], step)
      case Err(e) => Err(e)
      case Ok(rs) =>
        match step(rows[|rows| - 1])
        case Err(e) => Err(e)
        case Ok(r) => Ok(rs + [r])
  }

  /** `crosswalk_results` as the loop of crosswalk.py:320-402 builds it, or the error of the first row that raises. */
  function RowRecords(cfg: Config, items: seq<CatalogItem>, categoryText: bool, rows: seq<SourceRow>, scorer: (string, string) -> Score): Result<seq<Record>, RowError>
  {
    Collect(rows, RowStep(cfg, items, categoryText, scorer))
  }

  /** The loop body as a step on one row. */
  function RowStep(cfg: Config, items: seq<CatalogItem>, categoryText: bool, scorer: (string, string) -> Score): SourceRow -> Result<Record, RowError>
  {
    row => RowRecord(cfg, items, categoryText, row, scorer)
  }

  /** `run_crosswalk` (crosswalk.py:300-419) of an analyser with settings `cfg`. */
  function Crosswalk(cfg: Config, catalog: Table, source: Table, scorer: (string, string) -> Score): Result<Report, CrosswalkError>
  {
    match Validated(catalog)
    case Err(e) => Err(ValidationFailed(e))
    case Ok(items) =>
      match SourceRows(source)
      case None => Err(MissingSourceColumn)
      case Some(rows) =>
        match RowRecords(cfg, items, CatalogCategoryText(catalog), rows, scorer)
        case Err(e) => Err(MatchingFailed(e))
        case Ok(records) =>
          match PivotSummary(records)
          case Err(e) => Err(SummaryFailed(e))
          case Ok(pivot) => Ok(Report(records, pivot, |records|, |Mapped(records)|, cfg.threshold))
  }

  // ---------------------------------------------------------------------
  // Properties of the crosswalk.
  // ---------------------------------------------------------------------

  /** One record per row, in the rows' order, each the record of its own row. */
  lemma RecordsForSpec(cfg: Config, items: seq<CatalogItem>, rows: seq<SourceRow>, scorer: (string, string) -> Score)
    ensures |RecordsFor(cfg, items, rows, scorer)| == |rows|
    ensures forall i :: 0 <= i < |rows| ==> RecordsFor(cfg, items, rows, scorer)[i] == RecordFor(cfg, items, rows[i], scorer)
  {
    RecordsForAt(cfg, items, rows, scorer, 0);
    forall i | 0 <= i < |rows|
      ensures RecordsFor(cfg, items, rows, scorer)[i] == RecordFor(cfg, items, rows[i], scorer)
    {
      RecordsForAt(cfg, items, rows, scorer, i);
    }
  }

  lemma {:induction false} RecordsForAt(cfg: Config, items: seq<CatalogItem>, rows: seq<SourceRow>, scorer: (string, string) -> Score, i: nat)
    ensures |RecordsFor(cfg, items, rows, scorer)| == |rows|
    ensures i < |rows| ==> RecordsFor(cfg, items, rows, scorer)[i] == RecordFor(cfg, items, rows[i], scorer)
  {
    if rows != [] {
      var front := rows[..|rows| - 1];
      RecordsForAt(cfg, items, front, scorer, i);
      var rs, last := RecordsFor(cfg, items, front, scorer), RecordFor(cfg, items, rows[|rows| - 1], scorer);
      assert RecordsFor(cfg, items, rows, scorer) == rs + [last];
      if i < |front| {
        assert front[i] == rows[i];
        assert (rs + [last])[i] == rs[i];
      }
    }
  }

  /** `Collect` yields one result per row, each the step's result on its own row, exactly when the step fails on no row. */
  lemma CollectSpec(rows: seq<SourceRow>, step: SourceRow -> Result<Record, RowError>)
    ensures Collect(rows, step).Ok? <==> forall i :: 0 <= i < |rows| ==> step(rows[i]).Ok?
    ensures Collect(rows, step).Ok? ==>
      |Collect(rows, step).value| == |rows| &&
      forall i :: 0 <= i < |rows| ==> step(rows[i]) == Ok(Collect(rows, step).value[i])
  {
    CollectAt(rows, step, 0);
    forall i | 0 <= i < |rows|
      ensures Collect(rows, step).Ok? ==> step(rows[i]) == Ok(Collect(rows, step).value[i])
    {
      CollectAt(rows, step, i);
    }
    if Collect(rows, step).Err? {
      CollectFirstError(rows, step);
    }
  }

  lemma {:induction false} CollectAt(rows: seq<SourceRow>, step: SourceRow -> Result<Record, RowError>, i: nat)
    ensures Collect(rows, step).Ok? ==> |Collect(rows, step).value| == |rows|
    ensures Collect(rows, step).Ok? && i < |rows| ==> step(rows[i]) == Ok(Collect(rows, step).value[i])
  {
    if rows != [] {
      var front := rows[..|rows| - 1];
      CollectAt(front, step, i);
      if Collect(rows, step).Ok? {
        var rs, last := Collect(front, step).value, step(rows[|rows| - 1]).value;
        assert Collect(rows, step).value == rs + [last];
        if i < |front| {
          assert front[i] == rows[i];
          assert (rs + [last])[i] == rs[i];
        }
      }
    }
  }

  /** When `Collect` fails, it fails with the step's error on the first row the step fails on. */
  lemma {:induction false} CollectFirstError(rows: seq<SourceRow>, step: SourceRow -> Result<Record, RowError>)
    requires Collect(rows, step).Err?
    ensures exists i ::
      0 <= i < |rows| && step(rows[i]) == Err(Collect(rows, step).error) && (forall j :: 0 <= j < i ==> step(rows[j]).Ok?)
  {
    var front := rows[..|rows| - 1];
    var e := Collect(rows, step).error;
    if Collect(front, step).Err? {
      CollectFirstError(front, step);
      var i :| 0 <= i < |front| && step(front[i]) == Err(e) && (forall j :: 0 <= j < i ==> step(front[j]).Ok?);
      assert front[i] == rows[i];
      forall j | 0 <= j < i
        ensures step(rows[j]).Ok?
      {
        assert front[j] == rows[j];
      }
    } else {
      forall j | 0 <= j < |rows| - 1
        ensures step(rows[j]).Ok?
      {
        CollectAt(front, step, j);
        assert front[j] == rows[j];
      }
    }
  }

  /** Once a prefix of the rows fails, `Collect` fails with the same error. */
  lemma {:induction false} CollectPrefixErr(rows: seq<SourceRow>, step: SourceRow -> Result<Record, RowError>, k: nat)
    requires k <= |rows| && Collect(rows[..k], step).Err?
    ensures Collect(rows, step) == Collect(rows[..k], step)
    decreases |rows|
  {
    if k == |rows| {
      assert rows[..k] == rows;
    } else {
      var front := rows[..|rows| - 1];
      assert front[..k] == rows[..k];
      CollectPrefixErr(front, step, k);
    }
  }

  /** One more row: `Collect` of the longer prefix extends the shorter one's records with the step's result, or fails. */
  lemma CollectSnoc(rows: seq<SourceRow>, step: SourceRow -> Result<Record, RowError>, i: nat)
    requires i < |rows|
    ensures Collect(rows[..i + 1], step) ==
      match Collect(rows[..i], step)
      case Err(e) => Err(e)
      case Ok(rs) => (match step(rows[i]) case Err(e) => Err(e) case Ok(r) => Ok(rs + [r]))
  {
    assert rows[..i + 1][..i] == rows[..i];
  }

  /**
   * With a text `Category` column and no catalog row dropped, so that row
   * labels are positions, the loop as written gives the records bound by
   * label.
   */
  lemma {:induction false} RowRecordsAgree(cfg: Config, items: seq<CatalogItem>, rows: seq<SourceRow>, scorer: (string, string) -> Score)
    requires forall j :: 0 <= j < |items| ==> items[j].rowLabel == j
    ensures RowRecords(cfg, items, true, rows, scorer) == Ok(RecordsFor(cfg, items, rows, scorer))
  {
    if rows != [] {
      RowRecordsAgree(cfg, items, rows[..|rows| - 1], scorer);
      RowRecordAgrees(cfg, items, rows[|rows| - 1], scorer);
    }
  }

  /** Each record keeps the category of its row. */
  lemma RowRecordsCategories(cfg: Config, items: seq<CatalogItem>, categoryText: bool, rows: seq<SourceRow>, scorer: (string, string) -> Score)
    requires RowRecords(cfg, items, categoryText, rows, scorer).Ok?
    ensures var records := RowRecords(cfg, items, categoryText, rows, scorer).value;
      |records| == |rows| && forall i :: 0 <= i < |rows| ==> records[i].category == rows[i].category
  {
    CollectSpec(rows, RowStep(cfg, items, categoryText, scorer));
    forall i | 0 <= i < |rows|
      ensures RowRecords(cfg, items, categoryText, rows, scorer).value[i].category == rows[i].category
    {
      RowRecordShape(cfg, items, categoryText, rows[i], scorer);
    }
  }

  /**
   * The crosswalk fails when the catalog does not validate, with the
   * validation's reason (among them the item-number column that the name
   * search renames, see `Catalog.MissingNumberCauses`); when a source row
   * lacks a category or subcategory column; and when there are no source
   * rows (no category column to summarise).
   */
  lemma CrosswalkErrors(cfg: Config, catalog: Table, source: Table, scorer: (string, string) -> Score)
    ensures Validated(catalog).Err? ==> Crosswalk(cfg, catalog, source, scorer) == Err(ValidationFailed(Validated(catalog).error))
    ensures NumberReclaimed(catalog) ==> Crosswalk(cfg, catalog, source, scorer) == Err(ValidationFailed(MissingColumn(NumberCol)))
    ensures Validated(catalog).Ok? && SourceRows(source).None? ==> Crosswalk(cfg, catalog, source, scorer) == Err(MissingSourceColumn)
    ensures Validated(catalog).Ok? && source.rows == [] ==> Crosswalk(cfg, catalog, source, scorer) == Err(SummaryFailed(NoRecords))
  {
    MissingNumberCauses(catalog);
  }

  /**
   * Past validation, the crosswalk fails in its loop exactly when some row
   * raises, and then with the first such row's error.
   */
  lemma CrosswalkMatchingErrors(cfg: Config, catalog: Table, source: Table, scorer: (string, string) -> Score)
    requires Validated(catalog).Ok? && SourceRows(source).Some?
    ensures var items, rows, ct := Validated(catalog).value, SourceRows(source).value, CatalogCategoryText(catalog);
      var r := Crosswalk(cfg, catalog, source, scorer);
      (r.Err? && r.error.MatchingFailed? <==> exists i :: 0 <= i < |rows| && RowRecord(cfg, items, ct, rows[i], scorer).Err?) &&
      (r.Err? && r.error.MatchingFailed? ==>
        exists i :: 0 <= i < |rows| && RowRecord(cfg, items, ct, rows[i], scorer) == Err(r.error.row) &&
          forall j :: 0 <= j < i ==> RowRecord(cfg, items, ct, rows[j], scorer).Ok?)
  {
    var items, rows, ct := Validated(catalog).value, SourceRows(source).value, CatalogCategoryText(catalog);
    var step := RowStep(cfg, items, ct, scorer);
    CollectSpec(rows, step);
    if Collect(rows, step).Err? {
      CollectFirstError(rows, step);
    }
  }

  /**
   * When the catalog's `Category` column has no text type, the crosswalk
   * fails in its loop as soon as a rule fires on some source row.
   */
  lemma CrosswalkCategoryNotText(cfg: Config, catalog: Table, source: Table, scorer: (string, string) -> Score)
    requires Validated(catalog).Ok? && SourceRows(source).Some? && !CatalogCategoryText(catalog)
    requires var rows := SourceRows(source).value;
      exists i :: 0 <= i < |rows| && FirstRuleMatch(cfg.rules, MatchText(rows[i].subcategory, rows[i].description)).Some?
    ensures Crosswalk(cfg, catalog, source, scorer).Err? && Crosswalk(cfg, catalog, source, scorer).error.MatchingFailed?
  {
    var items, rows := Validated(catalog).value, SourceRows(source).value;
    var i :| 0 <= i < |rows| && FirstRuleMatch(cfg.rules, MatchText(rows[i].subcategory, rows[i].description)).Some?;
    RowRecordFails(cfg, items, false, rows[i], scorer);
    CollectSpec(rows, RowStep(cfg, items, false, scorer));
  }

  /**
   * When every row gets its record, the summary fails exactly when some
   * row's category is NaN, and the crosswalk succeeds otherwise.
   */
  lemma CrosswalkSummaryErrors(cfg: Config, catalog: Table, source: Table, scorer: (string, string) -> Score)
    requires Validated(catalog).Ok? && SourceRows(source).Some? && source.rows != []
    requires var items, rows := Validated(catalog).value, SourceRows(source).value;
      forall i :: 0 <= i < |rows| ==> RowRecord(cfg, items, CatalogCategoryText(catalog), rows[i], scorer).Ok?
    ensures var rows := SourceRows(source).value;
      Crosswalk(cfg, catalog, source, scorer) == Err(SummaryFailed(MissingCategory)) <==>
      exists i :: 0 <= i < |rows| && rows[i].category.Missing?
    ensures var rows := SourceRows(source).value;
      (forall i :: 0 <= i < |rows| ==> rows[i].category.Value?) ==> Crosswalk(cfg, catalog, source, scorer).Ok?
  {
    var items, rows, ct := Validated(catalog).value, SourceRows(source).value, CatalogCategoryText(catalog);
    CollectSpec(rows, RowStep(cfg, items, ct, scorer));
    var records := RowRecords(cfg, items, ct, rows, scorer).value;
    RowRecordsCategories(cfg, items, ct, rows, scorer);
    PivotErrors(records);
    if exists i :: 0 <= i < |records| && records[i].category.Missing? {
      var i :| 0 <= i < |records| && records[i].category.Missing?;
      assert rows[i].category.Missing?;
    }
    if exists i :: 0 <= i < |rows| && rows[i].category.Missing? {
      var i :| 0 <= i < |rows| && rows[i].category.Missing?;
      assert records[i].category.Missing?;
    }
  }

  /**
   * A report has one record per source row, each the record of its row as
   * the loop computes it; its metadata counts all records and the bound
   * ones and carries the threshold; and the summary's totals add up to
   * those counts.
   */
  lemma CrosswalkReport(cfg: Config, catalog: Table, source: Table, scorer: (string, string) -> Score)
    requires Crosswalk(cfg, catalog, source, scorer).Ok?
    ensures Validated(catalog).Ok? && SourceRows(source).Some?
    ensures var rep := Crosswalk(cfg, catalog, source, scorer).value;
      |rep.records| == rep.totalItems == |source.rows| &&
      forall i :: 0 <= i < |source.rows| ==>
        RowRecord(cfg, Validated(catalog).value, CatalogCategoryText(catalog), SourceRows(source).value[i], scorer) == Ok(rep.records[i])
    ensures var rep := Crosswalk(cfg, catalog, source, scorer).value;
      rep.mappedItems <= rep.totalItems && rep.threshold == cfg.threshold &&
      Totals(rep.pivot) == rep.totalItems && MappedTotals(rep.pivot) == rep.mappedItems
  {
    var items, rows, ct := Validated(catalog).value, SourceRows(source).value, CatalogCategoryText(catalog);
    CollectSpec(rows, RowStep(cfg, items, ct, scorer));
    var records := RowRecords(cfg, items, ct, rows, scorer).value;
    MappedBound(records);
    PivotPartition(records);
  }

  // ---------------------------------------------------------------------
  // The analyser.
  // ---------------------------------------------------------------------

  /** `CrosswalkAnalyzer`: the settings the matching reads, and its loops. */
  class Analyzer {
    var confidenceThreshold: int
    var includeRepairCodes: bool
    var rules: seq<Rule>

    /** The settings as one value. */
    function Settings(): Config
      reads this
    {
      Config(confidenceThreshold, includeRepairCodes, rules)
    }

    /** `__init__` (crosswalk.py:16-86): threshold 80, repair codes on, the declared rule table. */
    constructor ()
      ensures Settings() == Config(80, true, DefaultRules())
    {
      confidenceThreshold := 80;
      includeRepairCodes := true;
      rules := DefaultRules();
    }

    /** The assignments of app.py:85-86; the rule table stays as it is. */
    method Configure(threshold: int, includeRepair: bool)
      modifies this
      ensures Settings() == old(Settings()).(threshold := threshold, includeRepairCodes := includeRepair)
    {
      confidenceThreshold := threshold;
      includeRepairCodes := includeRepair;
    }

    /** The keywords of one rule present in the text, in declared order (crosswalk.py:236-239). */
    static method FindKeywords(keywords: seq<string>, text: string) returns (found: seq<string>)
      ensures found == FoundKeywords(keywords, text)
    {
      found := [];
      for j := 0 to |keywords|
        invariant found == FoundKeywords(keywords[..j], text)
      {
        assert keywords[..j + 1][..j] == keywords[..j];
        if Contains(text, keywords[j]) {
          found := found + [keywords[j]];
        }
      }
      assert keywords[..|keywords|] == keywords;
    }

    /** `rule_based_matching` (crosswalk.py:229-251): the first rule with a keyword present. */
    method RuleBasedMatching(subcategory: Cell, description: Cell) returns (m: Option<RuleMatch>)
      ensures m == FirstRuleMatch(rules, MatchText(subcategory, description))
    {
      var text := MatchText(subcategory, description);
      for i := 0 to |rules|
        invariant FirstRuleMatch(rules[i..], text) == FirstRuleMatch(rules, text)
      {
        assert rules[i..][1..] == rules[i + 1..];
        var found := FindKeywords(rules[i].keywords, text);
        if found != [] {
          return Some(RuleMatch(rules[i].name, rules[i].category, rules[i].tier, found, RuleScore));
        }
      }
      return None;
    }

    /** Position of the first item the rule's catalog filter keeps (crosswalk.py:348-356). */
    static method FirstMatchingItem(items: seq<CatalogItem>, m: RuleMatch) returns (r: Option<nat>)
      ensures r == FirstRuleItem(items, m, 0)
    {
      for j := 0 to |items|
        invariant FirstRuleItem(items, m, j) == FirstRuleItem(items, m, 0)
      {
        if RuleCandidate(m, items[j]) {
          return Some(j);
        }
      }
      return None;
    }

    /** Position of the first item whose name contains the pattern (crosswalk.py:430-432). */
    static method FirstWithName(items: seq<CatalogItem>, pattern: string) returns (r: Option<nat>)
      ensures r == FirstNamed(items, pattern, 0)
    {
      for j := 0 to |items|
        invariant FirstNamed(items, pattern, j) == FirstNamed(items, pattern, 0)
      {
        if NameHas(pattern, items[j]) {
          return Some(j);
        }
      }
      return None;
    }

    /** `find_repair_code` (crosswalk.py:421-439). */
    static method FindRepairCode(code: Cell, items: seq<CatalogItem>) returns (r: Option<string>)
      ensures r == RepairCode(code, items)
    {
      if code.Missing? {
        return None;
      }
      for p := 0 to |RepairPatterns|
        invariant RepairFrom(items, RepairPatterns[p..]) == RepairFrom(items, RepairPatterns)
      {
        assert RepairPatterns[p..][1..] == RepairPatterns[p + 1..];
        var j := FirstWithName(items, RepairPatterns[p]);
        if j.Some? {
          return Some(items[j.value].code);
        }
      }
      return None;
    }

    /** Position of the first text equal to `t` (the `next(...)` of crosswalk.py:279). */
    static method FirstIndexWithText(texts: seq<string>, t: string) returns (j: nat)
      requires t in texts
      ensures j == FirstWithText(texts, t)
    {
      j := 0;
      while texts[j] != t
        invariant j < |texts| && t in texts[j..]
        invariant forall k :: 0 <= k < j ==> texts[k] != t
        decreases |texts| - j
      {
        assert texts[j..] == [texts[j]] + texts[j + 1..];
        j := j + 1;
      }
    }

    /**
     * `ndis_descriptions` (crosswalk.py:258-262): the text `describe` gives
     * every item, in catalog order.
     */
    static method ItemTexts(items: seq<CatalogItem>, describe: CatalogItem -> string) returns (texts: seq<string>)
      ensures |texts| == |items|
      ensures forall k :: 0 <= k < |items| ==> texts[k] == describe(items[k])
    {
      texts := [];
      for j := 0 to |items|
        invariant |texts| == j
        invariant forall k :: 0 <= k < j ==> texts[k] == describe(items[k])
      {
        texts := texts + [describe(items[j])];
      }
    }

    /** `best_matches` (crosswalk.py:275-284): the extracted choices that reach the threshold, in order. */
    static method KeepPassing(items: seq<CatalogItem>, texts: seq<string>, scores: seq<Score>, top: seq<nat>, threshold: int)
      returns (best: seq<Candidate>)
      requires |texts| == |items| == |scores|
      requires forall a :: 0 <= a < |top| ==> top[a] < |items|
      ensures best == Passing(items, texts, scores, top, threshold)
    {
      best := [];
      for a := 0 to |top|
        invariant best == Passing(items, texts, scores, top[..a], threshold)
      {
        assert top[..a + 1][..a] == top[..a];
        var x := top[a];
        if scores[x] >= threshold as real {
          var first := FirstIndexWithText(texts, texts[x]);
          best := best + [Candidate(items[first].rowLabel, scores[x], texts[x])];
        }
      }
      assert top[..|top|] == top;
    }

    /** `fuzzy_matching` (crosswalk.py:253-286) under the analyser's threshold. */
    method FuzzyMatching(subcategory: Cell, items: seq<CatalogItem>, description: Cell, scorer: (string, string) -> Score)
      returns (r: Option<seq<Candidate>>)
      ensures r == FuzzyMatches(items, QueryText(subcategory, description), scorer, confidenceThreshold)
    {
      var texts := ItemTexts(items, ItemText);
      assert texts == Texts(items);
      if texts == [] {
        return None;
      }
      var scores := ScoresOf(QueryText(subcategory, description), texts, scorer);
      var best := KeepPassing(items, texts, scores, Extract(scores), confidenceThreshold);
      if best == [] {
        return None;
      }
      return Some(best);
    }

    /**
     * The rule stage of one row (crosswalk.py:343-373): the default record,
     * bound through the first rule that fires; the catalog filter raises
     * when the `Category` column has no text type.
     */
    method RuleStage(items: seq<CatalogItem>, categoryText: bool, row: SourceRow) returns (r: Result<Record, RowError>)
      ensures r == RulesAsWritten(Settings(), items, categoryText, row)
    {
      var rec := Unmapped(row);
      var ruleMatch := RuleBasedMatching(row.subcategory, row.description);
      if ruleMatch.Some? {
        if !categoryText {
          return Err(CategoryNotText);
        }
        var m := ruleMatch.value;
        var j := FirstMatchingItem(items, m);
        if j.Some? {
          var best := items[j.value];
          var bound := Bind(rec, best).(tier := m.tier, score := m.score, matching := RuleBased, keywords := JoinWith(m.keywords, ", "));
          rec := AttachRepair(bound, best, items);
        }
      }
      return Ok(rec);
    }

    /** The update of crosswalk.py:385-400: the record bound to the item of an approximate candidate. */
    method FuzzyBind(items: seq<CatalogItem>, rec0: Record, c: Candidate, it: CatalogItem) returns (rec: Record)
      ensures rec == FuzzyRecord(Settings(), items, rec0, c, it)
    {
      var ks := ExtractKeywords(CellText(rec0.subcategory));
      var bound := Bind(rec0, it).(tier := ConfidenceLevel(c.score, false), score := c.score,
                                   matching := Approximate, keywords := JoinWith(if |ks| <= 3 then ks else ks[..3], ", "));
      rec := AttachRepair(bound, it, items);
    }

    /** The repair code of the bound item, attached when the analyser is asked for one (crosswalk.py:370-373, 397-400). */
    method AttachRepair(bound: Record, it: CatalogItem, items: seq<CatalogItem>) returns (rec: Record)
      ensures rec == WithRepair(Settings(), bound, it, items)
    {
      rec := bound;
      if includeRepairCodes {
        var code := FindRepairCode(Value(it.code), items);
        rec := rec.(repairCode := code);
      }
    }

    /**
     * The approximate stage (crosswalk.py:374-400): a record still unbound
     * is bound to the item at the position given by the best candidate's
     * row label, which raises past the last item.
     */
    method FuzzyStage(items: seq<CatalogItem>, row: SourceRow, rec0: Record, scorer: (string, string) -> Score) returns (r: Result<Record, RowError>)
      ensures var f := FuzzyMatches(items, QueryText(row.subcategory, row.description), scorer, confidenceThreshold);
        r == if f.None? then Ok(rec0) else BindAtPosition(Settings(), items, rec0, f.value[0])
    {
      var fuzzy := FuzzyMatching(row.subcategory, items, row.description, scorer);
      if fuzzy.None? {
        return Ok(rec0);
      }
      r := BindAt(items, rec0, fuzzy.value[0]);
    }

    /** `ndis_df.iloc[best_fuzzy['ndis_index']]` and the update of crosswalk.py:381-400: raises past the last item. */
    method BindAt(items: seq<CatalogItem>, rec0: Record, c: Candidate) returns (r: Result<Record, RowError>)
      ensures r == BindAtPosition(Settings(), items, rec0, c)
    {
      if c.rowLabel >= |items| {
        return Err(PositionPastEnd(c.rowLabel));
      }
      var rec := FuzzyBind(items, rec0, c, items[c.rowLabel]);
      return Ok(rec);
    }

    /** The body of the loop of `run_crosswalk` (crosswalk.py:320-402): the record of one source row, or the error it raises. */
    method MatchRow(items: seq<CatalogItem>, categoryText: bool, row: SourceRow, scorer: (string, string) -> Score) returns (r: Result<Record, RowError>)
      ensures r == RowRecord(Settings(), items, categoryText, row, scorer)
    {
      r := RuleStage(items, categoryText, row);
      if r.Ok? && r.value.itemNumber.None? {
        r := FuzzyStage(items, row, r.value, scorer);
      }
    }

    /** `crosswalk_df['EnableNSW_Category'].unique()` (crosswalk.py:447). */
    static method UniqueCategories(records: seq<Record>) returns (cats: seq<Cell>)
      ensures cats == Distinct(CategoryColumn(records))
    {
      cats := [];
      for i := 0 to |records|
        invariant cats == Distinct(CategoryColumn(records[..i]))
      {
        var front := records[..i + 1];
        assert front[..i] == records[..i];
        var c := records[i].category;
        assert CategoryColumn(front) == CategoryColumn(records[..i]) + [c];
        var cs := CategoryColumn(front);
        assert cs[..|cs| - 1] == CategoryColumn(records[..i]);
        if c !in cats {
          cats := cats + [c];
        }
      }
      assert records[..|records|] == records;
    }

    /** One row of the summary (crosswalk.py:448-472), counting the category's records in one pass. */
    static method CategoryRow(records: seq<Record>, c: Cell) returns (row: PivotRow)
      ensures row == RowOf(records, c)
    {
      var t := Tally(0, 0, 0, 0, 0, []);
      for i := 0 to |records|
        invariant t == TallyOf(records[..i], c)
      {
        var front := records[..i + 1];
        assert front[..i] == records[..i];
        var r := records[i];
        if r.category == c {
          t := Tally(t.total + 1,
                     t.mapped + (if r.itemNumber.Some? then 1 else 0),
                     t.high + (if r.tier == High then 1 else 0),
                     t.bestFit + (if r.tier == BestFit then 1 else 0),
                     t.review + (if r.tier == Review then 1 else 0),
                     if r.ndisCategory.Some? && r.ndisCategory.value.Value? && r.ndisCategory.value !in t.names
                     then t.names + [r.ndisCategory.value] else t.names);
        }
      }
      assert records[..|records|] == records;
      row := PivotRow(c, t.total, t.mapped, Rate(t.mapped, t.total), NamesText(t.names), t.high, t.bestFit, t.review);
    }

    /** `generate_pivot_summary` (crosswalk.py:441-474). */
    static method GeneratePivotSummary(records: seq<Record>) returns (r: Result<seq<PivotRow>, SummaryError>)
      ensures r == PivotSummary(records)
    {
      if records == [] {
        return Err(NoRecords);
      }
      var cats := UniqueCategories(records);
      var rows: seq<PivotRow> := [];
      for k := 0 to |cats|
        invariant Missing !in cats[..k]
        invariant rows == RowsOf(records, cats[..k])
      {
        if cats[k] == Missing {
          return Err(MissingCategory);
        }
        var row := CategoryRow(records, cats[k]);
        RowsOfSnoc(records, cats, k);
        rows := rows + [row];
      }
      assert cats[..|cats|] == cats;
      return Ok(rows);
    }

    /** The loop of `run_crosswalk` (crosswalk.py:319-402): one record per source row, appended in order, until a row raises. */
    method MatchRows(items: seq<CatalogItem>, categoryText: bool, rows: seq<SourceRow>, scorer: (string, string) -> Score)
      returns (r: Result<seq<Record>, RowError>)
      ensures r == RowRecords(Settings(), items, categoryText, rows, scorer)
    {
      ghost var step := RowStep(Settings(), items, categoryText, scorer);
      var records := [];
      for i := 0 to |rows|
        invariant Collect(rows[..i], step) == Ok(records)
      {
        var rec := MatchRow(items, categoryText, rows[i], scorer);
        CollectSnoc(rows, step, i);
        if rec.Err? {
          CollectPrefixErr(rows, step, i + 1);
          return Err(rec.error);
        }
        records := records + [rec.value];
      }
      assert rows[..|rows|] == rows;
      return Ok(records);
    }

    /** `run_crosswalk` (crosswalk.py:300-419), without the analysis date. */
    method RunCrosswalk(catalog: Table, source: Table, scorer: (string, string) -> Score) returns (r: Result<Report, CrosswalkError>)
      ensures r == Crosswalk(Settings(), catalog, source, scorer)
    {
      var validated := ValidateCatalog(catalog);
      if validated.Err? {
        return Err(ValidationFailed(validated.error));
      }
      var rows := SourceRows(source);
      if rows.None? {
        return Err(MissingSourceColumn);
      }
      var matched := MatchRows(validated.value, CatalogCategoryText(catalog), rows.value, scorer);
      if matched.Err? {
        return Err(MatchingFailed(matched.error));
      }
      var records := matched.value;
      var pivot := GeneratePivotSummary(records);
      if pivot.Err? {
        return Err(SummaryFailed(pivot.error));
      }
      return Ok(Report(records, pivot.value, |records|, |Mapped(records)|, confidenceThreshold));
    }
  }
}
