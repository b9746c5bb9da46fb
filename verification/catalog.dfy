/**
 * Validation of the catalog table, `validate_ndis_data` and
 * `identify_columns_by_content` (crosswalk.py:116-227): resolve the column
 * roles by alias, fall back to content heuristics for the required roles,
 * drop invalid rows and fill defaults.
 *
 * A raw table is a header plus rows of cells by position; row `i` carries
 * the pandas index label `i`, and the label survives row filtering.
 */
module Catalog {
  import opened Base
  import opened Text

  /** A raw table: column names, and rows of cells in column order. */
  datatype Table = Table(header: seq<string>, rows: seq<seq<Cell>>)

  /** One validated catalog row; `rowLabel` is its row index in the raw table. */
  datatype CatalogItem = CatalogItem(
    rowLabel: nat,
    code: string,
    name: string,
    category: Cell,
    description: Cell,
    unitPrice: Cell,
    sourceTable: Option<Cell>)

  /** Why validation raises. */
  datatype SchemaError =
    | MissingColumn(role: string)     // ValueError "Could not identify required column"
    | EmptySample(column: string)     // ZeroDivisionError in the average-length test

  const NumberCol := "Support_Item_Number"
  const NameCol := "Support_Item_Name"
  const CategoryCol := "Category"
  const DescriptionCol := "Description"
  const PriceCol := "Unit_Price"
  const SourceTableCol := "Source_Table"

  /** A canonical column role and the column names it is recognised by. */
  datatype Role = Role(name: string, aliases: seq<string>)

  const NumberAliases: seq<string> :=
    ["Support_Item_Number", "Support Item Number", "Item Number", "Code", "Support Code", "NDIS Code", "Item Code", "Number"]
  const NameAliases: seq<string> :=
    ["Support_Item_Name", "Support Item Name", "Item Name", "Description", "Support Item", "Item Description", "Name"]
  const CategoryAliases: seq<string> := ["Category", "AT Category", "Support Category", "Type", "Group"]
  const DescriptionAliases: seq<string> := ["Description", "Details", "Item Description", "Full Description"]
  const PriceAliases: seq<string> := ["Unit_Price", "Unit Price", "Price", "Cost", "Amount"]

  const NumberRole := Role(NumberCol, NumberAliases)
  const NameRole := Role(NameCol, NameAliases)
  const CategoryRole := Role(CategoryCol, CategoryAliases)
  const DescriptionRole := Role(DescriptionCol, DescriptionAliases)
  const PriceRole := Role(PriceCol, PriceAliases)

  /** `column_mappings` in dict order (crosswalk.py:120-138). */
  function Roles(): seq<Role>
  {
    [NumberRole, NameRole, CategoryRole, DescriptionRole, PriceRole]
  }

  /** The cell in column position `c`; a short row reads as NaN. */
  function CellAt(row: seq<Cell>, c: int): Cell
  {
    if 0 <= c < |row| then row[c] else Missing
  }

  /** Position of the first column named `name`, searching from `c`. */
  function IndexFrom(h: seq<string>, name: string, c: nat): (r: Option<nat>)
    ensures r.Some? ==> c <= r.value < |h| && h[r.value] == name
    ensures r.None? ==> forall j :: c <= j < |h| ==> h[j] != name
    decreases |h| - c
  {
    if c >= |h| then None
    else if h[c] == name then Some(c)
    else IndexFrom(h, name, c + 1)
  }

  /** `row[name]` under header `h` (the first column of that name). */
  function Lookup(h: seq<string>, row: seq<Cell>, name: string): Cell
  {
    match IndexFrom(h, name, 0)
    case None => Missing
    case Some(c) => CellAt(row, c)
  }

  /** The column name, trimmed, is one of the aliases (crosswalk.py:151). */
  predicate AliasOf(column: string, aliases: seq<string>)
  {
    Strip(column) in aliases
  }

  /** Position of the first column, from `c` on, whose stripped name is an alias. */
  function AliasFrom(h: seq<string>, aliases: seq<string>, c: nat): (r: Option<nat>)
    ensures r.Some? ==> c <= r.value < |h| && AliasOf(h[r.value], aliases)
    ensures r.Some? ==> forall j :: c <= j < r.value ==> !AliasOf(h[j], aliases)
    ensures r.None? ==> forall j :: c <= j < |h| ==> !AliasOf(h[j], aliases)
    decreases |h| - c
  {
    if c >= |h| then None
    else if AliasOf(h[c], aliases) then Some(c)
    else
      var r := AliasFrom(h, aliases, c + 1);
      AliasSkip(h, aliases, c, r);
      r
  }

  /** A column that is no alias does not change where the search ends. */
  lemma AliasSkip(h: seq<string>, aliases: seq<string>, c: nat, r: Option<nat>)
    requires c < |h| && !AliasOf(h[c], aliases)
    requires r.Some? ==> c + 1 <= r.value < |h| && AliasOf(h[r.value], aliases)
    requires r.Some? ==> forall j :: c + 1 <= j < r.value ==> !AliasOf(h[j], aliases)
    requires r.None? ==> forall j :: c + 1 <= j < |h| ==> !AliasOf(h[j], aliases)
    ensures r.Some? ==> forall j :: c <= j < r.value ==> !AliasOf(h[j], aliases)
    ensures r.None? ==> forall j :: c <= j < |h| ==> !AliasOf(h[j], aliases)
  {
  }

  /** The search finds the first column whose trimmed name is an alias. */
  lemma AliasFromFirst(h: seq<string>, aliases: seq<string>, c: nat)
    requires c < |h| && AliasOf(h[c], aliases)
    requires forall j :: 0 <= j < c ==> !AliasOf(h[j], aliases)
    ensures AliasFrom(h, aliases, 0) == Some(c)
  {
  }

  /** `df.rename(columns={oldName: newName})`: every column named `oldName` is renamed. */
  function RenameAll(h: seq<string>, oldName: string, newName: string): (r: seq<string>)
    ensures |r| == |h|
    ensures forall j :: 0 <= j < |h| ==> r[j] == if h[j] == oldName then newName else h[j]
  {
    seq(|h|, j requires 0 <= j < |h| => if h[j] == oldName then newName else h[j])
  }

  /** One role of the renaming loop (crosswalk.py:150-153). */
  function AliasStep(h: seq<string>, role: Role): (r: seq<string>)
    ensures |r| == |h|
  {
    match AliasFrom(h, role.aliases, 0)
    case None => h
    case Some(f) => RenameAll(h, h[f], role.name)
  }

  /**
   * One renaming step gives the role's name to the first column whose
   * trimmed name is an alias of the role, and to every column sharing its
   * name; no other column changes.
   */
  lemma AliasStepSpec(h: seq<string>, role: Role, j: nat)
    requires j < |h|
    ensures AliasStep(h, role)[j] == h[j] || AliasStep(h, role)[j] == role.name
    ensures !AliasOf(h[j], role.aliases) ==> AliasStep(h, role)[j] == h[j]
    ensures AliasFrom(h, role.aliases, 0) == Some(j) ==> AliasStep(h, role)[j] == role.name
  {
  }

  /** With no alias of the role in the header, the step changes nothing. */
  lemma AliasStepNone(h: seq<string>, role: Role)
    requires AliasFrom(h, role.aliases, 0).None?
    ensures AliasStep(h, role) == h
  {
  }

  /** The header after the first `k` roles of the renaming loop (crosswalk.py:149-153). */
  function ResolveAliases(h: seq<string>, k: nat): (r: seq<string>)
    requires k <= |Roles()|
    ensures |r| == |h|
  {
    if k == 0 then h else AliasStep(ResolveAliases(h, k - 1), Roles()[k - 1])
  }

  /** The header after alias resolution. */
  function AliasedHeader(h: seq<string>): seq<string>
  {
    ResolveAliases(h, |Roles()|)
  }

  /** `df[col].dropna().astype(str)`: the non-null values of column `c`, in row order. */
  function ColumnValues(rows: seq<seq<Cell>>, c: nat): seq<string>
  {
    if rows == [] then []
    else
      var rest := ColumnValues(rows[..|rows| - 1], c);
      match CellAt(rows[|rows| - 1], c)
      case Missing => rest
      case Value(v) => rest + [v]
  }

  /** `.head(10)` of the non-null values. */
  function Sample(rows: seq<seq<Cell>>, c: nat): (s: seq<string>)
    ensures |s| <= 10
  {
    var v := ColumnValues(rows, c);
    if |v| <= 10 then v else v[..10]
  }

  /** The number of leading ASCII digits. */
  function LeadingDigits(v: string): (d: nat)
    ensures d <= |v|
    ensures forall i :: 0 <= i < d ==> IsDigit(v[i])
    ensures d < |v| ==> !IsDigit(v[d])
  {
    if v != [] && IsDigit(v[0]) then 1 + LeadingDigits(v[1..]) else 0
  }

  /** `re.match(r'^\d+_\d+.*', v) or re.match(r'^\d{2,}', v)` (crosswalk.py:206-207). */
  predicate CodeLike(v: string)
  {
    var d := LeadingDigits(v);
    d >= 2 || (d == 1 && 2 < |v| && v[1] == '_' && IsDigit(v[2]))
  }

  function CountCodeLike(s: seq<string>): nat
  {
    if s == [] then 0 else CountCodeLike(s[..|s| - 1]) + (if CodeLike(s[|s| - 1]) then 1 else 0)
  }

  function TotalLength(s: seq<string>): nat
  {
    if s == [] then 0 else TotalLength(s[..|s| - 1]) + |s[|s| - 1]|
  }

  /** More than half of the sampled values of column `c` look like codes (crosswalk.py:205-210). */
  predicate CodeMajority(rows: seq<seq<Cell>>, c: nat)
  {
    2 * CountCodeLike(Sample(rows, c)) > |Sample(rows, c)|
  }

  /** The sampled values of column `c` average more than ten characters (crosswalk.py:218-221). */
  predicate Descriptive(rows: seq<seq<Cell>>, c: nat)
  {
    |Sample(rows, c)| > 0 && TotalLength(Sample(rows, c)) > 10 * |Sample(rows, c)|
  }

  /** The first code-like column from `c` on (crosswalk.py:203-211). */
  function CodeColumnFrom(rows: seq<seq<Cell>>, h: seq<string>, c: nat): (r: Option<nat>)
    ensures r.Some? ==> c <= r.value < |h| && CodeMajority(rows, r.value)
    ensures forall j :: c <= j < |h| && (r.None? || j < r.value) ==> !CodeMajority(rows, j)
    decreases |h| - c
  {
    if c >= |h| then None
    else if CodeMajority(rows, c) then Some(c)
    else CodeColumnFrom(rows, h, c + 1)
  }

  /**
   * Whether the name search looks at column `j`. As written, the guard
   * `col not in [best_match_col]` compares each column with `None` and
   * excludes nothing (`skipCode` false); the evidently intended guard skips
   * the column already identified as the item number (`skipCode` true).
   */
  predicate Considered(h: seq<string>, j: nat, skipCode: bool)
    requires j < |h|
  {
    !(skipCode && h[j] == NumberCol)
  }

  /**
   * The first considered column, from `c` on, with descriptive values
   * (crosswalk.py:213-222). The average divides by the sample size, so
   * reaching a considered column without any non-null value raises.
   */
  function NameColumnFrom(rows: seq<seq<Cell>>, h: seq<string>, c: nat, skipCode: bool): (r: Result<Option<nat>, SchemaError>)
    ensures r.Ok? && r.value.Some? ==>
      c <= r.value.value < |h| && Considered(h, r.value.value, skipCode) && Descriptive(rows, r.value.value)
    ensures r.Ok? ==> forall j :: c <= j < |h| && (r.value.None? || j < r.value.value) && Considered(h, j, skipCode) ==>
      Sample(rows, j) != [] && !Descriptive(rows, j)
    ensures r.Err? ==>
      r.error.EmptySample? &&
      exists j :: c <= j < |h| && Considered(h, j, skipCode) && Sample(rows, j) == [] && h[j] == r.error.column
    decreases |h| - c
  {
    if c >= |h| then Ok(None)
    else if !Considered(h, c, skipCode) then NameColumnFrom(rows, h, c + 1, skipCode)
    else if Sample(rows, c) == [] then Err(EmptySample(h[c]))
    else if Descriptive(rows, c) then Ok(Some(c))
    else NameColumnFrom(rows, h, c + 1, skipCode)
  }

  /** `df.rename(columns={best_match_col: col_name})`, only when a column was found and its name is truthy. */
  function RenameFound(h: seq<string>, found: Option<nat>, role: string): (r: seq<string>)
    requires found.Some? ==> found.value < |h|
    ensures |r| == |h|
    ensures found.Some? && h[found.value] != "" ==> r[found.value] == role
    ensures forall j :: 0 <= j < |h| ==> r[j] == h[j] || r[j] == role
    ensures forall j :: 0 <= j < |h| && (found.None? || h[j] != h[found.value]) ==> r[j] == h[j]
  {
    if found.Some? && h[found.value] != "" then RenameAll(h, h[found.value], role) else h
  }

  /** One missing role of `identify_columns_by_content` (crosswalk.py:198-225). */
  function ContentStep(rows: seq<seq<Cell>>, h: seq<string>, role: string, skipCode: bool): (r: Result<seq<string>, SchemaError>)
    ensures r.Ok? ==> |r.value| == |h|
  {
    if role == NumberCol then Ok(RenameFound(h, CodeColumnFrom(rows, h, 0), role))
    else if role == NameCol then
      match NameColumnFrom(rows, h, 0, skipCode)
      case Err(e) => Err(e)
      case Ok(found) => Ok(RenameFound(h, found, role))
    else Ok(h)
  }

  /** `identify_columns_by_content` (crosswalk.py:195-227): the missing roles in order. */
  function ContentFallback(rows: seq<seq<Cell>>, h: seq<string>, missing: seq<string>, skipCode: bool): (r: Result<seq<string>, SchemaError>)
    ensures r.Ok? ==> |r.value| == |h|
    ensures r.Err? ==> r.error.EmptySample?
    decreases |missing|
  {
    if missing == [] then Ok(h)
    else
      match ContentStep(rows, h, missing[0], skipCode)
      case Err(e) => Err(e)
      case Ok(h1) => ContentFallback(rows, h1, missing[1..], skipCode)
  }

  /** The required roles absent from the header, in order (crosswalk.py:156-157). */
  function MissingRequired(h: seq<string>): seq<string>
  {
    (if NumberCol in h then [] else [NumberCol]) + (if NameCol in h then [] else [NameCol])
  }

  /**
   * The header after the content fallback for the required roles missing
   * from `h` (crosswalk.py:156-161), under the name-search guard `skipCode`
   * (false as written, see `Considered`).
   */
  function Resolve(rows: seq<seq<Cell>>, h: seq<string>, skipCode: bool): Result<seq<string>, SchemaError>
  {
    var missing := MissingRequired(h);
    if missing == [] then Ok(h) else ContentFallback(rows, h, missing, skipCode)
  }

  /** The header after alias resolution and the content fallback. */
  function ResolvedHeader(t: Table, skipCode: bool): Result<seq<string>, SchemaError>
  {
    Resolve(t.rows, AliasedHeader(t.header), skipCode)
  }

  /** A trimmed code or name that the filters of crosswalk.py:176-179 keep. */
  predicate ValidField(s: string)
  {
    s != "" && s != "nan"
  }

  /** Row `i` after cleaning (crosswalk.py:169-191), or `None` when a filter drops it. */
  function RowItem(t: Table, h: seq<string>, i: nat): Option<CatalogItem>
    requires i < |t.rows|
  {
    var row := t.rows[i];
    var code, name := Lookup(h, row, NumberCol), Lookup(h, row, NameCol);
    if code.Missing? && name.Missing? then None
    else
      var c, n := Strip(Show(code)), Strip(Show(name));
      if !ValidField(c) || !ValidField(n) then None
      else
        Some(CatalogItem(
          i, c, n,
          if CategoryCol in h then Lookup(h, row, CategoryCol) else Value("Unknown"),
          if DescriptionCol in h then Lookup(h, row, DescriptionCol) else Value(n),
          if PriceCol in h then Lookup(h, row, PriceCol) else Value("0"),
          if SourceTableCol in t.header then Some(Lookup(t.header, row, SourceTableCol)) else None))
  }

  /** Every row of the table after cleaning, `None` where a filter drops it. */
  function CleanedRows(t: Table, h: seq<string>): (r: seq<Option<CatalogItem>>)
    ensures |r| == |t.rows|
    ensures forall i :: 0 <= i < |r| ==> r[i] == RowItem(t, h, i)
  {
    seq(|t.rows|, i requires 0 <= i < |t.rows| => RowItem(t, h, i))
  }

  /** The surviving items among the first `n` rows, in order. */
  function Survivors(rows: seq<Option<CatalogItem>>, n: nat): seq<CatalogItem>
    requires n <= |rows|
  {
    if n == 0 then []
    else Survivors(rows, n - 1) + match rows[n - 1] { case None => [] case Some(item) => [item] }
  }

  /** `validate_ndis_data` (crosswalk.py:116-193) under the name-search guard `skipCode`. */
  function ValidatedWith(t: Table, skipCode: bool): Result<seq<CatalogItem>, SchemaError>
  {
    match ResolvedHeader(t, skipCode)
    case Err(e) => Err(e)
    case Ok(h) =>
      if NumberCol !in h then Err(MissingColumn(NumberCol))
      else if NameCol !in h then Err(MissingColumn(NameCol))
      else Ok(Survivors(CleanedRows(t, h), |t.rows|))
  }

  /** `validate_ndis_data` (crosswalk.py:116-193) as written: the name search considers every column. */
  function Validated(t: Table): Result<seq<CatalogItem>, SchemaError>
  {
    ValidatedWith(t, false)
  }

  /** `validate_ndis_data` with the intended guard: the name search skips the item-number column. */
  function ValidatedIntended(t: Table): Result<seq<CatalogItem>, SchemaError>
  {
    ValidatedWith(t, true)
  }

  /**
   * Whether pandas reads the `Category` column as text, so that `.str` at
   * crosswalk.py:349 accepts it: the column is absent (validation then adds
   * "Unknown", crosswalk.py:182-183), the table has no rows, or some raw row
   * holds text in it. A column blank in every raw row is read as
   * floating-point NaN, and dropping rows keeps that type.
   */
  predicate CategoryText(t: Table, h: seq<string>)
  {
    CategoryCol !in h || t.rows == [] || exists i :: 0 <= i < |t.rows| && Lookup(h, t.rows[i], CategoryCol).Value?
  }

  /** `CategoryText` of the header that validation as written resolves (true when validation fails). */
  predicate CatalogCategoryText(t: Table)
  {
    match ResolvedHeader(t, false)
    case Err(_) => true
    case Ok(h) => CategoryText(t, h)
  }

  /**
   * A catalog whose `Category` column is not text gives every validated
   * item a blank category: no survivor can carry text there.
   */
  lemma CategoryNotTextItems(t: Table)
    requires Validated(t).Ok? && !CatalogCategoryText(t)
    ensures var items := Validated(t).value;
      |items| > 0 ==> forall k :: 0 <= k < |items| ==> items[k].category == Missing
  {
    ValidatedIsCleaned(t, false);
    SurvivorsBlankCategory(t, ResolvedHeader(t, false).value);
  }

  lemma SurvivorsBlankCategory(t: Table, h: seq<string>)
    requires CategoryCol in h
    requires forall i :: 0 <= i < |t.rows| ==> Lookup(h, t.rows[i], CategoryCol) == Missing
    ensures var items := Survivors(CleanedRows(t, h), |t.rows|);
      forall k :: 0 <= k < |items| ==> items[k].category == Missing
  {
    var rows := CleanedRows(t, h);
    forall i | 0 <= i < |rows| && rows[i].Some?
      ensures rows[i].value.category == Missing
    {
      RowItemCategory(t, h, i);
    }
    CleanedRowsFacts(t, h);
    SurvivorsOrdered(rows, |t.rows|);
  }

  /** A kept row's item carries the row's `Category` cell, or "Unknown" when the column is absent. */
  lemma RowItemCategory(t: Table, h: seq<string>, i: nat)
    requires i < |t.rows|
    ensures RowItem(t, h, i).Some? ==>
      RowItem(t, h, i).value.category == (if CategoryCol in h then Lookup(h, t.rows[i], CategoryCol) else Value("Unknown"))
  {
  }

  // ---------------------------------------------------------------------
  // Alias resolution.
  // ---------------------------------------------------------------------

  /** The canonical names are already trimmed. */
  lemma NumberColTrimmed()
    ensures Strip(NumberCol) == NumberCol
  {
    assert Trimmed(NumberCol) by {
      assert NumberCol[0] == 'S' && NumberCol[|NumberCol| - 1] == 'r';
    }
    StripTrimmed(NumberCol);
  }

  lemma NameColTrimmed()
    ensures Strip(NameCol) == NameCol
  {
    assert Trimmed(NameCol) by {
      assert NameCol[0] == 'S' && NameCol[|NameCol| - 1] == 'e';
    }
    StripTrimmed(NameCol);
  }

  /**
   * The canonical item-number and item-name names are aliases of their own
   * roles and of no role resolved after them.
   */
  lemma CanonicalFacts()
    ensures AliasOf(NumberCol, NumberAliases) && AliasOf(NameCol, NameAliases)
    ensures !AliasOf(NumberCol, NameAliases) && !AliasOf(NumberCol, CategoryAliases)
    ensures !AliasOf(NumberCol, DescriptionAliases) && !AliasOf(NumberCol, PriceAliases)
    ensures !AliasOf(NameCol, CategoryAliases) && !AliasOf(NameCol, DescriptionAliases) && !AliasOf(NameCol, PriceAliases)
  {
    NumberColFacts();
    NameColFacts();
  }

  lemma NumberColFacts()
    ensures AliasOf(NumberCol, NumberAliases) && !AliasOf(NumberCol, NameAliases) && !AliasOf(NumberCol, CategoryAliases)
    ensures !AliasOf(NumberCol, DescriptionAliases) && !AliasOf(NumberCol, PriceAliases)
  {
    NumberColTrimmed();
  }

  lemma NameColFacts()
    ensures AliasOf(NameCol, NameAliases)
    ensures !AliasOf(NameCol, CategoryAliases) && !AliasOf(NameCol, DescriptionAliases) && !AliasOf(NameCol, PriceAliases)
  {
    NameColTrimmed();
  }

  /** No item-name alias is an item-number alias. */
  lemma NameAliasesDisjoint(y: string)
    requires y in NameAliases
    ensures y !in NumberAliases
  {
    assert "Item Name"[5] != "NDIS Code"[5] && "Item Name"[5] != "Item Code"[5];
    assert "Description"[0] != "Item Number"[0];
    assert "Support Item"[8] != "Support Code"[8];
    assert "Name"[0] != "Code"[0];
  }

  /** The renaming loop, role by role. */
  lemma ResolveStep(h: seq<string>, k: nat)
    requires 1 <= k <= |Roles()|
    ensures ResolveAliases(h, k) == AliasStep(ResolveAliases(h, k - 1), Roles()[k - 1])
  {
  }

  lemma RolesInOrder()
    ensures |Roles()| == 5
    ensures Roles()[0] == NumberRole && Roles()[1] == NameRole && Roles()[2] == CategoryRole
    ensures Roles()[3] == DescriptionRole && Roles()[4] == PriceRole
  {
  }

  lemma FirstSteps(h: seq<string>)
    ensures ResolveAliases(h, 1) == AliasStep(h, NumberRole)
    ensures ResolveAliases(h, 2) == AliasStep(ResolveAliases(h, 1), NameRole)
  {
    RolesInOrder();
    ResolveStep(h, 1);
    ResolveStep(h, 2);
  }

  lemma LastSteps(h: seq<string>)
    ensures AliasedHeader(h) == AliasStep(AliasStep(AliasStep(ResolveAliases(h, 2), CategoryRole), DescriptionRole), PriceRole)
  {
    RolesInOrder();
    ResolveStep(h, 3);
    ResolveStep(h, 4);
    ResolveStep(h, 5);
  }

  /** The category, description and unit-price steps keep a column named for the item number or the item name. */
  lemma LastStepsKeep(h: seq<string>, j: nat)
    requires j < |h| && (ResolveAliases(h, 2)[j] == NumberCol || ResolveAliases(h, 2)[j] == NameCol)
    ensures AliasedHeader(h)[j] == ResolveAliases(h, 2)[j]
  {
    LastSteps(h);
    CanonicalFacts();
    var r2 := ResolveAliases(h, 2);
    var r3 := AliasStep(r2, CategoryRole);
    var r4 := AliasStep(r3, DescriptionRole);
    AliasStepSpec(r2, CategoryRole, j);
    AliasStepSpec(r3, DescriptionRole, j);
    AliasStepSpec(r4, PriceRole, j);
  }

  /** The category, description and unit-price steps introduce neither the item-number nor the item-name name. */
  lemma LastStepsAbsent(h: seq<string>, x: string)
    requires (x == NumberCol || x == NameCol) && x !in ResolveAliases(h, 2)
    ensures x !in AliasedHeader(h)
  {
    LastSteps(h);
    assert CategoryCol != x && DescriptionCol != x && PriceCol != x;
    var r2 := ResolveAliases(h, 2);
    var r3 := AliasStep(r2, CategoryRole);
    var r4 := AliasStep(r3, DescriptionRole);
    forall j | 0 <= j < |h|
      ensures AliasedHeader(h)[j] != x
    {
      AliasStepSpec(r2, CategoryRole, j);
      AliasStepSpec(r3, DescriptionRole, j);
      AliasStepSpec(r4, PriceRole, j);
    }
  }

  /**
   * Alias resolution produces an item-number column exactly when some column's
   * trimmed name is an item-number alias, and an item-name column exactly when
   * some column's trimmed name is an item-name alias.
   */
  lemma AliasResolvesRequired(h: seq<string>)
    ensures NumberCol in AliasedHeader(h) <==> exists c :: 0 <= c < |h| && AliasOf(h[c], NumberAliases)
    ensures NameCol in AliasedHeader(h) <==> exists c :: 0 <= c < |h| && AliasOf(h[c], NameAliases)
  {
    NumberResolves(h);
    NameResolves(h);
  }

  lemma NumberResolves(h: seq<string>)
    ensures NumberCol in AliasedHeader(h) <==> exists c :: 0 <= c < |h| && AliasOf(h[c], NumberAliases)
  {
    FirstSteps(h);
    CanonicalFacts();
    var r1 := ResolveAliases(h, 1);
    match AliasFrom(h, NumberAliases, 0) {
      case Some(f) =>
        AliasStepSpec(h, NumberRole, f);
        AliasStepSpec(r1, NameRole, f);
        LastStepsKeep(h, f);
      case None =>
        AliasStepNone(h, NumberRole);
        forall j | 0 <= j < |h|
          ensures ResolveAliases(h, 2)[j] != NumberCol
        {
          AliasStepSpec(r1, NameRole, j);
        }
        LastStepsAbsent(h, NumberCol);
    }
  }

  lemma NameResolves(h: seq<string>)
    ensures NameCol in AliasedHeader(h) <==> exists c :: 0 <= c < |h| && AliasOf(h[c], NameAliases)
  {
    FirstSteps(h);
    var r1 := ResolveAliases(h, 1);
    forall j | 0 <= j < |h|
      ensures AliasOf(r1[j], NameAliases) <==> AliasOf(h[j], NameAliases)
      ensures r1[j] == NameCol ==> h[j] == NameCol
    {
      AliasStepSpec(h, NumberRole, j);
      if r1[j] != h[j] {
        assert r1[j] == NumberCol && AliasOf(h[j], NumberAliases);
        if AliasOf(h[j], NameAliases) {
          NameAliasesDisjoint(Strip(h[j]));
        }
        CanonicalFacts();
      }
    }
    match AliasFrom(r1, NameAliases, 0) {
      case Some(f) =>
        AliasStepSpec(r1, NameRole, f);
        LastStepsKeep(h, f);
      case None =>
        AliasStepNone(r1, NameRole);
        assert NameCol !in r1 by {
          CanonicalFacts();
        }
        LastStepsAbsent(h, NameCol);
    }
  }

  /**
   * "Description" is an item-name alias listed before the description role:
   * a column headed "Description" becomes the item-name column whenever no
   * earlier column carries an item-name alias.
   */
  lemma DescriptionClaimedByName(h: seq<string>, c: nat)
    requires c < |h| && Strip(h[c]) == DescriptionCol
    requires forall j :: 0 <= j < c ==> !AliasOf(h[j], NameAliases)
    ensures AliasedHeader(h)[c] == NameCol
  {
    FirstSteps(h);
    var r1 := ResolveAliases(h, 1);
    NameAliasesDisjoint(Strip(h[c]));
    AliasStepSpec(h, NumberRole, c);
    forall j | 0 <= j < c
      ensures !AliasOf(r1[j], NameAliases)
    {
      AliasStepSpec(h, NumberRole, j);
      if r1[j] != h[j] {
        CanonicalFacts();
      }
    }
    assert AliasOf(r1[c], NameAliases);
    AliasFromFirst(r1, NameAliases, c);
    AliasStepSpec(r1, NameRole, c);
    LastStepsKeep(h, c);
  }

  /** With an alias for both required roles, no content analysis is needed and validation succeeds. */
  lemma AliasedCatalogValidates(t: Table, skipCode: bool)
    requires exists c :: 0 <= c < |t.header| && AliasOf(t.header[c], NumberAliases)
    requires exists c :: 0 <= c < |t.header| && AliasOf(t.header[c], NameAliases)
    ensures ResolvedHeader(t, skipCode) == Ok(AliasedHeader(t.header))
    ensures ValidatedWith(t, skipCode).Ok?
  {
    AliasResolvesRequired(t.header);
  }

  // ---------------------------------------------------------------------
  // Content analysis.
  // ---------------------------------------------------------------------

  /** The name search stops at the first considered descriptive column when all considered columns before it have values. */
  lemma {:induction false} NameSearchReaches(rows: seq<seq<Cell>>, h: seq<string>, from: nat, c: nat, skipCode: bool)
    requires from <= c < |h| && Considered(h, c, skipCode) && Descriptive(rows, c)
    requires forall j :: from <= j < c && Considered(h, j, skipCode) ==> Sample(rows, j) != [] && !Descriptive(rows, j)
    ensures NameColumnFrom(rows, h, from, skipCode) == Ok(Some(c))
    decreases c - from
  {
    if from < c {
      NameSearchReaches(rows, h, from + 1, c, skipCode);
    }
  }

  /** Renaming the found column to a different name leaves no column with its old name. */
  lemma RenameFoundRemoves(h: seq<string>, f: nat, role: string)
    requires f < |h| && h[f] != "" && h[f] != role
    ensures h[f] !in RenameFound(h, Some(f), role)
  {
    var r := RenameFound(h, Some(f), role);
    forall j | 0 <= j < |h|
      ensures r[j] != h[f]
    {
    }
  }

  /** The content fallback for a missing item number alone. */
  lemma FallbackNumber(rows: seq<seq<Cell>>, h: seq<string>, skipCode: bool)
    ensures ContentFallback(rows, h, [NumberCol], skipCode) == Ok(RenameFound(h, CodeColumnFrom(rows, h, 0), NumberCol))
  {
    assert [NumberCol][1..] == [];
  }

  /** The content fallback for a missing item name alone. */
  lemma FallbackName(rows: seq<seq<Cell>>, h: seq<string>, skipCode: bool)
    ensures ContentFallback(rows, h, [NameCol], skipCode) ==
      match NameColumnFrom(rows, h, 0, skipCode)
      case Err(e) => Err(e)
      case Ok(found) => Ok(RenameFound(h, found, NameCol))
  {
    assert NameCol[16] != NumberCol[16];
    assert [NameCol][1..] == [];
  }

  /** With both required roles missing, the item number is searched first. */
  lemma FallbackBoth(rows: seq<seq<Cell>>, h: seq<string>, skipCode: bool)
    ensures ContentFallback(rows, h, [NumberCol, NameCol], skipCode) ==
      ContentFallback(rows, RenameFound(h, CodeColumnFrom(rows, h, 0), NumberCol), [NameCol], skipCode)
  {
    assert [NumberCol, NameCol][1..] == [NameCol];
  }

  /**
   * As written, the item-name search re-examines the column the item-number
   * search has just renamed: when the codes in the first code-like column
   * average more than ten characters and no earlier column is descriptive,
   * that column is renamed again, to the item name, and no item-number column
   * is left.
   */
  lemma NameSearchReclaimsCodeColumn(rows: seq<seq<Cell>>, h: seq<string>, c: nat)
    requires CodeColumnFrom(rows, h, 0) == Some(c) && h[c] != ""
    requires Descriptive(rows, c)
    requires forall j :: 0 <= j < c ==> Sample(rows, j) != [] && !Descriptive(rows, j)
    ensures ContentFallback(rows, h, [NumberCol, NameCol], false).Ok?
    ensures NumberCol !in ContentFallback(rows, h, [NumberCol, NameCol], false).value
  {
    var h1 := RenameFound(h, Some(c), NumberCol);
    FallbackBoth(rows, h, false);
    FallbackName(rows, h1, false);
    NameSearchReaches(rows, h1, 0, c, false);
    assert h1[c] == NumberCol;
    RenameFoundRemoves(h1, c, NameCol);
  }

  /**
   * With the intended guard, a column the item-number search identifies and
   * renames stays the item-number column whatever the item-name search finds.
   */
  lemma CodeColumnKept(rows: seq<seq<Cell>>, h: seq<string>, c: nat)
    requires CodeColumnFrom(rows, h, 0) == Some(c) && h[c] != ""
    ensures ContentFallback(rows, h, [NumberCol, NameCol], true).Ok? ==>
      ContentFallback(rows, h, [NumberCol, NameCol], true).value[c] == NumberCol
  {
    var h1 := RenameFound(h, Some(c), NumberCol);
    FallbackBoth(rows, h, true);
    FallbackName(rows, h1, true);
    assert h1[c] == NumberCol;
    match NameColumnFrom(rows, h1, 0, true)
    case Err(_) =>
    case Ok(found) =>
      assert found.Some? ==> h1[found.value] != NumberCol;
  }

  /**
   * No item-number column can be had: no column name is an item-number alias,
   * and the code-pattern search finds no column or one with an empty name.
   */
  predicate NoItemNumber(t: Table)
  {
    (forall c :: 0 <= c < |t.header| ==> !AliasOf(t.header[c], NumberAliases)) &&
    var h := AliasedHeader(t.header);
    var found := CodeColumnFrom(t.rows, h, 0);
    found.None? || h[found.value] == ""
  }

  /**
   * With the intended guard, a header that already has an item-number column
   * keeps it through the content fallback.
   */
  lemma ResolveKeepsNumber(rows: seq<seq<Cell>>, h: seq<string>)
    requires NumberCol in h && Resolve(rows, h, true).Ok?
    ensures NumberCol in Resolve(rows, h, true).value
  {
    if NameCol !in h {
      assert MissingRequired(h) == [NameCol];
      FallbackName(rows, h, true);
      var i :| 0 <= i < |h| && h[i] == NumberCol;
      match NameColumnFrom(rows, h, 0, true)
      case Err(_) =>
      case Ok(v) =>
        assert v.Some? ==> h[v.value] != NumberCol;
        assert RenameFound(h, v, NameCol)[i] == NumberCol;
    }
  }

  /**
   * With the intended guard, a named code-like column found by the content
   * fallback becomes, and stays, the item-number column.
   */
  lemma ResolveFindsNumber(rows: seq<seq<Cell>>, h: seq<string>)
    requires NumberCol !in h && Resolve(rows, h, true).Ok?
    requires CodeColumnFrom(rows, h, 0).Some? && h[CodeColumnFrom(rows, h, 0).value] != ""
    ensures NumberCol in Resolve(rows, h, true).value
  {
    var found := CodeColumnFrom(rows, h, 0);
    if NameCol in h {
      assert MissingRequired(h) == [NumberCol];
      FallbackNumber(rows, h, true);
      assert RenameFound(h, found, NumberCol)[found.value] == NumberCol;
    } else {
      assert MissingRequired(h) == [NumberCol, NameCol];
      CodeColumnKept(rows, h, found.value);
    }
  }

  /**
   * With the intended guard, validation reports a missing item-number column
   * only when no item-number column can be had.
   */
  lemma MissingNumberOnlyWhenNone(t: Table)
    ensures ValidatedIntended(t) == Err(MissingColumn(NumberCol)) ==> NoItemNumber(t)
  {
    if ValidatedIntended(t) == Err(MissingColumn(NumberCol)) {
      assert ResolvedHeader(t, true).Ok? && NumberCol !in ResolvedHeader(t, true).value;
      NumberResolves(t.header);
      if NumberCol in AliasedHeader(t.header) {
        ResolveKeepsNumber(t.rows, AliasedHeader(t.header));
      } else if !NoItemNumber(t) {
        ResolveFindsNumber(t.rows, AliasedHeader(t.header));
      }
    }
  }

  /** Without an item-number column or a named code-like column, the content fallback yields none, under either guard. */
  lemma ResolveWithoutNumber(rows: seq<seq<Cell>>, h: seq<string>, skipCode: bool)
    requires NumberCol !in h
    requires CodeColumnFrom(rows, h, 0).None? || h[CodeColumnFrom(rows, h, 0).value] == ""
    ensures Resolve(rows, h, skipCode).Ok? ==> NumberCol !in Resolve(rows, h, skipCode).value
  {
    assert RenameFound(h, CodeColumnFrom(rows, h, 0), NumberCol) == h;
    if NameCol in h {
      assert MissingRequired(h) == [NumberCol];
      FallbackNumber(rows, h, skipCode);
    } else {
      assert MissingRequired(h) == [NumberCol, NameCol];
      FallbackBoth(rows, h, skipCode);
      FallbackName(rows, h, skipCode);
      match NameColumnFrom(rows, h, 0, skipCode)
      case Err(_) =>
      case Ok(v) =>
        assert NumberCol !in RenameFound(h, v, NameCol);
    }
  }

  /** When no item-number column can be had, validation fails, under either guard. */
  lemma NoneFails(t: Table, skipCode: bool)
    ensures NoItemNumber(t) ==> ValidatedWith(t, skipCode).Err?
  {
    if NoItemNumber(t) {
      NumberResolves(t.header);
      ResolveWithoutNumber(t.rows, AliasedHeader(t.header), skipCode);
    }
  }

  /**
   * As written, the name search can take an item-number column that alias
   * resolution produced: when only the item name is missing and the first
   * descriptive column is the item-number column, that column is renamed to
   * the item name and no item-number column is left.
   */
  lemma AliasedNumberReclaimed(rows: seq<seq<Cell>>, h: seq<string>, c: nat)
    requires NameCol !in h && c < |h| && h[c] == NumberCol
    requires Descriptive(rows, c)
    requires forall j :: 0 <= j < c ==> Sample(rows, j) != [] && !Descriptive(rows, j)
    ensures Resolve(rows, h, false).Ok?
    ensures NumberCol !in Resolve(rows, h, false).value
  {
    assert MissingRequired(h) == [NameCol];
    FallbackName(rows, h, false);
    NameSearchReaches(rows, h, 0, c, false);
    RenameFoundRemoves(h, c, NameCol);
  }

  /**
   * The header once it has an item-number column, if one can be had: as it
   * is, or with the named code-like column renamed (crosswalk.py:201-211, 224-225).
   */
  function WithNumber(rows: seq<seq<Cell>>, h: seq<string>): (r: seq<string>)
    ensures |r| == |h|
  {
    if NumberCol in h then h else RenameFound(h, CodeColumnFrom(rows, h, 0), NumberCol)
  }

  /**
   * As written, the name search renames the item-number column: the item
   * name is missing, and the first column the name search picks is the
   * item-number column, whether alias resolution or the code-pattern search
   * named it.
   */
  predicate NumberReclaimedIn(rows: seq<seq<Cell>>, h: seq<string>)
  {
    var h1 := WithNumber(rows, h);
    NameCol !in h && NumberCol in h1 &&
    match NameColumnFrom(rows, h1, 0, false)
    case Ok(Some(c)) => h1[c] == NumberCol
    case _ => false
  }

  /** The same, for the aliased header of a table. */
  predicate NumberReclaimed(t: Table)
  {
    NumberReclaimedIn(t.rows, AliasedHeader(t.header))
  }

  /** With the item name missing, the fallback as written runs the name search on the header with its item-number column. */
  lemma ResolveNameMissing(rows: seq<seq<Cell>>, h: seq<string>)
    requires NameCol !in h
    ensures NumberCol in WithNumber(rows, h) ==> NameCol !in WithNumber(rows, h)
    ensures NumberCol in WithNumber(rows, h) ==>
      Resolve(rows, h, false) == ContentFallback(rows, WithNumber(rows, h), [NameCol], false)
  {
    if NumberCol in h {
      assert MissingRequired(h) == [NameCol];
    } else {
      assert MissingRequired(h) == [NumberCol, NameCol];
      FallbackBoth(rows, h, false);
    }
  }

  /** With the item name present, the fallback as written only looks for the item number. */
  lemma ResolveNamePresent(rows: seq<seq<Cell>>, h: seq<string>)
    requires NameCol in h
    ensures Resolve(rows, h, false) == Ok(WithNumber(rows, h))
  {
    if NumberCol !in h {
      assert MissingRequired(h) == [NumberCol];
      FallbackNumber(rows, h, false);
    }
  }

  /** The name search as written, on a header with an item-number column but no item-name column. */
  lemma NameStepAsWritten(rows: seq<seq<Cell>>, h1: seq<string>)
    requires NumberCol in h1 && NameCol !in h1
    ensures ContentFallback(rows, h1, [NameCol], false).Ok? && NumberCol !in ContentFallback(rows, h1, [NameCol], false).value <==>
      match NameColumnFrom(rows, h1, 0, false)
      case Ok(Some(c)) => h1[c] == NumberCol
      case _ => false
  {
    FallbackName(rows, h1, false);
    var i :| 0 <= i < |h1| && h1[i] == NumberCol;
    match NameColumnFrom(rows, h1, 0, false)
    case Err(_) =>
    case Ok(None) =>
    case Ok(Some(c)) =>
      if h1[c] == NumberCol {
        RenameFoundRemoves(h1, c, NameCol);
      } else {
        assert RenameFound(h1, Some(c), NameCol)[i] == NumberCol;
      }
  }

  /**
   * As written, the content fallback ends without an item-number column
   * only when none can be had or the name search renames it away, and
   * always in the latter case.
   */
  lemma ResolveLosesNumber(rows: seq<seq<Cell>>, h: seq<string>)
    ensures Resolve(rows, h, false).Ok? && NumberCol !in Resolve(rows, h, false).value ==>
      NumberCol !in WithNumber(rows, h) || NumberReclaimedIn(rows, h)
    ensures NumberReclaimedIn(rows, h) ==>
      Resolve(rows, h, false).Ok? && NumberCol !in Resolve(rows, h, false).value
  {
    if NameCol in h {
      ResolveNamePresent(rows, h);
    } else if NumberCol in WithNumber(rows, h) {
      ResolveNameMissing(rows, h);
      NameStepAsWritten(rows, WithNumber(rows, h));
    }
  }

  /** No item-number column can be had exactly when the header has none after the code-pattern search. */
  lemma NoItemNumberIff(t: Table)
    ensures NoItemNumber(t) <==> NumberCol !in WithNumber(t.rows, AliasedHeader(t.header))
  {
    var h := AliasedHeader(t.header);
    var found := CodeColumnFrom(t.rows, h, 0);
    NumberResolves(t.header);
    if NumberCol !in h && found.Some? && h[found.value] != "" {
      assert WithNumber(t.rows, h)[found.value] == NumberCol;
    }
  }

  /**
   * As written, validation reports a missing item-number column only when
   * no item-number column can be had or the name search renames it away,
   * and always in the latter case.
   */
  lemma MissingNumberCauses(t: Table)
    ensures Validated(t) == Err(MissingColumn(NumberCol)) ==> NoItemNumber(t) || NumberReclaimed(t)
    ensures NumberReclaimed(t) ==> Validated(t) == Err(MissingColumn(NumberCol))
  {
    ValidatedMissingNumber(t, false);
    ResolveLosesNumber(t.rows, AliasedHeader(t.header));
    NoItemNumberIff(t);
  }

  /** The unrecognised column name of the probe catalog. */
  const TitleCol := "Title"

  lemma TitleTrimmed()
    ensures Strip(TitleCol) == TitleCol
  {
    assert Trimmed(TitleCol) by {
      assert TitleCol[0] == 'T' && TitleCol[|TitleCol| - 1] == 'e';
    }
    StripTrimmed(TitleCol);
  }

  /** A column name that is no alias of any role. */
  lemma TitleNoAlias()
    ensures !AliasOf(TitleCol, NumberAliases) && !AliasOf(TitleCol, NameAliases) && !AliasOf(TitleCol, CategoryAliases)
    ensures !AliasOf(TitleCol, DescriptionAliases) && !AliasOf(TitleCol, PriceAliases)
  {
    TitleTrimmed();
    assert TitleCol[0] != "Price"[0] && TitleCol[0] != "Group"[0];
  }

  /** A header without an alias of the role is left alone by its step. */
  lemma NoAliasStep(h: seq<string>, role: Role)
    requires forall j :: 0 <= j < |h| ==> !AliasOf(h[j], role.aliases)
    ensures AliasStep(h, role) == h
  {
    AliasStepNone(h, role);
  }

  /** The item-number step leaves the item-number column where it is. */
  lemma NumberStepKeeps(x: string)
    requires !AliasOf(x, NumberAliases)
    ensures AliasStep([NumberCol, x], NumberRole) == [NumberCol, x]
  {
    var h := [NumberCol, x];
    NumberColFacts();
    AliasFromFirst(h, NumberAliases, 0);
    AliasStepSpec(h, NumberRole, 0);
    AliasStepSpec(h, NumberRole, 1);
  }

  /** A role that knows neither column of the pair leaves it as it is. */
  lemma PairStepNone(x: string, role: Role)
    requires !AliasOf(NumberCol, role.aliases) && !AliasOf(x, role.aliases)
    ensures AliasStep([NumberCol, x], role) == [NumberCol, x]
  {
    var h := [NumberCol, x];
    assert h[0] == NumberCol && h[1] == x;
    forall j | 0 <= j < |h|
      ensures !AliasOf(h[j], role.aliases)
    {
      if j == 0 {
      } else {
        assert j == 1;
      }
    }
    NoAliasStep(h, role);
  }

  /** A header of the item-number column and one column no role knows is left as it is by the renaming. */
  lemma PlainPairResolved(x: string)
    requires !AliasOf(x, NumberAliases) && !AliasOf(x, NameAliases) && !AliasOf(x, CategoryAliases)
    requires !AliasOf(x, DescriptionAliases) && !AliasOf(x, PriceAliases)
    ensures AliasedHeader([NumberCol, x]) == [NumberCol, x]
  {
    var h := [NumberCol, x];
    NumberColFacts();
    NumberStepKeeps(x);
    FirstSteps(h);
    PairStepNone(x, NameRole);
    PairStepNone(x, CategoryRole);
    PairStepNone(x, DescriptionRole);
    PairStepNone(x, PriceRole);
    LastSteps(h);
  }

  /** The header of the probe catalog is left as it is. */
  lemma ExampleHeaderResolved()
    ensures AliasedHeader([NumberCol, TitleCol]) == [NumberCol, TitleCol]
  {
    TitleNoAlias();
    PlainPairResolved(TitleCol);
  }

  /**
   * A catalog of the usual shape, whose item-number column is found by its
   * alias and whose codes run to 21 characters, fails validation as written:
   * the name search renames the item-number column to the item name.
   */
  lemma ReclaimedExample()
    ensures Validated(ProbeCatalog()) == Err(MissingColumn(NumberCol))
  {
    var t := ProbeCatalog();
    ExampleHeaderResolved();
    ProbeSamples();
    AliasedNumberReclaimed(t.rows, t.header, 0);
    ValidatedMissingNumber(t, false);
  }

  /**
   * With the intended guard, the item-number column and a descriptive second
   * column resolve to the item number and the item name.
   */
  lemma NumberKeptNameFound(rows: seq<seq<Cell>>, x: string)
    requires x != "" && x != NumberCol && x != NameCol && Descriptive(rows, 1)
    ensures Resolve(rows, [NumberCol, x], true) == Ok([NumberCol, NameCol])
  {
    var h := [NumberCol, x];
    assert NumberCol in h && NameCol !in h;
    assert MissingRequired(h) == [NameCol];
    FallbackName(rows, h, true);
    NameSearchReaches(rows, h, 0, 1, true);
    var r := RenameFound(h, Some(1), NameCol);
    assert r[0] == NumberCol && r[1] == NameCol;
    assert r == [NumberCol, NameCol];
  }

  /** With the intended guard, the same catalog resolves to the item number and the item name. */
  lemma ProbeIntended()
    ensures ResolvedHeader(ProbeCatalog(), true) == Ok([NumberCol, NameCol])
  {
    ExampleHeaderResolved();
    ProbeSamples();
    NumberKeptNameFound(ProbeCatalog().rows, TitleCol);
  }

  /** The code and the title of the probe catalog's one row. */
  const ProbeCode := "05_122203151_0103_1_2"
  const ProbeTitle := "Wheelchair seat cushion"

  /** The probe catalog: an item-number column holding codes and an unrecognised title column. */
  function ProbeCatalog(): Table
  {
    Table([NumberCol, TitleCol], [[Value(ProbeCode), Value(ProbeTitle)]])
  }

  /** A column whose one row holds a value of more than ten characters is descriptive. */
  lemma SingleRowDescriptive(rows: seq<seq<Cell>>, c: nat, v: string)
    requires |rows| == 1 && CellAt(rows[0], c) == Value(v) && |v| > 10
    ensures Descriptive(rows, c)
  {
    assert rows[..0] == [];
    assert ColumnValues(rows, c) == [] + [v];
    assert Sample(rows, c) == [v];
    assert [v][..0] == [];
  }

  lemma ProbeSamples()
    ensures Descriptive(ProbeCatalog().rows, 0) && Descriptive(ProbeCatalog().rows, 1)
  {
    var rows := ProbeCatalog().rows;
    assert |ProbeCode| == 21 && |ProbeTitle| == 23;
    SingleRowDescriptive(rows, 0, ProbeCode);
    SingleRowDescriptive(rows, 1, ProbeTitle);
  }

  /** Validation reports a missing item number exactly when the resolved header lacks one. */
  lemma ValidatedMissingNumber(t: Table, skipCode: bool)
    ensures ValidatedWith(t, skipCode) == Err(MissingColumn(NumberCol)) <==>
      ResolvedHeader(t, skipCode).Ok? && NumberCol !in ResolvedHeader(t, skipCode).value
  {
  }

  // ---------------------------------------------------------------------
  // Row cleaning.
  // ---------------------------------------------------------------------

  /** The trimmed text of a cell, as `astype(str).str.strip()` gives it. */
  function Trim(c: Cell): string
  {
    Strip(Show(c))
  }

  /**
   * A row survives cleaning exactly when its trimmed item number and item
   * name are both non-empty and not "nan" (dropping rows whose two cells are
   * both missing adds nothing: those read "nan"); the item carries those
   * trimmed values and its row label, and the optional columns or their
   * defaults.
   */
  lemma RowItemSpec(t: Table, h: seq<string>, i: nat)
    requires i < |t.rows|
    ensures var row := t.rows[i];
      RowItem(t, h, i).Some? <==>
        ValidField(Trim(Lookup(h, row, NumberCol))) && ValidField(Trim(Lookup(h, row, NameCol)))
    ensures RowItem(t, h, i).Some? ==>
      var it, row := RowItem(t, h, i).value, t.rows[i];
      it.rowLabel == i && it.code == Trim(Lookup(h, row, NumberCol)) && it.name == Trim(Lookup(h, row, NameCol)) &&
      Trimmed(it.code) && Trimmed(it.name) &&
      it.category == (if CategoryCol in h then Lookup(h, row, CategoryCol) else Value("Unknown")) &&
      it.description == (if DescriptionCol in h then Lookup(h, row, DescriptionCol) else Value(it.name)) &&
      it.unitPrice == (if PriceCol in h then Lookup(h, row, PriceCol) else Value("0")) &&
      it.sourceTable == (if SourceTableCol in t.header then Some(Lookup(t.header, row, SourceTableCol)) else None)
  {
    var row := t.rows[i];
    var code, name := Lookup(h, row, NumberCol), Lookup(h, row, NameCol);
    if code.Missing? {
      MissingIsInvalid(code);
    }
    TrimIsTrimmed(code);
    TrimIsTrimmed(name);
  }

  /** A missing cell reads "nan" once trimmed, which the filters reject. */
  lemma MissingIsInvalid(c: Cell)
    requires c.Missing?
    ensures !ValidField(Trim(c))
  {
    StripTrimmed("nan");
  }

  lemma TrimIsTrimmed(c: Cell)
    ensures Trimmed(Trim(c))
  {
    StripTrimmed(Show(c));
  }

  /** One more row: its item, if it survives, is appended. */
  lemma SurvivorsNext(rows: seq<Option<CatalogItem>>, n: nat)
    requires n < |rows|
    ensures rows[n].None? ==> Survivors(rows, n + 1) == Survivors(rows, n)
    ensures rows[n].Some? ==> Survivors(rows, n + 1) == Survivors(rows, n) + [rows[n].value]
  {
  }

  /** The surviving items keep their row order, and each is the cleaned row its label names. */
  lemma {:induction false} SurvivorsOrdered(rows: seq<Option<CatalogItem>>, n: nat)
    requires n <= |rows|
    requires forall i :: 0 <= i < |rows| && rows[i].Some? ==> rows[i].value.rowLabel == i
    ensures var items := Survivors(rows, n);
      (forall k :: 0 <= k < |items| ==> items[k].rowLabel < n && rows[items[k].rowLabel] == Some(items[k])) &&
      (forall k, l :: 0 <= k < l < |items| ==> items[k].rowLabel < items[l].rowLabel)
  {
    if n > 0 {
      SurvivorsOrdered(rows, n - 1);
      SurvivorsNext(rows, n - 1);
    }
  }

  /** A row is among the survivors exactly when cleaning keeps it. */
  lemma SurvivorsComplete(rows: seq<Option<CatalogItem>>, n: nat)
    requires n <= |rows|
    requires forall i :: 0 <= i < |rows| && rows[i].Some? ==> rows[i].value.rowLabel == i
    ensures var items := Survivors(rows, n);
      forall i :: 0 <= i < n ==> (rows[i].Some? <==> exists k :: 0 <= k < |items| && items[k].rowLabel == i)
  {
    SurvivorsOrdered(rows, n);
    forall i | 0 <= i < n && rows[i].Some?
      ensures exists k :: 0 <= k < |Survivors(rows, n)| && Survivors(rows, n)[k].rowLabel == i
    {
      SurvivorsCover(rows, n, i);
    }
  }

  /** Every row that cleaning keeps among the first `n` is among their survivors. */
  lemma {:induction false} SurvivorsCover(rows: seq<Option<CatalogItem>>, n: nat, i: nat)
    requires n <= |rows| && i < n && rows[i].Some?
    requires forall i :: 0 <= i < |rows| && rows[i].Some? ==> rows[i].value.rowLabel == i
    ensures exists k :: 0 <= k < |Survivors(rows, n)| && Survivors(rows, n)[k].rowLabel == i
  {
    SurvivorsNext(rows, n - 1);
    var prev := Survivors(rows, n - 1);
    if i == n - 1 {
      assert Survivors(rows, n)[|prev|] == rows[i].value;
    } else {
      SurvivorsCover(rows, n - 1, i);
      var k :| 0 <= k < |prev| && prev[k].rowLabel == i;
      assert Survivors(rows, n)[k] == prev[k];
    }
  }

  /** Row `i` passes the filters of crosswalk.py:176-179. */
  predicate Kept(t: Table, h: seq<string>, i: nat)
    requires i < |t.rows|
  {
    ValidField(Trim(Lookup(h, t.rows[i], NumberCol))) && ValidField(Trim(Lookup(h, t.rows[i], NameCol)))
  }

  /** The item carries the trimmed, valid item number and item name of the row its label names. */
  predicate FromRow(t: Table, h: seq<string>, it: CatalogItem)
  {
    it.rowLabel < |t.rows| &&
    it.code == Trim(Lookup(h, t.rows[it.rowLabel], NumberCol)) && Trimmed(it.code) && ValidField(it.code) &&
    it.name == Trim(Lookup(h, t.rows[it.rowLabel], NameCol)) && Trimmed(it.name) && ValidField(it.name)
  }

  lemma CleanedRowsFacts(t: Table, h: seq<string>)
    ensures var rows := CleanedRows(t, h);
      forall i :: 0 <= i < |rows| ==>
        (rows[i].Some? <==> Kept(t, h, i)) &&
        (rows[i].Some? ==> rows[i].value.rowLabel == i && FromRow(t, h, rows[i].value))
  {
    var rows := CleanedRows(t, h);
    forall i | 0 <= i < |rows|
      ensures rows[i].Some? <==> Kept(t, h, i)
      ensures rows[i].Some? ==> rows[i].value.rowLabel == i && FromRow(t, h, rows[i].value)
    {
      RowItemSpec(t, h, i);
    }
  }

  lemma CleanedOrdered(t: Table, h: seq<string>)
    ensures var items := Survivors(CleanedRows(t, h), |t.rows|);
      forall k, l :: 0 <= k < l < |items| ==> items[k].rowLabel < items[l].rowLabel
  {
    CleanedRowsFacts(t, h);
    SurvivorsOrdered(CleanedRows(t, h), |t.rows|);
  }

  lemma CleanedFromRows(t: Table, h: seq<string>)
    ensures var items := Survivors(CleanedRows(t, h), |t.rows|);
      forall k :: 0 <= k < |items| ==> FromRow(t, h, items[k])
  {
    var rows := CleanedRows(t, h);
    CleanedRowsFacts(t, h);
    SurvivorsOrdered(rows, |t.rows|);
  }

  lemma CleanedComplete(t: Table, h: seq<string>)
    ensures var items := Survivors(CleanedRows(t, h), |t.rows|);
      forall i :: 0 <= i < |t.rows| ==> (Kept(t, h, i) <==> exists k :: 0 <= k < |items| && items[k].rowLabel == i)
  {
    var rows := CleanedRows(t, h);
    var items := Survivors(rows, |t.rows|);
    CleanedLabels(t, h);
    SurvivorsComplete(rows, |t.rows|);
    forall i | 0 <= i < |t.rows|
      ensures Kept(t, h, i) <==> exists k :: 0 <= k < |items| && items[k].rowLabel == i
    {
      RowItemKept(t, h, i);
      assert rows[i].Some? <==> exists k :: 0 <= k < |items| && items[k].rowLabel == i;
    }
  }

  lemma CleanedLabels(t: Table, h: seq<string>)
    ensures forall i :: 0 <= i < |t.rows| && CleanedRows(t, h)[i].Some? ==> CleanedRows(t, h)[i].value.rowLabel == i
  {
    forall i | 0 <= i < |t.rows| && CleanedRows(t, h)[i].Some?
      ensures CleanedRows(t, h)[i].value.rowLabel == i
    {
      RowItemLabel(t, h, i);
    }
  }

  lemma RowItemKept(t: Table, h: seq<string>, i: nat)
    requires i < |t.rows|
    ensures RowItem(t, h, i).Some? <==> Kept(t, h, i)
  {
    RowItemSpec(t, h, i);
  }

  lemma RowItemLabel(t: Table, h: seq<string>, i: nat)
    requires i < |t.rows| && RowItem(t, h, i).Some?
    ensures RowItem(t, h, i).value.rowLabel == i
  {
    RowItemSpec(t, h, i);
  }

  /**
   * Cleaning lists, in row order and each once, exactly the rows whose
   * trimmed item number and item name are non-empty and not "nan"; every
   * item carries those trimmed values under its own row label.
   */
  lemma CleanedCatalog(t: Table, h: seq<string>)
    ensures var items := Survivors(CleanedRows(t, h), |t.rows|);
      (forall k, l :: 0 <= k < l < |items| ==> items[k].rowLabel < items[l].rowLabel) &&
      (forall k :: 0 <= k < |items| ==> FromRow(t, h, items[k])) &&
      (forall i :: 0 <= i < |t.rows| ==> (Kept(t, h, i) <==> exists k :: 0 <= k < |items| && items[k].rowLabel == i))
  {
    CleanedOrdered(t, h);
    CleanedFromRows(t, h);
    CleanedComplete(t, h);
  }

  /** A validated catalog is the cleaned catalog under the resolved header. */
  lemma ValidatedRows(t: Table, skipCode: bool)
    requires ValidatedWith(t, skipCode).Ok?
    ensures ResolvedHeader(t, skipCode).Ok?
    ensures var items, h := ValidatedWith(t, skipCode).value, ResolvedHeader(t, skipCode).value;
      (forall k, l :: 0 <= k < l < |items| ==> items[k].rowLabel < items[l].rowLabel) &&
      (forall k :: 0 <= k < |items| ==> FromRow(t, h, items[k])) &&
      (forall i :: 0 <= i < |t.rows| ==> (Kept(t, h, i) <==> exists k :: 0 <= k < |items| && items[k].rowLabel == i))
  {
    ValidatedIsCleaned(t, skipCode);
    CleanedCatalog(t, ResolvedHeader(t, skipCode).value);
  }

  lemma ValidatedIsCleaned(t: Table, skipCode: bool)
    requires ValidatedWith(t, skipCode).Ok?
    ensures ResolvedHeader(t, skipCode).Ok?
    ensures ValidatedWith(t, skipCode).value == Survivors(CleanedRows(t, ResolvedHeader(t, skipCode).value), |t.rows|)
  {
  }

  // ---------------------------------------------------------------------
  // The imperative steps, each proved against the function above.
  // ---------------------------------------------------------------------

  /** One role of the renaming loop: rename the first column whose trimmed name is an alias (crosswalk.py:150-153). */
  method RenameFirstAlias(header: seq<string>, role: Role) returns (h: seq<string>)
    ensures h == AliasStep(header, role)
  {
    h := header;
    var c := 0;
    while c < |h| && !AliasOf(h[c], role.aliases)
      invariant 0 <= c <= |h|
      invariant AliasFrom(h, role.aliases, 0) == AliasFrom(h, role.aliases, c)
    {
      c := c + 1;
    }
    if c < |h| {
      h := RenameAll(h, h[c], role.name);
    }
  }

  /** The renaming loop of crosswalk.py:149-153, role by role in declaration order. */
  method StandardizeColumns(header: seq<string>) returns (h: seq<string>)
    ensures h == AliasedHeader(header)
  {
    h := header;
    var roles := Roles();
    for r := 0 to |roles|
      invariant h == ResolveAliases(header, r)
    {
      h := RenameFirstAlias(h, roles[r]);
    }
  }

  /** The code-pattern search over the columns (crosswalk.py:203-211). */
  method FindCodeColumn(rows: seq<seq<Cell>>, h: seq<string>) returns (found: Option<nat>)
    ensures found == CodeColumnFrom(rows, h, 0)
  {
    found := None;
    var c := 0;
    while c < |h| && found.None?
      invariant 0 <= c <= |h|
      invariant found.None? ==> CodeColumnFrom(rows, h, 0) == CodeColumnFrom(rows, h, c)
      invariant found.Some? ==> CodeColumnFrom(rows, h, 0) == found
    {
      var s := Sample(rows, c);
      if 2 * CountCodeLike(s) > |s| {
        found := Some(c);
      }
      c := c + 1;
    }
  }

  /** The descriptive-text search over the columns (crosswalk.py:213-222). */
  method FindNameColumn(rows: seq<seq<Cell>>, h: seq<string>, skipCode: bool) returns (r: Result<Option<nat>, SchemaError>)
    ensures r == NameColumnFrom(rows, h, 0, skipCode)
  {
    var c := 0;
    while c < |h|
      invariant 0 <= c <= |h|
      invariant NameColumnFrom(rows, h, 0, skipCode) == NameColumnFrom(rows, h, c, skipCode)
    {
      if !skipCode || h[c] != NumberCol {
        var s := Sample(rows, c);
        if |s| == 0 {
          return Err(EmptySample(h[c]));
        }
        if TotalLength(s) > 10 * |s| {
          return Ok(Some(c));
        }
      }
      c := c + 1;
    }
    r := Ok(None);
  }

  /** `identify_columns_by_content` (crosswalk.py:195-227). */
  method IdentifyColumnsByContent(rows: seq<seq<Cell>>, header: seq<string>, missing: seq<string>, skipCode: bool)
    returns (r: Result<seq<string>, SchemaError>)
    ensures r == ContentFallback(rows, header, missing, skipCode)
  {
    var h := header;
    for m := 0 to |missing|
      invariant ContentFallback(rows, header, missing, skipCode) == ContentFallback(rows, h, missing[m..], skipCode)
    {
      var role := missing[m];
      assert missing[m..][0] == role && missing[m..][1..] == missing[m + 1..];
      var found: Option<nat> := None;
      if role == NumberCol {
        found := FindCodeColumn(rows, h);
      } else if role == NameCol {
        var search := FindNameColumn(rows, h, skipCode);
        if search.Err? {
          return Err(search.error);
        }
        found := search.value;
      }
      h := RenameFound(h, found, role);
    }
    assert missing[|missing|..] == [];
    r := Ok(h);
  }

  /** `validate_ndis_data` (crosswalk.py:116-193). */
  method ValidateCatalog(t: Table) returns (r: Result<seq<CatalogItem>, SchemaError>)
    ensures r == Validated(t)
  {
    var h := StandardizeColumns(t.header);
    var missing := MissingRequired(h);
    if missing != [] {
      var resolved := IdentifyColumnsByContent(t.rows, h, missing, false);
      if resolved.Err? {
        return Err(resolved.error);
      }
      h := resolved.value;
    }
    if NumberCol !in h {
      return Err(MissingColumn(NumberCol));
    }
    if NameCol !in h {
      return Err(MissingColumn(NameCol));
    }
    r := Ok(Survivors(CleanedRows(t, h), |t.rows|));
  }
}
