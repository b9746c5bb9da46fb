/**
 * `generate_pivot_summary` (crosswalk.py:441-474): one row per source
 * category, in the order categories first appear, counting the category's
 * records, how many of them were bound, their tiers and the catalog
 * categories they were bound to.
 */
module Summary {
  import opened Base
  import opened Rules
  import opened Records

  /** One row of the pivot summary. */
  datatype PivotRow = PivotRow(
    category: Cell,
    total: nat,
    mapped: nat,
    rate: real,
    ndisCategories: string,
    high: nat,
    bestFit: nat,
    review: nat)

  /**
   * Why the summary cannot be built: a crosswalk without records has no
   * category column (pandas raises `KeyError`), and a NaN category selects
   * no record, so its rate divides by zero (`ZeroDivisionError`).
   */
  datatype SummaryError = NoRecords | MissingCategory

  /** No value occurs twice. */
  predicate NoDuplicates(s: seq<Cell>)
  {
    forall i, j :: 0 <= i < j < |s| ==> s[i] != s[j]
  }

  /** pandas' `unique()`: each value once, in the order of first occurrence. */
  function Distinct(s: seq<Cell>): seq<Cell>
  {
    if s == [] then []
    else
      var d := Distinct(s[..|s| - 1]);
      var x := s[|s| - 1];
      if x in d then d else d + [x]
  }

  /** The distinct values are the values of the list, each once. */
  lemma {:induction false} DistinctSpec(s: seq<Cell>)
    ensures forall x :: x in Distinct(s) <==> x in s
    ensures NoDuplicates(Distinct(s))
  {
    if s != [] {
      var init := s[..|s| - 1];
      DistinctSpec(init);
      assert s == init + [s[|s| - 1]];
    }
  }

  /** `x` occurs in `s` before every occurrence of `y`. */
  predicate FirstBefore(s: seq<Cell>, x: Cell, y: Cell)
  {
    forall k :: 0 <= k < |s| && s[k] == y ==> exists l :: 0 <= l < k && s[l] == x
  }

  /** The distinct values keep the order in which they first occur. */
  lemma {:induction false} DistinctOrder(s: seq<Cell>)
    ensures forall i, j :: 0 <= i < j < |Distinct(s)| ==> FirstBefore(s, Distinct(s)[i], Distinct(s)[j])
  {
    if s != [] {
      var init, x := s[..|s| - 1], s[|s| - 1];
      DistinctOrder(init);
      DistinctSpec(init);
      var d0, d := Distinct(init), Distinct(s);
      assert d == d0 || d == d0 + [x];
      assert forall a, b :: 0 <= a < b < |d0| ==> FirstBefore(init, d0[a], d0[b]);
      forall i, j | 0 <= i < j < |d|
        ensures FirstBefore(s, d[i], d[j])
      {
        assert d[i] in init by {
          assert i < |d0| && d[i] == d0[i];
          assert d0[i] in Distinct(init);
        }
        forall k | 0 <= k < |s| && s[k] == d[j]
          ensures exists l :: 0 <= l < k && s[l] == d[i]
        {
          var l0 :| 0 <= l0 < |init| && init[l0] == d[i];
          if k == |s| - 1 {
            assert s[l0] == d[i];
          } else {
            assert j < |d0| && d[j] == d0[j] && d[i] == d0[i];
            assert init[k] == d0[j];
            assert FirstBefore(init, d0[i], d0[j]);
            var l :| 0 <= l < k && init[l] == d0[i];
            assert s[l] == d[i];
          }
        }
      }
    }
  }

  /** The source category of every record, in order. */
  function CategoryColumn(records: seq<Record>): (cs: seq<Cell>)
    ensures |cs| == |records|
    ensures forall i :: 0 <= i < |records| ==> cs[i] == records[i].category
  {
    if records == [] then []
    else CategoryColumn(records[..|records| - 1]) + [records[|records| - 1].category]
  }

  /** The records of one source category, in order. */
  function InCategory(records: seq<Record>, c: Cell): seq<Record>
  {
    if records == [] then []
    else
      var r := records[|records| - 1];
      InCategory(records[..|records| - 1], c) + (if r.category == c then [r] else [])
  }

  /** The records of a category are those of the list with that category. */
  lemma {:induction false} InCategorySpec(records: seq<Record>, c: Cell)
    ensures forall r :: r in InCategory(records, c) <==> r in records && r.category == c
    ensures |InCategory(records, c)| <= |records|
  {
    if records != [] {
      var init := records[..|records| - 1];
      InCategorySpec(init, c);
      assert records == init + [records[|records| - 1]];
    }
  }

  /** The records bound to a catalog item (`NDIS_Support_Item_Number` is not null). */
  function Mapped(records: seq<Record>): seq<Record>
  {
    if records == [] then []
    else
      var r := records[|records| - 1];
      Mapped(records[..|records| - 1]) + (if r.itemNumber.Some? then [r] else [])
  }

  /** The number of records of one tier (`value_counts()` of `Mapping_Confidence`). */
  function CountTier(records: seq<Record>, t: Tier): nat
  {
    if records == [] then 0
    else CountTier(records[..|records| - 1], t) + (if records[|records| - 1].tier == t then 1 else 0)
  }

  /** The catalog categories of the records, skipping the null ones. */
  function CatalogCategories(records: seq<Record>): seq<Cell>
  {
    if records == [] then []
    else
      var r := records[|records| - 1];
      CatalogCategories(records[..|records| - 1]) +
        (if r.ndisCategory.Some? && r.ndisCategory.value.Value? then [r.ndisCategory.value] else [])
  }

  /** The cells as text. */
  function Shown(cs: seq<Cell>): seq<string>
  {
    seq(|cs|, i requires 0 <= i < |cs| => Show(cs[i]))
  }

  /**
   * `Mapping_Rate`: the bound share of a category's records in percent
   * (the source formats it with one decimal and a percent sign).
   */
  function Rate(mapped: nat, total: nat): real
  {
    if total == 0 then 0.0 else (mapped as real) * 100.0 / (total as real)
  }

  /** The rate times the total is a hundred times the bound count, and a share of at most the whole lies in 0..100. */
  lemma RateSpec(mapped: nat, total: nat)
    ensures total > 0 ==> Rate(mapped, total) * (total as real) == (mapped as real) * 100.0
    ensures mapped <= total ==> 0.0 <= Rate(mapped, total) <= 100.0
  {
    if total > 0 {
      var x, y := (mapped as real) * 100.0, total as real;
      assert (x / y) * y == x;
    }
  }

  /** The counts of one category's records, gathered in one pass. */
  datatype Tally = Tally(total: nat, mapped: nat, high: nat, bestFit: nat, review: nat, names: seq<Cell>)

  /**
   * The records of category `c` counted: how many, how many bound, how many
   * of each tier, and the distinct non-null catalog categories they carry in
   * order of first appearance (crosswalk.py:451-464).
   */
  function TallyOf(records: seq<Record>, c: Cell): Tally
  {
    if records == [] then Tally(0, 0, 0, 0, 0, [])
    else
      var t := TallyOf(records[..|records| - 1], c);
      var r := records[|records| - 1];
      if r.category != c then t
      else
        Tally(t.total + 1,
              t.mapped + (if r.itemNumber.Some? then 1 else 0),
              t.high + (if r.tier == High then 1 else 0),
              t.bestFit + (if r.tier == BestFit then 1 else 0),
              t.review + (if r.tier == Review then 1 else 0),
              if r.ndisCategory.Some? && r.ndisCategory.value.Value? && r.ndisCategory.value !in t.names
              then t.names + [r.ndisCategory.value] else t.names)
  }

  /** `NDIS_Categories`: the catalog categories joined by ", ", or "None" when there are none. */
  function NamesText(names: seq<Cell>): string
  {
    if names == [] then "None" else JoinWith(Shown(names), ", ")
  }

  /** The pivot row of one source category (crosswalk.py:449-472). */
  function RowOf(records: seq<Record>, c: Cell): PivotRow
  {
    var t := TallyOf(records, c);
    PivotRow(c, t.total, t.mapped, Rate(t.mapped, t.total), NamesText(t.names), t.high, t.bestFit, t.review)
  }

  /** The rows of the given categories, in their order. */
  function RowsOf(records: seq<Record>, cats: seq<Cell>): seq<PivotRow>
  {
    if cats == [] then []
    else RowsOf(records, cats[..|cats| - 1]) + [RowOf(records, cats[|cats| - 1])]
  }

  /** The rows are those of the categories, one each, in order. */
  lemma {:induction false} RowsOfAt(records: seq<Record>, cats: seq<Cell>, k: nat)
    ensures |RowsOf(records, cats)| == |cats|
    ensures k < |cats| ==> RowsOf(records, cats)[k] == RowOf(records, cats[k])
  {
    if cats != [] {
      var front := cats[..|cats| - 1];
      RowsOfAt(records, front, k);
      var r0, last := RowsOf(records, front), RowOf(records, cats[|cats| - 1]);
      assert RowsOf(records, cats) == r0 + [last];
      if k < |front| {
        assert cats[k] == front[k];
        assert (r0 + [last])[k] == r0[k];
      }
    }
  }

  /** One more category appends its row. */
  lemma RowsOfSnoc(records: seq<Record>, cats: seq<Cell>, k: nat)
    requires k < |cats|
    ensures RowsOf(records, cats[..k + 1]) == RowsOf(records, cats[..k]) + [RowOf(records, cats[k])]
  {
    assert cats[..k + 1][..k] == cats[..k];
  }

  /** Each row names its own category. */
  lemma RowsOfCategories(records: seq<Record>, cats: seq<Cell>)
    ensures |RowsOf(records, cats)| == |cats|
    ensures forall k :: 0 <= k < |cats| ==> RowsOf(records, cats)[k].category == cats[k]
  {
    RowsOfAt(records, cats, 0);
    forall k | 0 <= k < |cats|
      ensures RowsOf(records, cats)[k].category == cats[k]
    {
      RowsOfAt(records, cats, k);
    }
  }

  /** `generate_pivot_summary` (crosswalk.py:441-474). */
  function PivotSummary(records: seq<Record>): Result<seq<PivotRow>, SummaryError>
  {
    if records == [] then Err(NoRecords)
    else
      var cats := Distinct(CategoryColumn(records));
      if Missing in cats then Err(MissingCategory) else Ok(RowsOf(records, cats))
  }

  // ---------------------------------------------------------------------
  // Counting lemmas.
  // ---------------------------------------------------------------------

  /** Bound records are a sub-list: never more than all of them. */
  lemma {:induction false} MappedBound(records: seq<Record>)
    ensures |Mapped(records)| <= |records|
    ensures forall r :: r in Mapped(records) <==> r in records && r.itemNumber.Some?
  {
    if records != [] {
      MappedBound(records[..|records| - 1]);
      assert records == records[..|records| - 1] + [records[|records| - 1]];
    }
  }

  /**
   * Of a category's records, the bound ones are at most all of them, the
   * three tiers add up to all of them, and a category some record has
   * counts at least one.
   */
  lemma {:induction false} TallyCounts(records: seq<Record>, c: Cell)
    ensures TallyOf(records, c).mapped <= TallyOf(records, c).total
    ensures TallyOf(records, c).high + TallyOf(records, c).bestFit + TallyOf(records, c).review == TallyOf(records, c).total
    ensures (exists i :: 0 <= i < |records| && records[i].category == c) ==> 1 <= TallyOf(records, c).total
  {
    if records != [] {
      var init := records[..|records| - 1];
      TallyCounts(init, c);
      if exists i :: 0 <= i < |records| && records[i].category == c {
        var i :| 0 <= i < |records| && records[i].category == c;
        if i < |init| {
          assert init[i] == records[i];
        }
      }
    }
  }

  /**
   * The one-pass counts agree with selecting the category's records
   * (`df[df['Category'] == category]`) and counting on the selection.
   */
  lemma {:induction false} TallyCountsFilter(records: seq<Record>, c: Cell)
    ensures TallyOf(records, c).total == |InCategory(records, c)|
    ensures TallyOf(records, c).mapped == |Mapped(InCategory(records, c))|
    ensures TallyOf(records, c).high == CountTier(InCategory(records, c), High)
    ensures TallyOf(records, c).bestFit == CountTier(InCategory(records, c), BestFit)
    ensures TallyOf(records, c).review == CountTier(InCategory(records, c), Review)
  {
    if records != [] {
      var init, r := records[..|records| - 1], records[|records| - 1];
      TallyCountsFilter(init, c);
      var i0 := InCategory(init, c);
      if r.category == c {
        var i1 := i0 + [r];
        assert InCategory(records, c) == i1;
        assert i1[..|i1| - 1] == i0;
      } else {
        assert InCategory(records, c) == i0;
      }
    }
  }

  /** The one-pass catalog categories are the selection's non-null ones, each once, in order. */
  lemma {:induction false} TallyNamesFilter(records: seq<Record>, c: Cell)
    ensures TallyOf(records, c).names == Distinct(CatalogCategories(InCategory(records, c)))
  {
    if records != [] {
      var init, r := records[..|records| - 1], records[|records| - 1];
      TallyNamesFilter(init, c);
      var i0 := InCategory(init, c);
      if r.category == c {
        var i1 := i0 + [r];
        assert InCategory(records, c) == i1;
        assert i1[..|i1| - 1] == i0;
        var n0 := CatalogCategories(i0);
        if r.ndisCategory.Some? && r.ndisCategory.value.Value? {
          var n1 := n0 + [r.ndisCategory.value];
          assert CatalogCategories(i1) == n1;
          assert n1[..|n1| - 1] == n0;
        } else {
          assert CatalogCategories(i1) == n0;
        }
      } else {
        assert InCategory(records, c) == i0;
      }
    }
  }

  /** The catalog categories listed are those of the records that carry one. */
  lemma {:induction false} CatalogCategoriesSpec(records: seq<Record>)
    ensures forall x: Cell :: x in CatalogCategories(records) <==> x.Value? && exists r :: r in records && r.ndisCategory == Some(x)
  {
    if records != [] {
      var init, last := records[..|records| - 1], records[|records| - 1];
      CatalogCategoriesSpec(init);
      assert records == init + [last];
      forall x: Cell | x.Value? && exists r :: r in records && r.ndisCategory == Some(x)
        ensures x in CatalogCategories(records)
      {
        var r :| r in records && r.ndisCategory == Some(x);
        if r != last {
          assert r in init;
        }
      }
    }
  }

  /**
   * A category's catalog categories are, each once, the non-null catalog
   * categories its records carry.
   */
  lemma TallyNames(records: seq<Record>, c: Cell)
    ensures NoDuplicates(TallyOf(records, c).names)
    ensures forall x: Cell :: x in TallyOf(records, c).names <==>
      x.Value? && exists r :: r in records && r.category == c && r.ndisCategory == Some(x)
  {
    var rs := InCategory(records, c);
    TallyNamesFilter(records, c);
    InCategorySpec(records, c);
    CatalogCategoriesSpec(rs);
    DistinctSpec(CatalogCategories(rs));
  }

  /** A category's bound count is its count among the bound records. */
  lemma {:induction false} TallyMapped(records: seq<Record>, c: Cell)
    ensures TallyOf(records, c).mapped == TallyOf(Mapped(records), c).total
  {
    if records != [] {
      var init, r := records[..|records| - 1], records[|records| - 1];
      TallyMapped(init, c);
      var m0 := Mapped(init);
      if r.itemNumber.Some? {
        var m1 := m0 + [r];
        assert Mapped(records) == m1;
        assert m1[..|m1| - 1] == m0;
      } else {
        assert Mapped(records) == m0;
      }
    }
  }

  /** The total of the categories' record counts. */
  function SumCount(records: seq<Record>, cats: seq<Cell>): nat
  {
    if cats == [] then 0
    else SumCount(records, cats[..|cats| - 1]) + TallyOf(records, cats[|cats| - 1]).total
  }

  /** One more record adds one to the total of the categories listing its category once. */
  lemma {:induction false} SumCountSnoc(init: seq<Record>, r: Record, cats: seq<Cell>)
    requires NoDuplicates(cats)
    ensures SumCount(init + [r], cats) == SumCount(init, cats) + (if r.category in cats then 1 else 0)
  {
    if cats != [] {
      var front, c := cats[..|cats| - 1], cats[|cats| - 1];
      SumCountSnoc(init, r, front);
      var s := init + [r];
      assert s[..|s| - 1] == init;
      assert r.category in cats <==> r.category in front || r.category == c;
      assert c !in front;
    }
  }

  /** Over categories that list every record's category once, the counts add up to all the records. */
  lemma {:induction false} SumCountAll(records: seq<Record>, cats: seq<Cell>)
    requires NoDuplicates(cats)
    requires forall r :: r in records ==> r.category in cats
    ensures SumCount(records, cats) == |records|
  {
    if records == [] {
      SumCountEmpty(cats);
    } else {
      var init, r := records[..|records| - 1], records[|records| - 1];
      assert records == init + [r];
      SumCountAll(init, cats);
      SumCountSnoc(init, r, cats);
    }
  }

  lemma {:induction false} SumCountEmpty(cats: seq<Cell>)
    ensures SumCount([], cats) == 0
  {
    if cats != [] {
      SumCountEmpty(cats[..|cats| - 1]);
    }
  }

  /** The sum of the rows' totals. */
  function Totals(rows: seq<PivotRow>): nat
  {
    if rows == [] then 0 else Totals(rows[..|rows| - 1]) + rows[|rows| - 1].total
  }

  /** The sum of the rows' bound counts. */
  function MappedTotals(rows: seq<PivotRow>): nat
  {
    if rows == [] then 0 else MappedTotals(rows[..|rows| - 1]) + rows[|rows| - 1].mapped
  }

  lemma {:induction false} TotalsOfRows(records: seq<Record>, cats: seq<Cell>)
    ensures Totals(RowsOf(records, cats)) == SumCount(records, cats)
    ensures MappedTotals(RowsOf(records, cats)) == SumCount(Mapped(records), cats)
  {
    if cats != [] {
      var front, c := cats[..|cats| - 1], cats[|cats| - 1];
      TotalsOfRows(records, front);
      var rows := RowsOf(records, cats);
      RowsOfAt(records, front, 0);
      assert rows[..|rows| - 1] == RowsOf(records, front);
      TallyMapped(records, c);
    }
  }

  // ---------------------------------------------------------------------
  // The summary.
  // ---------------------------------------------------------------------

  /**
   * The summary fails exactly when there are no records, or, failing that,
   * when some record's source category is NaN.
   */
  lemma PivotErrors(records: seq<Record>)
    ensures PivotSummary(records) == Err(NoRecords) <==> records == []
    ensures PivotSummary(records) == Err(MissingCategory) <==>
      records != [] && exists i :: 0 <= i < |records| && records[i].category.Missing?
  {
    var cats := CategoryColumn(records);
    DistinctSpec(cats);
    if exists i :: 0 <= i < |records| && records[i].category.Missing? {
      var i :| 0 <= i < |records| && records[i].category.Missing?;
      assert cats[i] == Missing;
    }
  }

  /** Rows naming the distinct categories name exactly the records' categories. */
  lemma RowsCategorySet(records: seq<Record>, cs: seq<Cell>, rows: seq<PivotRow>)
    requires |cs| == |records| && forall i :: 0 <= i < |records| ==> cs[i] == records[i].category
    requires |rows| == |Distinct(cs)| && forall k :: 0 <= k < |rows| ==> rows[k].category == Distinct(cs)[k]
    ensures (set k | 0 <= k < |rows| :: rows[k].category) == (set i | 0 <= i < |records| :: records[i].category)
  {
    var cats := Distinct(cs);
    DistinctSpec(cs);
    var named, present := set k | 0 <= k < |rows| :: rows[k].category, set i | 0 <= i < |records| :: records[i].category;
    forall x | x in present
      ensures x in named
    {
      var i :| 0 <= i < |records| && records[i].category == x;
      assert cs[i] in cs;
      var k :| 0 <= k < |cats| && cats[k] == cs[i];
      assert rows[k].category == x;
    }
    forall x | x in named
      ensures x in present
    {
      var k :| 0 <= k < |rows| && rows[k].category == x;
      assert cats[k] in cats;
      var i :| 0 <= i < |cs| && cs[i] == cats[k];
      assert records[i].category == x;
    }
  }

  /** Rows naming the distinct categories: no category has two rows, and rows follow first appearance. */
  lemma RowsInOrder(cs: seq<Cell>, rows: seq<PivotRow>)
    requires |rows| == |Distinct(cs)| && forall k :: 0 <= k < |rows| ==> rows[k].category == Distinct(cs)[k]
    ensures forall k, l :: 0 <= k < l < |rows| ==> rows[k].category != rows[l].category
    ensures forall k, l :: 0 <= k < l < |rows| ==> FirstBefore(cs, rows[k].category, rows[l].category)
  {
    DistinctSpec(cs);
    DistinctOrder(cs);
  }

  /** The rows of the distinct categories name exactly the records' categories. */
  lemma RowsOfCategorySet(records: seq<Record>)
    ensures (set k | 0 <= k < |RowsOf(records, Distinct(CategoryColumn(records)))| ::
      RowsOf(records, Distinct(CategoryColumn(records)))[k].category) == (set i | 0 <= i < |records| :: records[i].category)
  {
    var cs := CategoryColumn(records);
    RowsOfCategories(records, Distinct(cs));
    RowsCategorySet(records, cs, RowsOf(records, Distinct(cs)));
  }

  /** The rows of the distinct categories name no category twice, in order of first appearance. */
  lemma RowsOfCategoryOrder(records: seq<Record>)
    ensures forall k, l :: 0 <= k < l < |RowsOf(records, Distinct(CategoryColumn(records)))| ==>
      RowsOf(records, Distinct(CategoryColumn(records)))[k].category != RowsOf(records, Distinct(CategoryColumn(records)))[l].category
    ensures forall k, l :: 0 <= k < l < |RowsOf(records, Distinct(CategoryColumn(records)))| ==>
      FirstBefore(CategoryColumn(records), RowsOf(records, Distinct(CategoryColumn(records)))[k].category,
                  RowsOf(records, Distinct(CategoryColumn(records)))[l].category)
  {
    var cs := CategoryColumn(records);
    RowsOfCategories(records, Distinct(cs));
    RowsInOrder(cs, RowsOf(records, Distinct(cs)));
  }

  /** The summary has one row per source category: its rows name exactly the records' categories, none twice. */
  lemma PivotCategories(records: seq<Record>, rows: seq<PivotRow>)
    requires PivotSummary(records) == Ok(rows)
    ensures (set k | 0 <= k < |rows| :: rows[k].category) == (set i | 0 <= i < |records| :: records[i].category)
    ensures forall k, l :: 0 <= k < l < |rows| ==> rows[k].category != rows[l].category
  {
    assert rows == RowsOf(records, Distinct(CategoryColumn(records)));
    RowsOfCategorySet(records);
    RowsOfCategoryOrder(records);
  }

  /** The summary's rows come in the order their categories first appear among the records. */
  lemma PivotOrder(records: seq<Record>, rows: seq<PivotRow>)
    requires PivotSummary(records) == Ok(rows)
    ensures forall k, l :: 0 <= k < l < |rows| ==> FirstBefore(CategoryColumn(records), rows[k].category, rows[l].category)
  {
    assert rows == RowsOf(records, Distinct(CategoryColumn(records)));
    RowsOfCategoryOrder(records);
  }

  /**
   * The row of a category some record has counts at least one record; its
   * bound records are among them; its three tier counts add up to its
   * total; and its rate is the bound share in percent.
   */
  lemma RowCounts(records: seq<Record>, c: Cell)
    requires exists i :: 0 <= i < |records| && records[i].category == c
    ensures var row := RowOf(records, c);
      row.category == c && 1 <= row.total && row.mapped <= row.total && row.high + row.bestFit + row.review == row.total
    ensures var row := RowOf(records, c);
      row.rate * (row.total as real) == (row.mapped as real) * 100.0 && 0.0 <= row.rate <= 100.0
  {
    TallyCounts(records, c);
    var t := TallyOf(records, c);
    RateSpec(t.mapped, t.total);
  }

  /**
   * A row lists "None" when none of its records carries a catalog category,
   * and only then, unless every category its records carry is itself named
   * "None".
   */
  lemma RowCatalogCategories(records: seq<Record>, c: Cell)
    ensures var row := RowOf(records, c);
      (forall r :: r in records && r.category == c ==> r.ndisCategory.None? || r.ndisCategory.value.Missing?) ==>
        row.ndisCategories == "None"
    ensures var row := RowOf(records, c);
      row.ndisCategories == "None" ==>
        forall r :: r in records && r.category == c && r.ndisCategory.Some? && r.ndisCategory.value.Value? ==>
          r.ndisCategory.value.text == "None"
  {
    var names := TallyOf(records, c).names;
    TallyNames(records, c);
    if names != [] {
      assert names[0] in names;
      JoinNone(Shown(names));
      if JoinWith(Shown(names), ", ") == "None" {
        assert |names| == 1 && Show(names[0]) == "None";
        forall r | r in records && r.category == c && r.ndisCategory.Some? && r.ndisCategory.value.Value?
          ensures r.ndisCategory.value.text == "None"
        {
          assert r.ndisCategory.value in names;
        }
      }
    }
  }

  /**
   * Each row of the summary counts at least one record, its bound records
   * and tiers are consistent with its total, its rate is the bound share,
   * and it lists "None" when none of its records carries a catalog category.
   */
  lemma PivotRowCounts(records: seq<Record>, rows: seq<PivotRow>, k: nat)
    requires PivotSummary(records) == Ok(rows) && k < |rows|
    ensures 1 <= rows[k].total && rows[k].mapped <= rows[k].total
    ensures rows[k].high + rows[k].bestFit + rows[k].review == rows[k].total
    ensures rows[k].rate * (rows[k].total as real) == (rows[k].mapped as real) * 100.0 && 0.0 <= rows[k].rate <= 100.0
    ensures (forall r :: r in records && r.category == rows[k].category ==> r.ndisCategory.None? || r.ndisCategory.value.Missing?) ==>
      rows[k].ndisCategories == "None"
  {
    PivotRowOf(records, rows, k);
    RowCounts(records, rows[k].category);
    RowCatalogCategories(records, rows[k].category);
  }

  /** Each row of the summary is the row of a category some record has. */
  lemma PivotRowOf(records: seq<Record>, rows: seq<PivotRow>, k: nat)
    requires PivotSummary(records) == Ok(rows) && k < |rows|
    ensures rows[k] == RowOf(records, rows[k].category)
    ensures exists i :: 0 <= i < |records| && records[i].category == rows[k].category
  {
    var cs := CategoryColumn(records);
    var cats := Distinct(cs);
    assert rows == RowsOf(records, cats);
    RowsOfAt(records, cats, k);
    DistinctSpec(cs);
    assert cats[k] in cs;
    var i :| 0 <= i < |records| && cs[i] == cats[k];
  }

  /** Two or more names joined by commas are never the marker "None". */
  lemma JoinNone(names: seq<string>)
    ensures JoinWith(names, ", ") == "None" ==> names == ["None"]
  {
    if |names| > 1 {
      var j := JoinWith(names, ", ");
      assert j == names[0] + ", " + JoinWith(names[1..], ", ");
      assert j[|names[0]|] == ',';
    } else if |names| == 1 {
      assert names == [names[0]];
    }
  }

  /**
   * The rows partition the records: their totals add up to the number of
   * records, and their bound counts to the number of bound records.
   */
  lemma PivotPartition(records: seq<Record>)
    requires PivotSummary(records).Ok?
    ensures Totals(PivotSummary(records).value) == |records|
    ensures MappedTotals(PivotSummary(records).value) == |Mapped(records)|
  {
    var cs := CategoryColumn(records);
    var cats := Distinct(cs);
    DistinctSpec(cs);
    TotalsOfRows(records, cats);
    forall r | r in records
      ensures r.category in cats
    {
      var i :| 0 <= i < |records| && records[i] == r;
      assert cs[i] == r.category;
    }
    SumCountAll(records, cats);
    MappedBound(records);
    SumCountAll(Mapped(records), cats);
  }
}
