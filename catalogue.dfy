/** The product catalogue and the table operations the shopping-list scripts
    apply to it before allocating: selecting rows by category and by label,
    dropping duplicate products and ordering by unit price. */
module Catalogue {
  import opened Sequences

  /** One row of the catalogue table (the columns the scripts read). */
  datatype Row = Row(
    productName: string,
    brand: string,
    category: string,
    price: real,          // price_per_unit
    health: string,       // health_label
    sustainability: string // sustainability_label
  )

  // The option strings of the two sidebar select boxes and the label values they test for.
  const HEALTHY_ONLY := "Healthy only"
  const SUSTAINABLE_ONLY := "Sustainable only"
  const HEALTHY := "Healthy"
  const SUSTAINABLE := "Sustainable"

  /** The de-duplication key: product name together with brand. */
  function Key(row: Row): (string, string) {
    (row.productName, row.brand)
  }

  function PriceOf(row: Row): real {
    row.price
  }

  function KeysOf(rows: seq<Row>): set<(string, string)> {
    set i | 0 <= i < |rows| :: Key(rows[i])
  }

  predicate UniqueKeys(rows: seq<Row>) {
    UniqueBy(rows, Key)
  }

  /** The catalogue's own invariant: no negative unit price. */
  predicate NonNegativePrices(rows: seq<Row>) {
    forall i :: 0 <= i < |rows| ==> rows[i].price >= 0.0
  }

  /** Sum of the unit prices, accumulated from the front as the scripts do. */
  function Cost(rows: seq<Row>): real
    decreases |rows|
  {
    if rows == [] then 0.0 else Cost(rows[..|rows| - 1]) + rows[|rows| - 1].price
  }

  lemma CostAppend(rows: seq<Row>, row: Row)
    ensures Cost(rows + [row]) == Cost(rows) + row.price
  {
    assert (rows + [row])[..|rows|] == rows;
  }

  /** With non-negative prices a longer prefix never costs less. */
  lemma {:induction false} CostPrefixMonotone(rows: seq<Row>, i: nat, j: nat)
    requires NonNegativePrices(rows)
    requires i <= j <= |rows|
    ensures Cost(rows[..i]) <= Cost(rows[..j])
    decreases j
  {
    if i < j {
      CostPrefixMonotone(rows, i, j - 1);
      assert rows[..j][..j - 1] == rows[..j - 1];
    }
  }

  /** What the two select boxes demand of a row. Any answer other than the
      "only" option leaves the corresponding label unconstrained. */
  predicate PassesLabels(row: Row, healthPref: string, sustainPref: string) {
    && (healthPref == HEALTHY_ONLY ==> row.health == HEALTHY)
    && (sustainPref == SUSTAINABLE_ONLY ==> row.sustainability == SUSTAINABLE)
  }

  // The masks the scripts select rows with.
  function InCategories(categories: seq<string>): Row -> bool {
    (row: Row) => row.category in categories
  }

  predicate IsHealthy(row: Row) {
    row.health == HEALTHY
  }

  predicate IsSustainable(row: Row) {
    row.sustainability == SUSTAINABLE
  }

  /** `df[df["category"].isin(categories)]` */
  function CategoryFilter(rows: seq<Row>, categories: seq<string>): (r: seq<Row>)
    ensures SubsequenceOf(r, rows)
    ensures forall i :: 0 <= i < |r| ==> r[i] in rows && r[i].category in categories
    ensures forall i :: 0 <= i < |rows| && rows[i].category in categories ==> rows[i] in r
    ensures forall x :: multiset(r)[x] == if x.category in categories then multiset(rows)[x] else 0
  {
    WhereCounts(rows, InCategories(categories));
    Where(rows, InCategories(categories))
  }

  /** The two conditional label filters, applied one after the other. */
  function LabelFilter(rows: seq<Row>, healthPref: string, sustainPref: string): (r: seq<Row>)
    ensures SubsequenceOf(r, rows)
    ensures forall i :: 0 <= i < |r| ==> r[i] in rows && PassesLabels(r[i], healthPref, sustainPref)
    ensures forall i :: 0 <= i < |rows| && PassesLabels(rows[i], healthPref, sustainPref) ==> rows[i] in r
    ensures forall x :: multiset(r)[x] == if PassesLabels(x, healthPref, sustainPref) then multiset(rows)[x] else 0
  {
    var afterHealth := if healthPref == HEALTHY_ONLY then Where(rows, IsHealthy) else rows;
    var afterSustain := if sustainPref == SUSTAINABLE_ONLY then Where(afterHealth, IsSustainable) else afterHealth;
    WhereCounts(rows, IsHealthy);
    WhereCounts(afterHealth, IsSustainable);
    SubsequenceReflexive(rows);
    SubsequenceReflexive(afterHealth);
    SubsequenceTransitive(afterSustain, afterHealth, rows);
    afterSustain
  }

  /** Row `i` is the first row of `rows` with its key. */
  predicate FirstOfKey(rows: seq<Row>, i: int)
    requires 0 <= i < |rows|
  {
    FirstWith(rows, i, (row: Row) => true, Key)
  }

  lemma KeysOfAppend(rows: seq<Row>, row: Row)
    ensures KeysOf(rows + [row]) == KeysOf(rows) + {Key(row)}
  {
    var all := rows + [row];
    forall k | k in KeysOf(all) ensures k in KeysOf(rows) + {Key(row)} {
      var i :| 0 <= i < |all| && Key(all[i]) == k;
      if i < |rows| { assert Key(rows[i]) == k; }
    }
    forall k | k in KeysOf(rows) + {Key(row)} ensures k in KeysOf(all) {
      if k == Key(row) {
        assert Key(all[|rows|]) == k;
      } else {
        var i :| 0 <= i < |rows| && Key(rows[i]) == k;
        assert Key(all[i]) == k;
      }
    }
  }

  /** The four facts `DropDuplicates` promises, for a result `kept` drawn from `rows`. */
  predicate DedupOf(kept: seq<Row>, rows: seq<Row>) {
    && UniqueKeys(kept)
    && SubsequenceOf(kept, rows)
    && KeysOf(kept) == KeysOf(rows)
    && forall i :: 0 <= i < |rows| && FirstOfKey(rows, i) ==> rows[i] in kept
  }

  /** A row whose key was already seen adds nothing. */
  lemma DedupSkip(earlier: seq<Row>, row: Row, kept: seq<Row>)
    requires DedupOf(kept, earlier)
    requires Key(row) in KeysOf(earlier)
    ensures DedupOf(kept, earlier + [row])
  {
    var rows := earlier + [row];
    KeysOfAppend(earlier, row);
    SubsequenceExtend(kept, earlier, row);
    forall i | 0 <= i < |rows| && FirstOfKey(rows, i) ensures rows[i] in kept {
      if i < |earlier| {
        assert FirstOfKey(earlier, i);
      }
    }
  }

  /** A row with a new key is kept, after everything kept so far. */
  lemma DedupAppend(earlier: seq<Row>, row: Row, kept: seq<Row>)
    requires DedupOf(kept, earlier)
    requires Key(row) !in KeysOf(earlier)
    ensures DedupOf(kept + [row], earlier + [row])
  {
    var rows, r := earlier + [row], kept + [row];
    KeysOfAppend(earlier, row);
    KeysOfAppend(kept, row);
    SubsequenceExtend(kept, earlier, row);
    forall i, j | 0 <= i < j < |r| ensures Key(r[i]) != Key(r[j]) {
      if j == |kept| {
        assert Key(kept[i]) in KeysOf(kept);
      } else {
        assert r[i] == kept[i] && r[j] == kept[j];
      }
    }
    forall i | 0 <= i < |rows| && FirstOfKey(rows, i) ensures rows[i] in r {
      if i < |earlier| {
        assert FirstOfKey(earlier, i);
      }
    }
  }

  /** `drop_duplicates(subset=["product_name", "brand"])`: one row per key,
      the one that occurs first, in the original order. */
  function DropDuplicates(rows: seq<Row>): (r: seq<Row>)
    ensures UniqueKeys(r)
    ensures SubsequenceOf(r, rows)
    ensures KeysOf(r) == KeysOf(rows)
    ensures forall i :: 0 <= i < |rows| && FirstOfKey(rows, i) ==> rows[i] in r
    decreases |rows|
  {
    if rows == [] then []
    else
      var earlier, row := rows[..|rows| - 1], rows[|rows| - 1];
      var kept := DropDuplicates(earlier);
      assert rows == earlier + [row];
      if Key(row) in KeysOf(earlier) then
        DedupSkip(earlier, row, kept);
        kept
      else
        DedupAppend(earlier, row, kept);
        kept + [row]
  }

  lemma KeysOfPermutation(a: seq<Row>, b: seq<Row>)
    requires multiset(a) == multiset(b)
    ensures KeysOf(a) == KeysOf(b)
  {
    forall k | k in KeysOf(a) ensures k in KeysOf(b) {
      var i :| 0 <= i < |a| && Key(a[i]) == k;
      assert a[i] in multiset(b);
      var j :| 0 <= j < |b| && b[j] == a[i];
    }
    forall k | k in KeysOf(b) ensures k in KeysOf(a) {
      var j :| 0 <= j < |b| && Key(b[j]) == k;
      assert b[j] in multiset(a);
      var i :| 0 <= i < |a| && a[i] == b[j];
    }
  }

  /** `sort_values(by="price_per_unit")`: the same rows, cheapest first. */
  function SortByPrice(rows: seq<Row>): (r: seq<Row>)
    ensures Ascending(r, PriceOf)
    ensures multiset(r) == multiset(rows)
    ensures KeysOf(r) == KeysOf(rows)
    ensures UniqueKeys(rows) ==> UniqueKeys(r)
  {
    var r := SortBy(rows, PriceOf);
    KeysOfPermutation(r, rows);
    if UniqueKeys(rows) then UniqueByPermutation(rows, r, Key); r else r
  }

  /** De-duplicate, then sort by price: the tail shared by every script's pipeline. */
  function DedupAndSort(rows: seq<Row>): (r: seq<Row>)
    ensures Ascending(r, PriceOf)
    ensures UniqueKeys(r)
    ensures forall i :: 0 <= i < |r| ==> r[i] in rows
    ensures KeysOf(r) == KeysOf(rows)
    ensures forall i :: 0 <= i < |rows| && FirstOfKey(rows, i) ==> rows[i] in r
  {
    var kept := DropDuplicates(rows);
    var r := SortByPrice(kept);
    SubsequenceMembers(kept, rows);
    assert forall i :: 0 <= i < |r| ==> r[i] in multiset(kept);
    assert forall i :: 0 <= i < |rows| && FirstOfKey(rows, i) ==> rows[i] in multiset(r);
    r
  }

  /** A row of a selected category that passes the label options. */
  predicate Qualifies(row: Row, categories: seq<string>, healthPref: string, sustainPref: string) {
    row.category in categories && PassesLabels(row, healthPref, sustainPref)
  }

  /** Every row of `r` is a catalogue row that qualifies. */
  predicate DrawnFrom(r: seq<Row>, df: seq<Row>, categories: seq<string>, healthPref: string, sustainPref: string) {
    forall i :: 0 <= i < |r| ==> r[i] in df && Qualifies(r[i], categories, healthPref, sustainPref)
  }

  /** Every qualifying catalogue row has its product (name and brand) in `r`. */
  predicate Represents(r: seq<Row>, df: seq<Row>, categories: seq<string>, healthPref: string, sustainPref: string) {
    forall i :: 0 <= i < |df| && Qualifies(df[i], categories, healthPref, sustainPref) ==> Key(df[i]) in KeysOf(r)
  }

  /** Rows taken from rows drawn from the catalogue are drawn from it too. */
  lemma DrawnFromMembers(xs: seq<Row>, r: seq<Row>, df: seq<Row>, categories: seq<string>,
                         healthPref: string, sustainPref: string)
    requires forall i :: 0 <= i < |xs| ==> xs[i] in r
    requires DrawnFrom(r, df, categories, healthPref, sustainPref)
    ensures DrawnFrom(xs, df, categories, healthPref, sustainPref)
  {
    forall i | 0 <= i < |xs| ensures xs[i] in df && Qualifies(xs[i], categories, healthPref, sustainPref) {
      var j :| 0 <= j < |r| && r[j] == xs[i];
    }
  }

  /** Deleting rows keeps the rest drawn from the catalogue. */
  lemma DrawnFromSubsequence(xs: seq<Row>, r: seq<Row>, df: seq<Row>, categories: seq<string>,
                             healthPref: string, sustainPref: string)
    requires SubsequenceOf(xs, r) && DrawnFrom(r, df, categories, healthPref, sustainPref)
    ensures DrawnFrom(xs, df, categories, healthPref, sustainPref)
  {
    SubsequenceMembers(xs, r);
    DrawnFromMembers(xs, r, df, categories, healthPref, sustainPref);
  }

  /** The two filters keep only qualifying catalogue rows. */
  lemma FiltersDrawFrom(df: seq<Row>, categories: seq<string>, healthPref: string, sustainPref: string)
    ensures DrawnFrom(LabelFilter(CategoryFilter(df, categories), healthPref, sustainPref), df, categories, healthPref, sustainPref)
  {
    var byCategory := CategoryFilter(df, categories);
    var byLabel := LabelFilter(byCategory, healthPref, sustainPref);
    forall i | 0 <= i < |byLabel| ensures byLabel[i] in df && Qualifies(byLabel[i], categories, healthPref, sustainPref) {
      var k :| 0 <= k < |byCategory| && byCategory[k] == byLabel[i];
    }
  }

  /** A qualifying catalogue row survives both filters. */
  lemma QualifyingSurvivesFilters(df: seq<Row>, categories: seq<string>, healthPref: string, sustainPref: string, i: int)
    requires 0 <= i < |df| && Qualifies(df[i], categories, healthPref, sustainPref)
    ensures var byLabel := LabelFilter(CategoryFilter(df, categories), healthPref, sustainPref);
      Key(df[i]) in KeysOf(byLabel)
  {
    var byCategory := CategoryFilter(df, categories);
    var byLabel := LabelFilter(byCategory, healthPref, sustainPref);
    assert df[i] in byCategory;
    var j :| 0 <= j < |byCategory| && byCategory[j] == df[i];
    assert byCategory[j] in byLabel;
    var k :| 0 <= k < |byLabel| && byLabel[k] == df[i];
  }

  /** Row `i` is the first catalogue row with its product that passes the label options. */
  predicate FirstPassing(df: seq<Row>, i: int, healthPref: string, sustainPref: string)
    requires 0 <= i < |df|
  {
    FirstWith(df, i, (row: Row) => PassesLabels(row, healthPref, sustainPref), Key)
  }

  /** Row `i` is the first qualifying catalogue row with its product. */
  predicate FirstQualifying(df: seq<Row>, i: int, categories: seq<string>, healthPref: string, sustainPref: string)
    requires 0 <= i < |df|
  {
    FirstWith(df, i, (row: Row) => Qualifies(row, categories, healthPref, sustainPref), Key)
  }

  /** The label filters keep the first row of each product among those satisfying
      a condition `q` that implies the label options, and it stays the first. */
  lemma LabelFilterKeepsFirst(rows: seq<Row>, healthPref: string, sustainPref: string, q: Row -> bool, i: int)
    returns (j: int)
    requires 0 <= i < |rows| && FirstWith(rows, i, q, Key)
    requires forall x :: q(x) ==> PassesLabels(x, healthPref, sustainPref)
    ensures var r := LabelFilter(rows, healthPref, sustainPref);
      0 <= j < |r| && r[j] == rows[i] && FirstWith(r, j, q, Key)
  {
    var afterHealth := if healthPref == HEALTHY_ONLY then Where(rows, IsHealthy) else rows;
    var h := i;
    if healthPref == HEALTHY_ONLY {
      h := WhereKeepsFirst(rows, IsHealthy, q, Key, i);
    }
    j := h;
    if sustainPref == SUSTAINABLE_ONLY {
      j := WhereKeepsFirst(afterHealth, IsSustainable, q, Key, h);
    }
  }

  /** The first row of each product that passes the label options survives the
      label filters as the first row of its product. */
  lemma LabelFilterKeepsFirstPassing(df: seq<Row>, healthPref: string, sustainPref: string, i: int)
    returns (j: int)
    requires 0 <= i < |df| && FirstPassing(df, i, healthPref, sustainPref)
    ensures var r := LabelFilter(df, healthPref, sustainPref);
      0 <= j < |r| && r[j] == df[i] && FirstOfKey(r, j)
  {
    var q := (row: Row) => PassesLabels(row, healthPref, sustainPref);
    assert FirstWith(df, i, q, Key);
    j := LabelFilterKeepsFirst(df, healthPref, sustainPref, q, i);
  }

  /** The first qualifying row of each product survives both filters as the
      first row of its product. */
  lemma FiltersKeepFirstQualifying(df: seq<Row>, categories: seq<string>, healthPref: string, sustainPref: string, i: int)
    returns (j: int)
    requires 0 <= i < |df| && FirstQualifying(df, i, categories, healthPref, sustainPref)
    ensures var r := LabelFilter(CategoryFilter(df, categories), healthPref, sustainPref);
      0 <= j < |r| && r[j] == df[i] && FirstOfKey(r, j)
  {
    var q := (row: Row) => Qualifies(row, categories, healthPref, sustainPref);
    var byCategory := CategoryFilter(df, categories);
    assert FirstWith(df, i, q, Key);
    var c := WhereKeepsFirst(df, InCategories(categories), q, Key, i);
    assert forall k :: 0 <= k < |byCategory| ==> byCategory[k].category in categories;
    j := LabelFilterKeepsFirst(byCategory, healthPref, sustainPref, q, c);
  }

  /** The first qualifying row of each product survives the filters, the
      de-duplication and the sort. */
  lemma FirstQualifyingKept(df: seq<Row>, categories: seq<string>, healthPref: string, sustainPref: string)
    ensures forall i :: 0 <= i < |df| && FirstQualifying(df, i, categories, healthPref, sustainPref) ==>
      df[i] in DedupAndSort(LabelFilter(CategoryFilter(df, categories), healthPref, sustainPref))
  {
    forall i | 0 <= i < |df| && FirstQualifying(df, i, categories, healthPref, sustainPref)
      ensures df[i] in DedupAndSort(LabelFilter(CategoryFilter(df, categories), healthPref, sustainPref))
    {
      var j := FiltersKeepFirstQualifying(df, categories, healthPref, sustainPref, i);
    }
  }

  /** The candidate rows of the scripts with a category selection: rows of a
      selected category that pass the label filters, de-duplicated, cheapest first. */
  function Eligible(df: seq<Row>, categories: seq<string>, healthPref: string, sustainPref: string): (r: seq<Row>)
    ensures Ascending(r, PriceOf)
    ensures UniqueKeys(r)
    ensures DrawnFrom(r, df, categories, healthPref, sustainPref)
    ensures Represents(r, df, categories, healthPref, sustainPref)
    ensures forall i :: 0 <= i < |df| && FirstQualifying(df, i, categories, healthPref, sustainPref) ==> df[i] in r
  {
    var byCategory := CategoryFilter(df, categories);
    var byLabel := LabelFilter(byCategory, healthPref, sustainPref);
    var r := DedupAndSort(byLabel);
    FirstQualifyingKept(df, categories, healthPref, sustainPref);
    FiltersDrawFrom(df, categories, healthPref, sustainPref);
    DrawnFromMembers(r, byLabel, df, categories, healthPref, sustainPref);
    assert Represents(r, df, categories, healthPref, sustainPref) by {
      forall i | 0 <= i < |df| && Qualifies(df[i], categories, healthPref, sustainPref)
        ensures Key(df[i]) in KeysOf(r)
      {
        QualifyingSurvivesFilters(df, categories, healthPref, sustainPref, i);
      }
    }
    r
  }

  /** What the page shows after the loop: the list with its total cost, or the
      "no items found" warning when the list is empty. */
  datatype Report<T> = Listing(items: seq<T>, total: real) | NoItemsFound

  function Present<T>(list: seq<T>, total: real): (r: Report<T>)
    ensures r == NoItemsFound <==> list == []
    ensures r.Listing? ==> r.items == list && r.total == total
  {
    if list == [] then NoItemsFound else Listing(list, total)
  }
}
