/** The budget-based script: keep the rows that pass the two label filters,
    drop duplicate products, sort by unit price and take one unit of each row
    while the running total stays within the budget. */
module BudgetBased {
  import opened Sequences
  import opened Catalogue
  import opened Greedy

  /** Every catalogue row passing the label options has its product in the filtered table. */
  lemma LabelFilterKeys(df: seq<Row>, healthPref: string, sustainPref: string)
    ensures forall i :: 0 <= i < |df| && PassesLabels(df[i], healthPref, sustainPref) ==>
      Key(df[i]) in KeysOf(LabelFilter(df, healthPref, sustainPref))
  {
    var filtered := LabelFilter(df, healthPref, sustainPref);
    forall i | 0 <= i < |df| && PassesLabels(df[i], healthPref, sustainPref)
      ensures Key(df[i]) in KeysOf(filtered)
    {
      var k :| 0 <= k < |filtered| && filtered[k] == df[i];
    }
  }

  /** The first row of each product passing the label options survives the
      filters, the de-duplication and the sort. */
  lemma FirstPassingKept(df: seq<Row>, healthPref: string, sustainPref: string)
    ensures forall i :: 0 <= i < |df| && FirstPassing(df, i, healthPref, sustainPref) ==>
      df[i] in DedupAndSort(LabelFilter(df, healthPref, sustainPref))
  {
    forall i | 0 <= i < |df| && FirstPassing(df, i, healthPref, sustainPref)
      ensures df[i] in DedupAndSort(LabelFilter(df, healthPref, sustainPref))
    {
      var j := LabelFilterKeepsFirstPassing(df, healthPref, sustainPref, i);
    }
  }

  /** The table the loop walks: label-filtered, de-duplicated, cheapest first. */
  function Candidates(df: seq<Row>, healthPref: string, sustainPref: string): (c: seq<Row>)
    ensures Ascending(c, PriceOf)
    ensures UniqueKeys(c)
    ensures forall i :: 0 <= i < |c| ==> c[i] in df && PassesLabels(c[i], healthPref, sustainPref)
    ensures forall i :: 0 <= i < |df| && PassesLabels(df[i], healthPref, sustainPref) ==> Key(df[i]) in KeysOf(c)
    ensures forall i :: 0 <= i < |df| && FirstPassing(df, i, healthPref, sustainPref) ==> df[i] in c
  {
    var filtered := LabelFilter(df, healthPref, sustainPref);
    var c := DedupAndSort(filtered);
    FirstPassingKept(df, healthPref, sustainPref);
    LabelFilterKeys(df, healthPref, sustainPref);
    forall i | 0 <= i < |c| ensures c[i] in df && PassesLabels(c[i], healthPref, sustainPref) {
      var k :| 0 <= k < |filtered| && filtered[k] == c[i];
    }
    c
  }

  /** The whole script. The list is the longest prefix of the sorted candidates
      that fits in the budget; it is empty exactly when no candidate is left or
      the cheapest one alone exceeds the budget. */
  method Recommend(df: seq<Row>, budget: real, healthPref: string, sustainPref: string)
    returns (list: seq<Row>, total: real, report: Report<Row>)
    requires NonNegativePrices(df)
    requires 0.0 <= budget
    ensures var c := Candidates(df, healthPref, sustainPref);
      && list == FirstFit(c, budget)
      && list == c[..|list|]
      && LongestAffordablePrefix(c, budget, |list|)
      && total == Cost(list)
      && total <= budget
      && UniqueKeys(list)
      && (list == [] <==> c == [] || c[0].price > budget)
    ensures report == Present(list, total)
    ensures var c := Candidates(df, healthPref, sustainPref);
      report == NoItemsFound <==> c == [] || c[0].price > budget
  {
    var c := Candidates(df, healthPref, sustainPref);
    assert NonNegativePrices(c);
    list, total := Allocate(c, budget);
    SortedTakesLongestAffordablePrefix(c, budget);
    SortedEmptyIff(c, budget);
    UniqueBySubsequence(list, c, Key);
    report := Present(list, total);
  }
}
