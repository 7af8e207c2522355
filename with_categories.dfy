/** The category script: like the budget-based one, but only rows of the
    categories the user selected are candidates. */
module WithCategories {
  import opened Sequences
  import opened Catalogue
  import opened Greedy

  /** The whole script over `Eligible`. The list is the longest affordable
      prefix of the sorted candidates; it is empty exactly when no row of a
      selected category passes the filters or the cheapest one exceeds the budget. */
  method Recommend(df: seq<Row>, budget: real, categories: seq<string>, healthPref: string, sustainPref: string)
    returns (list: seq<Row>, total: real, report: Report<Row>)
    requires NonNegativePrices(df)
    requires 0.0 <= budget
    ensures var c := Eligible(df, categories, healthPref, sustainPref);
      && list == FirstFit(c, budget)
      && list == c[..|list|]
      && LongestAffordablePrefix(c, budget, |list|)
      && total == Cost(list)
      && total <= budget
      && UniqueKeys(list)
      && DrawnFrom(list, df, categories, healthPref, sustainPref)
      && (list == [] <==> c == [] || c[0].price > budget)
    ensures report == Present(list, total)
    ensures var c := Eligible(df, categories, healthPref, sustainPref);
      report == NoItemsFound <==> c == [] || c[0].price > budget
  {
    var c := Eligible(df, categories, healthPref, sustainPref);
    assert NonNegativePrices(c);
    list, total := Allocate(c, budget);
    SortedTakesLongestAffordablePrefix(c, budget);
    SortedEmptyIff(c, budget);
    UniqueBySubsequence(list, c, Key);
    DrawnFromSubsequence(list, c, df, categories, healthPref, sustainPref);
    report := Present(list, total);
  }
}
