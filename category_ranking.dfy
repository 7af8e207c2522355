/** The category-ranking script: the eligible rows are re-ordered by their
    preference score, best first, and one unit of each is taken while the
    running total stays within the budget. */
module CategoryRanking {
  import opened Sequences
  import opened Catalogue
  import opened Preferences
  import opened Greedy

  /** The whole script. Unlike the price-ordered scripts the list need not be
      a prefix of the candidates: a dear row early in score order is skipped and
      cheaper rows after it can still be taken. The list is empty exactly when
      every candidate alone exceeds the budget. */
  method Recommend(df: seq<Row>, budget: real, healthPref: string, sustainPref: string,
                   selected: seq<string>, ranks: seq<int>, flags: seq<bool>)
    returns (prefs: map<string, Preference>, list: seq<Row>, total: real, report: Report<Row>)
    requires |ranks| == |selected| && |flags| == |selected|
    requires NonNegativePrices(df)
    requires 0.0 <= budget
    ensures prefs.Keys == set c | c in selected
    ensures forall i :: 0 <= i < |selected| && LastBefore(selected, i, |selected|) ==>
      prefs[selected[i]] == Preference(ranks[i], flags[i])
    ensures var ranked := RankedCandidates(df, selected, healthPref, sustainPref, prefs);
      && list == FirstFit(ranked, budget)
      && total == Cost(list)
      && total <= budget
      && SubsequenceOf(list, ranked)
      && UniqueKeys(list)
      && DrawnFrom(list, df, selected, healthPref, sustainPref)
      && (list == [] <==> forall i :: 0 <= i < |ranked| ==> ranked[i].price > budget)
    ensures report == Present(list, total)
    ensures var ranked := RankedCandidates(df, selected, healthPref, sustainPref, prefs);
      report == NoItemsFound <==> forall i :: 0 <= i < |ranked| ==> ranked[i].price > budget
  {
    prefs := BuildPreferences(selected, ranks, flags);
    var ranked := RankedCandidates(df, selected, healthPref, sustainPref, prefs);
    list, total := Allocate(ranked, budget);
    EmptyIffNothingFits(ranked, budget);
    UniqueBySubsequence(list, ranked, Key);
    DrawnFromSubsequence(list, ranked, df, selected, healthPref, sustainPref);
    report := Present(list, total);
  }

  /** In score order a larger budget can buy fewer items (though, by
      `CostMonotoneInBudget`, never for less money). A row at 30 of a rank-1
      "more of" category scores 11/31 and comes before two rows at 10 of a
      rank-9 category, which score 1/11. A budget of 20 skips the first row and
      buys the other two; a budget of 30 buys the first row and nothing else. */
  lemma CountCanDropAsBudgetGrows(a: Row, b: Row, c: Row, prefs: map<string, Preference>)
    requires a.category in prefs && prefs[a.category] == Preference(1, true)
    requires b.category in prefs && prefs[b.category] == Preference(9, false)
    requires c.category == b.category
    requires a.price == 30.0 && b.price == 10.0 && c.price == 10.0
    ensures Scorable([a, b, c], prefs) && ScoreDescending([a, b, c], prefs)
    ensures |FirstFit([a, b, c], 20.0)| == 2
    ensures |FirstFit([a, b, c], 30.0)| == 1
  {
    var rows := [a, b, c];
    assert ScoreItem(prefs, a) == 11.0 / 31.0;
    assert ScoreItem(prefs, b) == 1.0 / 11.0 == ScoreItem(prefs, c);
    assert rows[..1] == [a] && rows[..2] == [a, b] && rows[..2][..1] == [a];
    assert [a][..0] == [];
    CostAppend([], a);
    CostAppend([], b);
    CostAppend([b], c);
    assert FirstFit([a], 20.0) == [];
    assert FirstFit([a, b], 20.0) == [b];
    assert FirstFit([a], 30.0) == [a];
    assert FirstFit([a, b], 30.0) == [a];
  }
}
