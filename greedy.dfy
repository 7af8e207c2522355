/** Single-unit first-fit allocation, the loop shared by the budget-based,
    category and category-ranking scripts: walk the rows in order, take one unit
    of a row when it still fits under the budget, otherwise skip it and go on. */
module Greedy {
  import opened Sequences
  import opened Catalogue

  /** The shopping list after the loop has seen `rows`. Written from the back:
      the last row is taken exactly when it fits beside what was taken before. */
  function FirstFit(rows: seq<Row>, budget: real): (list: seq<Row>)
    ensures SubsequenceOf(list, rows)
    ensures |list| <= |rows|
    decreases |rows|
  {
    if rows == [] then []
    else
      var earlier, row := rows[..|rows| - 1], rows[|rows| - 1];
      var kept := FirstFit(earlier, budget);
      assert rows == earlier + [row];
      SubsequenceExtend(kept, earlier, row);
      if Cost(kept) + row.price <= budget then kept + [row] else kept
  }

  /** The loop of the scripts, proved to build exactly `FirstFit`. */
  method Allocate(rows: seq<Row>, budget: real) returns (list: seq<Row>, total: real)
    ensures list == FirstFit(rows, budget)
    ensures total == Cost(list)
    ensures 0.0 <= budget ==> total <= budget
    ensures SubsequenceOf(list, rows)
  {
    list, total := [], 0.0;
    for i := 0 to |rows|
      invariant list == FirstFit(rows[..i], budget)
      invariant total == Cost(list)
      invariant 0.0 <= budget ==> total <= budget
    {
      assert rows[..i + 1][..i] == rows[..i];
      if total + rows[i].price <= budget {
        CostAppend(list, rows[i]);
        list := list + [rows[i]];
        total := total + rows[i].price;
      }
    }
    assert rows[..|rows|] == rows;
  }

  /** No overspend: the taken rows never cost more than the budget. */
  lemma {:induction false} WithinBudget(rows: seq<Row>, budget: real)
    requires 0.0 <= budget
    ensures Cost(FirstFit(rows, budget)) <= budget
    decreases |rows|
  {
    if rows != [] {
      var earlier, row := rows[..|rows| - 1], rows[|rows| - 1];
      WithinBudget(earlier, budget);
      CostAppend(FirstFit(earlier, budget), row);
    }
  }

  /** At its turn, row `k` is appended exactly when the running total plus its
      price stays within the budget; otherwise the list is left as it was. */
  lemma TakenExactlyWhenAffordable(rows: seq<Row>, budget: real, k: nat)
    requires k < |rows|
    ensures var before := FirstFit(rows[..k], budget);
      FirstFit(rows[..k + 1], budget) ==
        if Cost(before) + rows[k].price <= budget then before + [rows[k]] else before
  {
    assert rows[..k + 1][..k] == rows[..k];
  }

  /** The list is empty exactly when no single row fits under the budget. */
  lemma {:induction false} EmptyIffNothingFits(rows: seq<Row>, budget: real)
    ensures FirstFit(rows, budget) == [] <==> forall i :: 0 <= i < |rows| ==> rows[i].price > budget
    decreases |rows|
  {
    if rows != [] {
      var earlier := rows[..|rows| - 1];
      EmptyIffNothingFits(earlier, budget);
      assert forall i :: 0 <= i < |earlier| ==> earlier[i] == rows[i];
    }
  }

  /** `rows[..k]` fits under the budget and no longer prefix does. */
  predicate LongestAffordablePrefix(rows: seq<Row>, budget: real, k: nat) {
    && k <= |rows|
    && Cost(rows[..k]) <= budget
    && forall j :: k < j <= |rows| ==> Cost(rows[..j]) > budget
  }

  /** Induction step when every earlier row was taken. */
  lemma PrefixStepAllTaken(rows: seq<Row>, budget: real)
    requires rows != []
    requires var earlier := rows[..|rows| - 1];
      FirstFit(earlier, budget) == earlier && Cost(earlier) <= budget
    ensures var k := |FirstFit(rows, budget)|;
      FirstFit(rows, budget) == rows[..k] && LongestAffordablePrefix(rows, budget, k)
  {
    var n := |rows|;
    var earlier, row := rows[..n - 1], rows[n - 1];
    TakenExactlyWhenAffordable(rows, budget, n - 1);
    assert rows[..n] == rows && earlier + [row] == rows;
    CostAppend(earlier, row);
    if Cost(earlier) + row.price > budget {
      assert Cost(rows[..n]) > budget;
    }
  }

  /** A prefix that is already too dear stays the longest affordable one when
      one more row of non-negative price is appended. */
  lemma LongestPrefixExtends(rows: seq<Row>, budget: real, k: nat)
    requires k < |rows| - 1
    requires rows[|rows| - 1].price >= 0.0
    requires LongestAffordablePrefix(rows[..|rows| - 1], budget, k)
    ensures LongestAffordablePrefix(rows, budget, k)
  {
    var n := |rows|;
    var earlier := rows[..n - 1];
    assert earlier[..k] == rows[..k];
    forall j | k < j <= n ensures Cost(rows[..j]) > budget {
      if j < n {
        assert earlier[..j] == rows[..j];
      } else {
        assert earlier[..n - 1] == earlier && rows[..n] == rows;
        assert Cost(earlier) > budget;
      }
    }
  }

  /** Induction step when an earlier row `k` was refused: the last row is at
      least as dear as row `k`, so it is refused as well. */
  lemma PrefixStepRefused(rows: seq<Row>, budget: real, k: nat)
    requires k < |rows| - 1
    requires 0.0 <= rows[k].price <= rows[|rows| - 1].price
    requires var earlier := rows[..|rows| - 1];
      FirstFit(earlier, budget) == earlier[..k] && LongestAffordablePrefix(earlier, budget, k)
    ensures FirstFit(rows, budget) == rows[..k] && LongestAffordablePrefix(rows, budget, k)
  {
    var n := |rows|;
    var earlier := rows[..n - 1];
    assert Cost(earlier[..k + 1]) > budget;
    assert earlier[..k + 1] == rows[..k] + [rows[k]];
    CostAppend(rows[..k], rows[k]);
    assert earlier[..k] == rows[..k];
    TakenExactlyWhenAffordable(rows, budget, n - 1);
    assert rows[..n] == rows;
    LongestPrefixExtends(rows, budget, k);
  }

  /** Over rows sorted by ascending price (with non-negative prices), first-fit
      takes a prefix, and that prefix is the longest one whose prices fit. */
  lemma {:induction false} SortedTakesLongestAffordablePrefix(rows: seq<Row>, budget: real)
    requires NonNegativePrices(rows)
    requires Ascending(rows, PriceOf)
    requires 0.0 <= budget
    ensures var k := |FirstFit(rows, budget)|;
      FirstFit(rows, budget) == rows[..k] && LongestAffordablePrefix(rows, budget, k)
    decreases |rows|
  {
    if rows != [] {
      var earlier := rows[..|rows| - 1];
      assert Ascending(earlier, PriceOf) && NonNegativePrices(earlier);
      SortedTakesLongestAffordablePrefix(earlier, budget);
      var k := |FirstFit(earlier, budget)|;
      if k == |earlier| {
        assert earlier[..k] == earlier;
        PrefixStepAllTaken(rows, budget);
      } else {
        assert PriceOf(rows[k]) <= PriceOf(rows[|rows| - 1]);
        PrefixStepRefused(rows, budget, k);
      }
    } else {
      assert rows[..0] == rows;
    }
  }

  /** Over price-sorted rows the list is empty exactly when there are no rows
      or the cheapest one is dearer than the budget. */
  lemma SortedEmptyIff(rows: seq<Row>, budget: real)
    requires Ascending(rows, PriceOf)
    ensures FirstFit(rows, budget) == [] <==> rows == [] || rows[0].price > budget
  {
    EmptyIffNothingFits(rows, budget);
    if rows != [] && rows[0].price > budget {
      forall i | 0 <= i < |rows| ensures rows[i].price > budget {
        if i > 0 { assert PriceOf(rows[0]) <= PriceOf(rows[i]); }
      }
    }
  }

  /** Under a larger budget first-fit makes the same choices as under the
      smaller one until it first takes a row the smaller budget refuses; from
      then on it has spent more than the smaller budget allows. */
  lemma {:induction false} LargerBudgetSameOrBeyond(rows: seq<Row>, budget: real, larger: real)
    requires NonNegativePrices(rows)
    requires budget <= larger
    ensures FirstFit(rows, budget) == FirstFit(rows, larger) || Cost(FirstFit(rows, larger)) > budget
    decreases |rows|
  {
    if rows != [] {
      var earlier, row := rows[..|rows| - 1], rows[|rows| - 1];
      var small, big := FirstFit(earlier, budget), FirstFit(earlier, larger);
      assert NonNegativePrices(earlier) && row.price >= 0.0;
      LargerBudgetSameOrBeyond(earlier, budget, larger);
      CostAppend(big, row);
    }
  }

  /** In any order, a larger budget never spends less. */
  lemma CostMonotoneInBudget(rows: seq<Row>, budget: real, larger: real)
    requires NonNegativePrices(rows)
    requires 0.0 <= budget <= larger
    ensures Cost(FirstFit(rows, budget)) <= Cost(FirstFit(rows, larger))
  {
    LargerBudgetSameOrBeyond(rows, budget, larger);
    WithinBudget(rows, budget);
  }

  /** Over price-sorted rows a larger budget never buys fewer items either. */
  lemma SortedMonotoneInBudget(rows: seq<Row>, budget: real, larger: real)
    requires NonNegativePrices(rows)
    requires Ascending(rows, PriceOf)
    requires 0.0 <= budget <= larger
    ensures |FirstFit(rows, budget)| <= |FirstFit(rows, larger)|
  {
    SortedTakesLongestAffordablePrefix(rows, budget);
    SortedTakesLongestAffordablePrefix(rows, larger);
    var k1, k2 := |FirstFit(rows, budget)|, |FirstFit(rows, larger)|;
    if k1 > k2 {
      CostPrefixMonotone(rows, k2 + 1, k1);
    }
  }
}
