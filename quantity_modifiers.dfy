/** The quantity-modifier script: the score-ordered candidates are walked once,
    and each row gets as many units as its category asks for ("more of" asks for
    two, otherwise one), cut down to what the remaining budget still pays for. */
module QuantityModifiers {
  import opened Sequences
  import opened Catalogue
  import opened Preferences

  /** One entry of the shopping list: the row (product, brand, category, unit
      price), the number of units and their total price. */
  datatype Line = Line(item: Row, quantity: int, total: real)

  /** `preferred_quantity` */
  function PreferredQuantity(p: Preference): int {
    if p.preferQuantity then 2 else 1
  }

  function Min(a: int, b: int): int {
    if a <= b then a else b
  }

  /** `int(remaining // unit_price)`: the whole units the remaining money pays for. */
  function MaxAffordable(remaining: real, price: real): int
    requires price != 0.0
  {
    (remaining / price).Floor
  }

  /** Every row can be looked up in the preference map and has a price one can divide by. */
  predicate Purchasable(rows: seq<Row>, prefs: map<string, Preference>) {
    forall i :: 0 <= i < |rows| ==> rows[i].category in prefs && rows[i].price > 0.0
  }

  /** What every emitted line satisfies. */
  predicate WellFormedLine(line: Line, prefs: map<string, Preference>) {
    && line.item.category in prefs
    && 1 <= line.quantity <= PreferredQuantity(prefs[line.item.category])
    && line.total == line.quantity as real * line.item.price
  }

  predicate AllWellFormed(lines: seq<Line>, prefs: map<string, Preference>) {
    forall i :: 0 <= i < |lines| ==> WellFormedLine(lines[i], prefs)
  }

  lemma AllWellFormedAppend(lines: seq<Line>, line: Line, prefs: map<string, Preference>)
    requires AllWellFormed(lines, prefs) && WellFormedLine(line, prefs)
    ensures AllWellFormed(lines + [line], prefs)
  {
  }

  /** `used_budget`: the sum of the line totals. */
  function LinesCost(lines: seq<Line>): real
    decreases |lines|
  {
    if lines == [] then 0.0 else LinesCost(lines[..|lines| - 1]) + lines[|lines| - 1].total
  }

  /** The rows the lines are for, in list order. */
  function Items(lines: seq<Line>): (r: seq<Row>)
    ensures |r| == |lines|
    ensures forall i :: 0 <= i < |lines| ==> r[i] == lines[i].item
    decreases |lines|
  {
    if lines == [] then [] else Items(lines[..|lines| - 1]) + [lines[|lines| - 1].item]
  }

  lemma AppendLine(lines: seq<Line>, line: Line)
    ensures LinesCost(lines + [line]) == LinesCost(lines) + line.total
    ensures Items(lines + [line]) == Items(lines) + [line.item]
  {
    assert (lines + [line])[..|lines|] == lines;
  }

  /** Buying a whole number of units no larger than `MaxAffordable` never overspends. */
  lemma AffordableUnits(remaining: real, price: real, q: int)
    requires price > 0.0
    requires q <= MaxAffordable(remaining, price)
    ensures q as real * price <= remaining
  {
    var x := remaining / price;
    assert x * price == remaining;
    assert q as real <= x;
    if q as real * price > remaining {
      MultiplicationCancels(x, q as real, price);
    }
  }

  /** `MaxAffordable` is the floor of the quotient: that many units fit in the
      remaining money and one more unit does not. */
  lemma MaxAffordableIsFloor(remaining: real, price: real)
    requires price > 0.0
    ensures var n := MaxAffordable(remaining, price);
      n as real * price <= remaining < (n + 1) as real * price
  {
    var x, n := remaining / price, MaxAffordable(remaining, price);
    AffordableUnits(remaining, price, n);
    assert x * price == remaining;
    assert x < (n + 1) as real;
    var d := (n + 1) as real - x;
    assert d > 0.0;
    assert d * price > 0.0;
    assert d * price == (n + 1) as real * price - x * price;
    assert remaining < (n + 1) as real * price;
    assert n as real * price <= remaining;
  }

  /** At least one unit is affordable exactly when the remaining money covers one unit price. */
  lemma OneUnitAffordable(remaining: real, price: real)
    requires price > 0.0
    ensures MaxAffordable(remaining, price) >= 1 <==> remaining >= price
  {
    var x := remaining / price;
    assert x * price == remaining;
    if remaining >= price {
      if x < 1.0 {
        MultiplicationCancels(x, 1.0, price);
      }
    } else {
      AffordableUnits(remaining, price, MaxAffordable(remaining, price));
    }
  }

  /** At its turn after `before`, at least one unit of `row` is still affordable. */
  predicate Fits(before: seq<Line>, row: Row, budget: real)
    requires row.price > 0.0
  {
    MaxAffordable(budget - LinesCost(before), row.price) >= 1
  }

  /** The line appended for `row` when it fits: the preferred quantity, capped by
      the affordable units, at `quantity * unit_price`. */
  function NewLine(before: seq<Line>, row: Row, prefs: map<string, Preference>, budget: real): Line
    requires row.category in prefs && row.price > 0.0
  {
    var quantity := Min(PreferredQuantity(prefs[row.category]), MaxAffordable(budget - LinesCost(before), row.price));
    Line(row, quantity, quantity as real * row.price)
  }

  /** A row fits exactly when the remaining budget covers one unit, and the line
      appended for it is well formed and paid for by the remaining budget. */
  lemma NewLineAffordable(before: seq<Line>, row: Row, prefs: map<string, Preference>, budget: real)
    requires row.category in prefs && row.price > 0.0
    ensures Fits(before, row, budget) <==> budget - LinesCost(before) >= row.price
    ensures Fits(before, row, budget) ==>
      var line := NewLine(before, row, prefs, budget);
      var remaining := budget - LinesCost(before);
      var preferred := PreferredQuantity(prefs[row.category]);
      && line.item == row
      && WellFormedLine(line, prefs)
      && line.quantity <= MaxAffordable(remaining, row.price)
      && (line.quantity == preferred || line.quantity == MaxAffordable(remaining, row.price))
      && line.total <= remaining
  {
    var remaining := budget - LinesCost(before);
    OneUnitAffordable(remaining, row.price);
    if Fits(before, row, budget) {
      AffordableUnits(remaining, row.price, NewLine(before, row, prefs, budget).quantity);
    }
  }

  /** The shopping list after the loop has seen `rows`, written from the back:
      the last row is skipped when not even one unit fits, and otherwise gets
      the preferred number of units, capped by what is affordable. */
  function QuantityPlan(rows: seq<Row>, prefs: map<string, Preference>, budget: real): (plan: seq<Line>)
    requires Purchasable(rows, prefs)
    ensures SubsequenceOf(Items(plan), rows)
    ensures AllWellFormed(plan, prefs)
    decreases |rows|
  {
    if rows == [] then []
    else
      var earlier, row := rows[..|rows| - 1], rows[|rows| - 1];
      assert rows == earlier + [row];
      var before := QuantityPlan(earlier, prefs, budget);
      SubsequenceExtend(Items(before), earlier, row);
      if Fits(before, row, budget) then
        var line := NewLine(before, row, prefs, budget);
        NewLineAffordable(before, row, prefs, budget);
        AppendLine(before, line);
        AllWellFormedAppend(before, line, prefs);
        before + [line]
      else
        before
  }

  /** The plan over one more row is one more turn of the loop. */
  lemma PlanStep(rows: seq<Row>, prefs: map<string, Preference>, budget: real, k: nat)
    requires Purchasable(rows, prefs)
    requires k < |rows|
    ensures var before := QuantityPlan(rows[..k], prefs, budget);
      QuantityPlan(rows[..k + 1], prefs, budget) ==
        if Fits(before, rows[k], budget) then before + [NewLine(before, rows[k], prefs, budget)] else before
  {
    assert rows[..k + 1][..k] == rows[..k];
  }

  /** The loop of the script, proved to build exactly `QuantityPlan`. */
  method Allocate(rows: seq<Row>, prefs: map<string, Preference>, budget: real)
    returns (list: seq<Line>, used: real)
    requires Purchasable(rows, prefs)
    ensures list == QuantityPlan(rows, prefs, budget)
    ensures used == LinesCost(list)
    ensures 0.0 <= budget ==> used <= budget
  {
    list, used := [], 0.0;
    for i := 0 to |rows|
      invariant list == QuantityPlan(rows[..i], prefs, budget)
      invariant used == LinesCost(list)
      invariant 0.0 <= budget ==> used <= budget
    {
      PlanStep(rows, prefs, budget, i);
      NewLineAffordable(list, rows[i], prefs, budget);
      // The remaining money is `budget - used`, which the invariant equates with
      // `budget - LinesCost(list)`: `Fits` is the test `max_quantity >= 1`, and
      // `NewLine` the quantity and total price the script computes.
      if Fits(list, rows[i], budget) {
        var line := NewLine(list, rows[i], prefs, budget);
        AppendLine(list, line);
        used := used + line.total;
        list := list + [line];
      }
    }
    assert rows[..|rows|] == rows;
  }

  /** No overspend: the line totals never add up to more than the budget. */
  lemma {:induction false} WithinBudget(rows: seq<Row>, prefs: map<string, Preference>, budget: real)
    requires Purchasable(rows, prefs)
    requires 0.0 <= budget
    ensures LinesCost(QuantityPlan(rows, prefs, budget)) <= budget
    decreases |rows|
  {
    if rows != [] {
      var earlier, row := rows[..|rows| - 1], rows[|rows| - 1];
      var before := QuantityPlan(earlier, prefs, budget);
      WithinBudget(earlier, prefs, budget);
      NewLineAffordable(before, row, prefs, budget);
      AppendLine(before, NewLine(before, row, prefs, budget));
    }
  }

  /** At its turn, row `k` is skipped (nothing changes) exactly when the remaining
      budget is below its unit price; otherwise one line is appended for it whose
      quantity is the preferred one capped by the affordable units, and whose
      total fits in the remaining budget. */
  lemma SkippedExactlyWhenUnaffordable(rows: seq<Row>, prefs: map<string, Preference>, budget: real, k: nat)
    requires Purchasable(rows, prefs)
    requires k < |rows|
    ensures var before := QuantityPlan(rows[..k], prefs, budget);
      var after := QuantityPlan(rows[..k + 1], prefs, budget);
      && (budget - LinesCost(before) < rows[k].price ==> after == before)
      && (budget - LinesCost(before) >= rows[k].price ==> after == before + [NewLine(before, rows[k], prefs, budget)])
  {
    PlanStep(rows, prefs, budget, k);
    NewLineAffordable(QuantityPlan(rows[..k], prefs, budget), rows[k], prefs, budget);
  }

  /** The plan is empty exactly when no single row's unit price fits in the budget:
      while nothing is bought the remaining money is the whole budget. */
  lemma {:induction false} PlanEmptyIffNothingFits(rows: seq<Row>, prefs: map<string, Preference>, budget: real)
    requires Purchasable(rows, prefs)
    ensures QuantityPlan(rows, prefs, budget) == [] <==> forall i :: 0 <= i < |rows| ==> rows[i].price > budget
    decreases |rows|
  {
    if rows != [] {
      var earlier, row := rows[..|rows| - 1], rows[|rows| - 1];
      var before := QuantityPlan(earlier, prefs, budget);
      assert Purchasable(earlier, prefs);
      PlanEmptyIffNothingFits(earlier, prefs, budget);
      assert forall i :: 0 <= i < |earlier| ==> earlier[i] == rows[i];
      NewLineAffordable(before, row, prefs, budget);
    }
  }

  /** A concrete run: a single "more of" row at 2 under a budget of 5 is bought
      twice, for 4 (two units are affordable and two are preferred). */
  lemma TwoUnitsOfPreferredRow(row: Row, prefs: map<string, Preference>)
    requires row.category in prefs && prefs[row.category].preferQuantity
    requires row.price == 2.0
    ensures QuantityPlan([row], prefs, 5.0) == [Line(row, 2, 4.0)]
  {
    assert [row][..0] == [];
    assert MaxAffordable(5.0, 2.0) == 2;
  }

  /** With no zero price among the eligible rows, every ranked candidate can be
      allocated: its category has a preference and its price is positive. */
  lemma CandidatesPurchasable(df: seq<Row>, selected: seq<string>, healthPref: string, sustainPref: string,
                              prefs: map<string, Preference>)
    requires NonNegativePrices(df)
    requires forall c :: c in selected ==> c in prefs
    requires var eligible := Eligible(df, selected, healthPref, sustainPref);
      forall i :: 0 <= i < |eligible| ==> eligible[i].price != 0.0
    ensures Purchasable(RankedCandidates(df, selected, healthPref, sustainPref, prefs), prefs)
  {
    var ranked := RankedCandidates(df, selected, healthPref, sustainPref, prefs);
    var eligible := Eligible(df, selected, healthPref, sustainPref);
    forall i | 0 <= i < |ranked| ensures ranked[i].category in prefs && ranked[i].price > 0.0 {
      assert ranked[i].price >= 0.0;
      assert ranked[i] in eligible;
      var e :| 0 <= e < |eligible| && eligible[e] == ranked[i];
      assert eligible[e].price != 0.0;
    }
  }

  /** The whole script: build the preference map, rank the candidates, allocate. */
  method Recommend(df: seq<Row>, budget: real, healthPref: string, sustainPref: string,
                   selected: seq<string>, ranks: seq<int>, flags: seq<bool>)
    returns (prefs: map<string, Preference>, list: seq<Line>, used: real, report: Report<Line>)
    requires |ranks| == |selected| && |flags| == |selected|
    requires NonNegativePrices(df)
    requires var eligible := Eligible(df, selected, healthPref, sustainPref);
      forall i :: 0 <= i < |eligible| ==> eligible[i].price != 0.0
    requires 0.0 <= budget
    ensures prefs.Keys == set c | c in selected
    ensures forall i :: 0 <= i < |selected| && LastBefore(selected, i, |selected|) ==>
      prefs[selected[i]] == Preference(ranks[i], flags[i])
    ensures var ranked := RankedCandidates(df, selected, healthPref, sustainPref, prefs);
      && list == QuantityPlan(ranked, prefs, budget)
      && used == LinesCost(list)
      && used <= budget
      && SubsequenceOf(Items(list), ranked)
      && UniqueKeys(Items(list))
      && AllWellFormed(list, prefs)
      && DrawnFrom(Items(list), df, selected, healthPref, sustainPref)
    ensures report == Present(list, used)
    ensures var ranked := RankedCandidates(df, selected, healthPref, sustainPref, prefs);
      report == NoItemsFound <==> forall i :: 0 <= i < |ranked| ==> ranked[i].price > budget
  {
    prefs := BuildPreferences(selected, ranks, flags);
    var ranked := RankedCandidates(df, selected, healthPref, sustainPref, prefs);
    CandidatesPurchasable(df, selected, healthPref, sustainPref, prefs);
    list, used := Allocate(ranked, prefs, budget);
    PlanEmptyIffNothingFits(ranked, prefs, budget);
    UniqueBySubsequence(Items(list), ranked, Key);
    DrawnFromSubsequence(Items(list), ranked, df, selected, healthPref, sustainPref);
    report := Present(list, used);
  }
}
