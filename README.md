# SmartCartAI budget shopping lists in Dafny

SmartCartAI's Streamlit scripts turn a grocery catalogue into a recommended
shopping list that fits a budget. Four scripts share one pipeline:

1. select rows by category (all but the budget-based script) and by the
   "Healthy only" and "Sustainable only" label options;
2. drop duplicate products (same product name and brand), keeping the first;
3. sort by unit price;
4. in the two ranking scripts, score each row with the shopper's category
   preferences and re-order by descending score;
5. walk the rows once and put them on the list while the money lasts.

The last step comes in two forms:

- **Single-unit first fit** (budget-based, categories, category-ranking
  scripts). One unit of a row is taken when the running total plus its
  price is still within the budget.
- **Quantity mode** (quantity-modifier script). A row that fits gets two
  units when its category is marked "more of", otherwise one unit. The
  quantity is capped by the whole units the remaining money pays for.

The model is organised like the programs:

- `Sequences`: generic facts used by every stage, namely subsequences,
  mask filtering, uniqueness under a key, and sorting by a real key.
- `Catalogue`: the row type, the filters, de-duplication, the price sort
  and the page's final report.
- `Greedy`: the single-unit loop and what it guarantees.
- `Preferences`: the preference map, `score_item` and the score ordering,
  which are the same code in both ranking scripts.
- One module per script: `BudgetBased`, `WithCategories`,
  `CategoryRanking` and `QuantityModifiers`. Each ends in a `Recommend`
  method that runs that script's pipeline and states what its list
  satisfies.

Each allocation loop is a `method` with loop invariants. It is proved to
build exactly what a left-recursive specification function builds:
`FirstFit` or `QuantityPlan`, defined by "the list after one more row". The
guarantees are proved as lemmas about those functions. The loop that builds
the preference map, `Preferences.BuildPreferences`, is specified directly
by its `ensures`: the keys of the map, and the rank and flag each one holds.

Money is modelled as exact `real` numbers. A loop here therefore computes
the mathematically exact totals that the code's floating-point arithmetic
approximates.

Some properties do not hold of the code, and the model states them as the
code behaves:

- When rows are ordered by score, a larger budget can buy fewer items.
  `CategoryRanking.CountCanDropAsBudgetGrows` gives three rows in score
  order where a budget of 20 buys two items and a budget of 30 buys one.
  Both budgets are inside the widget's range of 5 to 500. The total spent
  never drops (`Greedy.CostMonotoneInBudget`), in any order.
- The item count cannot drop when rows are ordered by price
  (`Greedy.SortedMonotoneInBudget`).
- The code has no default for a candidate whose category has no
  preference entry. The model proves instead that none occurs: every
  candidate's category was selected, and every selected category gets an
  entry.
- The code breaks no ties between rows of equal price or equal score. The
  model's price sort is specified only up to sortedness and permutation,
  the score sort up to sortedness and holding the same rows, and the lemmas
  about the loops hold for every order of equal keys.

## Model

| member | source | states |
|---|---|---|
| Catalogue.LabelFilter | smartcartai_app_budget_based.py:21-25 | the result keeps rows of the input in their order, every kept row passes the selected label options, and every copy of every input row that passes them is kept |
| Catalogue.CategoryFilter | smartcartai_app_with_categories.py:26 | the result keeps rows of the input in their order, exactly those whose category is among the selected ones, each as often as it occurs in the input |
| Sequences.WhereKeepsFirst | smartcartai_app_with_categories.py:26-32 | a row mask that accepts every row meeting a condition keeps the first row of each product meeting it, and that row is still the first of its product to meet it |
| Catalogue.LabelFilterKeepsFirstPassing | smartcartai_app_budget_based.py:21-25 | the first catalogue row of each product passing the label options is, after the label filters, the first row of its product |
| Catalogue.FiltersKeepFirstQualifying | smartcartai_app_with_categories.py:26-32 | the first qualifying catalogue row of each product is, after the category and label filters, the first row of its product |
| Catalogue.DropDuplicates | smartcartai_app_with_categories.py:35 | no two kept rows share product name and brand, the kept rows appear in the input order, every key of the input is still present, and the first row with each key is the one kept |
| Catalogue.SortByPrice | smartcartai_app_with_categories.py:38 | the result is a permutation of the input in ascending unit price, so it has the same keys and stays duplicate-free |
| Catalogue.DedupAndSort | smartcartai_app_budget_based.py:27-31 | the de-duplicated, sorted table is ascending in price, duplicate-free, drawn from the input, has all of its keys and holds the first row of each key |
| Catalogue.Eligible | smartcartai_app_with_categories.py:25-38 | the candidate table is price-ascending and duplicate-free; each candidate is a catalogue row of a selected category passing the label options, every such catalogue row's key is represented, and the row representing it is the first qualifying catalogue row of that key |
| BudgetBased.Candidates | smartcartai_app_budget_based.py:20-31 | the table walked by the loop is price-ascending, duplicate-free, drawn from the catalogue, passes the label options, represents every catalogue row that does, and holds the first such row of each product |
| Greedy.FirstFit | smartcartai_app_with_categories.py:40-52 | the list is drawn from the rows in their order and is no longer than the table |
| Greedy.Allocate | smartcartai_app_with_categories.py:40-52 | the loop builds exactly `FirstFit`, its running total is the sum of the taken prices, and with a non-negative budget the total never exceeds the budget |
| Greedy.WithinBudget | smartcartai_app_budget_based.py:37-44 | the taken prices never sum to more than a non-negative budget |
| Greedy.TakenExactlyWhenAffordable | smartcartai_app_with_category_ranking.py:63-72 | at its turn a row is appended exactly when the running total plus its price is within the budget, otherwise the list is unchanged |
| Greedy.EmptyIffNothingFits | smartcartai_app_with_category_ranking.py:58-81 | in any order the list comes out empty exactly when every single row costs more than the budget |
| Greedy.SortedTakesLongestAffordablePrefix | smartcartai_app_budget_based.py:31-44 | over price-ascending rows the list is a prefix of the table, and it is the longest prefix whose prices fit in the budget |
| Greedy.SortedEmptyIff | smartcartai_app_budget_based.py:31-53 | over price-ascending rows the list is empty exactly when the table is empty or its cheapest row exceeds the budget |
| Greedy.LargerBudgetSameOrBeyond | smartcartai_app_with_category_ranking.py:63-72 | a larger budget makes the same choices or ends up spending more than the smaller budget |
| Greedy.CostMonotoneInBudget | smartcartai_app_with_category_ranking.py:63-72 | in any order, raising the budget never lowers the amount spent |
| Greedy.SortedMonotoneInBudget | smartcartai_app_with_categories.py:38-52 | over price-ascending rows, raising the budget never buys fewer items |
| CategoryRanking.CountCanDropAsBudgetGrows | smartcartai_app_with_category_ranking.py:16-72 | three rows in descending score order, priced 30, 10 and 10, buy two items under a budget of 20 but one under a budget of 30 |
| WithCategories.Recommend | smartcartai_app_with_categories.py:26-61 | the list is the longest affordable prefix of the price-sorted candidates, costs its total, which is within the budget, holds no duplicate product and only catalogue rows of selected categories passing the label options; the page shows the list with its total, and the warning exactly when there is no candidate or the cheapest exceeds the budget |
| BudgetBased.Recommend | smartcartai_app_budget_based.py:21-53 | the list is the longest affordable prefix of the price-sorted candidates, costs its total, which is within the budget, and holds no duplicate product; the page shows the list with its total, and the warning exactly when there is no candidate or the cheapest exceeds the budget |
| Preferences.BuildPreferences | smartcartai_app_with_quantity_modifiers.py:27-34 | the map has exactly the selected categories as keys, each holding the rank and flag entered for its last occurrence, and ranks inside the widget's 1..9 bounds stay inside them |
| Preferences.ScorePositive | smartcartai_app_with_quantity_modifiers.py:48-53 | with a rank of at most 9 and a non-negative price the score is positive |
| Preferences.CheaperScoresHigher | smartcartai_app_with_quantity_modifiers.py:48-53 | within one category a strictly cheaper row scores strictly higher |
| Preferences.BetterRankScoresHigher | smartcartai_app_with_quantity_modifiers.py:48-53 | at equal price and equal flag, a smaller rank number scores strictly higher |
| Preferences.Ranked | smartcartai_app_with_quantity_modifiers.py:48-56 | the result has as many rows as the input, every row of each is in the other, `score_item` never increases along it, and it stays duplicate-free |
| Preferences.RankedFromSorted | smartcartai_app_with_quantity_modifiers.py:55-56 | filling in the score column, sorting by negated score and dropping the column gives such a re-ordering |
| Preferences.RankedCandidates | smartcartai_app_with_category_ranking.py:36-56 | the candidates in score order are duplicate-free, non-increasing in score, drawn from the catalogue with a selected category and passing labels, all scorable, and every qualifying catalogue row's key is represented |
| CategoryRanking.Recommend | smartcartai_app_with_category_ranking.py:20-81 | the preference map has the selected categories as keys, each holding the rank and flag entered for it; the list is first fit over the candidates in the score order those preferences define, drawn from them in order, duplicate-free, made of catalogue rows of selected categories passing the label options, and within the budget; the warning is shown exactly when every candidate alone exceeds the budget |
| QuantityModifiers.MaxAffordableIsFloor | smartcartai_app_with_quantity_modifiers.py:64 | `max_quantity` units fit in the remaining money and one more unit does not |
| QuantityModifiers.AffordableUnits | smartcartai_app_with_quantity_modifiers.py:64-68 | buying at most the affordable number of whole units never costs more than the remaining money |
| QuantityModifiers.OneUnitAffordable | smartcartai_app_with_quantity_modifiers.py:64-65 | at least one unit is affordable exactly when the remaining money covers the unit price |
| QuantityModifiers.NewLineAffordable | smartcartai_app_with_quantity_modifiers.py:63-69 | a row fits exactly when the remaining money covers one unit; its line then has quantity between 1 and the preferred quantity, at most the affordable units, equal to one of the two, a total of quantity times unit price, and a total within the remaining money |
| QuantityModifiers.QuantityPlan | smartcartai_app_with_quantity_modifiers.py:59-78 | the lines are for rows of the table in their order, and every line is well formed |
| QuantityModifiers.Allocate | smartcartai_app_with_quantity_modifiers.py:59-78 | the loop builds exactly `QuantityPlan`, `used_budget` is the sum of the line totals, and with a non-negative budget it never exceeds the budget |
| QuantityModifiers.WithinBudget | smartcartai_app_with_quantity_modifiers.py:62-69 | the line totals never sum to more than a non-negative budget |
| QuantityModifiers.SkippedExactlyWhenUnaffordable | smartcartai_app_with_quantity_modifiers.py:62-78 | at its turn a row is skipped exactly when the remaining budget is below its unit price; otherwise exactly its line is appended |
| QuantityModifiers.PlanEmptyIffNothingFits | smartcartai_app_with_quantity_modifiers.py:62-78 | the plan is empty exactly when every row's unit price exceeds the budget |
| QuantityModifiers.TwoUnitsOfPreferredRow | smartcartai_app_with_quantity_modifiers.py:62-78 | a single "more of" row priced 2 under a budget of 5 is bought twice for 4 |
| QuantityModifiers.CandidatesPurchasable | smartcartai_app_with_quantity_modifiers.py:62-66 | when no eligible row is free, every ranked candidate has a preference entry and a positive unit price, so the lookup and the floor division are defined |
| QuantityModifiers.Recommend | smartcartai_app_with_quantity_modifiers.py:27-87 | the preference map has the selected categories as keys, each holding the rank and flag entered for it; the list is the quantity plan over the candidates in the score order those preferences define, totals within the budget, holds each product at most once, only catalogue rows of selected categories passing the label options, and only well-formed lines; the warning is shown exactly when every candidate's unit price exceeds the budget |

Functions that have no contract, or whose contract only records their own definition for the proofs, are covered by the rows above:

- `Catalogue.Cost` (the running `total_cost` / `used_budget` of the single-unit loop): `Greedy.Allocate`, `Greedy.WithinBudget`, `Greedy.TakenExactlyWhenAffordable`.
- `Preferences.BaseScore` (smartcartai_app_with_quantity_modifiers.py:50-52): `Preferences.ScorePositive`, `Preferences.BetterRankScoresHigher`.
- `Preferences.ScoreItem`, `Preferences.ScoreRows` and `Preferences.ScoreKey` (lines 53-56): `Preferences.ScorePositive`, `Preferences.CheaperScoresHigher`, `Preferences.Ranked`.
- `QuantityModifiers.MaxAffordable` (line 64): `QuantityModifiers.MaxAffordableIsFloor`, `QuantityModifiers.OneUnitAffordable`.
- `QuantityModifiers.Fits` (line 65) and `QuantityModifiers.NewLine` (lines 66-68): `QuantityModifiers.NewLineAffordable`.
- `QuantityModifiers.PreferredQuantity` (line 66): `QuantityModifiers.NewLineAffordable`, `QuantityModifiers.TwoUnitsOfPreferredRow`.
- `QuantityModifiers.LinesCost` (`used_budget`): `QuantityModifiers.Allocate`, `QuantityModifiers.WithinBudget`.
- `Catalogue.Present` (the choice between list and warning): each script's `Recommend`.

## Left out

- Reading the CSV file, the sidebar widgets and the rendering of tables, totals and warnings are not modelled. The widgets' answers become the parameters of each `Recommend`, and the page's choice between list and warning is `Catalogue.Present`.
- smartcartai_app.py is not part of this model. Its classifiers, forecaster and clustering use machine-learning libraries.
- The collaborative-filtering recommender is not part of this model. No file of the core implements it.
- Money is exact `real`. IEEE floating-point rounding and the `round(…, 2)` of displayed totals are not modelled.
- Ties of the sorts are not broken the way pandas orders equal keys. The model promises only sortedness and a permutation (the price sort) or the same rows (the score sort), and every lemma about the loops holds for any order of equal keys.
- Preferences.Ranked, Preferences.RankedFromSorted: state that input and result have the same length and the same rows, not that every row occurs equally often in both. The two agree on the duplicate-free tables the pipeline ranks.
- `df.copy()` and `reset_index` are not modelled. Tables are values in the model, so copying and re-indexing change nothing.
- The unused `total_cost` variable of smartcartai_app_with_category_ranking.py:60 is not modelled.
- QuantityModifiers.Recommend requires that no candidate has price 0. The script's floor division by the unit price would fail on such a row.
- CategoryRanking.Recommend, QuantityModifiers.Recommend: when no candidate survives the filters (no category selected, or no selected row passes the label options), the score assignment at line 55 of both scripts runs `apply(score_item, axis=1)` on an empty table. There pandas probes `score_item` with an empty row, the preference lookup fails, and the script stops with an error before the warning. The model instead returns the empty list and shows the "no items found" warning.
- Every `Recommend` requires non-negative catalogue prices and a non-negative budget. The budget widget allows only 5 to 500.
- Preferences.ScoreItem requires that the row's category has a preference entry. The pipeline is proved to meet this requirement, because only selected categories survive the filter and each gets an entry.
