/** Category preferences and preference scoring, the part the category-ranking
    and quantity-modifier scripts share word for word: the preference map built
    from the sidebar, `score_item`, and the re-ordering by descending score. */
module Preferences {
  import opened Sequences
  import opened Catalogue

  /** The sidebar's answer for one selected category. */
  datatype Preference = Preference(rank: int, preferQuantity: bool)

  // Bounds of the rank number input and the constants of `score_item`.
  const MIN_RANK := 1
  const MAX_RANK := 9
  const SCORE_CEILING := 10
  const QUANTITY_BONUS := 2

  /** No later position of `s` holds the same value as position `i`, before `bound`. */
  predicate LastBefore(s: seq<string>, i: int, bound: int)
    requires 0 <= i < |s|
  {
    forall k :: i < k < bound && k < |s| ==> s[k] != s[i]
  }

  /** The loop over the selected categories: each one receives the rank and the
      flag entered for it; if a category were listed twice the later entry wins. */
  method BuildPreferences(selected: seq<string>, ranks: seq<int>, flags: seq<bool>)
    returns (prefs: map<string, Preference>)
    requires |ranks| == |selected| && |flags| == |selected|
    ensures prefs.Keys == set c | c in selected
    ensures forall i :: 0 <= i < |selected| && LastBefore(selected, i, |selected|) ==>
      prefs[selected[i]] == Preference(ranks[i], flags[i])
    ensures (forall i :: 0 <= i < |ranks| ==> MIN_RANK <= ranks[i] <= MAX_RANK) ==>
      forall c :: c in prefs ==> MIN_RANK <= prefs[c].rank <= MAX_RANK
  {
    prefs := map[];
    for i := 0 to |selected|
      invariant prefs.Keys == set c | c in selected[..i]
      invariant forall j :: 0 <= j < i && LastBefore(selected, j, i) ==>
        prefs[selected[j]] == Preference(ranks[j], flags[j])
      invariant forall c :: c in prefs ==> exists j :: 0 <= j < i && prefs[c].rank == ranks[j]
    {
      assert selected[..i + 1] == selected[..i] + [selected[i]];
      prefs := prefs[selected[i] := Preference(ranks[i], flags[i])];
    }
    assert selected[..|selected|] == selected;
  }

  /** The numerator of the score: 10 minus the rank, plus 2 for "more of". */
  function BaseScore(p: Preference): int {
    SCORE_CEILING - p.rank + (if p.preferQuantity then QUANTITY_BONUS else 0)
  }

  /** `score_item`: the base score of the row's category divided by its price plus one. */
  function ScoreItem(prefs: map<string, Preference>, row: Row): (score: real)
    requires row.category in prefs
    requires row.price + 1.0 != 0.0
    ensures score * (row.price + 1.0) == BaseScore(prefs[row.category]) as real
  {
    BaseScore(prefs[row.category]) as real / (row.price + 1.0)
  }

  /** With a rank inside the widget's bounds and a non-negative price, every score is positive. */
  lemma ScorePositive(prefs: map<string, Preference>, row: Row)
    requires row.category in prefs && prefs[row.category].rank <= MAX_RANK
    requires row.price >= 0.0
    ensures ScoreItem(prefs, row) > 0.0
  {
    var s := ScoreItem(prefs, row);
    assert BaseScore(prefs[row.category]) >= 1;
  }

  lemma MultiplicationCancels(x: real, y: real, c: real)
    requires c > 0.0 && x * c < y * c
    ensures x < y
  {
  }

  /** Within one category, a strictly cheaper row scores strictly higher. */
  lemma CheaperScoresHigher(prefs: map<string, Preference>, cheap: Row, dear: Row)
    requires cheap.category == dear.category && cheap.category in prefs
    requires prefs[cheap.category].rank <= MAX_RANK
    requires 0.0 <= cheap.price < dear.price
    ensures ScoreItem(prefs, cheap) > ScoreItem(prefs, dear)
  {
    var b := BaseScore(prefs[cheap.category]) as real;
    var sc, sd := ScoreItem(prefs, cheap), ScoreItem(prefs, dear);
    assert b >= 1.0;
    ScorePositive(prefs, dear);
    assert sd * (dear.price + 1.0) == b == sc * (cheap.price + 1.0);
    assert sd * (cheap.price + 1.0) < sd * (dear.price + 1.0);
    assert sd * (cheap.price + 1.0) < sc * (cheap.price + 1.0);
    MultiplicationCancels(sd, sc, cheap.price + 1.0);
  }

  /** At one price and with the same "more of" flag, a better (smaller) rank
      number scores strictly higher. */
  lemma BetterRankScoresHigher(prefs: map<string, Preference>, better: Row, worse: Row)
    requires better.category in prefs && worse.category in prefs
    requires prefs[better.category].rank < prefs[worse.category].rank
    requires prefs[better.category].preferQuantity == prefs[worse.category].preferQuantity
    requires better.price == worse.price >= 0.0
    ensures ScoreItem(prefs, better) > ScoreItem(prefs, worse)
  {
    var sb, sw := ScoreItem(prefs, better), ScoreItem(prefs, worse);
    assert BaseScore(prefs[better.category]) > BaseScore(prefs[worse.category]);
    assert sb * (better.price + 1.0) > sw * (better.price + 1.0);
  }

  /** A row with its `score` column filled in. */
  datatype ScoredRow = ScoredRow(row: Row, score: real)

  /** The rows `score_item` can be applied to under `prefs`. */
  predicate Scorable(rows: seq<Row>, prefs: map<string, Preference>) {
    forall i :: 0 <= i < |rows| ==> rows[i].category in prefs && rows[i].price >= 0.0
  }

  /** `filtered_df["score"] = filtered_df.apply(score_item, axis=1)` */
  function ScoreRows(rows: seq<Row>, prefs: map<string, Preference>): (r: seq<ScoredRow>)
    requires Scorable(rows, prefs)
    ensures |r| == |rows|
    ensures forall i :: 0 <= i < |r| ==> r[i].row == rows[i] && r[i].score == ScoreItem(prefs, rows[i])
  {
    seq(|rows|, i requires 0 <= i < |rows| => ScoredRow(rows[i], ScoreItem(prefs, rows[i])))
  }

  /** Sorting by this key ascending is sorting by score descending. */
  function ScoreKey(s: ScoredRow): real {
    -s.score
  }

  function RowKey(s: ScoredRow): (string, string) {
    Key(s.row)
  }

  /** Drops the score column again. */
  function RowsOf(s: seq<ScoredRow>): (r: seq<Row>)
    ensures |r| == |s| && forall i :: 0 <= i < |s| ==> r[i] == s[i].row
  {
    seq(|s|, i requires 0 <= i < |s| => s[i].row)
  }

  /** Scores never increase along `r`. */
  predicate ScoreDescending(r: seq<Row>, prefs: map<string, Preference>)
    requires Scorable(r, prefs)
  {
    forall i, j :: 0 <= i < j < |r| ==> ScoreItem(prefs, r[i]) >= ScoreItem(prefs, r[j])
  }

  /** Everything `Ranked` promises about a re-ordering `r` of `rows`. */
  predicate RankedFrom(r: seq<Row>, rows: seq<Row>, prefs: map<string, Preference>)
    requires Scorable(rows, prefs)
  {
    && |r| == |rows|
    && (forall i :: 0 <= i < |r| ==> r[i] in rows)
    && (forall i :: 0 <= i < |rows| ==> rows[i] in r)
    && Scorable(r, prefs)
    && ScoreDescending(r, prefs)
    && (UniqueKeys(rows) ==> UniqueKeys(r))
  }

  /** A permutation of the scored rows holds the same rows with their scores. */
  lemma ScoredPermutationMembers(rows: seq<Row>, prefs: map<string, Preference>, sorted: seq<ScoredRow>)
    requires Scorable(rows, prefs)
    requires multiset(sorted) == multiset(ScoreRows(rows, prefs))
    ensures |sorted| == |rows|
    ensures forall i :: 0 <= i < |sorted| ==>
      && sorted[i].row in rows && sorted[i].row.category in prefs && sorted[i].row.price >= 0.0
      && sorted[i].score == ScoreItem(prefs, sorted[i].row)
    ensures forall j :: 0 <= j < |rows| ==> rows[j] in RowsOf(sorted)
  {
    var scored := ScoreRows(rows, prefs);
    assert |sorted| == |scored| by {
      assert |multiset(sorted)| == |multiset(scored)|;
    }
    forall i | 0 <= i < |sorted|
      ensures sorted[i].row in rows && sorted[i].score == ScoreItem(prefs, sorted[i].row)
    {
      assert sorted[i] in multiset(scored);
      var j :| 0 <= j < |scored| && scored[j] == sorted[i];
    }
    var r := RowsOf(sorted);
    forall j | 0 <= j < |rows| ensures rows[j] in r {
      assert scored[j] in multiset(sorted);
      var i :| 0 <= i < |sorted| && sorted[i] == scored[j];
      assert r[i] == rows[j];
    }
  }

  /** A permutation of the scored rows of duplicate-free rows is duplicate-free. */
  lemma ScoredPermutationUnique(rows: seq<Row>, prefs: map<string, Preference>, sorted: seq<ScoredRow>)
    requires Scorable(rows, prefs) && UniqueKeys(rows)
    requires multiset(sorted) == multiset(ScoreRows(rows, prefs))
    ensures UniqueKeys(RowsOf(sorted))
  {
    var scored := ScoreRows(rows, prefs);
    assert UniqueBy(scored, RowKey) by {
      forall i, j | 0 <= i < j < |scored| ensures RowKey(scored[i]) != RowKey(scored[j]) {
        assert Key(rows[i]) != Key(rows[j]);
      }
    }
    UniqueByPermutation(scored, sorted, RowKey);
    var r := RowsOf(sorted);
    forall i, j | 0 <= i < j < |r| ensures Key(r[i]) != Key(r[j]) {
      assert RowKey(sorted[i]) != RowKey(sorted[j]);
    }
  }

  lemma RankedFromSorted(rows: seq<Row>, prefs: map<string, Preference>)
    requires Scorable(rows, prefs)
    ensures RankedFrom(RowsOf(SortBy(ScoreRows(rows, prefs), ScoreKey)), rows, prefs)
  {
    var sorted := SortBy(ScoreRows(rows, prefs), ScoreKey);
    var r := RowsOf(sorted);
    ScoredPermutationMembers(rows, prefs, sorted);
    assert Scorable(r, prefs);
    forall i, j | 0 <= i < j < |r| ensures ScoreItem(prefs, r[i]) >= ScoreItem(prefs, r[j]) {
      assert ScoreKey(sorted[i]) <= ScoreKey(sorted[j]);
    }
    if UniqueKeys(rows) {
      ScoredPermutationUnique(rows, prefs, sorted);
    }
  }

  /** Score every row, then order by descending score and drop the score
      column. Rows of equal score may come in either order. */
  function Ranked(rows: seq<Row>, prefs: map<string, Preference>): (r: seq<Row>)
    requires Scorable(rows, prefs)
    ensures RankedFrom(r, rows, prefs)
  {
    RankedFromSorted(rows, prefs);
    RowsOf(SortBy(ScoreRows(rows, prefs), ScoreKey))
  }

  /** A re-ordering by score has the same keys as the rows it re-orders. */
  lemma RankedKeys(r: seq<Row>, rows: seq<Row>, prefs: map<string, Preference>)
    requires Scorable(rows, prefs)
    requires RankedFrom(r, rows, prefs)
    ensures KeysOf(r) == KeysOf(rows)
  {
    forall k | k in KeysOf(rows) ensures k in KeysOf(r) {
      var i :| 0 <= i < |rows| && Key(rows[i]) == k;
      var j :| 0 <= j < |r| && r[j] == rows[i];
    }
    forall k | k in KeysOf(r) ensures k in KeysOf(rows) {
      var j :| 0 <= j < |r| && Key(r[j]) == k;
      var i :| 0 <= i < |rows| && rows[i] == r[j];
    }
  }

  /** Rows drawn from a catalogue with non-negative prices, all of a selected
      category, can be scored once every selected category has a preference. */
  lemma EligibleScorable(df: seq<Row>, selected: seq<string>, healthPref: string, sustainPref: string,
                         prefs: map<string, Preference>)
    requires NonNegativePrices(df)
    requires forall c :: c in selected ==> c in prefs
    ensures Scorable(Eligible(df, selected, healthPref, sustainPref), prefs)
  {
    var eligible := Eligible(df, selected, healthPref, sustainPref);
    forall i | 0 <= i < |eligible| ensures eligible[i].price >= 0.0 {
      var j :| 0 <= j < |df| && df[j] == eligible[i];
    }
  }

  /** The whole candidate pipeline of both ranking scripts: category and label
      filters, de-duplication, price sort, then the score ordering. Every
      candidate's category has a preference, so `score_item` never misses. */
  function RankedCandidates(df: seq<Row>, selected: seq<string>, healthPref: string, sustainPref: string,
                            prefs: map<string, Preference>): (r: seq<Row>)
    requires NonNegativePrices(df)
    requires forall c :: c in selected ==> c in prefs
    ensures forall i :: 0 <= i < |r| ==> r[i] in Eligible(df, selected, healthPref, sustainPref)
    ensures UniqueKeys(r)
    ensures Scorable(r, prefs)
    ensures ScoreDescending(r, prefs)
    ensures DrawnFrom(r, df, selected, healthPref, sustainPref)
    ensures Represents(r, df, selected, healthPref, sustainPref)
  {
    var eligible := Eligible(df, selected, healthPref, sustainPref);
    EligibleScorable(df, selected, healthPref, sustainPref, prefs);
    var r := Ranked(eligible, prefs);
    RankedKeys(r, eligible, prefs);
    DrawnFromMembers(r, eligible, df, selected, healthPref, sustainPref);
    r
  }
}
