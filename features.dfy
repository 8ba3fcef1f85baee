/**
 * Separating the label from the features (project.py:157-159) and sorting
 * the feature columns into categorical and numerical ones
 * (project.py:168-169).
 */
module Features {
  import opened Seqs
  import opened Frames

  const Wins := "blueWins"

  /** Columns with fewer distinct training values than this are categorical. */
  const CategoricalLimit: nat := 4

  datatype Split = Split(features: Table, target: seq<real>)

  /**
   * The feature table is the table without its `blueWins` column; the
   * target is that column on its own (project.py:158-159). Without a
   * `blueWins` column the lookup of the target fails. The features are every other column, in their order,
   * with every row's cells unchanged; the target is the `blueWins` cell
   * of every row, in row order.
   */
  function SplitFeatures(t: Table): (r: Result<Split>)
    requires WellFormed(t)
    ensures r.Failure? <==> Wins !in t.columns
    ensures r.Failure? ==> r.error == MissingColumn(Wins)
    ensures r.Success? ==> WellFormed(r.value.features)
    ensures r.Success? ==> forall c :: c in r.value.features.columns <==> c in t.columns && c != Wins
    ensures r.Success? ==> forall w | 0 <= w < |t.columns| && t.columns[w] == Wins ::
      r.value.features.columns == t.columns[..w] + t.columns[w + 1..]
    ensures r.Success? ==> |r.value.features.rows| == |t.rows| == |r.value.target|
    ensures r.Success? ==> forall k | 0 <= k < |t.rows| ::
      && r.value.features.rows[k] == t.rows[k] - {Wins}
      && r.value.target[k] == t.rows[k][Wins]
  {
    if Wins !in t.columns then Failure(MissingColumn(Wins))
    else
      var w :| 0 <= w < |t.columns| && t.columns[w] == Wins;
      DropOneLabel(t, w);
      assert forall k | 0 <= k < |t.rows| :: t.rows[k].Keys == ColumnSet(t);
      var target := seq(|t.rows|, k requires 0 <= k < |t.rows| => t.rows[k][Wins]);
      Success(Split(DropLabels(t, {Wins}), target))
  }

  /** How many distinct values column `c` takes over the rows (pandas `nunique`). */
  function DistinctCount(t: Table, c: string): nat {
    |set k | 0 <= k < |t.rows| && c in t.rows[k] :: t.rows[k][c]|
  }

  function CategoricalTest(t: Table): string -> bool {
    c => DistinctCount(t, c) < CategoricalLimit
  }

  function NotIn(names: seq<string>): string -> bool {
    c => c !in names
  }

  /** The columns, in order, with fewer than four distinct values (project.py:168). */
  function Categorical(t: Table): seq<string> {
    Select(t.columns, CategoricalTest(t))
  }

  /** The columns, in order, that are not in the categorical list (project.py:169). */
  function Numerical(t: Table): seq<string> {
    Select(t.columns, NotIn(Categorical(t)))
  }

  /**
   * A column is categorical exactly when it has fewer than four distinct
   * training values and numerical exactly when it has at least four; so
   * the two lists are disjoint and together hold every column.
   */
  lemma ClassificationByDistinctCount(t: Table)
    ensures forall c :: c in Categorical(t) <==> c in t.columns && DistinctCount(t, c) < CategoricalLimit
    ensures forall c :: c in Numerical(t) <==> c in t.columns && DistinctCount(t, c) >= CategoricalLimit
  {
    SelectMembership(t.columns, CategoricalTest(t));
    SelectMembership(t.columns, NotIn(Categorical(t)));
  }

  /**
   * The numerical list, defined by exclusion from the categorical one, is
   * the list of columns with at least four distinct values, in column order.
   */
  lemma NumericalHasManyValues(t: Table)
    ensures Numerical(t) == Select(t.columns, c => DistinctCount(t, c) >= CategoricalLimit)
  {
    ClassificationByDistinctCount(t);
    SelectSameTest(t.columns, NotIn(Categorical(t)), c => DistinctCount(t, c) >= CategoricalLimit);
  }

  /**
   * Both lists keep column order, and the positions they take from the
   * column list split it: every position goes to exactly one of them. With
   * distinct labels, their lengths add up to the number of columns.
   */
  lemma ClassificationPartitionsColumns(t: Table)
    requires Distinct(t.columns)
    ensures var cat, num := Indices(t.columns, CategoricalTest(t)), Indices(t.columns, NotIn(Categorical(t)));
      && PicksOut(Categorical(t), t.columns, cat)
      && PicksOut(Numerical(t), t.columns, num)
      && forall i | 0 <= i < |t.columns| :: (i in cat <==> i !in num)
    ensures |Categorical(t)| + |Numerical(t)| == |t.columns|
    ensures Distinct(Categorical(t)) && Distinct(Numerical(t))
  {
    var s, isCat, notCat := t.columns, CategoricalTest(t), NotIn(Categorical(t));
    SelectPicksOut(s, isCat);
    SelectPicksOut(s, notCat);
    IndicesExactly(s, isCat);
    IndicesExactly(s, notCat);
    ClassificationByDistinctCount(t);
    forall i | 0 <= i < |s| ensures notCat(s[i]) == !isCat(s[i]) {
      assert s[i] in s;
    }
    SelectComplement(s, isCat, notCat);
    SelectDistinct(s, isCat);
    SelectDistinct(s, notCat);
  }
}
