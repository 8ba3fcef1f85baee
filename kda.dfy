/**
 * The engineered ratio feature (project.py:151-154).
 *
 * KDA is (kills + assists) / deaths, computed per game. A game without
 * deaths would divide by zero, so the script divides by 0.5 instead.
 * The script copies the filtered table first and writes the new `kda`
 * column into the copy with two masked assignments: one for the rows with
 * zero deaths, one for the rest.
 */
module Kda {
  import opened Seqs
  import opened Frames

  const Kills := "blueKills"
  const Assists := "blueAssists"
  const Deaths := "blueDeaths"
  const KdaColumn := "kda"

  /** The denominator that stands in for zero deaths. */
  const ZeroDeathsDenominator: real := 0.5

  /**
   * The ratio of one game: multiplied back by the deaths (or by 0.5 when
   * there are none) it gives kills plus assists.
   */
  function Ratio(kills: real, assists: real, deaths: real): (kda: real)
    ensures deaths == 0.0 ==> kda * ZeroDeathsDenominator == kills + assists
    ensures deaths != 0.0 ==> kda * deaths == kills + assists
  {
    if deaths == 0.0 then (kills + assists) / ZeroDeathsDenominator
    else (kills + assists) / deaths
  }

  /** The worked examples: 5 kills and 3 assists give 16 without deaths and 2 with 4. */
  lemma RatioExamples()
    ensures Ratio(5.0, 3.0, 0.0) == 16.0
    ensures Ratio(5.0, 3.0, 4.0) == 2.0
  {
  }

  /**
   * The zero-death branch is the general formula with 0.5 deaths, and the
   * ratio of non-negative counts is non-negative.
   */
  lemma RatioProperties(kills: real, assists: real, deaths: real)
    requires kills >= 0.0 && assists >= 0.0 && deaths >= 0.0
    ensures Ratio(kills, assists, 0.0) == Ratio(kills, assists, ZeroDeathsDenominator)
    ensures Ratio(kills, assists, deaths) >= 0.0
  {
  }

  predicate HasInputs(r: Row) {
    Kills in r && Assists in r && Deaths in r
  }

  /** A row with its `kda` cell set from its own kills, assists and deaths. */
  function WithRatio(r: Row): (s: Row)
    requires HasInputs(r)
    ensures s.Keys == r.Keys + {KdaColumn}
    ensures forall c | c in r && c != KdaColumn :: s[c] == r[c]
    ensures r[Deaths] == 0.0 ==> s[KdaColumn] == (r[Kills] + r[Assists]) / 0.5
    ensures r[Deaths] != 0.0 ==> s[KdaColumn] == (r[Kills] + r[Assists]) / r[Deaths]
  {
    r[KdaColumn := Ratio(r[Kills], r[Assists], r[Deaths])]
  }

  /**
   * The table after the two assignments: the same rows in the same order,
   * each with its `kda` cell, and `kda` appended as the last column (if the
   * table already had a `kda` column it is overwritten in place).
   */
  function AddRatioColumn(t: Table): (r: Table)
    requires WellFormed(t) && Kills in t.columns && Assists in t.columns && Deaths in t.columns
    ensures WellFormed(r)
    ensures r.columns == t.columns + (if KdaColumn in t.columns then [] else [KdaColumn])
    ensures |r.rows| == |t.rows|
    ensures forall k | 0 <= k < |r.rows| :: r.rows[k] == WithRatio(t.rows[k])
  {
    var columns := t.columns + (if KdaColumn in t.columns then [] else [KdaColumn]);
    forall k | 0 <= k < |t.rows| ensures HasInputs(t.rows[k]) {
      assert t.rows[k].Keys == ColumnSet(t);
    }
    var rows := seq(|t.rows|, k requires 0 <= k < |t.rows| => WithRatio(t.rows[k]));
    var r := Table(columns, rows);
    assert ColumnSet(r) == ColumnSet(t) + {KdaColumn};
    assert Distinct(columns) by {
      forall i, j | 0 <= i < j < |columns| ensures columns[i] != columns[j] {
        if j == |t.columns| {
          assert columns[i] == t.columns[i];
        }
      }
    }
    r
  }

  /**
   * Appending the feature is append-only: no row is added or lost, every
   * cell that existed keeps its value, and exactly one column is new.
   */
  lemma AddRatioColumnOnlyAppends(t: Table)
    requires WellFormed(t) && Kills in t.columns && Assists in t.columns && Deaths in t.columns
    requires KdaColumn !in t.columns
    ensures var r := AddRatioColumn(t);
      && |r.rows| == |t.rows|
      && |r.columns| == |t.columns| + 1
      && r.columns[..|t.columns|] == t.columns
      && r.columns[|t.columns|] == KdaColumn
      && forall k, c | 0 <= k < |t.rows| && c in t.rows[k] :: c in r.rows[k] && r.rows[k][c] == t.rows[k][c]
  {
  }

  /**
   * The two masked assignments of project.py:153-154, the zero-death rows
   * first, then the others: together they give every row its ratio by the
   * per-row rule.
   */
  function MaskedAssignments(rows: seq<Row>, mask: seq<bool>): (s: seq<Row>)
    requires |mask| == |rows|
    requires forall k | 0 <= k < |rows| :: HasInputs(rows[k]) && mask[k] == (rows[k][Deaths] == 0.0)
    ensures |s| == |rows|
    ensures forall k | 0 <= k < |rows| :: s[k] == WithRatio(rows[k])
  {
    var n := |rows|;
    // first assignment: the zero-death rows get (kills + assists) / 0.5
    var zeroDeaths := seq(n, k requires 0 <= k < n && HasInputs(rows[k]) =>
      if mask[k] then rows[k][KdaColumn := (rows[k][Kills] + rows[k][Assists]) / ZeroDeathsDenominator]
      else rows[k]);
    // second assignment: every other row gets (kills + assists) / deaths
    seq(n, k requires 0 <= k < n && HasInputs(rows[k]) =>
      if !mask[k] then zeroDeaths[k][KdaColumn := (rows[k][Kills] + rows[k][Assists]) / rows[k][Deaths]]
      else zeroDeaths[k])
  }

  /**
   * Lines 151-154 as the script runs them: read the death mask from the
   * filtered frame, copy it, then assign `kda` on the zero-death rows and
   * on the others. The original frame is not altered. A missing column is
   * a KeyError, raised for `blueDeaths` first, then `blueKills`, then
   * `blueAssists`.
   */
  method EngineerRatio(df: DataFrame) returns (r: Result<DataFrame>)
    requires df.Valid()
    ensures unchanged(df)
    ensures r.Failure? <==>
      Deaths !in df.columns || Kills !in df.columns || Assists !in df.columns
    ensures r.Failure? ==> r.error == MissingColumn(
      if Deaths !in df.columns then Deaths else if Kills !in df.columns then Kills else Assists)
    ensures r.Success? ==> fresh(r.value) && r.value.Valid()
    ensures r.Success? ==> r.value.Snapshot() == AddRatioColumn(df.Snapshot())
  {
    if Deaths !in df.columns {
      return Failure(MissingColumn(Deaths));
    }
    var before := df.rows;
    assert forall k | 0 <= k < |before| :: before[k].Keys == ColumnSet(df.Snapshot());
    var mask := seq(|before|, k requires 0 <= k < |before| => before[k][Deaths] == 0.0);
    var copy := df.Copy();
    if Kills !in copy.columns {
      return Failure(MissingColumn(Kills));
    }
    if Assists !in copy.columns {
      return Failure(MissingColumn(Assists));
    }
    var expected := AddRatioColumn(df.Snapshot());
    copy.rows := MaskedAssignments(copy.rows, mask);
    if KdaColumn !in copy.columns {
      copy.columns := copy.columns + [KdaColumn];
    }
    assert copy.rows == expected.rows;
    r := Success(copy);
  }
}
