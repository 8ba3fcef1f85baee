/**
 * The script's data preparation in order (project.py:23-159): prune the
 * loaded columns, drop the collinear gold column, remove outlier games,
 * add the ratio feature to a copy, and split features from the label.
 * Plots and prints in between do not change the data and are not modelled.
 */
module Pipeline {
  import opened Frames
  import opened Outliers
  import Kda
  import opened Features

  /** Dropped for multicollinearity with the total gold (project.py:60). */
  const GoldPerMin := "blueGoldPerMin"

  /**
   * What the preparation yields for a loaded table, step by step; the
   * first failing modelled step decides the error (the plots and prints
   * between the steps read further columns; they are not modelled).
   */
  function Prepared(t: Table): (r: Result<Split>)
    requires WellFormed(t)
    ensures r.Success? ==> |r.value.target| == |r.value.features.rows| <= |t.rows|
    ensures r.Success? ==> Kda.KdaColumn in r.value.features.columns && Wins !in r.value.features.columns
    ensures r.Success? ==> forall k | 0 <= k < |r.value.features.rows| ::
      Plausible(r.value.features.rows[k])
  {
    if exists i | 0 <= i < |LoadDropped| :: LoadDropped[i] >= |t.columns| then Failure(PositionOutOfBounds)
    else
      var pruned := DropLabels(t, LabelsAt(t.columns, LoadDropped));
      match DropColumn(pruned, GoldPerMin)
      case Failure(e) => Failure(e)
      case Success(reduced) =>
        match FilterOutliers(reduced)
        case Failure(e) => Failure(e)
        case Success(filtered) =>
          if Kda.Deaths !in filtered.columns then Failure(MissingColumn(Kda.Deaths))
          else if Kda.Kills !in filtered.columns then Failure(MissingColumn(Kda.Kills))
          else if Kda.Assists !in filtered.columns then Failure(MissingColumn(Kda.Assists))
          else
            EngineeredFeatures(filtered);
            SplitFeatures(Kda.AddRatioColumn(filtered))
  }

  /**
   * After the ratio is added and the label split off, the features still
   * hold the ward columns of the filtered rows, now joined by `kda`.
   */
  lemma EngineeredFeatures(filtered: Table)
    requires WellFormed(filtered)
    requires Kda.Deaths in filtered.columns && Kda.Kills in filtered.columns && Kda.Assists in filtered.columns
    requires forall k | 0 <= k < |filtered.rows| :: Plausible(filtered.rows[k])
    ensures var split := SplitFeatures(Kda.AddRatioColumn(filtered));
      split.Success? ==>
        && |split.value.target| == |split.value.features.rows| == |filtered.rows|
        && Kda.KdaColumn in split.value.features.columns && Wins !in split.value.features.columns
        && forall k | 0 <= k < |split.value.features.rows| :: Plausible(split.value.features.rows[k])
  {
    var engineered := Kda.AddRatioColumn(filtered);
    var split := SplitFeatures(engineered);
    if split.Success? {
      var features := split.value.features;
      assert Kda.KdaColumn in engineered.columns;
      forall k | 0 <= k < |features.rows|
        ensures Plausible(features.rows[k])
      {
        assert features.rows[k] == engineered.rows[k] - {Wins};
        assert engineered.rows[k] == Kda.WithRatio(filtered.rows[k]);
        assert Plausible(filtered.rows[k]);
      }
    }
  }

  /**
   * The script's statements from project.py:23 to project.py:159. The
   * loaded frame is pruned in place; every later step works on a new
   * frame, so the pruned frame is what remains in `df`. A frame with fewer
   * than 40 columns fails the pruning and is left as it was.
   */
  method Prepare(df: DataFrame) returns (r: Result<Split>)
    requires df.Valid()
    modifies df
    ensures r == Prepared(old(df.Snapshot()))
    ensures df.Valid()
    ensures |old(df.columns)| < 40 ==> df.Snapshot() == old(df.Snapshot())
    ensures |old(df.columns)| >= 40 ==>
      df.Snapshot() == DropLabels(old(df.Snapshot()), LabelsAt(old(df.columns), LoadDropped))
  {
    assert LoadDropped[|LoadDropped| - 1] == 39;
    var pruning := df.DropColumnsAt(LoadDropped);
    if pruning.Failure? {
      return Failure(pruning.error);
    }
    var reduced :- DropColumn(df.Snapshot(), GoldPerMin);
    var report :- ReportOutliers(reduced);
    var filtered := new DataFrame(report.filtered);
    var engineered :- Kda.EngineerRatio(filtered);
    r := SplitFeatures(engineered.Snapshot());
  }
}
