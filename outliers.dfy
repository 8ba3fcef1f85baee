/**
 * Removal of implausible games (project.py:80-106).
 *
 * A game is kept only if fewer than 120 wards were placed and fewer than
 * 17 were destroyed in its first ten minutes: the ward and the item that
 * clears wards both have cooldowns that make higher counts impossible in
 * honest play. Games with 16 or more deaths are counted and reported but
 * are NOT removed.
 */
module Outliers {
  import opened Seqs
  import opened Frames
  import Kda

  const WardsPlaced := "blueWardsPlaced"
  const WardsDestroyed := "blueWardsDestroyed"

  /** The fixed, domain-derived thresholds; they are not fitted to the data. */
  const WardsPlacedLimit: real := 120.0
  const WardsDestroyedLimit: real := 17.0
  const DeathsReported: real := 16.0

  /** Both ward conditions of the mask (project.py:93-94). */
  predicate Plausible(r: Row) {
    && WardsPlaced in r && r[WardsPlaced] < WardsPlacedLimit
    && WardsDestroyed in r && r[WardsDestroyed] < WardsDestroyedLimit
  }

  /** A row the mask removes. */
  predicate Outlier(r: Row) {
    !Plausible(r)
  }

  /** The three counts reported before filtering (project.py:80-82). */
  predicate TooManyPlaced(r: Row) {
    WardsPlaced in r && r[WardsPlaced] >= WardsPlacedLimit
  }

  predicate TooManyDestroyed(r: Row) {
    WardsDestroyed in r && r[WardsDestroyed] >= WardsDestroyedLimit
  }

  predicate TooManyDeaths(r: Row) {
    Kda.Deaths in r && r[Kda.Deaths] >= DeathsReported
  }

  /** `len(df[condition])`: how many rows meet a condition. */
  function Count(rows: seq<Row>, condition: Row -> bool): nat {
    |Select(rows, condition)|
  }

  /**
   * `df[condition_wards_placed & condition_wards_destroyed]`
   * (project.py:93-97). Reading a column the table lacks is a KeyError;
   * the wards-placed column is read first. Every kept row meets both
   * thresholds and is one of the input rows, unchanged; the columns are
   * the input's.
   */
  function FilterOutliers(t: Table): (r: Result<Table>)
    requires WellFormed(t)
    ensures r.Failure? <==> WardsPlaced !in t.columns || WardsDestroyed !in t.columns
    ensures r.Failure? ==>
      r.error == MissingColumn(if WardsPlaced !in t.columns then WardsPlaced else WardsDestroyed)
    ensures r.Success? ==> WellFormed(r.value) && r.value.columns == t.columns
    ensures r.Success? ==> forall k | 0 <= k < |r.value.rows| ::
      && r.value.rows[k] in t.rows
      && r.value.rows[k][WardsPlaced] < WardsPlacedLimit
      && r.value.rows[k][WardsDestroyed] < WardsDestroyedLimit
  {
    if WardsPlaced !in t.columns then Failure(MissingColumn(WardsPlaced))
    else if WardsDestroyed !in t.columns then Failure(MissingColumn(WardsDestroyed))
    else Success(Table(t.columns, Select(t.rows, Plausible)))
  }

  /**
   * The filter keeps exactly the qualifying rows: its rows are the input's
   * rows at the strictly increasing positions `Indices(t.rows, Plausible)`,
   * and a position is among them exactly when its row meets both
   * thresholds. No row content changes and no qualifying row is lost.
   */
  lemma FilterKeepsExactlyPlausible(t: Table)
    requires WellFormed(t) && WardsPlaced in t.columns && WardsDestroyed in t.columns
    ensures var idx := Indices(t.rows, Plausible);
      && PicksOut(FilterOutliers(t).value.rows, t.rows, idx)
      && forall i | 0 <= i < |t.rows| ::
           i in idx <==> t.rows[i][WardsPlaced] < WardsPlacedLimit && t.rows[i][WardsDestroyed] < WardsDestroyedLimit
  {
    SelectPicksOut(t.rows, Plausible);
    IndicesExactly(t.rows, Plausible);
    forall i | 0 <= i < |t.rows|
      ensures WardsPlaced in t.rows[i] && WardsDestroyed in t.rows[i]
    {
      assert t.rows[i].Keys == ColumnSet(t);
    }
  }

  /** What the script shows after filtering (project.py:103-106). */
  datatype Preview = Head(rows: seq<Row>) | NoRowsSatisfy

  datatype FilterReport = FilterReport(filtered: Table, removed: nat, preview: Preview)

  const PreviewLength: nat := 5

  /**
   * Filter, the `removed_outliers` count (project.py:100) and the preview
   * branch (project.py:103-106). An empty result is an outcome, not an
   * error: it selects the "No rows satisfy both conditions." branch. The
   * removed count is the number of rows that fail at least one threshold.
   */
  function ReportOutliers(t: Table): (r: Result<FilterReport>)
    requires WellFormed(t)
    ensures r.Failure? <==> FilterOutliers(t).Failure?
    ensures r.Failure? ==> r.error == FilterOutliers(t).error
    ensures r.Success? ==> r.value.filtered == FilterOutliers(t).value
    ensures r.Success? ==> r.value.removed == |t.rows| - |r.value.filtered.rows|
    ensures r.Success? ==> r.value.removed == Count(t.rows, Outlier)
    ensures r.Success? ==> (r.value.preview == NoRowsSatisfy <==> r.value.filtered.rows == [])
    ensures r.Success? && r.value.preview.Head? ==>
      r.value.preview.rows == r.value.filtered.rows[..if |r.value.filtered.rows| < PreviewLength then |r.value.filtered.rows| else PreviewLength]
  {
    match FilterOutliers(t)
    case Failure(e) => Failure(e)
    case Success(filtered) =>
      SelectComplement(t.rows, Plausible, Outlier);
      var removed := |t.rows| - |filtered.rows|;
      var preview :=
        if |filtered.rows| > 0 then
          Head(filtered.rows[..if |filtered.rows| < PreviewLength then |filtered.rows| else PreviewLength])
        else NoRowsSatisfy;
      Success(FilterReport(filtered, removed, preview))
  }

  /**
   * The counts printed at project.py:80-81 bound the number removed: at
   * least each of them, at most their sum (a game can break both limits).
   */
  lemma RemovedBetweenReportedCounts(t: Table)
    requires WellFormed(t) && WardsPlaced in t.columns && WardsDestroyed in t.columns
    ensures Count(t.rows, TooManyPlaced) <= ReportOutliers(t).value.removed
    ensures Count(t.rows, TooManyDestroyed) <= ReportOutliers(t).value.removed
    ensures ReportOutliers(t).value.removed <= Count(t.rows, TooManyPlaced) + Count(t.rows, TooManyDestroyed)
  {
    forall i | 0 <= i < |t.rows|
      ensures Outlier(t.rows[i]) == (TooManyPlaced(t.rows[i]) || TooManyDestroyed(t.rows[i]))
    {
      assert t.rows[i].Keys == ColumnSet(t);
    }
    SelectEitherBounds(t.rows, TooManyPlaced, TooManyDestroyed, Outlier);
  }

  /**
   * When no game breaks the destroyed-wards limit, exactly the games
   * counted at project.py:80 are removed (with ten games of which two
   * have 120 or more wards placed: eight stay, two are removed).
   */
  lemma RemovedArePlacedOutliers(t: Table)
    requires WellFormed(t) && WardsPlaced in t.columns && WardsDestroyed in t.columns
    requires Count(t.rows, TooManyDestroyed) == 0
    ensures ReportOutliers(t).value.removed == Count(t.rows, TooManyPlaced)
    ensures |ReportOutliers(t).value.filtered.rows| == |t.rows| - Count(t.rows, TooManyPlaced)
  {
    RemovedBetweenReportedCounts(t);
  }

  /** The death count of project.py:82 plays no part in the mask. */
  lemma DeathsDoNotFilter(r: Row, deaths: real)
    ensures Plausible(r[Kda.Deaths := deaths]) == Plausible(r)
  {
  }

  /**
   * The games counted at project.py:82 are reported, not removed: every
   * such game that meets both ward thresholds is still in the filtered
   * table.
   */
  lemma HeavyDeathGamesStay(t: Table)
    requires WellFormed(t) && WardsPlaced in t.columns && WardsDestroyed in t.columns
    ensures forall k | 0 <= k < |t.rows| && TooManyDeaths(t.rows[k]) && Plausible(t.rows[k]) ::
      t.rows[k] in FilterOutliers(t).value.rows
  {
    SelectMembership(t.rows, Plausible);
  }

  /** Filtering a table in which every game breaks a limit leaves no rows. */
  lemma AllOutliersLeaveNothing(t: Table)
    requires WellFormed(t) && WardsPlaced in t.columns && WardsDestroyed in t.columns
    requires forall k | 0 <= k < |t.rows| :: Outlier(t.rows[k])
    ensures ReportOutliers(t).value.preview == NoRowsSatisfy
    ensures ReportOutliers(t).value.removed == |t.rows|
  {
    SelectNone(t.rows, Plausible);
  }
}
