# Diamond-rank 10-minute match snapshots: data preparation, modelled in Dafny

The analysis script reads a table of ranked matches. Each row is a match as it stood
ten minutes in. The columns hold the blue team's statistics, the red team's statistics,
and whether blue won. Before any classifier sees the data, the script does its own
row and column work:

- **Pruning at load** (`project.py:23`). It drops the game identifier (column 0) and the
  red team's block (columns 21 to 39) in place. Later it drops `blueGoldPerMin`, which is
  collinear with the total gold (`project.py:60`).
- **Outlier removal** (`project.py:80-106`). A game is kept only when fewer than 120 wards
  were placed and fewer than 17 were destroyed. The thresholds are fixed constants that
  come from ward and item cooldowns. The script reports how many games were removed.
  When nothing survives, it says so instead of failing. Games with 16 or more deaths are
  counted, but they are not removed.
- **The KDA feature** (`project.py:151-154`). On a copy of the filtered table, each game
  gets `kda = (kills + assists) / deaths`. When deaths are zero, it uses
  `(kills + assists) / 0.5`.
- **Features and label** (`project.py:157-159`). The features are every column except
  `blueWins`, and the label is `blueWins`.
- **Column classification** (`project.py:168-169`). A feature column with fewer than 4
  distinct training values is categorical. Every other feature column is numerical.

The Dafny model is made of these modules:

- `Seqs` (`seqs.dfy`): order-preserving selection (`Select`). This is the boolean mask
  that sits under every row filter, label drop and list comprehension above. It comes
  with lemmas on what selection keeps, in what order, and how many elements it rejects.
- `Frames` (`frames.dfy`): the table. A row is a map from column label to a `real` cell,
  and a table is a list of labels with a list of rows. The module holds dropping by
  label, `DropColumn`, and the class `DataFrame` for the frame the script changes in
  place: in-place drop by position, and copy.
- `Outliers` (`outliers.dfy`): the ward thresholds, the filter, the removed count, the
  preview branch and the reported counts.
- `Kda` (`kda.dfy`): the ratio, the two masked assignments, and the method that copies
  the frame and adds the column.
- `Features` (`features.dfy`): the feature/label split and the categorical/numerical
  classification.
- `Pipeline` (`pipeline.dfy`): the steps from `project.py:23` to `project.py:159` in
  order, as a method proved equal to a function.

Cells are exact reals. The source divides floating-point numbers, but the inputs are
integer counts, so exact division states what the script means. pandas raises a
KeyError for a missing label and an IndexError for a column position past the end.
The model returns these as `Failure(MissingColumn(..))` and `Failure(PositionOutOfBounds)`,
in the order the modelled steps read the columns. Plots and prints between those steps
read further columns and can fail first; "## Left out" lists them.

Where the code and its messages disagree, the model follows the code. The messages at
`project.py:80-82` say "More than 120", "More than 17" and "More than 16", but the code
counts `>= 120`, `>= 17` and `>= 16`. The model counts with `>=`. Those counts are
exactly the complements of the two filter conditions. The KDA branch is also stated
the way the code tests it. The code checks `deaths == 0`, so every other death count
takes the general formula. The model does not read this as "deaths > 0".

## Model

| member | source | states |
|---|---|---|
| `Frames.DropLabels` | project.py:23 | Dropping labels keeps every other label in order (a label stays exactly when it was present and not dropped). Every row keeps its cells minus the dropped ones, unchanged. The row count is kept, and the result is rectangular with distinct labels. |
| `Frames.DataFrame.DropColumnsAt` | project.py:23 | In-place drop by position. A position past the last column fails with PositionOutOfBounds and leaves the frame as it was. Otherwise the frame becomes the old frame with the labels at those positions dropped. |
| `Frames.LoadDropKeepsBlueBlock` | project.py:23 | On the 40-column file, dropping positions 0 and 21 to 39 leaves exactly columns 1 to 20 in file order. |
| `Frames.DropOneLabel` | project.py:60 | Dropping the label at position w leaves the label list with exactly that position removed. |
| `Frames.DropColumn` | project.py:60 | `drop('blueGoldPerMin')` fails with MissingColumn exactly when the label is absent. Otherwise it removes exactly that label's position and that cell from every row, and the row count is unchanged. |
| `Frames.DataFrame.Copy` | project.py:152 | `copy()` returns a fresh frame with equal contents. |
| `Outliers.FilterOutliers` | project.py:93-97 | The filter fails exactly when a ward column is missing, reporting `blueWardsPlaced` first. Otherwise every kept row is an input row with wards placed < 120 and wards destroyed < 17, and the columns are unchanged. |
| `Outliers.FilterKeepsExactlyPlausible` | project.py:93-97 | The kept rows are the input rows at strictly increasing positions, unchanged. A position is kept if and only if its row meets both thresholds, so no qualifying row is lost and order is preserved. |
| `Outliers.ReportOutliers` | project.py:100-106 | `removed_outliers` is the input length minus the output length (a nat). It equals the number of rows failing at least one condition. The preview is "No rows satisfy both conditions" exactly when the result is empty, and otherwise the first min(5, n) kept rows. |
| `Outliers.RemovedBetweenReportedCounts` | project.py:80-100 | The removed count is at least the `>= 120` placed count and at least the `>= 17` destroyed count, and at most their sum. |
| `Outliers.RemovedArePlacedOutliers` | project.py:80-100 | When no game reaches 17 destroyed wards, the removed count equals the `>= 120` placed count, and the output has that many fewer rows (ten games with two over 120 leave eight). |
| `Outliers.DeathsDoNotFilter` | project.py:82-97 | Changing a row's deaths never changes whether the filter keeps it: the `>= 16` deaths count is reported, not filtered. |
| `Outliers.HeavyDeathGamesStay` | project.py:82-97 | Every game counted among those with 16 or more deaths that meets both ward thresholds is still in the filtered table. |
| `Outliers.AllOutliersLeaveNothing` | project.py:103-106 | When every game breaks a limit, the result is the "No rows satisfy both conditions" branch, with every row removed and no error. |
| `Kda.Ratio` | project.py:151-154 | The ratio times 0.5 (zero deaths) or times the deaths (otherwise) gives kills plus assists. |
| `Kda.RatioExamples` | project.py:153-154 | Kills 5 and assists 3 give 16 with 0 deaths and 2 with 4 deaths. |
| `Kda.RatioProperties` | project.py:153-154 | The zero-death value equals the general formula at 0.5 deaths, and non-negative counts give a non-negative ratio. |
| `Kda.WithRatio` | project.py:151-154 | A row gains exactly the `kda` key, and every other cell is unchanged. `kda` is (kills+assists)/0.5 when deaths are 0 and (kills+assists)/deaths otherwise. |
| `Kda.MaskedAssignments` | project.py:153-154 | The two masked assignments (zero-death rows, then the rest) together give every row its ratio by the per-row rule, and the row count is unchanged. |
| `Kda.AddRatioColumn` | project.py:152-154 | Every row gains its `kda` cell and the row count is kept. `kda` is appended as the last column, or overwritten in place if already present, and the table stays rectangular. |
| `Kda.AddRatioColumnOnlyAppends` | project.py:152-154 | On a table without `kda`: the same number of rows, the old columns as a prefix, exactly one new column `kda`, and every existing cell unchanged. |
| `Kda.EngineerRatio` | project.py:151-154 | The original frame is unchanged. The result is a fresh frame equal to `AddRatioColumn` of the original, or a KeyError for `blueDeaths`, `blueKills` or `blueAssists`, checked in that order. |
| `Features.SplitFeatures` | project.py:157-159 | Fails exactly when `blueWins` is missing. Otherwise the features are all columns except `blueWins`, in the original order (the label list with that position removed), with each row minus that cell. The target is each row's `blueWins`, in row order. |
| `Features.ClassificationByDistinctCount` | project.py:168-169 | A column is categorical if and only if it has fewer than 4 distinct values, and numerical if and only if it has 4 or more. So the two lists are disjoint and cover every column. |
| `Features.NumericalHasManyValues` | project.py:169 | The numerical list, defined by exclusion from the categorical one, is the order-preserving selection of columns with at least 4 distinct values. |
| `Features.ClassificationPartitionsColumns` | project.py:168-169 | Both lists are subsequences of the column list. Every column position goes to exactly one of them, their lengths add up to the number of columns, and neither repeats a label. |
| `Pipeline.Prepared` | project.py:23-159 | After pruning, filtering, KDA and the split, the label has one entry per feature row, at most as many as loaded. The features contain `kda` and not `blueWins`, and every feature row still meets both ward thresholds. |
| `Pipeline.EngineeredFeatures` | project.py:151-159 | Adding `kda` to a filtered table and splitting off the label keeps the row count, includes `kda`, excludes `blueWins`, and keeps every row within the ward thresholds. |
| `Pipeline.Prepare` | project.py:23-159 | Running the steps imperatively (in-place prune, drop, filter, copy plus KDA, split) yields exactly `Prepared` of the loaded table. Afterwards the loaded frame is still rectangular; it holds the table with positions 0 and 21 to 39 dropped when it had at least 40 columns, and is unchanged otherwise (the IndexError case). |

## Left out

- CSV reading (`project.py:15`), the missing-value report (`project.py:19-21`) and the pandas display options (`project.py:12-13`) are input and presentation. The model starts from a loaded table.
- All plotting (`project.py:26-75`, `project.py:116-143`) is presentation and does not change the data.
- The correlation matrix and correlation ranking (`project.py:54`, `project.py:65-66`) are floating-point statistics done by pandas.
- The stratified random train/test split (`project.py:160`) is a library call driven by a random generator. The classification takes the training table as its input instead.
- The per-column distinct-value printout (`project.py:162-164`) and all other console output are left out. The outlier preview is modelled as data (`Preview`), not as text.
- Standard scaling (`project.py:177-180`) is floating-point mean and standard-deviation numerics inside scikit-learn.
- GaussianNB, `cross_val_score`, `cross_val_predict`, the metrics and `evaluate_classifier` (`project.py:183-227`) are opaque library estimators and floating-point metrics.
- The result ranking with `sort_values` (`project.py:197`, `project.py:226`) is a library sort over a single candidate.
- Missing values (NaN) are not modelled: every cell is a real. `project.py:19-21` only prints the per-column null counts and enforces nothing. With NaN, pandas comparisons are false and `nunique` skips them.
- Row index labels are not modelled: rows are identified by position.
- Duplicate column labels are excluded by `WellFormed`, because the CSV reader renames repeated headers.
- Frames.DataFrame.DropColumnsAt: positions are natural numbers, so Python's negative (from-the-end) positions are not modelled. The IndexError does not say which position was out of range.
- Kda.MaskedAssignments: between the two assignments pandas fills the not-yet-assigned rows with NaN. The model leaves them without a `kda` cell, and only the state after both assignments is stated.
- Cells are exact reals, not 64-bit floats, so rounding in the ratio is not modelled.
- Pipeline.Prepared: failures raised by the left-out plotting and printing lines are not reproduced. Those lines read `blueWins` (`project.py:28`, `project.py:54`, `project.py:65`), `blueDeaths` (`project.py:65`, `project.py:74`, `project.py:82`), `blueWardsPlaced` and `blueWardsDestroyed` (`project.py:74`, `project.py:80-81`), `blueTotalMinionsKilled`, `blueGoldDiff`, `blueExperienceDiff` and `blueKills` (`project.py:128-131`), and `blueDragons` and `blueHeralds` (`project.py:140-141`). On a table missing one of them, the script stops at that line, while `Prepared` reports the first failure of a modelled step or succeeds.
- Features.SplitFeatures: a missing `blueWins` is reported as `MissingColumn`. The script reads it as the attribute `df_model.blueWins` (`project.py:159`), which raises AttributeError, not KeyError.
