/**
 * The match-snapshot table and the column pruning done when it is loaded.
 *
 * A table has an ordered list of column labels and an ordered list of rows;
 * each row maps every label to its cell. Cells are reals: most columns hold
 * integer counts, a few (average level, creep score per minute) hold
 * fractions, and the engineered ratio is a fraction.
 */
module Frames {
  import opened Seqs

  type Row = map<string, real>

  datatype Table = Table(columns: seq<string>, rows: seq<Row>)

  /** The failures the script can run into; pandas raises them as exceptions. */
  datatype Error =
    | MissingColumn(name: string)   // KeyError: a label the table does not have
    | PositionOutOfBounds           // IndexError: a column position past the last column

  datatype Result<T> = Success(value: T) | Failure(error: Error) {
    predicate IsFailure() {
      Failure?
    }

    function PropagateFailure<U>(): Result<U>
      requires Failure?
    {
      Failure(error)
    }

    function Extract(): T
      requires Success?
    {
      value
    }
  }

  function ColumnSet(t: Table): set<string> {
    set c | c in t.columns
  }

  /**
   * Every table the script handles is rectangular, and its labels are
   * distinct because the CSV reader renames repeated header names.
   */
  ghost predicate WellFormed(t: Table) {
    && Distinct(t.columns)
    && forall k | 0 <= k < |t.rows| :: t.rows[k].Keys == ColumnSet(t)
  }

  /** The label test of a drop: keep the labels not being dropped. */
  function Kept(names: set<string>): string -> bool {
    c => c !in names
  }

  /**
   * Dropping columns by label (pandas `drop(labels, axis=1)`): the remaining
   * labels keep their order, every row loses exactly the dropped cells, and
   * no other cell changes.
   */
  function DropLabels(t: Table, names: set<string>): (r: Table)
    requires WellFormed(t)
    ensures WellFormed(r)
    ensures forall c :: c in r.columns <==> c in t.columns && c !in names
    ensures PicksOut(r.columns, t.columns, Indices(t.columns, Kept(names)))
    ensures |r.rows| == |t.rows|
    ensures forall k | 0 <= k < |r.rows| :: r.rows[k].Keys == t.rows[k].Keys - names
    ensures forall k, c | 0 <= k < |r.rows| && c in r.rows[k] :: r.rows[k][c] == t.rows[k][c]
  {
    var columns := Select(t.columns, Kept(names));
    SelectMembership(t.columns, Kept(names));
    SelectDistinct(t.columns, Kept(names));
    SelectPicksOut(t.columns, Kept(names));
    var rows := seq(|t.rows|, k requires 0 <= k < |t.rows| => t.rows[k] - names);
    var r := Table(columns, rows);
    assert ColumnSet(r) == ColumnSet(t) - names;
    r
  }

  /**
   * Dropping one label that sits at position `w` removes exactly that
   * position from the label list.
   */
  lemma DropOneLabel(t: Table, w: nat)
    requires WellFormed(t) && w < |t.columns|
    ensures DropLabels(t, {t.columns[w]}).columns == t.columns[..w] + t.columns[w + 1..]
  {
    var s, keep := t.columns, Kept({t.columns[w]});
    forall i | 0 <= i < |s| ensures keep(s[i]) <==> i != w {
    }
    SelectAllBut(s, keep, w);
    assert DropLabels(t, {t.columns[w]}).columns == Select(s, keep);
  }

  /**
   * Dropping one named column (project.py:60): a label the table does not
   * have is a KeyError.
   */
  function DropColumn(t: Table, name: string): (r: Result<Table>)
    requires WellFormed(t)
    ensures r.Failure? <==> name !in t.columns
    ensures r.Failure? ==> r.error == MissingColumn(name)
    ensures r.Success? ==> WellFormed(r.value) && |r.value.columns| + 1 == |t.columns|
    ensures r.Success? ==> forall w | 0 <= w < |t.columns| && t.columns[w] == name ::
      r.value.columns == t.columns[..w] + t.columns[w + 1..]
    ensures r.Success? ==> |r.value.rows| == |t.rows|
    ensures r.Success? ==> forall k | 0 <= k < |t.rows| :: r.value.rows[k] == t.rows[k] - {name}
  {
    if name !in t.columns then Failure(MissingColumn(name))
    else
      var w :| 0 <= w < |t.columns| && t.columns[w] == name;
      DropOneLabel(t, w);
      Success(DropLabels(t, {name}))
  }

  /** The labels found at the given positions; positions past the end contribute none. */
  function LabelsAt(columns: seq<string>, positions: seq<nat>): set<string> {
    set i | 0 <= i < |positions| && positions[i] < |columns| :: columns[positions[i]]
  }

  /**
   * The positions dropped right after loading (project.py:23): the game
   * identifier in column 0 and the red team's block, columns 21 to 39.
   */
  const LoadDropped: seq<nat> :=
    [0, 21, 22, 23, 24, 25, 26, 27, 28, 29, 30, 31, 32, 33, 34, 35, 36, 37, 38, 39]

  /**
   * On the 40-column file, dropping `LoadDropped` leaves exactly the blue
   * team's block, columns 1 to 20, in file order.
   */
  lemma LoadDropKeepsBlueBlock(t: Table)
    requires WellFormed(t) && |t.columns| == 40
    ensures DropLabels(t, LabelsAt(t.columns, LoadDropped)).columns == t.columns[1..21]
  {
    var s := t.columns;
    var names := LabelsAt(s, LoadDropped);
    var keep := Kept(names);
    assert forall j | 0 <= j < |LoadDropped| :: LoadDropped[j] == 0 || 21 <= LoadDropped[j] < 40;
    forall i | 0 <= i < 40
      ensures keep(s[i]) <==> 1 <= i < 21
    {
      if i == 0 {
        assert LoadDropped[0] == 0;
      } else if 21 <= i {
        assert LoadDropped[i - 20] == i;
      }
    }
    SelectSlice(s, keep, 1, 21);
    assert DropLabels(t, names).columns == Select(s, keep);
  }

  /** A table the script changes in place. */
  class DataFrame {
    var columns: seq<string>
    var rows: seq<Row>

    function Snapshot(): Table
      reads this
    {
      Table(columns, rows)
    }

    ghost predicate Valid()
      reads this
    {
      WellFormed(Snapshot())
    }

    constructor (t: Table)
      requires WellFormed(t)
      ensures Valid() && Snapshot() == t
    {
      columns, rows := t.columns, t.rows;
    }

    /** A new frame with the same contents, sharing nothing with this one. */
    method Copy() returns (c: DataFrame)
      requires Valid()
      ensures fresh(c) && c.Valid() && c.Snapshot() == Snapshot()
    {
      c := new DataFrame(Snapshot());
    }

    /**
     * Dropping columns by position, in place (project.py:23): looks up the
     * labels at the positions, then drops those labels from this frame.
     * A position past the last column raises before anything changes.
     */
    method DropColumnsAt(positions: seq<nat>) returns (r: Result<()>)
      requires Valid()
      modifies this
      ensures Valid()
      ensures r.Success? <==> forall i | 0 <= i < |positions| :: positions[i] < |old(columns)|
      ensures r.Failure? ==> r.error == PositionOutOfBounds && Snapshot() == old(Snapshot())
      ensures r.Success? ==> Snapshot() == DropLabels(old(Snapshot()), LabelsAt(old(columns), positions))
    {
      if exists i | 0 <= i < |positions| :: positions[i] >= |columns| {
        return Failure(PositionOutOfBounds);
      }
      var dropped := DropLabels(Snapshot(), LabelsAt(columns, positions));
      columns, rows := dropped.columns, dropped.rows;
      r := Success(());
    }
  }
}
