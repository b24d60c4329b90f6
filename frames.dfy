/** The abstract table the HAIID functions work on: an ordered list of column
    names and a sequence of rows, each row mapping every column name to a
    cell. This stands for a pandas DataFrame without its index. */
module Frames {
  import opened Seqs

  /** A cell: a number read from the file, a text field, or a boolean that a
      comparison produced. */
  datatype Value = Num(x: real) | Text(s: string) | Flag(b: bool)

  type Row = map<string, Value>

  datatype Table = Table(columns: seq<string>, rows: seq<Row>)

  /** Rectangular: column names are distinct and every row has exactly the
      table's columns. */
  predicate WellFormed(t: Table) {
    && Distinct(t.columns)
    && forall i :: 0 <= i < |t.rows| ==> t.rows[i].Keys == set c | c in t.columns
  }

  /** A table as a DataFrame always is. */
  type Frame = t: Table | WellFormed(t) witness Table([], [])

  /** The failures of a call, in place of the exceptions the code raises. */
  datatype Error =
    | InvalidTask(name: string)        // the bare `raise` after an unknown task name
    | InvalidGrouping(grouping: string) // the bare `raise` after an unknown grouping
    | MissingColumn(column: string)    // attribute or key lookup of an absent column
    | NonNumeric(column: string)       // arithmetic or comparison on a text cell
    | ZeroDenominator                  // a division whose denominator is zero
    | NonNumericMean                   // the mean of a series holding text
    | EmptyMean                        // the mean of an empty series

  datatype Result<T> = Ok(value: T) | Err(error: Error)

  /** An optional argument: `None` when the caller leaves the default. */
  datatype Option<T> = None | Some(value: T) {
    function GetOr(default: T): T {
      if Some? then value else default
    }
  }

  /** The row-mask test `row[col] == v`. */
  function Matches(col: string, v: Value): Row -> bool {
    (row: Row) => col in row && row[col] == v
  }

  /** The rows of `t` whose cell in `col` equals `v`, as the boolean mask
      `t[t[col] == v]` selects them; the columns are unchanged. */
  function Where(t: Frame, col: string, v: Value): (r: Frame)
    ensures r.columns == t.columns
    ensures |r.rows| <= |t.rows|
  {
    var rows := Filter(t.rows, Matches(col, v));
    FilterMembers(t.rows, Matches(col, v));
    assert forall i :: 0 <= i < |rows| ==> rows[i].Keys == set c | c in t.columns by {
      forall i | 0 <= i < |rows| ensures rows[i].Keys == set c | c in t.columns {
        var j :| 0 <= j < |t.rows| && t.rows[j] == rows[i];
      }
    }
    Table(t.columns, rows)
  }

  /** `Where` keeps exactly the rows whose cell in `col` is `v`, each once,
      unchanged and in their original order. */
  lemma {:induction false} WhereSelectsInOrder(t: Frame, col: string, v: Value)
    ensures var idx := KeptIndices(t.rows, Matches(col, v));
      && |idx| == |Where(t, col, v).rows|
      && (forall k :: 0 <= k < |idx| ==> idx[k] < |t.rows| && Where(t, col, v).rows[k] == t.rows[idx[k]])
      && (forall k, l :: 0 <= k < l < |idx| ==> idx[k] < idx[l])
      && (forall i :: 0 <= i < |t.rows| ==> (col in t.rows[i] && t.rows[i][col] == v <==> i in idx))
  {
    FilterSelectsInOrder(t.rows, Matches(col, v));
  }

  /** The table with the columns in `drop` removed from the column list and
      from every row; the other columns keep their order. */
  function Project(t: Frame, drop: set<string>): (r: Frame)
    ensures |r.rows| == |t.rows|
  {
    var keep := (c: string) => c !in drop;
    var cols := Filter(t.columns, keep);
    FilterDistinct(t.columns, keep);
    FilterMembers(t.columns, keep);
    var rows := seq(|t.rows|, i requires 0 <= i < |t.rows| => t.rows[i] - drop);
    assert forall i :: 0 <= i < |rows| ==> rows[i].Keys == set c | c in cols by {
      forall i | 0 <= i < |rows| ensures rows[i].Keys == set c | c in cols {
        forall c ensures c in rows[i].Keys <==> c in cols {
          if c in cols {
            var k :| 0 <= k < |cols| && cols[k] == c;
          }
          if c in rows[i].Keys {
            var j :| 0 <= j < |t.columns| && t.columns[j] == c;
          }
        }
      }
    }
    Table(cols, rows)
  }

  /** `Project` keeps the columns outside `drop` in their relative order and
      removes exactly the dropped ones; each row keeps its other cells
      unchanged. */
  lemma {:induction false} ProjectKeepsOthers(t: Frame, drop: set<string>)
    ensures var idx := KeptIndices(t.columns, (c: string) => c !in drop);
      && |idx| == |Project(t, drop).columns|
      && (forall k :: 0 <= k < |idx| ==> idx[k] < |t.columns| && Project(t, drop).columns[k] == t.columns[idx[k]])
      && (forall k, l :: 0 <= k < l < |idx| ==> idx[k] < idx[l])
      && (forall j :: 0 <= j < |t.columns| ==> (t.columns[j] !in drop <==> j in idx))
    ensures forall c :: c in Project(t, drop).columns <==> c in t.columns && c !in drop
    ensures forall i, c :: 0 <= i < |t.rows| && c in Project(t, drop).rows[i] ==>
      c in t.rows[i] && c !in drop && Project(t, drop).rows[i][c] == t.rows[i][c]
    ensures forall i, c :: 0 <= i < |t.rows| && c in t.rows[i] && c !in drop ==> c in Project(t, drop).rows[i]
  {
    var keep := (c: string) => c !in drop;
    FilterSelectsInOrder(t.columns, keep);
    FilterMembers(t.columns, keep);
  }

  /** The column `c` as a series aligned with the rows (`df[c]`, `df.c`);
      an absent column is an error. */
  function Column(t: Frame, c: string): (r: Result<seq<Value>>)
    ensures r.Ok? <==> c in t.columns
    ensures r.Err? ==> r.error == MissingColumn(c)
    ensures r.Ok? ==> |r.value| == |t.rows| && forall i :: 0 <= i < |t.rows| ==> r.value[i] == t.rows[i][c]
  {
    if c !in t.columns then Err(MissingColumn(c))
    else Ok(seq(|t.rows|, i requires 0 <= i < |t.rows| => t.rows[i][c]))
  }
}
