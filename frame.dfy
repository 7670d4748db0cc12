/**
 * The in-memory table the script works on: an ordered list of column names
 * and an ordered list of rows, each row mapping column names to cells.
 */
module Frame {
  import opened Wrappers
  import opened Seqs

  /** A cell's text, or `None` for a missing value (pandas NaN). */
  type Cell = Option<string>

  type Row = map<string, Cell>

  datatype Table = Table(columns: seq<string>, rows: seq<Row>)

  /** Every row has exactly the table's columns as keys. */
  ghost predicate WellFormed(t: Table)
  {
    forall i :: 0 <= i < |t.rows| ==> t.rows[i].Keys == set c | c in t.columns
  }

  /** Reads column `c` of a row; a column the row lacks reads as missing. */
  function Get(r: Row, c: string): Cell
  {
    if c in r then r[c] else None
  }

  /** pandas' `astype(str)`: text stays text and a missing value becomes the text "nan". */
  function AsStr(c: Cell): string
  {
    match c
    case Some(s) => s
    case None => "nan"
  }

  /** `df.empty`: no rows or no columns. */
  predicate IsEmpty(t: Table)
  {
    |t.rows| == 0 || |t.columns| == 0
  }

  /**
   * The names of `wanted` that are columns of the table, in the order of
   * `wanted`: the comprehension `[c for c in wanted if c in df.columns]`.
   */
  function Present(wanted: seq<string>, columns: seq<string>): (r: seq<string>)
    ensures IsSubsequence(r, wanted)
    ensures forall c :: c in r <==> c in wanted && c in columns
  {
    SelectMembers(wanted, InColumns(columns));
    Select(wanted, InColumns(columns))
  }

  /** The test `c in df.columns`. */
  function InColumns(columns: seq<string>): string -> bool
  {
    c => c in columns
  }

  /** `v` is the value of column `c` in at least one of the rows. */
  ghost predicate Observed(rows: seq<Row>, c: string, v: string)
  {
    exists i :: 0 <= i < |rows| && Get(rows[i], c) == Some(v)
  }

  /** The non-missing values of column `c`, row by row: `df[c].dropna()`. */
  function ColumnValues(rows: seq<Row>, c: string): (vs: seq<string>)
    ensures |vs| <= |rows|
    ensures forall v :: v in vs <==> Observed(rows, c, v)
    decreases |rows|
  {
    if rows == [] then []
    else
      var rest := ColumnValues(rows[1..], c);
      assert forall v :: Observed(rows, c, v) <==> Get(rows[0], c) == Some(v) || Observed(rows[1..], c, v) by {
        forall v ensures Observed(rows, c, v) ==> Get(rows[0], c) == Some(v) || Observed(rows[1..], c, v) {
          if Observed(rows, c, v) && Get(rows[0], c) != Some(v) {
            var i :| 0 <= i < |rows| && Get(rows[i], c) == Some(v);
            assert rows[1..][i - 1] == rows[i];
          }
        }
        forall v ensures Observed(rows[1..], c, v) ==> Observed(rows, c, v) {
          if Observed(rows[1..], c, v) {
            var i :| 0 <= i < |rows[1..]| && Get(rows[1..][i], c) == Some(v);
            assert rows[i + 1] == rows[1..][i];
          }
        }
      }
      match Get(rows[0], c)
      case Some(v) => [v] + rest
      case None => rest
  }

  /** `Observed` read by row value instead of by position. */
  lemma ObservedIff(rows: seq<Row>, c: string, v: string)
    ensures Observed(rows, c, v) <==> exists x :: x in rows && Get(x, c) == Some(v)
  {
    if exists x :: x in rows && Get(x, c) == Some(v) {
      var x :| x in rows && Get(x, c) == Some(v);
      var i :| 0 <= i < |rows| && rows[i] == x;
    }
  }
}
