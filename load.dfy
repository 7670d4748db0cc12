/**
 * `load_data` after the fetch: the two known columns are rewritten to a
 * canonical text form, and nothing else about the table changes.
 */
module Load {
  import opened Wrappers
  import opened Text
  import opened Frame

  const StatusColumn := "ApprovalStatus"
  const PriorityColumn := "Priority"

  /** `astype(str).str.strip()` on one cell. */
  function StripText(c: Cell): Cell
  {
    Some(Trim(AsStr(c)))
  }

  /** `astype(str).str.strip().str.upper()` on one cell. */
  function UpperText(c: Cell): Cell
  {
    Some(Upper(Trim(AsStr(c))))
  }

  /** `df[c] = f(df[c])`: every row's cell in column `c` is replaced by `f` of it. */
  function ReplaceColumn(rows: seq<Row>, c: string, f: Cell -> Cell): (r: seq<Row>)
    ensures |r| == |rows|
  {
    seq(|rows|, i requires 0 <= i < |rows| => rows[i][c := f(Get(rows[i], c))])
  }

  /**
   * The normalisation `load_data` applies to the freshly read table; it
   * keeps the columns and the number of rows (what it does to each cell is
   * `NormalizeCell`).
   */
  function Normalize(t: Table): (r: Table)
    ensures r.columns == t.columns && |r.rows| == |t.rows|
  {
    var t1 := if StatusColumn in t.columns
      then t.(rows := ReplaceColumn(t.rows, StatusColumn, StripText)) else t;
    if PriorityColumn in t1.columns
      then t1.(rows := ReplaceColumn(t1.rows, PriorityColumn, UpperText)) else t1
  }

  lemma {:induction false} ReplaceColumnCell(rows: seq<Row>, c: string, f: Cell -> Cell, i: int, d: string)
    requires 0 <= i < |rows|
    ensures Get(ReplaceColumn(rows, c, f)[i], d) == if d == c then f(Get(rows[i], c)) else Get(rows[i], d)
    ensures ReplaceColumn(rows, c, f)[i].Keys == rows[i].Keys + {c}
  {
  }

  /** Reads one cell of the normalised table. */
  lemma NormalizeCell(t: Table, i: int, c: string)
    requires 0 <= i < |t.rows|
    ensures |Normalize(t).rows| == |t.rows| && Normalize(t).columns == t.columns
    ensures Get(Normalize(t).rows[i], c) ==
        if c == StatusColumn && StatusColumn in t.columns then StripText(Get(t.rows[i], c))
        else if c == PriorityColumn && PriorityColumn in t.columns then UpperText(Get(t.rows[i], c))
        else Get(t.rows[i], c)
  {
    assert StatusColumn[0] != PriorityColumn[0];
    var t1 := if StatusColumn in t.columns
      then t.(rows := ReplaceColumn(t.rows, StatusColumn, StripText)) else t;
    if StatusColumn in t.columns {
      ReplaceColumnCell(t.rows, StatusColumn, StripText, i, c);
      ReplaceColumnCell(t.rows, StatusColumn, StripText, i, PriorityColumn);
    }
    if PriorityColumn in t1.columns {
      ReplaceColumnCell(t1.rows, PriorityColumn, UpperText, i, c);
    }
  }

  /** Normalisation adds a key to a row only for a column the table has. */
  lemma NormalizeHasKey(t: Table, i: int, c: string)
    requires 0 <= i < |t.rows|
    ensures |Normalize(t).rows| == |t.rows|
    ensures c in Normalize(t).rows[i] <==>
      (c in t.rows[i]
       || (c == StatusColumn && StatusColumn in t.columns)
       || (c == PriorityColumn && PriorityColumn in t.columns))
  {
    var t1 := if StatusColumn in t.columns
      then t.(rows := ReplaceColumn(t.rows, StatusColumn, StripText)) else t;
    if StatusColumn in t.columns {
      ReplaceColumnCell(t.rows, StatusColumn, StripText, i, StatusColumn);
    }
    if PriorityColumn in t1.columns {
      ReplaceColumnCell(t1.rows, PriorityColumn, UpperText, i, PriorityColumn);
    }
  }

  /**
   * Normalisation keeps the columns and the number of rows; in each row it
   * rewrites the status cell (stripped) and the priority cell (stripped and
   * upper-cased) when, and only when, the table has that column, and leaves
   * every other cell as it was. A well-formed table stays well-formed.
   */
  lemma NormalizeFrame(t: Table)
    ensures Normalize(t).columns == t.columns
    ensures |Normalize(t).rows| == |t.rows|
    ensures forall i, c :: 0 <= i < |t.rows| ==>
      Get(Normalize(t).rows[i], c) ==
        if c == StatusColumn && StatusColumn in t.columns then StripText(Get(t.rows[i], c))
        else if c == PriorityColumn && PriorityColumn in t.columns then UpperText(Get(t.rows[i], c))
        else Get(t.rows[i], c)
    ensures WellFormed(t) ==> WellFormed(Normalize(t))
  {
    var n := Normalize(t);
    forall i, c | 0 <= i < |t.rows|
      ensures Get(n.rows[i], c) ==
        if c == StatusColumn && StatusColumn in t.columns then StripText(Get(t.rows[i], c))
        else if c == PriorityColumn && PriorityColumn in t.columns then UpperText(Get(t.rows[i], c))
        else Get(t.rows[i], c)
    {
      NormalizeCell(t, i, c);
    }
    if WellFormed(t) {
      forall i | 0 <= i < |n.rows|
        ensures n.rows[i].Keys == set c | c in n.columns
      {
        forall c ensures c in n.rows[i] <==> c in t.columns {
          NormalizeHasKey(t, i, c);
        }
      }
    }
  }

  /**
   * After normalisation every status and priority cell holds text with no
   * surrounding whitespace, and the priority text has no lower-case letter.
   */
  lemma NormalizeCanonical(t: Table, i: int)
    requires 0 <= i < |t.rows|
    ensures StatusColumn in t.columns ==>
      var v := Get(Normalize(t).rows[i], StatusColumn);
      v.Some? && Trim(v.value) == v.value
    ensures PriorityColumn in t.columns ==>
      var v := Get(Normalize(t).rows[i], PriorityColumn);
      v.Some? && Trim(v.value) == v.value && Upper(v.value) == v.value
  {
    NormalizeCell(t, i, StatusColumn);
    NormalizeCell(t, i, PriorityColumn);
    StripTextIdempotent(Get(t.rows[i], StatusColumn));
    UpperTextIdempotent(Get(t.rows[i], PriorityColumn));
    UpperResult(Trim(AsStr(Get(t.rows[i], PriorityColumn))));
  }

  lemma StripTextIdempotent(c: Cell)
    ensures StripText(StripText(c)) == StripText(c)
  {
    TrimIdempotent(AsStr(c));
  }

  lemma UpperTextIdempotent(c: Cell)
    ensures UpperText(UpperText(c)) == UpperText(c)
  {
    var p := Trim(AsStr(c));
    assert UpperText(c) == Some(Upper(p));
    assert AsStr(Some(Upper(p))) == Upper(p);
    TrimUpperCommute(p);
    TrimIdempotent(AsStr(c));
    assert Trim(Upper(p)) == Upper(p);
    UpperResult(p);
    assert Upper(Upper(p)) == Upper(p);
  }

  lemma NormalizeTwiceCell(t: Table, i: int, c: string)
    requires 0 <= i < |t.rows|
    ensures |Normalize(Normalize(t)).rows| == |t.rows|
    ensures Get(Normalize(Normalize(t)).rows[i], c) == Get(Normalize(t).rows[i], c)
    ensures c in Normalize(Normalize(t)).rows[i] <==> c in Normalize(t).rows[i]
  {
    var n := Normalize(t);
    NormalizeCell(t, i, c);
    NormalizeCell(n, i, c);
    NormalizeHasKey(t, i, c);
    NormalizeHasKey(n, i, c);
    StripTextIdempotent(Get(t.rows[i], StatusColumn));
    UpperTextIdempotent(Get(t.rows[i], PriorityColumn));
  }

  lemma NormalizeTwiceRow(t: Table, i: int)
    requires 0 <= i < |t.rows|
    ensures |Normalize(Normalize(t)).rows| == |t.rows|
    ensures Normalize(Normalize(t)).rows[i] == Normalize(t).rows[i]
  {
    var r := Normalize(t).rows[i];
    NormalizeTwiceCell(t, i, StatusColumn);
    var rr := Normalize(Normalize(t)).rows[i];
    forall c ensures (c in rr <==> c in r) && (c in r ==> rr[c] == r[c]) {
      NormalizeTwiceCell(t, i, c);
    }
    assert rr.Keys == r.Keys;
  }

  /**
   * Normalising an already normalised table changes nothing, so the cached
   * table is already in the canonical form every later stage compares against.
   */
  lemma NormalizeIdempotent(t: Table)
    ensures Normalize(Normalize(t)) == Normalize(t)
  {
    var n := Normalize(t);
    var nn := Normalize(n);
    if |t.rows| > 0 {
      NormalizeTwiceRow(t, 0);
    }
    NormalizeFrame(t);
    NormalizeFrame(n);
    forall i | 0 <= i < |n.rows|
      ensures nn.rows[i] == n.rows[i]
    {
      NormalizeTwiceRow(t, i);
    }
  }
}
