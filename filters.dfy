/**
 * The filter chain applied after loading: the approved-only gate, the four
 * optional "All"-sentinel dimension filters with their option lists, and the
 * free-text search across the text columns.
 */
module Filters {
  import opened Wrappers
  import opened Text
  import opened Seqs
  import opened Frame
  import opened Load

  const ApprovedValue := "approved"
  const AllSentinel := "All"
  const AccountColumn := "Account"
  const ThemeColumn := "Theme"
  const ThemeColumnLower := "theme"
  const ManagerColumn := "Project Manager"
  /** The candidate text columns, in the order the search collects them. */
  const SearchColumns := ["SMART Action", "Feedback", "FinalFeedback"]

  // ---- Approved-only gate ----

  /** `df["ApprovalStatus"].str.lower() == "approved"` for one row. */
  predicate IsApproved(r: Row)
  {
    Lower(AsStr(Get(r, StatusColumn))) == ApprovedValue
  }

  /**
   * Keeps exactly the rows whose lower-cased status is "approved", in their
   * original order, each as often as it occurs in the input.
   */
  function Gate(rows: seq<Row>): (r: seq<Row>)
    ensures forall x :: x in r <==> x in rows && IsApproved(x)
    ensures forall x :: multiset(r)[x] == if IsApproved(x) then multiset(rows)[x] else 0
    ensures IsSubsequence(r, rows)
  {
    SelectSpec(rows, IsApproved);
    SelectMembers(rows, IsApproved);
    Select(rows, IsApproved)
  }

  /** Applying the gate to its own output changes nothing. */
  lemma GateIdempotent(rows: seq<Row>)
    ensures Gate(Gate(rows)) == Gate(rows)
  {
    SelectIdempotent(rows, IsApproved);
  }

  // ---- Dimension resolution ----

  /** `name if name in df.columns else None`. */
  function Resolve(columns: seq<string>, name: string): (r: Option<string>)
    ensures r.Some? <==> name in columns
    ensures r.Some? ==> r.value == name
  {
    if name in columns then Some(name) else None
  }

  /** The theme column: "Theme" when present, else "theme" when present, else none. */
  function ResolveTheme(columns: seq<string>): (r: Option<string>)
    ensures ThemeColumn in columns ==> r == Some(ThemeColumn)
    ensures ThemeColumn !in columns && ThemeColumnLower in columns ==> r == Some(ThemeColumnLower)
    ensures r.None? <==> ThemeColumn !in columns && ThemeColumnLower !in columns
  {
    if ThemeColumn in columns then Some(ThemeColumn) else Resolve(columns, ThemeColumnLower)
  }

  // ---- Dimension filters ----

  /** The row test `df[c] == v`; a missing cell never equals a selection. */
  function HasValue(c: string, v: string): Row -> bool
  {
    r => Get(r, c) == Some(v)
  }

  /** A row passes one dimension's selection: unresolved, "All", or an equal cell. */
  predicate DimensionOk(x: Row, col: Option<string>, choice: string)
  {
    col.None? || choice == AllSentinel || Get(x, col.value) == Some(choice)
  }

  /**
   * One dimension filter. An unresolved column or the "All" selection leaves
   * the rows as they are; otherwise exactly the rows whose cell equals the
   * selection are kept, each as often as it occurs, in order.
   */
  function Narrow(rows: seq<Row>, col: Option<string>, choice: string): (r: seq<Row>)
    ensures col.None? || choice == AllSentinel ==> r == rows
    ensures col.Some? && choice != AllSentinel ==>
      forall x :: x in r <==> x in rows && Get(x, col.value) == Some(choice)
    ensures forall x :: multiset(r)[x] == if DimensionOk(x, col, choice) then multiset(rows)[x] else 0
    ensures IsSubsequence(r, rows)
  {
    if col.Some? && choice != AllSentinel then
      SelectSpec(rows, HasValue(col.value, choice));
      SelectMembers(rows, HasValue(col.value, choice));
      Select(rows, HasValue(col.value, choice))
    else
      SubsequenceReflexive(rows);
      rows
  }

  /**
   * The choices offered for column `c`: "All" first, then the distinct
   * non-missing values found in `rows`, strictly ascending.
   */
  function OptionList(rows: seq<Row>, c: string): (r: seq<string>)
    ensures |r| >= 1 && r[0] == AllSentinel
    ensures StrictlySorted(r[1..])
    ensures forall v :: v in r[1..] <==> Observed(rows, c, v)
  {
    var r := [AllSentinel] + SortedDistinct(ColumnValues(rows, c));
    assert r[1..] == SortedDistinct(ColumnValues(rows, c));
    r
  }

  /** The option list of a dimension, or none when its column is unresolved. */
  function OptionsFor(rows: seq<Row>, col: Option<string>): (r: Option<seq<string>>)
    ensures r.Some? <==> col.Some?
  {
    if col.Some? then Some(OptionList(rows, col.value)) else None
  }

  /**
   * The option list is the only one of its kind: any strictly ascending list
   * holding exactly the observed values is the list after "All".
   */
  lemma OptionListUnique(rows: seq<Row>, c: string, vs: seq<string>)
    requires StrictlySorted(vs)
    requires forall v :: v in vs <==> Observed(rows, c, v)
    ensures OptionList(rows, c) == [AllSentinel] + vs
  {
    var r := OptionList(rows, c);
    StrictlySortedUnique(r[1..], vs);
    assert r == [r[0]] + r[1..];
  }

  // ---- Free-text search ----

  /**
   * The search term as compared: `search.strip().lower()`. It is blank
   * exactly when the stripped input is, and holds no upper-case ASCII letter.
   */
  function SearchTerm(search: string): (r: string)
    ensures |r| == |Trim(search)|
    ensures forall k :: 0 <= k < |r| ==> !('A' <= r[k] <= 'Z')
  {
    Lower(Trim(search))
  }

  /**
   * The cell test as the script writes it: `astype(str)` turns a missing
   * cell into "nan" before lower-casing, so `na=False` never applies.
   */
  predicate CellMatchesAsWritten(r: Row, c: string, term: string)
  {
    Contains(Lower(AsStr(Get(r, c))), term)
  }

  /** The cell test as intended: a missing cell never matches. */
  predicate CellMatches(r: Row, c: string, term: string)
  {
    Get(r, c).Some? && Contains(Lower(Get(r, c).value), term)
  }

  predicate MatchesAnyAsWritten(r: Row, textCols: seq<string>, term: string)
  {
    exists k :: 0 <= k < |textCols| && CellMatchesAsWritten(r, textCols[k], term)
  }

  /** The OR across the text columns. */
  predicate MatchesAny(r: Row, textCols: seq<string>, term: string)
  {
    exists k :: 0 <= k < |textCols| && CellMatches(r, textCols[k], term)
  }

  /** The search is active only for a non-blank term and at least one text column. */
  predicate SearchActive(textCols: seq<string>, search: string)
  {
    Trim(search) != [] && textCols != []
  }

  /** A row passes the search stage as written: inactive, or some cell test as written holds. */
  predicate SearchOkAsWritten(x: Row, textCols: seq<string>, search: string)
  {
    SearchActive(textCols, search) ==> MatchesAnyAsWritten(x, textCols, SearchTerm(search))
  }

  /** A row passes the intended search stage. */
  predicate SearchOk(x: Row, textCols: seq<string>, search: string)
  {
    SearchActive(textCols, search) ==> MatchesAny(x, textCols, SearchTerm(search))
  }

  function SearchTestAsWritten(textCols: seq<string>, term: string): Row -> bool
  {
    x => MatchesAnyAsWritten(x, textCols, term)
  }

  /**
   * The search stage with the cell test as the script writes it: identity
   * for a blank term or no text column; otherwise a row is kept iff the term
   * occurs in the lower-cased `astype(str)` text of some text column, each
   * kept row as often as it occurs, in order.
   */
  function SearchAsWritten(rows: seq<Row>, textCols: seq<string>, search: string): (r: seq<Row>)
    ensures !SearchActive(textCols, search) ==> r == rows
    ensures SearchActive(textCols, search) ==>
      forall x :: x in r <==> x in rows && MatchesAnyAsWritten(x, textCols, SearchTerm(search))
    ensures forall x :: multiset(r)[x] == if SearchOkAsWritten(x, textCols, search) then multiset(rows)[x] else 0
    ensures IsSubsequence(r, rows)
  {
    if SearchActive(textCols, search) then
      SelectSpec(rows, SearchTestAsWritten(textCols, SearchTerm(search)));
      SelectMembers(rows, SearchTestAsWritten(textCols, SearchTerm(search)));
      Select(rows, SearchTestAsWritten(textCols, SearchTerm(search)))
    else
      SubsequenceReflexive(rows);
      rows
  }

  /** The test the search stage applies to a row. */
  function SearchTest(textCols: seq<string>, term: string): Row -> bool
  {
    x => MatchesAny(x, textCols, term)
  }

  /**
   * The search stage as intended: identity for a blank term or no text
   * column; otherwise a row is kept iff the stripped, lower-cased term occurs
   * in the lower-cased text of at least one present, non-missing text
   * column, each kept row as often as it occurs, in order.
   */
  function Search(rows: seq<Row>, textCols: seq<string>, search: string): (r: seq<Row>)
    ensures !SearchActive(textCols, search) ==> r == rows
    ensures SearchActive(textCols, search) ==>
      forall x :: x in r <==> x in rows && MatchesAny(x, textCols, SearchTerm(search))
    ensures forall x :: multiset(r)[x] == if SearchOk(x, textCols, search) then multiset(rows)[x] else 0
    ensures IsSubsequence(r, rows)
  {
    if SearchActive(textCols, search) then
      SelectSpec(rows, SearchTest(textCols, SearchTerm(search)));
      SelectMembers(rows, SearchTest(textCols, SearchTerm(search)));
      Select(rows, SearchTest(textCols, SearchTerm(search)))
    else
      SubsequenceReflexive(rows);
      rows
  }

  /** The term "nan" is compared as itself, and a missing cell's text contains it. */
  lemma NanMatchesMissingCell()
    ensures SearchTerm("nan") == "nan"
    ensures Contains(Lower(AsStr(None)), "nan")
  {
    assert Trim("nan") == "nan";
    assert Lower("nan") == "nan";
    assert "nan"[..3] == "nan";
  }

  /**
   * The discrepancy: a row whose only text column is missing is kept by the
   * search as written for the term "nan", and dropped by the intended search.
   */
  lemma MissingCellMatchesAsWritten()
    ensures var row: Row := map["Feedback" := None];
      SearchAsWritten([row], ["Feedback"], "nan") == [row]
      && Search([row], ["Feedback"], "nan") == []
  {
    var row: Row := map["Feedback" := None];
    NanMatchesMissingCell();
    var term := SearchTerm("nan");
    assert Get(row, ["Feedback"][0]) == None;
    assert CellMatchesAsWritten(row, ["Feedback"][0], term);
    assert MatchesAnyAsWritten(row, ["Feedback"], term);
    assert !MatchesAny(row, ["Feedback"], term);
    assert SearchActive(["Feedback"], "nan");
    assert [row][1..] == [];
    assert Select([row], SearchTestAsWritten(["Feedback"], term)) == [row];
    assert Select([row], SearchTest(["Feedback"], term)) == [];
  }

  /**
   * The two searches differ only on missing cells: on rows whose text
   * columns all hold a value they keep the same rows.
   */
  lemma SearchAgreesOnPresentCells(rows: seq<Row>, textCols: seq<string>, search: string)
    requires forall i, k :: 0 <= i < |rows| && 0 <= k < |textCols| ==> Get(rows[i], textCols[k]).Some?
    ensures Search(rows, textCols, search) == SearchAsWritten(rows, textCols, search)
  {
    if SearchActive(textCols, search) {
      var term := SearchTerm(search);
      forall i | 0 <= i < |rows|
        ensures SearchTest(textCols, term)(rows[i]) == SearchTestAsWritten(textCols, term)(rows[i])
      {
        forall k | 0 <= k < |textCols|
          ensures CellMatches(rows[i], textCols[k], term) == CellMatchesAsWritten(rows[i], textCols[k], term)
        {
          assert Get(rows[i], textCols[k]).Some?;
        }
      }
      SelectCongruent(rows, SearchTest(textCols, term), SearchTestAsWritten(textCols, term));
    }
  }
}
