/**
 * The whole script once the sheet is fetched: load-time normalisation, the
 * empty-sheet and mandatory-column checks, the filter chain, the metrics and
 * the displayed columns. `Pipeline` states the result as a composition of the
 * stages; `RunPipeline` computes it step by step as the script does.
 */
module App {
  import opened Wrappers
  import opened Text
  import opened Seqs
  import opened Frame
  import opened Load
  import opened Filters
  import opened Report

  /** What the user picked in the sidebar: one value per dimension and the search text. */
  datatype Selections = Selections(account: string, theme: string, manager: string, priority: string, search: string)

  /** The two conditions that stop the script before any row is shown. */
  datatype Failure = NoData | MissingApprovalStatus

  /** Everything the page shows: the option lists, the rows, the metrics and the columns. */
  datatype View = View(
    accountOptions: Option<seq<string>>,
    themeOptions: Option<seq<string>>,
    managerOptions: Option<seq<string>>,
    priorityOptions: Option<seq<string>>,
    rows: seq<Row>,
    metrics: Metrics,
    displayColumns: seq<string>)

  /** The resolved column of each optional dimension. */
  datatype Dimensions = Dimensions(account: Option<string>, theme: Option<string>,
                                   manager: Option<string>, priority: Option<string>)

  function ResolveAll(columns: seq<string>): Dimensions
  {
    Dimensions(Resolve(columns, AccountColumn), ResolveTheme(columns),
               Resolve(columns, ManagerColumn), Resolve(columns, PriorityColumn))
  }

  /** The row set after each stage of the chain. */
  datatype Trace = Trace(approved: seq<Row>, byAccount: seq<Row>, byTheme: seq<Row>,
                         byManager: seq<Row>, byPriority: seq<Row>, searched: seq<Row>)

  function Chain(df: Table, sel: Selections): Trace
  {
    var d := ResolveAll(df.columns);
    var a0 := Gate(df.rows);
    var a1 := Narrow(a0, d.account, sel.account);
    var a2 := Narrow(a1, d.theme, sel.theme);
    var a3 := Narrow(a2, d.manager, sel.manager);
    var a4 := Narrow(a3, d.priority, sel.priority);
    Trace(a0, a1, a2, a3, a4, SearchAsWritten(a4, Present(SearchColumns, df.columns), sel.search))
  }

  /** The page computed from the fetched sheet `raw` and the user's selections. */
  function Pipeline(raw: Table, sel: Selections): Result<View, Failure>
  {
    var df := Normalize(raw);
    if IsEmpty(df) then Failure(NoData)
    else if StatusColumn !in df.columns then Failure(MissingApprovalStatus)
    else
      var d := ResolveAll(df.columns);
      var tr := Chain(df, sel);
      Success(View(
        OptionsFor(tr.approved, d.account),
        OptionsFor(tr.byAccount, d.theme),
        OptionsFor(tr.byTheme, d.manager),
        OptionsFor(tr.byManager, d.priority),
        tr.searched,
        ComputeMetrics(tr.searched, df.rows, d.priority),
        DisplayColumns(df.columns)))
  }

  /** A row passes the gate and the first `k` dimension filters, in chain order. */
  predicate Admitted(x: Row, d: Dimensions, sel: Selections, k: nat)
  {
    && IsApproved(x)
    && (k > 0 ==> DimensionOk(x, d.account, sel.account))
    && (k > 1 ==> DimensionOk(x, d.theme, sel.theme))
    && (k > 2 ==> DimensionOk(x, d.manager, sel.manager))
    && (k > 3 ==> DimensionOk(x, d.priority, sel.priority))
  }

  /**
   * Each stage's rows are exactly the sheet's rows that pass the gate and the
   * filters so far (the filters combine with AND), and the final rows hold
   * each sheet row that passes every stage as often as the sheet does.
   */
  lemma ChainMembers(df: Table, sel: Selections)
    ensures var d := ResolveAll(df.columns); var tr := Chain(df, sel);
      && (forall x :: x in tr.approved <==> x in df.rows && Admitted(x, d, sel, 0))
      && (forall x :: x in tr.byAccount <==> x in df.rows && Admitted(x, d, sel, 1))
      && (forall x :: x in tr.byTheme <==> x in df.rows && Admitted(x, d, sel, 2))
      && (forall x :: x in tr.byManager <==> x in df.rows && Admitted(x, d, sel, 3))
      && (forall x :: x in tr.byPriority <==> x in df.rows && Admitted(x, d, sel, 4))
      && (forall x :: x in tr.searched <==> x in df.rows && Admitted(x, d, sel, 4)
                                            && SearchOkAsWritten(x, Present(SearchColumns, df.columns), sel.search))
      && (forall x :: multiset(tr.searched)[x] ==
            (if Admitted(x, d, sel, 4) && SearchOkAsWritten(x, Present(SearchColumns, df.columns), sel.search)
             then multiset(df.rows)[x] else 0))
  {
  }

  lemma ChainSubsequence(df: Table, sel: Selections)
    ensures IsSubsequence(Chain(df, sel).searched, df.rows)
  {
    var tr := Chain(df, sel);
    SubsequenceTransitive(tr.byAccount, tr.approved, df.rows);
    SubsequenceTransitive(tr.byTheme, tr.byAccount, df.rows);
    SubsequenceTransitive(tr.byManager, tr.byTheme, df.rows);
    SubsequenceTransitive(tr.byPriority, tr.byManager, df.rows);
    SubsequenceTransitive(tr.searched, tr.byPriority, df.rows);
  }

  /**
   * The script stops without rows exactly when the loaded sheet is empty or
   * lacks the status column, the empty check coming first.
   */
  lemma PipelineFailures(raw: Table, sel: Selections)
    ensures Pipeline(raw, sel) == Failure(NoData) <==> IsEmpty(raw)
    ensures Pipeline(raw, sel) == Failure(MissingApprovalStatus) <==>
      !IsEmpty(raw) && StatusColumn !in raw.columns
    ensures Pipeline(raw, sel).Success? <==> !IsEmpty(raw) && StatusColumn in raw.columns
  {
    NormalizeFrame(raw);
  }

  /**
   * On success the shown rows are an order-preserving subsequence of the
   * loaded sheet, and a sheet row is shown iff it is approved, matches every
   * active dimension selection, and matches the search when it is active;
   * a shown row appears as often as it does in the sheet.
   */
  lemma PipelineRows(raw: Table, sel: Selections)
    requires Pipeline(raw, sel).Success?
    ensures var df := Normalize(raw); var v := Pipeline(raw, sel).value;
      && IsSubsequence(v.rows, df.rows)
      && (forall x :: x in v.rows <==>
        x in df.rows && Admitted(x, ResolveAll(df.columns), sel, 4)
        && SearchOkAsWritten(x, Present(SearchColumns, df.columns), sel.search))
      && (forall x :: multiset(v.rows)[x] ==
            (if Admitted(x, ResolveAll(df.columns), sel, 4)
                && SearchOkAsWritten(x, Present(SearchColumns, df.columns), sel.search)
             then multiset(df.rows)[x] else 0))
  {
    ChainMembers(Normalize(raw), sel);
    ChainSubsequence(Normalize(raw), sel);
  }

  /** The metrics on success: P1 count <= shown rows <= rows in the sheet. */
  lemma PipelineMetrics(raw: Table, sel: Selections)
    requires Pipeline(raw, sel).Success?
    ensures var m := Pipeline(raw, sel).value.metrics;
      && m.approvedActions == |Pipeline(raw, sel).value.rows|
      && m.totalRows == |raw.rows|
      && m.approvedActions <= m.totalRows
      && (m.third.P1Approved? ==> m.third.count <= m.approvedActions)
      && (m.third.P1Approved? <==> PriorityColumn in raw.columns)
  {
    var df := Normalize(raw);
    NormalizeFrame(raw);
    ChainSubsequence(df, sel);
    MetricsBounds(Chain(df, sel).searched, df.rows, ResolveAll(df.columns).priority);
  }

  /**
   * `opts` is offered exactly when the column resolved, and is then "All"
   * followed by a strictly ascending list of exactly the values of column
   * `col` among the sheet rows that pass the gate and the first `k`
   * dimension filters.
   */
  ghost predicate OptionsReflect(opts: Option<seq<string>>, col: Option<string>, df: Table,
                                 d: Dimensions, sel: Selections, k: nat)
  {
    && (opts.Some? <==> col.Some?)
    && (opts.Some? ==>
          && |opts.value| >= 1 && opts.value[0] == AllSentinel
          && StrictlySorted(opts.value[1..])
          && forall t :: t in opts.value[1..] <==>
               exists x :: x in df.rows && Admitted(x, d, sel, k) && Get(x, col.value) == Some(t))
  }

  lemma StageOptions(df: Table, d: Dimensions, sel: Selections, k: nat, stage: seq<Row>, col: Option<string>)
    requires forall x :: x in stage <==> x in df.rows && Admitted(x, d, sel, k)
    ensures OptionsReflect(OptionsFor(stage, col), col, df, d, sel, k)
  {
    if col.Some? {
      forall t {
        ObservedIff(stage, col.value, t);
      }
    }
  }

  /**
   * Each dimension's options are computed from the rows left by the stages
   * before it, not from the whole sheet: after "All", the theme options are
   * exactly the theme values of the approved rows that pass the account
   * selection, and likewise down the chain.
   */
  lemma PipelineOptions(raw: Table, sel: Selections)
    requires Pipeline(raw, sel).Success?
    ensures var df := Normalize(raw); var d := ResolveAll(df.columns);
      var v := Pipeline(raw, sel).value;
      && OptionsReflect(v.accountOptions, d.account, df, d, sel, 0)
      && OptionsReflect(v.themeOptions, d.theme, df, d, sel, 1)
      && OptionsReflect(v.managerOptions, d.manager, df, d, sel, 2)
      && OptionsReflect(v.priorityOptions, d.priority, df, d, sel, 3)
  {
    var df := Normalize(raw);
    var d := ResolveAll(df.columns);
    var tr := Chain(df, sel);
    ChainMembers(df, sel);
    StageOptions(df, d, sel, 0, tr.approved, d.account);
    StageOptions(df, d, sel, 1, tr.byAccount, d.theme);
    StageOptions(df, d, sel, 2, tr.byTheme, d.manager);
    StageOptions(df, d, sel, 3, tr.byManager, d.priority);
  }

  /** Every row left before the search is a row of the sheet. */
  lemma FilteredFromSheet(df: Table, sel: Selections)
    ensures forall x :: x in Chain(df, sel).byPriority ==> x in df.rows
  {
    var tr := Chain(df, sel);
    SubsequenceTransitive(tr.byAccount, tr.approved, df.rows);
    SubsequenceTransitive(tr.byTheme, tr.byAccount, df.rows);
    SubsequenceTransitive(tr.byManager, tr.byTheme, df.rows);
    SubsequenceTransitive(tr.byPriority, tr.byManager, df.rows);
    SubsequenceLength(tr.byPriority, df.rows);
  }

  /**
   * Loading leaves the text columns as fetched: a row of the loaded sheet
   * has a value in each given text column when every fetched row has one.
   */
  lemma TextCellsPresent(raw: Table, rows: seq<Row>, textCols: seq<string>)
    requires forall i, c :: 0 <= i < |raw.rows| && c in SearchColumns && c in raw.columns ==>
      Get(raw.rows[i], c).Some?
    requires forall x :: x in rows ==> x in Normalize(raw).rows
    requires forall c :: c in textCols ==> c in SearchColumns && c in raw.columns
    ensures forall i, k :: 0 <= i < |rows| && 0 <= k < |textCols| ==> Get(rows[i], textCols[k]).Some?
  {
    var df := Normalize(raw);
    forall i, k | 0 <= i < |rows| && 0 <= k < |textCols|
      ensures Get(rows[i], textCols[k]).Some?
    {
      assert rows[i] in df.rows;
      var j :| 0 <= j < |df.rows| && df.rows[j] == rows[i];
      var c := textCols[k];
      assert c in textCols;
      NormalizeCell(raw, j, c);
    }
  }

  /**
   * The search as written differs from the intended one only on missing
   * text cells: when no fetched row lacks a value in any of the candidate
   * text columns the sheet has, the shown rows are those the intended
   * search keeps.
   */
  lemma PipelineSearchOnPresentCells(raw: Table, sel: Selections)
    requires forall i, c :: 0 <= i < |raw.rows| && c in SearchColumns && c in raw.columns ==>
      Get(raw.rows[i], c).Some?
    ensures var df := Normalize(raw); var tr := Chain(df, sel);
      tr.searched == Search(tr.byPriority, Present(SearchColumns, df.columns), sel.search)
  {
    var df := Normalize(raw);
    var tr := Chain(df, sel);
    var textCols := Present(SearchColumns, df.columns);
    FilteredFromSheet(df, sel);
    TextCellsPresent(raw, tr.byPriority, textCols);
    SearchAgreesOnPresentCells(tr.byPriority, textCols, sel.search);
  }

  /** Which of three candidate names are present, spelled out case by case. */
  lemma PresentOfThree(x: string, y: string, z: string, columns: seq<string>)
    ensures Present([x, y, z], columns) ==
      (if x in columns then [x] else []) + (if y in columns then [y] else []) + (if z in columns then [z] else [])
  {
    var p := InColumns(columns);
    SelectCons(z, [], p);
    assert [z] + [] == [z];
    SelectCons(y, [z], p);
    assert [y] + [z] == [y, z];
    SelectCons(x, [y, z], p);
    assert [x] + [y, z] == [x, y, z];
    assert Present([x, y, z], columns) == Select([x, y, z], p);
  }

  /**
   * `text_cols`: the candidate text columns the table has, appended one by
   * one in their fixed order.
   */
  method CollectTextColumns(columns: seq<string>) returns (textCols: seq<string>)
    ensures textCols == Present(SearchColumns, columns)
  {
    textCols := [];
    if "SMART Action" in columns {
      textCols := textCols + ["SMART Action"];
    }
    if "Feedback" in columns {
      textCols := textCols + ["Feedback"];
    }
    if "FinalFeedback" in columns {
      textCols := textCols + ["FinalFeedback"];
    }
    PresentOfThree("SMART Action", "Feedback", "FinalFeedback", columns);
  }

  /**
   * The search mask, OR-ed together column by column: entry `i` is set iff
   * the term occurs in the lower-cased `astype(str)` text of row `i` in at
   * least one of the text columns.
   */
  method SearchMask(rows: seq<Row>, textCols: seq<string>, term: string) returns (mask: seq<bool>)
    ensures |mask| == |rows|
    ensures forall i :: 0 <= i < |rows| ==> (mask[i] <==> MatchesAnyAsWritten(rows[i], textCols, term))
  {
    mask := seq(|rows|, i => false);
    for k := 0 to |textCols|
      invariant |mask| == |rows|
      invariant forall i :: 0 <= i < |rows| ==>
        (mask[i] <==> exists j :: 0 <= j < k && CellMatchesAsWritten(rows[i], textCols[j], term))
    {
      var hits := seq(|rows|, i requires 0 <= i < |rows| => CellMatchesAsWritten(rows[i], textCols[k], term));
      mask := seq(|rows|, i requires 0 <= i < |rows| => mask[i] || hits[i]);
    }
  }

  /** `load_data` after the fetch: overwrite the two known columns. */
  method LoadData(raw: Table) returns (df: Table)
    ensures df == Normalize(raw)
  {
    df := raw;
    if StatusColumn in df.columns {
      df := df.(rows := ReplaceColumn(df.rows, StatusColumn, StripText));
    }
    if PriorityColumn in df.columns {
      df := df.(rows := ReplaceColumn(df.rows, PriorityColumn, UpperText));
    }
  }

  /**
   * One sidebar dimension: when its column resolved, offer the options drawn
   * from the current rows and narrow to the selection unless it is "All".
   */
  method FilterDimension(approved: seq<Row>, col: Option<string>, choice: string)
    returns (options: Option<seq<string>>, narrowed: seq<Row>)
    ensures options == OptionsFor(approved, col)
    ensures narrowed == Narrow(approved, col, choice)
  {
    options := None;
    narrowed := approved;
    if col.Some? {
      options := Some(OptionList(approved, col.value));
      if choice != AllSentinel {
        narrowed := Select(approved, HasValue(col.value, choice));
      }
    }
  }

  /** The search stage: collect the text columns, build the mask, apply it. */
  method SearchRows(approved: seq<Row>, columns: seq<string>, search: string) returns (found: seq<Row>)
    ensures found == SearchAsWritten(approved, Present(SearchColumns, columns), search)
  {
    found := approved;
    var textCols := CollectTextColumns(columns);
    if Trim(search) != [] && textCols != [] {
      var s := SearchTerm(search);
      var mask := SearchMask(approved, textCols, s);
      ApplyMaskSelects(approved, mask, SearchTestAsWritten(textCols, s));
      found := ApplyMask(approved, mask);
    }
  }

  /** The script, statement by statement, from the fetched sheet to the page. */
  method RunPipeline(raw: Table, sel: Selections) returns (out: Result<View, Failure>)
    ensures out == Pipeline(raw, sel)
  {
    var df := LoadData(raw);
    if IsEmpty(df) {
      return Failure(NoData);
    }
    if StatusColumn !in df.columns {
      return Failure(MissingApprovalStatus);
    }
    var approved := Gate(df.rows);

    var acctCol := Resolve(df.columns, AccountColumn);
    var themeCol := ResolveTheme(df.columns);
    var pmCol := Resolve(df.columns, ManagerColumn);
    var prioCol := Resolve(df.columns, PriorityColumn);

    var accounts, themes, pms, prios;
    accounts, approved := FilterDimension(approved, acctCol, sel.account);
    themes, approved := FilterDimension(approved, themeCol, sel.theme);
    pms, approved := FilterDimension(approved, pmCol, sel.manager);
    prios, approved := FilterDimension(approved, prioCol, sel.priority);
    approved := SearchRows(approved, df.columns, sel.search);

    var metrics := ComputeMetrics(approved, df.rows, prioCol);
    var displayCols := DisplayColumns(df.columns);
    out := Success(View(accounts, themes, pms, prios, approved, metrics, displayCols));
  }
}
