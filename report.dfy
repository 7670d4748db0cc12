/** The three metrics shown above the table and the choice of displayed columns. */
module Report {
  import opened Wrappers
  import opened Seqs
  import opened Frame
  import opened Filters

  const TopPriority := "P1"
  const LiveLabel := "live"

  /** The columns shown when present, in the order they are shown. */
  const PreferredColumns := [
    "Account", "Stakeholder (Responder)", "Project Manager", "PM Email", "Theme",
    "Priority", "Target Date", "Status", "SMART Action", "KPI Impact", "Evidence",
    "SentryStatus", "SentryReason", "SentryEscalationTo", "SentryMessage", "Last Update"]

  /** The third metric: the P1 count, or the static "Last Refreshed" placeholder. */
  datatype Third = P1Approved(count: nat) | LastRefreshed(caption: string)

  datatype Metrics = Metrics(approvedActions: nat, totalRows: nat, third: Third)

  /**
   * The metrics: rows left after filtering, rows in the whole loaded sheet,
   * and, when the priority column resolved, how many filtered rows have
   * priority "P1".
   */
  function ComputeMetrics(filtered: seq<Row>, sheet: seq<Row>, prioCol: Option<string>): (m: Metrics)
    ensures m.approvedActions == |filtered| && m.totalRows == |sheet|
    ensures prioCol.None? ==> m.third == LastRefreshed(LiveLabel)
    ensures prioCol.Some? ==> m.third.P1Approved? && m.third.count <= |filtered|
    ensures prioCol.Some? ==> m.third.count == |Narrow(filtered, prioCol, TopPriority)|
  {
    if prioCol.Some? then
      var p1 := Narrow(filtered, prioCol, TopPriority);
      SubsequenceLength(p1, filtered);
      Metrics(|filtered|, |sheet|, P1Approved(|p1|))
    else Metrics(|filtered|, |sheet|, LastRefreshed(LiveLabel))
  }

  /**
   * The bounds the three counts obey whenever the filtered rows come from
   * the sheet: P1 count <= filtered count <= total count.
   */
  lemma MetricsBounds(filtered: seq<Row>, sheet: seq<Row>, prioCol: Option<string>)
    requires IsSubsequence(filtered, sheet)
    ensures var m := ComputeMetrics(filtered, sheet, prioCol);
      m.approvedActions <= m.totalRows
      && (m.third.P1Approved? ==> m.third.count <= m.approvedActions)
  {
    SubsequenceLength(filtered, sheet);
  }

  /**
   * The column choice: the names of `preferred` the table has, in preference
   * order, or every column in table order when it has none of them. The
   * result is never empty for a table with columns.
   */
  function ChooseColumns(preferred: seq<string>, columns: seq<string>): (r: seq<string>)
    ensures (exists c :: c in preferred && c in columns) ==>
      IsSubsequence(r, preferred) && forall c :: c in r <==> c in preferred && c in columns
    ensures (forall c :: c in preferred ==> c !in columns) ==> r == columns
    ensures columns != [] ==> r != []
  {
    var present := Present(preferred, columns);
    if present != [] then
      assert present[0] in present;
      present
    else
      assert forall c :: c in preferred ==> c !in columns;
      columns
  }

  /**
   * `display_cols`: every shown column exists, so projecting onto it never
   * fails, and a table with columns always shows at least one.
   */
  function DisplayColumns(columns: seq<string>): (r: seq<string>)
    ensures forall c :: c in r ==> c in columns
    ensures columns != [] ==> r != []
  {
    ChooseColumns(PreferredColumns, columns)
  }
}
