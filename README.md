# CSAT approved SMART actions — a verified model of the filter pipeline

`App.py` is a Streamlit page over a Google Sheets export of SMART actions
raised from customer-satisfaction feedback. Apart from the page furniture, it
is a small deterministic pipeline over an in-memory table:

1. `load_data` normalises the fetched sheet: `ApprovalStatus` becomes trimmed
   text and `Priority` trimmed, upper-cased text, each only when the column
   exists (`Load.Normalize`).
2. An empty sheet stops the page; a sheet without `ApprovalStatus` stops it
   with an error; otherwise only rows whose lower-cased status is `approved`
   are kept (`Filters.Gate`).
3. Four optional sidebar dimensions (Account, Theme or theme, Project Manager,
   Priority) are resolved against the columns. Each resolved one offers
   `"All"` followed by the sorted distinct values of the rows left so far,
   and narrows the rows to the selection unless it is `"All"`
   (`Filters.Narrow`, `Filters.OptionList`).
4. A free-text search keeps the rows where the stripped, lower-cased term
   occurs in the lower-cased `astype(str)` text of at least one of
   `SMART Action`, `Feedback` and `FinalFeedback` that the sheet has
   (`Filters.SearchAsWritten`).
5. Three metrics are shown: rows left, rows in the sheet, and the P1 count or
   the placeholder `live` (`Report.ComputeMetrics`). The shown columns are
   the preferred columns present, in preference order, or all columns
   (`Report.ChooseColumns`).

`App.Pipeline` composes these stages as functions. `App.RunPipeline` runs
them as the script does: it reassigns the row set stage by stage, builds
`text_cols` by appends (`App.CollectTextColumns`) and OR-s the per-column
search masks in a loop (`App.SearchMask`). Its postcondition is that it
computes `App.Pipeline`. The lemmas in `App` state what the page shows in
terms of the sheet: which rows and how many copies of each, the metrics,
and the option lists. Every stage, the search included, is modelled as the
script writes it. The one place where that differs from what the script
evidently intends is under "Findings".

Conventions. A table is a column list plus rows; a row maps column names to
cells; a cell is `Some(text)` or `None` for pandas NaN. `astype(str)` is
`Frame.AsStr`, which turns `None` into the text `"nan"`, as pandas 2.x
does for an object column (pandas 3's default string type would keep it
missing). So
after loading, a missing status reads `"nan"` and a missing priority reads
`"NAN"`. That `"NAN"` value is a real priority value later and is offered as
an option, as in the script. A row lacking a key reads as a missing cell.
Python's `sorted` on strings is `Text.Less`, which compares by code point.
`str.strip` uses Python's whitespace set (`Text.IsSpace`).

A few consequences of the script as written:
- After loading, a missing status is the text `nan` and a missing priority
  the text `NAN`.
- The search is skipped when the term is blank and also when the sheet has
  none of the three text columns.
- The export writes every column of the filtered rows, not only the
  displayed columns. The export itself is left out below.
- Caching is Streamlit's `st.cache_data(ttl=60)`; the script adds no
  refresh coordination of its own.

## Model

| member | source | states |
|---|---|---|
| Text.TrimStart | App.py:18 | the result is a suffix of the input, starts with a non-space, and everything dropped is whitespace |
| Text.TrimEnd | App.py:18 | the result is a prefix of the input, ends with a non-space, and everything dropped is whitespace |
| Text.TrimIsSlice | App.py:18 | `strip()` returns one contiguous slice of its input with only whitespace cut off either side |
| Text.Trim | App.py:18 | `str.strip()`: the result is no longer than the input and neither of its ends is whitespace |
| Text.TrimIdempotent | App.py:18 | stripping twice is stripping once |
| Text.TrimUpperCommute | App.py:20 | `strip().upper()` equals `upper().strip()` |
| Text.UpperResult | App.py:20 | upper-casing leaves no lower-case ASCII letter, keeps whitespace where it was, and is idempotent |
| Text.Upper | App.py:20 | `str.upper()` on ASCII letters: keeps the length and maps each character; `Text.UpperResult` and `Text.TrimUpperCommute` state what the loaded priority needs |
| Text.Lower | App.py:34 | lower-casing keeps the length and maps each character through the ASCII case mapping |
| Text.Contains | App.py:82 | the substring test of `str.contains`; `Text.ContainsIff` states its meaning |
| Text.ContainsIff | App.py:82 | the substring test holds iff the term occurs at some offset of the text |
| Text.Less | App.py:45 | `<` on `str` inside `sorted`, by code point; `Text.LessIrreflexive`, `Text.LessTransitive` and `Text.LessTotal` make it a strict total order |
| Text.LessIrreflexive | App.py:45 | no string is less than itself |
| Text.LessTransitive | App.py:45 | the code-point order used by `sorted` is transitive |
| Text.LessTotal | App.py:45 | any two different strings are ordered one way or the other |
| Text.Insert | App.py:45 | inserting into a strictly ascending list keeps it strictly ascending and adds exactly the new value |
| Text.SortedDistinct | App.py:45 | `sorted(unique(vs))` is strictly ascending and holds exactly the values of `vs` |
| Text.StrictlySortedUnique | App.py:45 | two strictly ascending lists with the same elements are equal, so the sorted distinct list is unique |
| Seqs.Select | App.py:34 | `df[mask]` by a row test; its meaning is stated by `Seqs.SelectSpec` |
| Seqs.SelectSpec | App.py:34 | boolean-mask selection keeps each passing row as often as it occurs, drops every other row, and keeps order |
| Seqs.SelectMembers | App.py:34 | a row is selected iff it is in the input and passes; the result is a subsequence |
| Seqs.SelectAll | App.py:48 | when every row passes, the selection is the whole input |
| Seqs.SelectIdempotent | App.py:34 | selecting twice by the same test is selecting once |
| Seqs.SelectThenSelect | App.py:44-66 | two chained selections equal one selection by the conjunction of the tests |
| Seqs.SelectCongruent | App.py:82 | selection depends only on the test's values on the input rows |
| Seqs.SubsequenceTransitive | App.py:34-83 | a subsequence of a subsequence is a subsequence |
| Seqs.SubsequenceLength | App.py:87-88 | a subsequence is no longer than its source and holds only its elements |
| Seqs.ApplyMask | App.py:83 | `df[mask]` by a boolean column; `Seqs.ApplyMaskSelects` states it equals selection by the test the mask holds |
| Seqs.ApplyMaskSelects | App.py:83 | applying a mask that holds the test at each row gives the selection by that test |
| Frame.AsStr | App.py:18 | `astype(str)`: text stays text, a missing value becomes `nan`; the loaded values this yields are stated by `Load.NormalizeCell` and its effect on the search by `Filters.MissingCellMatchesAsWritten` |
| Frame.IsEmpty | App.py:25 | `df.empty`; `App.PipelineFailures` states that the page stops with no data exactly then |
| Frame.Present | App.py:116 | `[c for c in wanted if c in columns]` is a subsequence of `wanted` holding exactly the wanted names that are columns |
| Frame.ColumnValues | App.py:45 | `dropna()` of a column holds exactly the non-missing values observed in that column |
| Frame.ObservedIff | App.py:45 | a value is observed in a column iff some row holds it there |
| Load.StripText | App.py:18 | `astype(str).str.strip()` on one cell; `Load.StripTextIdempotent` and `Load.NormalizeCanonical` state its result |
| Load.UpperText | App.py:20 | `astype(str).str.strip().str.upper()` on one cell; `Load.UpperTextIdempotent` and `Load.NormalizeCanonical` state its result |
| Load.ReplaceColumn | App.py:18-20 | the column overwrite `df[c] = ...` keeps the row count; `Load.ReplaceColumnCell` states each cell after it |
| Load.ReplaceColumnCell | App.py:18-20 | after the overwrite, column `c` holds the rewritten cell, every other cell is unchanged, and the row gains only key `c` |
| Load.Normalize | App.py:17-20 | `load_data`'s normalisation keeps the columns and the row count; its cells are stated by `Load.NormalizeCell` |
| Load.NormalizeCell | App.py:17-20 | one cell after loading: status stripped and priority stripped and upper-cased when the column exists, any other cell unchanged |
| Load.NormalizeHasKey | App.py:17-20 | loading adds a key to a row only for the status or priority column, and only when the table has that column |
| Load.NormalizeFrame | App.py:17-20 | loading keeps the columns and the row count, changes only the status and priority cells when those columns exist, and keeps a well-formed table well-formed |
| Load.NormalizeCanonical | App.py:17-20 | after loading every status cell is text with no surrounding whitespace, and every priority cell also has no lower-case letter |
| Load.NormalizeIdempotent | App.py:17-20 | loading an already loaded table changes nothing |
| Filters.IsApproved | App.py:34 | the gate's row test; `Filters.Gate` states which rows it keeps |
| Filters.Gate | App.py:34 | keeps exactly the rows whose lower-cased status is `approved`, with their multiplicities and in order |
| Filters.GateIdempotent | App.py:34 | applying the gate twice gives the same rows as applying it once |
| Filters.Resolve | App.py:39-42 | a dimension resolves to its column name iff that column is present |
| Filters.ResolveTheme | App.py:40 | `Theme` when present, else `theme` when present, else none |
| Filters.HasValue | App.py:48-66 | the row test `approved[col] == sel`, a missing cell never equal; `Filters.Narrow` states which rows it keeps |
| Filters.Narrow | App.py:44-66 | an unresolved dimension or `"All"` leaves the rows unchanged; otherwise a row is kept iff its cell equals the selection, each kept row as often as it occurs; always an order-preserving subsequence |
| Filters.OptionList | App.py:45 | the options start with `"All"`, the rest is strictly ascending and holds exactly the non-missing values of the given rows |
| Filters.OptionsFor | App.py:44-66 | a dimension has an option list iff its column resolved |
| Filters.OptionListUnique | App.py:45 | any strictly ascending list of exactly the observed values is the option list after `"All"` |
| Filters.SearchTerm | App.py:79 | `search.strip().lower()`: as long as the stripped input, so blank exactly when it is, with no upper-case ASCII letter |
| Filters.SearchActive | App.py:78 | `search.strip() and text_cols`; `Filters.SearchAsWritten` and `Filters.Search` are the identity exactly when it fails |
| Filters.CellMatchesAsWritten | App.py:82 | the per-column test as written, a missing cell reading `nan`; `Filters.NanMatchesMissingCell` and `Filters.MissingCellMatchesAsWritten` show it matching a missing cell |
| Filters.NanMatchesMissingCell | App.py:79-82 | the term `nan` is compared as itself and occurs in a missing cell's `astype(str)` text |
| Filters.SearchAsWritten | App.py:78-83 | the search as written: identity for a blank term or no text column; otherwise a row is kept iff the term occurs in the lower-cased `astype(str)` text of some text column, a missing cell reading `nan`; each kept row as often as it occurs, in order |
| Filters.Search | App.py:78-83 | the search as intended: the same, except that a missing cell never matches; each kept row as often as it occurs, in order |
| Filters.MissingCellMatchesAsWritten | App.py:82 | a row whose only text cell is missing is kept by the as-written search for `nan` and dropped by the intended one |
| Filters.SearchAgreesOnPresentCells | App.py:82 | the two searches keep the same rows when no text cell is missing |
| Report.ComputeMetrics | App.py:87-92 | the filtered count, the sheet's row count, and the P1 count (at most the filtered count) or the `live` placeholder when there is no priority column |
| Report.MetricsBounds | App.py:87-90 | P1 count <= filtered count <= sheet rows whenever the filtered rows come from the sheet |
| Report.ChooseColumns | App.py:116-120 | the preferred columns present, in preference order; all columns in table order when none is present; never empty for a table with columns |
| Report.DisplayColumns | App.py:98-120 | `display_cols` names only existing columns and is non-empty for a table with columns |
| App.ResolveAll | App.py:39-42 | the four resolved dimension columns; `Filters.Resolve` and `Filters.ResolveTheme` state each |
| App.PresentOfThree | App.py:70-76 | the present subset of three candidates is the three conditional appends in order |
| App.CollectTextColumns | App.py:70-76 | the appended `text_cols` are the candidate text columns present, in candidate order |
| App.SearchMask | App.py:80-82 | after the loop, mask entry `i` is set iff the term occurs in the lower-cased `astype(str)` text of row `i` in at least one text column |
| App.LoadData | App.py:14-21 | overwriting the two columns yields the normalised table |
| App.FilterDimension | App.py:44-66 | one sidebar block yields the dimension's option list and the narrowed rows |
| App.SearchRows | App.py:68-83 | collecting the text columns, building the mask and applying it is the search stage as written |
| App.RunPipeline | App.py:14-120 | the step-by-step script computes exactly the page that the composed stages define |
| App.Chain | App.py:34-83 | the row set after each stage; its meaning is stated by `App.ChainMembers` and `App.ChainSubsequence` |
| App.ChainMembers | App.py:34-83 | after each stage a sheet row is present iff it passes the gate and every filter so far (AND), plus the search at the end; the final rows hold each such sheet row as often as the sheet does |
| App.ChainSubsequence | App.py:34-83 | the final rows are an order-preserving subsequence of the loaded sheet |
| App.PipelineFailures | App.py:25-32 | the page stops with no data iff the sheet is empty, with the missing-column error iff it is non-empty and lacks `ApprovalStatus`, and succeeds otherwise |
| App.Pipeline | App.py:23-120 | the page as a composition of the stages; its meaning is stated by `App.PipelineFailures`, `App.PipelineRows`, `App.PipelineMetrics` and `App.PipelineOptions` |
| App.PipelineRows | App.py:34-83 | the shown rows are a subsequence of the sheet; a sheet row is shown iff it is approved, matches every active selection and matches an active search, and then as often as it occurs in the sheet |
| App.PipelineMetrics | App.py:86-92 | the metrics count the shown rows and the sheet rows, P1 <= shown <= sheet, and the P1 metric appears iff `Priority` exists |
| App.StageOptions | App.py:44-66 | options computed from a stage are offered iff the column resolved, start with `"All"`, and list strictly ascending exactly the column values of the rows admitted so far |
| App.PipelineOptions | App.py:44-66 | a dimension offers an option list iff its column resolved; each list is `"All"` followed by a strictly ascending list of exactly that column's values among the approved rows passing the earlier dimensions, not the whole sheet |
| App.FilteredFromSheet | App.py:34-66 | every row left before the search is a row of the loaded sheet |
| App.TextCellsPresent | App.py:18-20 | loading leaves the text columns as fetched, so when every fetched row has a value in each text column the sheet has, the loaded rows do too |
| App.PipelineSearchOnPresentCells | App.py:70-83 | when no fetched row lacks a value in any of the candidate text columns the sheet has (a sheet may have only some of them), the shown rows are those the intended search keeps |

## Findings

| source | as written | input that shows it | evidently intended | confidence | as-written member | corrected member |
|---|---|---|---|---|---|---|
| App.py:82 | `astype(str)` turns a missing text cell into `"nan"` before `str.contains(s, na=False)`, so `na=False` never applies and a missing cell matches any term contained in `nan` | a row whose only text column `Feedback` is missing, search term `nan` (also `n`, `a`, `na`, `an`): the row is kept | a missing cell never matches, as `na=False` asks | medium; not executed | Filters.MissingCellMatchesAsWritten | Filters.Search |

`Filters.SearchAsWritten` models line 82 as written, and the pipeline uses
it, so `App.RunPipeline` computes the page the script shows.
`Filters.Search` is the intended search, which drops that case.
`Filters.SearchAgreesOnPresentCells` proves that the two differ only on
missing cells, and `App.PipelineSearchOnPresentCells` lifts that to the
page: when no fetched row lacks a value in any of the candidate text
columns the sheet has, the rows shown are those the intended search keeps.

## Left out

- The fetch `pd.read_csv(url)` (App.py:15) is network I/O. The model starts from the fetched table.
- The 60-second cache `st.cache_data(ttl=60)` (App.py:13) is a library decorator with no logic in the script. The script adds no refresh coordination of its own.
- The page furniture is presentation and is left out: page config, title, caption, sidebar widgets, metric tiles, divider, `st.dataframe` and the download button (App.py:4-7, 37, 46, 52, 58, 64, 68, 86-94, 122-130). The user's sidebar choices are plain inputs (`App.Selections`). They may be any text, while Streamlit only offers the listed options.
- The CSV export `approved.to_csv(index=False).encode("utf-8")` (App.py:127) is a pandas serialiser outside this script. It writes all columns of the filtered rows.
- The rendered frame `approved[display_cols]` (App.py:122): the model returns the rows and the column list, not the restricted frame.
- Filters.SearchAsWritten: `str.contains` is modelled as plain substring containment. pandas treats the term as a regular expression by default, so a term with regex metacharacters behaves differently.
- Filters.Search: the same substring reading of `str.contains` as in the search as written.
- Text.Lower: only ASCII letters are case-mapped. Python also maps other Unicode letters, so non-ASCII text may compare differently in the gate and the search.
- Text.Upper: only ASCII letters are case-mapped. Python's `str.upper` also maps other Unicode letters, so non-ASCII priorities may differ.
- pandas dtypes: every cell is text or missing. A column that `read_csv` parses as numbers would print differently under `astype(str)`, for example `1.0`. Duplicate column names and the row index are not modelled.
