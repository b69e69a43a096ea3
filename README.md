# SEC company-facts metrics, modelled in Dafny

`Assignment_04.py` downloads a company's XBRL "company facts" document and turns it into
two tables.

- **Income-statement table.** Annual (`10-K`) revenue, net income and gross profit, one fact
  per filing. The latest period end wins. The three are joined on (accession number, period
  end), and gross and net margins are added.
- **Quick-ratio table.** Current assets, current liabilities and inventory are labelled and
  stacked into one long table. The fiscal year is coerced to a number. Annual rows from fiscal
  year 2011 on are kept. The table is pivoted to one row per (accession, period end, fiscal
  year) and incomplete rows are dropped. The quick ratio (assets − inventory) / liabilities is
  added, and the latest period end of every fiscal year is kept.

The model follows that structure.

| module | file | what it holds |
|---|---|---|
| `Options` | `options.dfy` | `Option` (a missing cell) and `Result` (a step that raises). |
| `Ordering` | `ordering.dfy` | Python's string order and a stable sort by a comparison. |
| `Frame` | `frame.dfy` | The table operations the script chains: mask selection, `drop_duplicates(keep='last')`, `sort_values` followed by it, and the inner `merge`. |
| `Facts` | `facts.dfy` | The fact record, the document's map nesting, `get_tag_df`, and division with a non-finite outcome. |
| `IncomeStatement` | `income.dfy` | The income-statement pipeline and its properties. |
| `QuickRatio` | `quickratio.dfy` | The quick-ratio pipeline and its properties. |
| `Script` | `report.dfy` | The two sections written as methods that rebind their table variables step by step. |

A table is a `seq` of records and a column is a function from a record to its cell. Values
are `real`. A zero denominator gives `NonFinite`, which stands for pandas' `inf`/`NaN`. The
quick-ratio properties are stated against an independent reference: `QuickRatio.FirstFact`
is the first annual fact of one concept at an index.

`get_tag_df` falls back to an empty table so that a missing concept is tolerated, so pivot
rows that lack one of the three labels are evidently meant to be dropped rather than to stop
the script. The code does that only while all three label columns exist in the pivot. When
one is absent, `dropna` raises. The model follows the code, in
`QuickRatio.QuickRatioOfAsWritten`, and records the gap under Findings.

`get_tag_df` has two kinds of empty result. A concept missing from the document gives the
fallback table, which has the five fact columns and no rows. A concept whose USD list is
present but empty gives `pd.DataFrame([])`, which has no columns at all. `Facts.TagTable`
keeps the two apart. On a table without columns, the income section raises `KeyError` for
`form` at line 35. The quick-ratio section raises `KeyError` for `fy` at line 64 when all
three of its tables lack columns. With only some of them lacking columns, the stacked table
still has an `fy` column, and `dropna` raises instead. The intended tables
(`IncomeStatement.IncomeMetrics`, `QuickRatio.QuickRatioReport`) are empty in all these
cases.

## Model

| member | source | states |
|---|---|---|
| Facts.GetTag | Assignment_04.py:23-27 | With every key on the path `facts`/`us-gaap`/tag/`units`/`USD` present and the list non-empty, the result is a table of that fact list. A present but empty list gives a table without columns. A missing key anywhere gives the five-column table without rows instead of an error. |
| Facts.TagFacts | Assignment_04.py:23-27 | The rows of `get_tag_df`: the concept's USD facts when the document has the concept, and none otherwise. |
| Facts.Divide | Assignment_04.py:47-48 | A finite quotient exactly when the denominator is non-zero, and then quotient × denominator = numerator. |
| Frame.Filter | Assignment_04.py:35-37 | A row is kept iff it is in the input and satisfies the mask. Each kept row keeps its multiplicity. The result is no longer than the input. |
| Frame.FilterConcat | Assignment_04.py:35-37 | Selecting from a concatenation is concatenating the selections, so relative order is kept. |
| Frame.FilterSingleton | Assignment_04.py:35-37 | A one-row table is kept whole when its row satisfies the mask, otherwise dropped. |
| Ordering.StrLe | Assignment_04.py:39 | Python's `<=` on strings: a prefix sorts at or before any extension of it, and a non-empty string sorts before another only if its first character is not greater. |
| Ordering.StrLt | Assignment_04.py:68 | Python's `<` on strings is the strict part of `<=`: `a <= b` and not `b <= a`. |
| Ordering.StrLeTotal | Assignment_04.py:39 | Python string order is total. |
| Ordering.StrLeTransitive | Assignment_04.py:39 | Python string order is transitive. |
| Ordering.StrLeAntisymmetric | Assignment_04.py:39 | Strings that are ≤ each other are equal. |
| Ordering.StrLtTransitive | Assignment_04.py:68 | Strict string order is transitive. |
| Ordering.ByColumn | Assignment_04.py:39 | `sort_values(column)` compares two rows exactly as Python compares their strings in that column, and that comparison is a total preorder, so the sort is well defined. |
| Ordering.ByColumnTotalPreorder | Assignment_04.py:39 | Comparing the strings of one column is total and transitive on rows. |
| Ordering.Insert | Assignment_04.py:39 | Inserting adds exactly one occurrence of the row. |
| Ordering.InsertSorted | Assignment_04.py:39 | Inserting into a sorted table keeps it sorted. |
| Ordering.SortBy | Assignment_04.py:39 | `sort_values` returns a permutation of the input (same multiset). |
| Ordering.SortBySorted | Assignment_04.py:39 | The sorted table is ordered by the comparison. |
| Ordering.SortByOfSorted | Assignment_04.py:39 | Sorting an already sorted table changes nothing. |
| Frame.DedupLast | Assignment_04.py:39-41 | `drop_duplicates(keep='last')`: no two rows share a key, the key set equals the input's, and the rows form a sub-multiset of the input. |
| Frame.DedupLastKeepsLast | Assignment_04.py:39-41 | A row survives iff it is the last row with its key. |
| Frame.DedupLastOfUnique | Assignment_04.py:39-41 | On a table whose keys are already unique, deduplication is the identity. |
| Frame.DedupLastSorted | Assignment_04.py:39-41 | Deduplicating a sorted table leaves it sorted. |
| Frame.DedupLastKeepsGreatest | Assignment_04.py:39-41 | On a sorted table, the kept row is greatest among the rows with its key. |
| Frame.SortThenDedup | Assignment_04.py:39-41 | Sort by end, then dedup by key: keys unique, key set unchanged, sub-multiset of the input, result sorted by end. |
| Frame.SortThenDedupKeepsLatest | Assignment_04.py:39-41 | Every kept row has the maximal end among input rows with its key. |
| Frame.SortThenDedupIdempotent | Assignment_04.py:39-41 | Doing sort-then-dedup twice is the same as doing it once. |
| Frame.UniqueByFiner | Assignment_04.py:43-45 | A table unique by a key is unique by any finer key that determines it: unique by accn gives unique by (accn, end). |
| Frame.Matches | Assignment_04.py:44 | The combined rows for one left row are exactly its pairings with right rows of equal key. |
| Frame.Merge | Assignment_04.py:44-45 | Inner merge: a row is in the result iff it combines a left and a right row with equal keys. An empty side gives an empty result. |
| Frame.NoMatches | Assignment_04.py:44 | A left row with no partner contributes nothing. |
| Frame.MatchesAtMostOne | Assignment_04.py:44 | With unique right keys, a left row matches at most one right row. |
| Frame.MergeUnique | Assignment_04.py:44-45 | Merging tables with unique keys gives a table with unique keys. |
| IncomeStatement.AnnualFacts | Assignment_04.py:35-37 | Every kept row has form `10-K`, and every `10-K` row of the input is kept as often as it occurs. |
| IncomeStatement.AnnualFactsKeepsOrder | Assignment_04.py:35-37 | The form filter distributes over concatenation, so kept rows stay in input order. |
| IncomeStatement.LatestPerFiling | Assignment_04.py:39-41 | One row per accession number, the same set of accession numbers, every row taken from the input. |
| IncomeStatement.LatestPerFilingKeepsLatest | Assignment_04.py:39-41 | The row kept for an accession number has the maximal period end among its rows. |
| IncomeStatement.LatestPerFilingIdempotent | Assignment_04.py:39-41 | Applying the step a second time changes nothing. |
| IncomeStatement.Join | Assignment_04.py:43-45 | An empty input table gives an empty join. |
| IncomeStatement.JoinRowHasSources | Assignment_04.py:43-45 | Every joined row comes from a revenue, a net-income and a gross-profit fact with its (accn, end) and its three values. Its key occurs in each input table. |
| IncomeStatement.JoinRowFromSources | Assignment_04.py:43-45 | Three facts with one (accn, end) give a joined row. |
| IncomeStatement.JoinUnique | Assignment_04.py:43-45 | With inputs unique per accession number, joined rows are unique per (accn, end). |
| IncomeStatement.JoinKeySet | Assignment_04.py:43-45 | A key is in the join iff it is in all three input tables. |
| IncomeStatement.JoinKeyHasSources | Assignment_04.py:43-45 | A joined key occurs in all three input tables. |
| IncomeStatement.JoinKeyFromSources | Assignment_04.py:43-45 | A key in all three input tables occurs in the join. |
| IncomeStatement.WithMargins | Assignment_04.py:47-48 | With non-zero revenue, margin × revenue = gross profit (net income). With zero revenue, both margins are non-finite. |
| IncomeStatement.AddMargins | Assignment_04.py:47-48 | Adding the margin columns keeps the row count, and row i is row i of the join with its margins. |
| IncomeStatement.AddMarginsKeys | Assignment_04.py:47-48 | Adding the margin columns keeps uniqueness and the key set. |
| IncomeStatement.AddMarginsRow | Assignment_04.py:47-48 | Every row with margins is a joined row with its margins. |
| IncomeStatement.AnnualLatest | Assignment_04.py:35-41 | The kept facts of a concept: one per accession number, exactly the accession numbers that have a 10-K fact, each a 10-K fact of the concept's table. |
| IncomeStatement.MetricsOf | Assignment_04.py:35-48 | The income table of three fact tables has one row per (accn, end), and a key has a row iff it is present for all three concepts after filtering and dedup. |
| IncomeStatement.IncomeMetrics | Assignment_04.py:31-48 | The intended income table of the document has one row per (accn, end). A concept without facts, whether missing or with an empty USD list, gives no rows. |
| IncomeStatement.IncomeMetricsAsWritten | Assignment_04.py:31-48 | The section as written raises `KeyError` for `form` iff one of the three tables has no columns, and the intended table is then empty. Otherwise it gives the intended table. |
| IncomeStatement.MetricsOfProvenance | Assignment_04.py:35-48 | Every income row's values come from 10-K facts of the three tables that share its (accn, end), and its margins are computed from them. |
| IncomeStatement.IncomeMetricsProvenance | Assignment_04.py:31-48 | The same, stated on the document. |
| IncomeStatement.MissingConceptGivesNoRows | Assignment_04.py:23-37 | A concept absent from the document gives an empty income table, not an error. A concept whose USD list is present but empty makes the code as written raise `KeyError` for `form`, and the intended table is empty. |
| IncomeStatement.RestatedFilingKeepsLaterRow | Assignment_04.py:39-41 | Two rows of one filing with the same period end: the later row is kept. |
| IncomeStatement.MarginsExample | Assignment_04.py:47-48 | Revenue 200, net income 20 and gross profit 50 give margins 0.10 and 0.25. |
| QuickRatio.Tag | Assignment_04.py:59-61 | Every row gets the label column, and nothing else changes. |
| QuickRatio.Concat | Assignment_04.py:63 | The stacked table is the labelled assets table, then the labelled liabilities table, then the labelled inventory table, each in full and in order. |
| QuickRatio.Decimal | Assignment_04.py:64 | A non-negative number has a non-empty decimal spelling. |
| QuickRatio.ToNumeric | Assignment_04.py:64 | Numbers stay, null stays missing, and a text becomes a number iff it is a non-empty string of decimal digits. |
| QuickRatio.DigitsValueOfDecimal | Assignment_04.py:64 | Reading a number's decimal spelling gives the number back. |
| QuickRatio.ToNumericOfDecimal | Assignment_04.py:64 | A fiscal year written as text coerces to that year. |
| QuickRatio.ToNumericIdempotent | Assignment_04.py:64 | Coercing twice is coercing once. |
| QuickRatio.CoerceFy | Assignment_04.py:64 | Only the `fy` column changes, row by row. |
| QuickRatio.CoerceFyConcat | Assignment_04.py:63-64 | Coercion distributes over concatenation. |
| QuickRatio.Select | Assignment_04.py:66 | An entry is selected iff it comes from a `10-K` row whose coerced fiscal year is a number ≥ 2011. A missing year never passes. |
| QuickRatio.SelectConcat | Assignment_04.py:66 | Selection distributes over concatenation, so it keeps concat order. |
| QuickRatio.PivotKeyLeTotalPreorder | Assignment_04.py:68 | The pivot index order (accn, then end, then fy) is a total preorder. |
| QuickRatio.GroupKeys | Assignment_04.py:68 | The pivot's index values are exactly the distinct (accn, end, fy) of the entries, each once, in index order. |
| QuickRatio.FirstValue | Assignment_04.py:68 | `aggfunc='first'`: missing iff no entry has that index and label. Otherwise the value of the first such entry. |
| QuickRatio.FirstValueConcat | Assignment_04.py:68 | The first value in two tables is the first table's, or else the second's. |
| QuickRatio.PivotTable | Assignment_04.py:68 | A label is a column iff some entry carries it. One row per distinct index, unique and sorted by index. Each cell is the first value for its index and label. |
| QuickRatio.FirstFact | Assignment_04.py:59-68 | The reference value at an index: missing iff no fact of the table is a 10-K fact at that (accn, end) whose coerced fy is that year, from 2011 on; otherwise the value of such a fact. |
| QuickRatio.FirstValueOfConcept | Assignment_04.py:63-68 | A concept's column from its own table is the reference `FirstFact` of its facts. |
| QuickRatio.ConceptEntries | Assignment_04.py:59-66 | Every entry of a concept's table carries that concept's label. |
| QuickRatio.EntriesOfSplit | Assignment_04.py:63-66 | The entries are the three concepts' entries in concat order. |
| QuickRatio.PivotCells | Assignment_04.py:63-68 | In concat order each pivot cell is the value of the first annual fact (fy ≥ 2011) of its own concept at that index. Other concepts' rows never feed it. |
| QuickRatio.PivotRowCells | Assignment_04.py:68 | Each pivot row's three cells are the first facts of the three concepts at its index. |
| QuickRatio.PivotRowAt | Assignment_04.py:68 | An index with an annual assets fact has a pivot row. |
| QuickRatio.ColumnPresent | Assignment_04.py:68 | A concept with an annual fact from 2011 on gives the pivot its column. |
| QuickRatio.EmptyConceptNoColumn | Assignment_04.py:55-68 | A concept with no facts gives the pivot no column. |
| QuickRatio.DropIncomplete | Assignment_04.py:69 | The kept rows are exactly the pivot rows with all three cells present, with their values. |
| QuickRatio.DropNa | Assignment_04.py:69 | `dropna` as called: it raises iff a label column is absent, naming exactly the absent ones. Otherwise it behaves as DropIncomplete. |
| QuickRatio.WithQuickRatio | Assignment_04.py:70 | Finite iff liabilities ≠ 0, and then ratio × liabilities = assets − inventory. Other columns are unchanged. |
| QuickRatio.WithQuickRatioHolds | Assignment_04.py:70 | The same, as the predicate `RatioHolds`. |
| QuickRatio.AddQuickRatio | Assignment_04.py:70 | Row i gets its quick ratio, and the row count is kept. |
| QuickRatio.LatestPerYear | Assignment_04.py:72 | One row per fiscal year, the same set of fiscal years, every row from the input. |
| QuickRatio.LatestPerYearKeepsLatest | Assignment_04.py:72 | The row kept for a fiscal year has the maximal period end among that year's rows. |
| QuickRatio.EntriesOf | Assignment_04.py:59-66 | The pivot's entries after stacking, coercion and selection: every one has fy ≥ 2011, and there are no more of them than facts. |
| QuickRatio.PivotOf | Assignment_04.py:59-68 | The pivot of the three fact tables has one row per (accn, end, fy) index, and every index has fy ≥ 2011. |
| QuickRatio.Report | Assignment_04.py:69-72 | The steps after the pivot leave one row per fiscal year. |
| QuickRatio.QuickRatioOf | Assignment_04.py:59-72 | The intended quick-ratio table of three fact tables has one row per fiscal year. |
| QuickRatio.QuickRatioOfAsWritten | Assignment_04.py:59-72 | As written, on tables with the fact columns: it raises iff the pivot lacks a label column, naming exactly the absent ones. Otherwise it gives one row per fiscal year. |
| QuickRatio.QuickRatioReport | Assignment_04.py:55-72 | The intended quick-ratio table of the document has one row per fiscal year. |
| QuickRatio.QuickRatioReportAsWritten | Assignment_04.py:55-72 | As written, on the document: it raises `KeyError` for `fy` iff all three concepts have an empty USD list. When it succeeds it gives the intended table, and when it raises the intended table is empty. |
| QuickRatio.ReportRow | Assignment_04.py:69-72 | Every reported row is a complete pivot row with its quick ratio. |
| QuickRatio.ReportCovers | Assignment_04.py:69-72 | Every complete pivot row's fiscal year is reported, by a row with an end at least as late. |
| QuickRatio.ReportEmpty | Assignment_04.py:69-72 | Without complete pivot rows nothing is reported. |
| QuickRatio.DropIncompleteNone | Assignment_04.py:69 | Without complete rows `dropna` keeps nothing. |
| QuickRatio.QuickRatioRowFacts | Assignment_04.py:55-72 | Every reported row has fy ≥ 2011. Its three values are the first annual facts of the three concepts at its index, and its ratio is (assets − inventory) / liabilities. |
| QuickRatio.QuickRatioCoversYear | Assignment_04.py:55-72 | Every index where all three concepts have an annual fact has its fiscal year reported, by a row whose period end is at least as late. |
| QuickRatio.NoCompleteIndex | Assignment_04.py:55-72 | Without an index where all three concepts have facts, the table is empty. |
| QuickRatio.OneReportedRow | Assignment_04.py:55-72 | Suppose every other complete index is an earlier period of the same fiscal year. Then the table is the single row for this index. |
| QuickRatio.RowIsAt | Assignment_04.py:55-72 | Under that condition every reported row is the row for this index. |
| QuickRatio.AsWrittenAgrees | Assignment_04.py:69 | With all three label columns present, the code as written returns the intended table. Otherwise it raises, and the intended table is empty. |
| QuickRatio.EmptyTableReport | Assignment_04.py:59-72 | For tables that have the fact columns: with the assets, liabilities or inventory facts empty, the intended pipeline gives no rows. The code as written raises in `dropna`, and every empty concept is among the missing columns. |
| QuickRatio.MissingConceptReport | Assignment_04.py:55-72 | A document without facts for one of the three concepts gives an empty intended table, and the code as written raises. With all three USD lists present but empty it raises for `fy`. Otherwise `dropna` raises, naming every concept without facts. |
| QuickRatio.MissingInventoryRaises | Assignment_04.py:69 | Assets and liabilities at some index but no inventory facts: the code as written raises `KeyError` for `inventory`, and the intended table is empty. |
| QuickRatio.MissingInventoryColumns | Assignment_04.py:68 | In that case the pivot has only the assets and liabilities columns. |
| QuickRatio.MissingInventoryExample | Assignment_04.py:69 | A concrete fiscal-2015 filing with no inventory concept makes the code as written raise. |
| QuickRatio.QuickRatioExample | Assignment_04.py:55-72 | A fiscal-2015 filing with assets 150, liabilities 50 (fiscal year given as text) and inventory 50 gives one row with quick ratio 2. |
| QuickRatio.EarlyYearExcluded | Assignment_04.py:66 | Fiscal year 2010 data produces no rows. |
| QuickRatio.ComparativePeriodSuperseded | Assignment_04.py:72 | A fiscal-2016 report with the prior year-end as a comparative yields only the 2016-12-31 row. |
| Script.IncomeStatementSection | Assignment_04.py:31-48 | Running the section step by step yields the as-written result. When it succeeds, the table has one row per (accn, end), and exactly the keys present for all three concepts. |
| Script.QuickRatioSection | Assignment_04.py:55-72 | Running the section step by step yields the as-written result. If it succeeds, the result is the intended table. If it raises, the intended table is empty. |

## Left out

- The HTTP request, the User-Agent header and JSON decoding (Assignment_04.py:12-20) are not modelled. The parsed document is a parameter of type `Facts.CompanyFacts`.
- Printing (Assignment_04.py:50-51, 74-75) is not modelled, including the display-only `sort_values('fy')` at line 75.
- Chart rendering and the `pd.to_datetime` conversions (Assignment_04.py:83-143) are not modelled.
- Values are exact `real`s, not IEEE doubles, so rounding is not modelled. `inf` and `NaN` are not told apart: both are `Ratio.NonFinite`.
- Fact fields other than `accn`, `end`, `val`, `form` and `fy` (such as `fp`, `filed`, `frame`) are not modelled. Every step either drops them or does not read them.
- Column selection and renaming (Assignment_04.py:43-45) are modelled as building the row records. Column order, dtypes and the pandas index, including `reset_index` at line 68, are not modelled.
- Ordering.SortBy: `sort_values` is modelled as a stable sort. pandas' default sort does not promise stability, so which of two rows with equal end is kept follows that assumption. The max-end lemmas (`Frame.SortThenDedupKeepsLatest`, `IncomeStatement.LatestPerFilingKeepsLatest`, `QuickRatio.LatestPerYearKeepsLatest`) hold under any tie-break.
- QuickRatio.ToNumeric: only a plain string of decimal digits is read as a number. Other spellings `pd.to_numeric` accepts (sign, decimal point, exponent, surrounding blanks) become missing in the model, so the model is weaker than pandas there.
- Frame.Merge: the result rows are grouped in the order of the left table, but no lemma states that order.

## Findings

| source | as written | input that shows it | evidently intended | confidence | as-written member | corrected member |
|---|---|---|---|---|---|---|
| Assignment_04.py:69 | `pivot_table` creates only the label columns it sees, and `dropna(subset=['assets', 'inventory', 'liabilities'])` raises `KeyError` for any column that is absent | a document with annual `AssetsCurrent` and `LiabilitiesCurrent` facts from 2011 on but no `InventoryNet` concept (or none that is annual from 2011 on) | `get_tag_df` falls back to an empty table so that a missing concept is tolerated; the quick-ratio table should then be empty | not executed; medium | QuickRatio.MissingInventoryRaises | QuickRatio.AsWrittenAgrees |
