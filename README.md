# Survey correspondence analysis: data preparation, in Dafny

This project models the data-preparation layer of the correspondence-analysis
script `analise_correspondencia.py`, which studies a survey on diversity and
psychological safety in agile teams. It covers four parts:

- **Header cleanup and renaming** (module `Columns`). Every column header is
  stripped and its newlines become spaces. A fixed map renames the long
  Portuguese questions to short names. The timestamp column
  "Carimbo de data/hora" is then dropped. If that column is missing, pandas
  raises `KeyError`, and the model returns a failure. The script's successive
  reassignments of `df_questionario` are the methods of the class
  `Questionnaire`.
- **The multi-select normaliser** `standardize_multiselect` (module
  `Multiselect`). A missing cell (NaN) is returned unchanged. A string has
  its commas turned into semicolons and is split on `;`. Each item is
  stripped, blank items are dropped, and the rest are sorted by code point
  and joined with `;`. The model proves the following:
  - the output is a normal form;
  - the strings the function leaves unchanged are exactly the normal forms,
    so the function is idempotent;
  - the output depends only on the multiset of items, so order and the choice
    of `,` or `;` do not matter, and duplicates are kept;
  - the output is `""` exactly when the input holds only whitespace and
    separators.
- **The contingency table** of `analise_correspondencia` (module
  `Contingency`):
  - `pd.crosstab` is modelled as counting answer pairs of respondents who
    answered both questions. Its categories are the distinct answers in
    ascending order.
  - Its grand total is the number of such respondents.
  - Removing all-zero rows and then all-zero columns keeps the total. It
    leaves no all-zero line and is idempotent.
  - A crosstab never has an all-zero line, so on the script's own tables the
    pruning of lines 52-53 changes nothing.
  - The guard `tabela.empty or min(tabela.shape) < 2` rejects exactly the
    tables with fewer than two rows or two columns.
  - Past the guard, `min(2, min(shape) - 1)` is 1 or 2, so the
    `num_components < 1` branch is dead.
- **The numbered legend** (module `Legend`). Row category `i` (from 0) gets
  the label `str(i + 1)`, and these labels are pairwise distinct. A Python
  dict keeps insertion order, and `legend_map` is modelled that way. So
  `legend_map` sends every label back to its category, and its items come out
  in index order. The legend text is the heading plus one line per entry.
  When no category contains a newline, splitting the body of the legend
  (the part after the heading) on newlines gives back exactly those lines,
  in order.

The module `Analysis` runs these steps in the order of the function body. It
ends with one of three outcomes: a missing column, the degenerate-table
warning, or the table, the component count, the labels and the legend that
the fit and the plot would receive.

The Python string operations the code relies on are modelled in `Strings`:
`str.strip`, `str.split` on one character, `join`, `sorted` on strings, and
`str` of a natural number (proved injective through its inverse). `Sequences`
holds boolean-mask selection (`.loc[mask]`) and sums.

## Model

| member | source | states |
|---|---|---|
| `Strings.TrimLeft` | analise_correspondencia.py:43 | the result is the suffix left after removing leading whitespace; the first character it keeps is not whitespace |
| `Strings.TrimRight` | analise_correspondencia.py:43 | the result is the prefix left after removing trailing whitespace; the last character it keeps is not whitespace |
| `Strings.Strip` | analise_correspondencia.py:43 | `str.strip()` returns a string that is empty or has a non-space character at each end, and is no longer than the input |
| `Strings.StripInfix` | analise_correspondencia.py:43 | `str.strip()` returns the infix `s[a..b]` of the input, where everything before `a` and after `b` is whitespace |
| `Strings.StripFixpoint` | analise_correspondencia.py:43 | strip leaves a string unchanged exactly when it is already stripped |
| `Strings.StripIdempotent` | analise_correspondencia.py:43 | stripping twice is stripping once |
| `Strings.StripEmpty` | analise_correspondencia.py:43 | a piece strips to "" (so the `if s.strip()` filter drops it) exactly when it is all whitespace |
| `Strings.ReplaceShape` | analise_correspondencia.py:43 | `replace(',', ';')` keeps the length, turns every `,` into `;`, leaves every other character in place, and leaves no `,` |
| `Strings.Split` | analise_correspondencia.py:43 | `split(';')` yields at least one piece; no piece contains the separator; every character of a piece comes from the input |
| `Strings.JoinShape` | analise_correspondencia.py:43 | `';'.join(parts)` starts with the first part, has the separator right after it when there is a second part, and ends with the last part |
| `Strings.SplitJoin` | analise_correspondencia.py:43 | splitting a `;`-join of separator-free parts returns those parts |
| `Strings.JoinSplit` | analise_correspondencia.py:43 | joining the pieces of a split with the same separator restores the string |
| `Strings.JoinChars` | analise_correspondencia.py:43 | a non-separator character is in a join exactly when it is in one of the parts |
| `Strings.Sort` | analise_correspondencia.py:43 | `sorted` returns a permutation of its input (same multiset, duplicates kept) |
| `Strings.SortSorted` | analise_correspondencia.py:43 | `sorted` returns its items in ascending code-point order |
| `Strings.SortedUnique` | analise_correspondencia.py:43 | two sorted sequences with the same multiset of items are equal |
| `Strings.SortOfSorted` | analise_correspondencia.py:43 | sorting a sorted sequence changes nothing |
| `Strings.NatToString` | analise_correspondencia.py:91 | `str(n)` is a non-empty string of decimal digits with no leading zero (it starts with `0` only for `n == 0`) |
| `Strings.ParseNatToString` | analise_correspondencia.py:91 | reading `str(n)` back as a decimal number gives `n` |
| `Strings.NatToStringInjective` | analise_correspondencia.py:91 | different numbers have different decimal strings |
| `Multiselect.Standardize` | analise_correspondencia.py:37-43 | a missing cell stays missing and only string cells are transformed; the result of a string is in normal form |
| `Multiselect.KeepNonBlank` | analise_correspondencia.py:43 | `[s.strip() for s in pieces if s.strip()]` holds only non-empty stripped strings, and no more than there are pieces |
| `Multiselect.KeepNonBlankKeeps` | analise_correspondencia.py:43 | the stripped form of every non-blank piece is kept |
| `Multiselect.KeepNonBlankSelect` | analise_correspondencia.py:43 | the comprehension is the selection of the stripped pieces whose stripped form is not "", in their order |
| `Multiselect.KeepNonBlankLength` | analise_correspondencia.py:43 | there is exactly one item per non-blank piece, so duplicates are kept and nothing is added |
| `Multiselect.KeepNonBlankAt` | analise_correspondencia.py:43 | item `j` is the stripped form of the `j`-th non-blank piece |
| `Multiselect.Items` | analise_correspondencia.py:43 | every item of an answer is non-empty and whitespace-trimmed, and contains neither `,` nor `;` |
| `Multiselect.StandardizeText` | analise_correspondencia.py:43 | `';'.join(sorted(items))` is a normal form with no `,`, and it is "" exactly when the answer has no non-blank item |
| `Multiselect.StandardizeShape` | analise_correspondencia.py:43 | the output has no `,`; it is "" exactly when there are no non-blank items; otherwise splitting it on `;` gives the sorted items; re-reading its items gives the same multiset (duplicates kept) |
| `Multiselect.NormalFixpoint` | analise_correspondencia.py:43 | the strings the normaliser leaves unchanged are exactly the normal forms (`""`, or sorted trimmed non-blank items joined by `;`) |
| `Multiselect.StandardizeIdempotent` | analise_correspondencia.py:37-43 | applying `standardize_multiselect` twice equals applying it once, for missing and string cells |
| `Multiselect.SameItemsSameOutput` | analise_correspondencia.py:43 | two answers with the same multiset of trimmed non-blank items normalise to the same string |
| `Multiselect.ReorderInvariant` | analise_correspondencia.py:43 | listing the same items in another order gives the same output |
| `Multiselect.SeparatorsInterchangeable` | analise_correspondencia.py:43 | writing `,` instead of `;` (or the reverse) at any separator position gives the same output |
| `Multiselect.BlankInput` | analise_correspondencia.py:43 | the output is "" exactly when the input holds only whitespace, commas and semicolons |
| `Columns.CleanHeader` | analise_correspondencia.py:10-11 | a cleaned header contains no newline, has no surrounding whitespace and is as long as the stripped header |
| `Columns.CleanHeaderIdempotent` | analise_correspondencia.py:10-11 | cleaning a cleaned header changes nothing |
| `Columns.CleanHeaders` | analise_correspondencia.py:10-11 | the cleanup keeps the number of headers, and no cleaned header has a newline or surrounding whitespace |
| `Columns.Rename` | analise_correspondencia.py:14-31 | the rename changes exactly the headers that are keys of the map, except "Escolaridade", which maps to itself; all other headers are untouched |
| `Columns.RenameIdempotent` | analise_correspondencia.py:14-31 | no short name is itself renamed, so renaming twice is renaming once |
| `Columns.RenameAll` | analise_correspondencia.py:14-31 | the rename keeps the number and order of headers, leaves non-keys untouched and replaces keys by their map value |
| `Columns.IndexOf` | analise_correspondencia.py:49 | `df[name]` reads the first column whose header is `name` |
| `Columns.DropHeaders` | analise_correspondencia.py:34 | after the drop, no header is the dropped name, and every other header remains |
| `Columns.DropCells` | analise_correspondencia.py:34 | a row after the drop has exactly one cell per remaining header |
| `Columns.DropAligned` | analise_correspondencia.py:34 | the `j`-th remaining header and the `j`-th remaining cell of a row both come from the `j`-th column not called the dropped name, so headers and cells stay aligned |
| `Columns.DropKeeps` | analise_correspondencia.py:34 | every column not called the dropped name survives, its header and its cell at the same new position |
| `Columns.Questionnaire.constructor` | analise_correspondencia.py:7 | the loaded table has one answer per header in every row |
| `Columns.Questionnaire.CleanColumnNames` | analise_correspondencia.py:10-11 | the headers become their cleaned forms and the rows are unchanged |
| `Columns.Questionnaire.RenameColumns` | analise_correspondencia.py:14-31 | the headers become their renamed forms and the rows are unchanged |
| `Columns.Questionnaire.DropColumn` | analise_correspondencia.py:34 | with the column present, it is removed from the headers and from every row; without it (`KeyError`), nothing changes |
| `Columns.Questionnaire.StandardizeMultiselectColumn` | analise_correspondencia.py:36-45 | when "GrupoMinoritario" exists, every cell of it is replaced by its normal form and nothing else changes; otherwise nothing changes |
| `Columns.Questionnaire.Prepare` | analise_correspondencia.py:10-45 | the script's top level succeeds exactly when the cleaned, renamed headers contain the timestamp column; then the headers are those minus the timestamp |
| `Contingency.Unique` | analise_correspondencia.py:49 | the result has no repeated element and has the same elements as the input |
| `Contingency.Categories` | analise_correspondencia.py:49 | the categories of one axis are the distinct answers, sorted |
| `Contingency.Count` | analise_correspondencia.py:49 | a crosstab cell counts at most the respondents who answered both questions |
| `Contingency.RowOf` | analise_correspondencia.py:49 | a crosstab row has one count per column category |
| `Contingency.Crosstab` | analise_correspondencia.py:49 | the crosstab is rectangular, and its row and column categories are sorted and distinct |
| `Contingency.CrosstabRows` | analise_correspondencia.py:49 | a row category exists exactly when some respondent gave that first answer and also answered the second question |
| `Contingency.CrosstabColumns` | analise_correspondencia.py:49 | a column category exists exactly when some respondent gave that second answer and also answered the first question |
| `Contingency.CrosstabTotal` | analise_correspondencia.py:49 | the grand total of the crosstab is the number of respondents who answered both questions |
| `Contingency.RowSum` | analise_correspondencia.py:49 | a crosstab row sums to the respondents with that first answer and a second answer among the columns |
| `Contingency.CrosstabNoZeroLines` | analise_correspondencia.py:49-53 | every row and column of a crosstab has a nonzero count |
| `Contingency.PruneRows` | analise_correspondencia.py:52 | the row filter keeps the table rectangular and the columns as they were, and leaves only rows with a nonzero count |
| `Contingency.PruneCols` | analise_correspondencia.py:53 | the column filter keeps the rows, leaves only columns with a nonzero count, and a row that had a nonzero count keeps one |
| `Contingency.PruneRowsAt` | analise_correspondencia.py:52 | row `k` after the row filter is the `k`-th nonzero row, with its label and counts |
| `Contingency.PruneRowsKeeps` | analise_correspondencia.py:52 | every nonzero row survives the row filter with its label and counts |
| `Contingency.PruneColsAt` | analise_correspondencia.py:53 | column `k` after the column filter is the `k`-th nonzero column, with its label and its count in every row |
| `Contingency.PruneColsKeeps` | analise_correspondencia.py:53 | every nonzero column survives the column filter with its label and its count in every row |
| `Sequences.NthIncreasing` | analise_correspondencia.py:52-53 | the kept positions are enumerated in increasing order, so the filters keep the original order of rows and columns |
| `Sequences.Rank` | analise_correspondencia.py:52-53 | every position whose mask entry is true is enumerated, so nothing the mask keeps is lost |
| `Contingency.Prune` | analise_correspondencia.py:52-53 | after both steps every remaining row and column has a nonzero count |
| `Contingency.PruneTotal` | analise_correspondencia.py:52-53 | pruning leaves the grand total unchanged |
| `Contingency.PruneFixpoint` | analise_correspondencia.py:52-53 | pruning leaves a table unchanged exactly when it has no all-zero row or column |
| `Contingency.PruneIdempotent` | analise_correspondencia.py:52-53 | pruning again changes nothing |
| `Contingency.PruneCrosstab` | analise_correspondencia.py:49-53 | pruning a fresh crosstab changes nothing |
| `Contingency.IsDegenerate` | analise_correspondencia.py:55 | the guard fires exactly for tables with fewer than two rows or fewer than two columns |
| `Contingency.NumComponents` | analise_correspondencia.py:63-64 | the component count is below 1 exactly when a side has fewer than two categories; it is at most 2, and it is 2 exactly when both sides have three or more |
| `Contingency.GuardedComponents` | analise_correspondencia.py:55-67 | past the degeneracy guard the component count is 1 or 2, so the branch of lines 64-67 is never taken |
| `Legend.Put` | analise_correspondencia.py:92 | dict assignment maps the key to the value; a new key goes last in the order and an existing key keeps its place |
| `Legend.DictItems` | analise_correspondencia.py:131 | `legend_map.items()` has one pair per key |
| `Legend.Label` | analise_correspondencia.py:91 | a label is a string of decimal digits |
| `Legend.LabelRoundTrip` | analise_correspondencia.py:91 | reading label `i` as a number gives `i + 1` |
| `Legend.LabelsDistinct` | analise_correspondencia.py:90-93 | different positions get different labels |
| `Legend.NumberCategories` | analise_correspondencia.py:85-93 | there is one label per row category, label `i` is `str(i + 1)`, and the labels are distinct; the keys of `legend_map` are the labels in order, each mapped to its category, and its items list (label, category) in index order |
| `Legend.Header` | analise_correspondencia.py:130 | the heading is a newline, then a line naming `col1`, then an empty line |
| `Legend.LineOf` | analise_correspondencia.py:132 | a legend line holds the label after the bold marker and ends with the category; it holds a newline exactly when the label or the category does |
| `Legend.Body` | analise_correspondencia.py:131-132 | the legend body is empty exactly when there are no entries, and otherwise ends with a newline |
| `Legend.BodyAppend` | analise_correspondencia.py:131-132 | appending an entry appends exactly its line and a newline to the legend body |
| `Legend.BuildLegendText` | analise_correspondencia.py:130-132 | the legend text is the heading naming `col1`, followed by one line per entry |
| `Legend.BodyLines` | analise_correspondencia.py:131-132 | if no entry contains a newline, splitting the body on newlines gives one line per entry, in order, and then the empty remainder |
| `Legend.NumberedLegendLines` | analise_correspondencia.py:130-132 | if no category contains a newline, the legend body of the numbered categories has line `i` equal to label `i + 1` followed by category `i` |
| `Analysis.AnswerPairs` | analise_correspondencia.py:49 | the answer pairs hold one pair per respondent |
| `Analysis.PairsOf` | analise_correspondencia.py:49 | respondent `r` contributes the pair of cells under the first headers called `col1` and `col2` |
| `Analysis.PreparedTable` | analise_correspondencia.py:49-53 | the prepared table is rectangular |
| `Analysis.PrepareAnalysis` | analise_correspondencia.py:47-67 | a missing column gives `KeyError` (col1 first). A degenerate pruned table gives the warning with its shape, and nothing else happens. Otherwise the function gets: the crosstab (which pruning leaves unchanged), with at least two rows and two columns, no all-zero line and a total equal to the respondents who answered both questions; `min(2, min(shape) - 1)` components, which is 1 or 2; labels "1".."n"; and the legend map and legend text in index order |

## Left out

- The `prince.CA` fit and the row and column coordinates (lines 69-73): an SVD-based decomposition in a foreign library, with floating-point results.
- All plotting (lines 75-127, 134-140). This covers the scatter plots, the annotation loops that fill `texts_for_adjust` (lines 96-98 and 108-110), the `adjust_text` label-placement heuristic, and the final `legend_text.strip()` passed to `figtext`. These are UI calls and floating-point work in external libraries.
- `pd.read_csv` (line 7) and every `print`. Reading is modelled as the `Questionnaire` constructor taking headers and rows of cells. The degenerate outcome carries the shape that the warning prints.
- Cell types: every cell is a string or missing. pandas' numeric type inference is not modelled, so a numeric cell in the multi-select column is not modelled either.
- Duplicate column headers: `df[name]` is modelled as reading the first column with that header. pandas would return a sub-table, and the script would then fail.
- `Columns.Questionnaire.Prepare`: states only the resulting headers, not the resulting rows. The rows are stated by the methods it calls (`DropColumn`, `StandardizeMultiselectColumn`).
- The hard-coded calls of lines 143-207 are a fixed script of invocations. In one of them, line 170 announces the pair 'Escolaridade' x 'SegurancaPsicologica', but line 171 analyses 'Escolaridade' x 'BemEstarEmocional'.
- `testes_estatisticos.py`: the chi-square test (a scipy call) and the floating-point Cramér's V are not part of this model. Its crosstab and degeneracy check are the same as lines 49-59 without the pruning, and are covered by `Contingency`.
- `verificar_coluna.py` only reads the CSV and prints the headers, so it is not part of this model.
