# Excel reconciliation, modelled in Dafny

`Compare-excel.py` compares two Excel workbooks. It takes the first sheet of each one and
fills every merged rectangle with the value of its top-left cell. It turns the grid into a
table whose column labels come from row `header_row` and whose data rows are the rows below it.
Empty cells are replaced by `""`. It checks that every configured key column is present in
both tables, and builds a composite key per row by joining the key cells with `_`. It reads
`old=new` substitution lines. Then, for every row of the second table, in order:

- a row whose key the first table also has is compared column by column, in the second
  table's column order, after substituting the second table's value;
- a row whose key the first table lacks is flagged whole.

Every differing cell is coloured in a copy of the second workbook. Two counters are kept: the
differing cells of matched rows, and the unmatched rows.

The Dafny project models that core:

| file | module | what it holds |
|---|---|---|
| `wrappers.dfy`, `errors.dfy` | `Wrappers`, `Errors` | `Option`, `Result`, and the three ways a run can fail |
| `text.dfy` | `Text` | Python's `str.strip()`, `str.split(sep)` and `sep.join(parts)`, with their round trips |
| `substitution.dfy` | `Substitution` | `read_replace_instructions`: the line parser, the loop as a method, the table it builds |
| `merge.dfy` | `Merge` | merged-region expansion as in-place loops over a two-dimensional array, proved against `Expanded` |
| `frame.dfy` | `Frame` | header slicing, `reset_index` and `fillna("")` |
| `keys.dfy` | `Keys` | the key-column check, the joined key, `set_index('key')` and the key lookup |
| `comparison.dfy` | `Comparison` | the comparison loop as methods, proved against the specification function `Diff` |
| `comparison_properties.dfy` | `ComparisonProperties` | what `Diff` promises: which cells are flagged, in what order, what the counters count |
| `compare.dfy` | `Reconcile`, `ReconcileScenario` | the whole of `compare_excel_files`, and one worked run |

A flag is the pair (sheet row, column) that the source colours. Both numbers are 1-based:
data row `i` of the second table lies in sheet row `i + header_row + 2`, and its column at
position `j` is column `j + 1`.

A few behaviours follow the code as written:

- `fillna("")` runs before the keys are built and before values are substituted. An empty key
  cell therefore contributes `""` to the key, never `"None"`. A substitution line `=X` applies
  to empty cells of the second table.
- A substitution line with two or more `=` makes the unpacking at line 19 raise, and the run
  stops. Such a line is not skipped.
- A header holding `key` twice hands `set_index('key')` two columns (lines 95-96), and the
  run cannot go on.
- Past the substitution lines, repeats are tolerated only where nothing looks them up. On a
  repeated first-table key or label, `sheet1.at` at line 111 yields several values and
  `pd.isnull` at line 117 raises. On a repeated second-table key or label, `sheet2.at` at line
  112 yields several values and the dictionary test at line 113 raises; an unmatched repeated
  second-table key makes `get_loc` at line 129 yield no single position. Keys of the first
  table that the second lacks, and first-table labels that are neither labels of the second
  table nor key columns, may repeat.
- `set_index('key')` consumes the one column already labelled `key`, so that column is not compared.

## Model

| member | source | states |
|---|---|---|
| Substitution.ParseLineCases | Compare-excel.py:18-19 | a line is skipped exactly when it holds no '='; it cannot be unpacked exactly when it holds two or more; a pair has halves free of '=' that rejoin with '=' to the stripped line |
| Substitution.PairRoundTrip | Compare-excel.py:18-20 | writing `o=n` plus a line break and parsing it gives back the pair (`o`, `n`) when `o` does not start and `n` does not end with whitespace |
| Substitution.ReadReplaceInstructions | Compare-excel.py:14-21 | the loop returns the table of `ParseLines`, or the error of the first line that cannot be unpacked |
| Substitution.ParseFailsAtFirstBadLine | Compare-excel.py:17-19 | reading fails exactly when some line holds two or more '=', and the error names the first such line |
| Substitution.FillFailsAtFirstBadLine | Compare-excel.py:17-20 | folding line outcomes fails exactly when one cannot be unpacked, naming the first |
| Substitution.ParsedEntries | Compare-excel.py:17-20 | the table maps exactly the texts some line pairs, each to the replacement on the last such line (later lines overwrite earlier ones) |
| Substitution.LineWithoutEqualsIsIgnored | Compare-excel.py:18 | inserting a line without '=' anywhere changes neither success nor the table |
| Substitution.SkipIsIgnored | Compare-excel.py:18 | a skipped outcome anywhere leaves the fold's success and table unchanged |
| Text.StripLeftDropsLeadingSpace | Compare-excel.py:19 | `StripLeft` removes exactly the leading run of whitespace |
| Text.StripRightDropsTrailingSpace | Compare-excel.py:19 | `StripRight` removes exactly the trailing run of whitespace |
| Text.StripTrimmed | Compare-excel.py:19 | a string neither starting nor ending in whitespace, followed by whitespace, strips to itself |
| Text.StripKeepsCount | Compare-excel.py:19 | stripping keeps the number of every non-whitespace character, so of '=' |
| Text.SplitPieces | Compare-excel.py:19 | splitting gives one piece more than there are separators, none holding a separator |
| Text.JoinSplit | Compare-excel.py:19 | joining the pieces of a split with the separator gives back the string |
| Text.SplitJoin | Compare-excel.py:19 | splitting the join of separator-free pieces gives back the pieces |
| Merge.Unmerge | Compare-excel.py:42-52 | afterwards the sheet's values are the expanded grid of its old values |
| Merge.FillRegions | Compare-excel.py:42-52 | every cell of a region holds that region's old top-left value; every cell outside all regions keeps its old value |
| Merge.FillRegion | Compare-excel.py:46-52 | the two inner loops give every cell of the region the top-left value and change no other cell |
| Merge.OwnerOfDisjoint | Compare-excel.py:42-52 | with disjoint regions, the owner of a covered cell is the one region covering it |
| Merge.ExpandedCells | Compare-excel.py:42-52 | in `Expanded`, a cell of region `k` holds region `k`'s top-left value and an uncovered cell keeps its own |
| Merge.PointwiseExpanded | Compare-excel.py:42-52 | any grid meeting those two pointwise promises is `Expanded` |
| Reconcile.ReadValues | Compare-excel.py:55-56 | the grid read row by row from the sheet equals its values |
| Frame.Normalise | Compare-excel.py:59-61 | fails exactly when the header row is out of range; otherwise the labels are grid row `header_row` and data row `i` is grid row `i + header_row + 1` |
| Frame.NormalisedIsWellFormed | Compare-excel.py:59-61 | a rectangular grid gives a table whose rows all have one cell per label |
| Frame.FillNa | Compare-excel.py:82-83 | `fillna("")` keeps labels, shape and non-empty cells, and turns every empty cell into "" |
| Frame.FillNaOfFilled | Compare-excel.py:82-83 | a table without empty cells is left unchanged |
| Frame.FillNaIdempotent | Compare-excel.py:82-83 | filling twice is filling once |
| Reconcile.Prepare | Compare-excel.py:78-83 | an expanded sheet becomes a well-formed table labelled by the header row, with one row per sheet row below it, each cell the sheet's cell with an empty one read as "" |
| Keys.FirstMissingKeyColumn | Compare-excel.py:86-88 | none exactly when every key column is in both headers; otherwise the first key column, in configured order, missing from either |
| Reconcile.KeyCheckComesFirst | Compare-excel.py:86-102 | with both headers in range, a missing key column fails the run with that error, naming the first missing column, whatever the substitution lines |
| Keys.KeyValues | Compare-excel.py:91-92 | the key values are the strings of the key columns' cells, in configured order |
| Keys.FilledCellsKeyAsEmpty | Compare-excel.py:82-92 | after `fillna("")`, an empty key cell contributes "" to the key |
| Keys.KeyDeterminesValues | Compare-excel.py:91-92 | when no key value holds '_', two rows get the same key exactly when their key values are equal |
| Keys.KeysCanCollide | Compare-excel.py:91-92 | there is no escaping: ("a_b", "c") and ("a", "b_c") give the same key |
| Keys.SetIndex | Compare-excel.py:91-96 | each row gets its joined key, and the labels and every row lose the cell under the "key" heading (callers have at most one, `Keys.LabelOnce`) |
| Keys.DropShifts | Compare-excel.py:95-96 | dropping the "key" column shifts the later entries down by one |
| Keys.DropIndexColumnUnique | Compare-excel.py:95-96 | dropping the "key" column from unique labels leaves unique labels, none of them "key" |
| Keys.DropIndexColumnKeepsOthers | Compare-excel.py:95-96 | every other heading survives the drop, with its cell |
| Keys.FindKey | Compare-excel.py:109 | a row is found exactly when the key is present, and it carries the key |
| Keys.PositionsFind | Compare-excel.py:108-111 | the key-to-row index holds exactly the present keys, and agrees with `FindKey` |
| Keys.PositionsOfDistinct | Compare-excel.py:122 | with distinct keys, `get_loc` of row `i`'s key is `i` |
| Keys.LookedUpKeyFound | Compare-excel.py:108-111 | a first-table key that the second table also carries, and that is not repeated, is found at its own row |
| Keys.LookedUpLabelFound | Compare-excel.py:110-111 | a first-table label that the second table also carries, and that is not repeated, is found at its own position |
| Keys.UniqueIsPositional | Compare-excel.py:123 | labels are unique exactly when every label's `get_loc` is its own position |
| Comparison.Match | Compare-excel.py:109 | a partner row exists exactly when the first table has the key, and it carries that key |
| Comparison.CompareRows | Compare-excel.py:105-133 | the row loop's flags and its two counters are the report `Diff` |
| Comparison.CompareRow | Compare-excel.py:108-133 | one turn of the row loop takes the report one `Step` further with this row's result |
| Comparison.CompareCells | Compare-excel.py:110-126 | the column loop flags the marked columns of the sheet row left to right, and counts them |
| Comparison.CompareCell | Compare-excel.py:111-121 | a cell differs exactly when the first table's value ("" if that column is missing) and the substituted second value, empty read as "", differ |
| Comparison.FlagRow | Compare-excel.py:132-133 | an unmatched row gets columns 1 to the column count of its sheet row |
| ComparisonProperties.SubstitutionOneSidedOnce | Compare-excel.py:113-114 | substitution applies to the second table's value only, and only once (no chaining) |
| ComparisonProperties.EmptyComparesAsBlank | Compare-excel.py:117-121 | an empty cell on either side compares as "" |
| ComparisonProperties.MissingColumnComparesWithBlank | Compare-excel.py:111-121 | a column the first table lacks is flagged in a matched row exactly when the substituted second value is not "" |
| ComparisonProperties.AgreeingRowUnflagged | Compare-excel.py:109-126 | a matched row agreeing in every column gets no flag |
| ComparisonProperties.UnmatchedRowFlaggedWhole | Compare-excel.py:127-133 | a row without partner is flagged in every one of its columns |
| ComparisonProperties.MarkedExact | Compare-excel.py:121-124 | the marked columns become flags of their 1-based positions in that sheet row, in order |
| ComparisonProperties.WholeRowExact | Compare-excel.py:132-133 | a whole row is columns 1 to n, in order |
| ComparisonProperties.RowResultShape | Compare-excel.py:108-133 | a row is matched exactly when its key is in the first table; its flags lie in its own sheet row, ordered; an unmatched row has one flag per column |
| ComparisonProperties.RowResultFlag | Compare-excel.py:108-133 | a column of a row's sheet row is among that row's flags exactly when it is one of the second table's columns and should be flagged |
| ComparisonProperties.TallyMember | Compare-excel.py:108-133 | a flag is reported exactly when the row result of its sheet row holds it |
| ComparisonProperties.TallyOrdered | Compare-excel.py:108-133 | rows taken in order, each ordered and in its own sheet row, give ordered flags |
| ComparisonProperties.TallyRowCount | Compare-excel.py:131 | the row counter counts the unmatched rows |
| ComparisonProperties.TallyCellCount | Compare-excel.py:126 | the cell counter counts the distinct flags of matched rows |
| ComparisonProperties.TallyFlagCount | Compare-excel.py:126-133 | the number of flags is the cell count plus the column count per unmatched row |
| ComparisonProperties.Flagged | Compare-excel.py:105-133 | a cell (r, c) is flagged exactly when r is the sheet row of a data row of the second table, c one of its columns, and that row is unmatched or differs there |
| ComparisonProperties.OrderedFlags | Compare-excel.py:108-133 | the flags come in row order, then column order, each at most once |
| ComparisonProperties.Counts | Compare-excel.py:105-133 | `countRowDiff` is the number of unmatched rows, `countCellDiff` the number of flagged cells in matched rows, and there are `countCellDiff + countRowDiff * columns` flags |
| Reconcile.Run | Compare-excel.py:65-133 | errors in the source's order (first sheet's header row, second's, the first missing key column, the first line that cannot be unpacked); success exactly when both header rows exist, every key column is present and every substitution line unpacks, and then the report is `Diff` of the two indexed tables under the substitution table read from the lines |
| Reconcile.MatchedRowIsOnly | Compare-excel.py:108-111 | on admissible sheets whose substitution lines parse, a first-table row carrying the key of second-table row `i` is the row the comparison matches, so `sheet1.at` reads one row |
| Reconcile.FlagsInDataArea | Compare-excel.py:122-133 | every flag lies below the header row of the second sheet, within its rows and its width |
| Reconcile.CompareExcelFiles | Compare-excel.py:65-133 | both sheets are expanded in place (the second only if the first has the header row), and the result is `Run` on the expanded grids |
| ReconcileScenario.ScenarioLines | Compare-excel.py:17-20 | the line "ten=10" and its line break read as the table {"ten": "10"} |
| ReconcileScenario.Scenario | Compare-excel.py:65-133 | on two small sheets the run flags the three cells of the unmatched sheet row 3, with cell count 0 and row count 1, the "ten" cell agreeing through substitution |
| ReconcileScenario.DoubleKeyExcluded | Compare-excel.py:95-96 | a second sheet headed `key` twice is not admissible, whatever the substitution lines |
| ReconcileScenario.WideAdmissible | Compare-excel.py:108-111 | a first sheet with two unlabelled columns, whose labels repeat, is admissible against a second sheet labelled ID and Note |
| ReconcileScenario.WideRun | Compare-excel.py:65-133 | that pair of sheets runs to no flag and both counters zero |

## Left out

- Reading the substitution file (lines 13-16): the lines, with their line breaks, are a parameter. No UTF-8 decoding is modelled.
- Choosing the first file of a folder (lines 23-30): the missing-file error is not part of this model.
- Loading workbooks (lines 36, 74-75): the sheet is a parameter. openpyxl reports its merged regions, which are also a parameter, and they are required to be disjoint. Excel does not produce overlapping merged ranges, and the source's result on overlapping ones would depend on the order in which the ranges are listed.
- `unmerge_cells` (line 48) only removes the merge record. The model has no merge records; only the cell values are modelled.
- Colouring with `PatternFill` and saving the result workbook (lines 99, 124, 133, 136-138): the model returns the flagged (row, column) pairs in the order they would be coloured. The result workbook is a separate load of the unexpanded second file, so only coordinates matter.
- Console output (lines 125, 130, 141, 144) is left out, and so is the timestamped file name.
- The `__main__` block (lines 148-161) holds only configuration constants. The worked scenario uses the same key columns ("ID", "Note").
- Cell values are strings or empty. Numbers, dates and booleans, and the way `str()` renders them (`10` against `10.0`), are not modelled.
- Reconcile.Run: requires `Admissible`, which states what the source needs to run without an exception the model does not name. Once the key columns are present, `key` heads at most one column of each header, for `set_index` at lines 95-96. When the substitution lines also parse, the comparison's lookups must each give one value. In the second table no key and no label may repeat: `sheet2.at` at line 112 and the test at line 113, or `get_loc` at lines 122-123 and 129, would fail. In the first table, a key that the second table also carries, and a label that is a label of the second table or a key column, may not repeat: `sheet1.at` at line 111 would yield several values and `pd.isnull` at line 117 would raise. The requirement is slightly stronger than the source needs in three ways. It excludes repeated labels that no matched row reaches. It excludes a repeated second-table label in a table where no row matches. And it excludes a repeated key column, which the source does not reject: `sheet[key_columns]` at lines 91-92 then joins every column under that label into the key, while `Keys.RowKey` takes the first.
- Comparison.CompareRows: requires distinct keys and unique labels of the second table only. For a repeated key of the first table, `Comparison.Diff` (through `Keys.FindKey`) uses the last row that carries it. That choice is the model's own. The source raises there: `sheet1.at[key, col]` at line 111 returns several values and `pd.isnull` at line 117 raises. The same holds for a repeated first-table label that is looked up. `Reconcile.Run` excludes both cases.
- Reconcile.CompareExcelFiles: requires the two sheets to be different arrays. They come from two separate loads.
