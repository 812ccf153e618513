/**
 * The comparison loop of `compare_excel_files`: every row of the second table, in order, is
 * looked up by key in the first; a matched row is compared column by column in the second
 * table's column order, an unmatched row is flagged whole. The fills become a sequence of
 * flagged (row, column) coordinates.
 */
module Comparison {
  import opened Wrappers
  import opened Frame
  import opened Keys

  /** A cell to colour in the second workbook: 1-based sheet row and column. */
  datatype Flag = Flag(row: nat, col: nat)

  /** The flags in the order they are made, `countCellDiff` and `countRowDiff`. */
  datatype Report = Report(flags: seq<Flag>, cellDiffs: nat, rowDiffs: nat)

  /** What is compared: `pd.isnull(v)` gives "", anything else its string. */
  function Shown(c: Cell): string {
    match c
    case None => ""
    case Some(s) => s
  }

  /** `if value2 in valueReplace: value2 = valueReplace[value2]`. */
  function Substitute(c: Cell, subs: map<string, string>): Cell {
    if c.Some? && c.value in subs then Some(subs[c.value]) else c
  }

  /** A pair of cells differs when their shown strings differ once the right one is substituted. */
  predicate CellDiffers(left: Cell, right: Cell, subs: map<string, string>) {
    Shown(left) != Shown(Substitute(right, subs))
  }

  /** `sheet1.at[key, col] if col in sheet1.columns else ""`. */
  function LeftCell(t1: Indexed, r1: nat, heading: Cell): Cell
    requires r1 < |t1.rows|
  {
    if heading in t1.columns then t1.rows[r1][ColumnIndex(t1.columns, heading)] else Some("")
  }

  /** The row of the first table whose key is that of row `i` of the second, if any. */
  function Match(t1: Indexed, t2: Indexed, i: nat): (r: Option<nat>)
    requires i < |t2.rows|
    ensures r.Some? <==> t2.keys[i] in t1.keys
    ensures r.Some? ==> r.value < |t1.rows| && t1.keys[r.value] == t2.keys[i]
  {
    FindKey(t1.keys, t2.keys[i])
  }

  /** Whether cell (data row `i`, column position `j`) of the second table is to be flagged. */
  predicate ShouldFlag(t1: Indexed, t2: Indexed, subs: map<string, string>, i: nat, j: nat)
    requires i < |t2.rows| && j < |t2.columns|
  {
    match Match(t1, t2, i)
    case None => true
    case Some(r1) => CellDiffers(LeftCell(t1, r1, t2.columns[j]), t2.rows[i][j], subs)
  }

  /** Which columns of matched row `i` differ from row `r1` of the first table, in the second table's column order. */
  function ColumnMarks(t1: Indexed, t2: Indexed, subs: map<string, string>, i: nat, r1: nat): (marks: seq<bool>)
    requires i < |t2.rows| && r1 < |t1.rows|
    ensures |marks| == |t2.columns|
  {
    seq(|t2.columns|, j requires 0 <= j < |t2.columns| => CellDiffers(LeftCell(t1, r1, t2.columns[j]), t2.rows[i][j], subs))
  }

  /** The flags of sheet row `row` for the marked columns, left to right (columns are 1-based). */
  function Marked(marks: seq<bool>, row: nat): seq<Flag> {
    if marks == [] then []
    else
      var n := |marks|;
      Marked(marks[..n - 1], row) + if marks[n - 1] then [Flag(row, n)] else []
  }

  /** Marking one more column. */
  lemma MarkedStep(marks: seq<bool>, row: nat, j: nat)
    requires j < |marks|
    ensures Marked(marks[..j + 1], row) == Marked(marks[..j], row) + if marks[j] then [Flag(row, j + 1)] else []
  {
    assert marks[..j + 1][..j] == marks[..j];
  }

  /** Columns 1 to `n` of sheet row `row`. */
  function WholeRow(row: nat, n: nat): (r: seq<Flag>)
    ensures |r| == n
  {
    if n == 0 then [] else WholeRow(row, n - 1) + [Flag(row, n)]
  }

  /** What one row of the second table contributes: whether its key was found, and its flags. */
  datatype RowResult = RowResult(matched: bool, flags: seq<Flag>)

  /** Row `i` of the second table: its differing cells when matched, every cell when not. */
  function RowResultAt(t1: Indexed, t2: Indexed, subs: map<string, string>, headerRow: nat, i: nat): RowResult
    requires i < |t2.rows|
  {
    match Match(t1, t2, i)
    case Some(r1) => RowResult(true, Marked(ColumnMarks(t1, t2, subs, i, r1), SheetRow(headerRow, i)))
    case None => RowResult(false, WholeRow(SheetRow(headerRow, i), |t2.columns|))
  }

  /** The results of the first `n` rows of the second table, in order. */
  function RowResults(t1: Indexed, t2: Indexed, subs: map<string, string>, headerRow: nat, n: nat): (rs: seq<RowResult>)
    requires n <= |t2.rows|
    ensures |rs| == n
  {
    if n == 0 then [] else RowResults(t1, t2, subs, headerRow, n - 1) + [RowResultAt(t1, t2, subs, headerRow, n - 1)]
  }

  /** Entry `i` of the row results is row `i`'s result. */
  lemma {:induction false} RowResultsAt(t1: Indexed, t2: Indexed, subs: map<string, string>, headerRow: nat, n: nat, i: nat)
    requires i < n <= |t2.rows|
    ensures RowResults(t1, t2, subs, headerRow, n)[i] == RowResultAt(t1, t2, subs, headerRow, i)
  {
    var prev := RowResults(t1, t2, subs, headerRow, n - 1);
    var last := RowResultAt(t1, t2, subs, headerRow, n - 1);
    assert RowResults(t1, t2, subs, headerRow, n) == prev + [last];
    if i < n - 1 {
      RowResultsAt(t1, t2, subs, headerRow, n - 1, i);
      assert (prev + [last])[i] == prev[i];
    }
  }

  /**
   * One turn of the row loop: the row's flags are appended; a matched row adds its number of
   * flags to the cell counter, an unmatched row one to the row counter.
   */
  function Step(prev: Report, r: RowResult): Report {
    if r.matched then Report(prev.flags + r.flags, prev.cellDiffs + |r.flags|, prev.rowDiffs)
    else Report(prev.flags + r.flags, prev.cellDiffs, prev.rowDiffs + 1)
  }

  /** The report the row loop builds from row results taken in order. */
  function Tally(rs: seq<RowResult>): Report {
    if rs == [] then Report([], 0, 0) else Step(Tally(rs[..|rs| - 1]), rs[|rs| - 1])
  }

  /** Taking one more row result into the report. */
  lemma TallyStep(rs: seq<RowResult>, r: RowResult)
    ensures Tally(rs + [r]) == Step(Tally(rs), r)
  {
    assert (rs + [r])[..|rs|] == rs;
  }

  /** The report after `n + 1` rows is the report after `n` rows taken one step further. */
  lemma DiffStep(t1: Indexed, t2: Indexed, subs: map<string, string>, headerRow: nat, n: nat)
    requires n < |t2.rows|
    ensures Tally(RowResults(t1, t2, subs, headerRow, n + 1)) ==
      Step(Tally(RowResults(t1, t2, subs, headerRow, n)), RowResultAt(t1, t2, subs, headerRow, n))
  {
    TallyStep(RowResults(t1, t2, subs, headerRow, n), RowResultAt(t1, t2, subs, headerRow, n));
    assert RowResults(t1, t2, subs, headerRow, n + 1) ==
      RowResults(t1, t2, subs, headerRow, n) + [RowResultAt(t1, t2, subs, headerRow, n)];
  }

  /** The report of the whole comparison. */
  function Diff(t1: Indexed, t2: Indexed, subs: map<string, string>, headerRow: nat): Report
  {
    Tally(RowResults(t1, t2, subs, headerRow, |t2.rows|))
  }

  /** The comparison loop itself, with its two counters. */
  method CompareRows(t1: Indexed, t2: Indexed, subs: map<string, string>, headerRow: nat)
    returns (flags: seq<Flag>, countCellDiff: nat, countRowDiff: nat)
    requires DistinctKeys(t2.keys) && UniqueLabels(t2.columns)
    ensures Report(flags, countCellDiff, countRowDiff) == Diff(t1, t2, subs, headerRow)
  {
    var index1 := Positions(t1.keys);
    var index2 := Positions(t2.keys);
    flags, countCellDiff, countRowDiff := [], 0, 0;
    var i := 0;
    while i < |t2.rows|
      invariant i <= |t2.rows|
      invariant Report(flags, countCellDiff, countRowDiff) == Tally(RowResults(t1, t2, subs, headerRow, i))
    {
      ghost var before := Report(flags, countCellDiff, countRowDiff);
      var added, cellIncrement, rowIncrement := CompareRow(t1, t2, subs, headerRow, i, index1, index2, before);
      DiffStep(t1, t2, subs, headerRow, i);
      flags := flags + added;
      countCellDiff := countCellDiff + cellIncrement;
      countRowDiff := countRowDiff + rowIncrement;
      assert Report(flags, countCellDiff, countRowDiff) == Step(before, RowResultAt(t1, t2, subs, headerRow, i));
      i := i + 1;
    }
  }

  /**
   * The body of the row loop for row `i` of the second table: the flags it adds and how much
   * it adds to each counter, which take the report so far, `prev`, one step further.
   */
  method CompareRow(t1: Indexed, t2: Indexed, subs: map<string, string>, headerRow: nat, i: nat,
                    index1: map<string, nat>, index2: map<string, nat>, ghost prev: Report)
    returns (added: seq<Flag>, cellIncrement: nat, rowIncrement: nat)
    requires DistinctKeys(t2.keys) && UniqueLabels(t2.columns)
    requires i < |t2.rows| && index1 == Positions(t1.keys) && index2 == Positions(t2.keys)
    ensures Report(prev.flags + added, prev.cellDiffs + cellIncrement, prev.rowDiffs + rowIncrement) ==
      Step(prev, RowResultAt(t1, t2, subs, headerRow, i))
  {
    var key := t2.keys[i];
    PositionsFind(t1.keys, key);
    PositionsOfDistinct(t2.keys, i);
    UniqueIsPositional(t2.columns);
    var rowIdx := index2[key] + headerRow + 2;
    if key in index1 {
      added, cellIncrement := CompareCells(t1, t2, subs, headerRow, i, index1[key], rowIdx);
      rowIncrement := 0;
    } else {
      added := FlagRow(rowIdx, |t2.columns|);
      cellIncrement, rowIncrement := 0, 1;
    }
  }

  /** The column loop for a matched row: compares every column of the second table's row `i` with row `r1`. */
  method CompareCells(t1: Indexed, t2: Indexed, subs: map<string, string>, headerRow: nat, i: nat, r1: nat, rowIdx: nat)
    returns (cells: seq<Flag>, count: nat)
    requires i < |t2.rows| && r1 < |t1.rows|
    requires Positional(t2.columns) && rowIdx == SheetRow(headerRow, i)
    ensures cells == Marked(ColumnMarks(t1, t2, subs, i, r1), rowIdx) && count == |cells|
  {
    ghost var marks := ColumnMarks(t1, t2, subs, i, r1);
    cells, count := [], 0;
    var j := 0;
    while j < |t2.columns|
      invariant j <= |t2.columns|
      invariant cells == Marked(marks[..j], rowIdx)
      invariant count == |cells|
    {
      var col := t2.columns[j];
      var differs := CompareCell(t1, t2, subs, i, r1, j);
      assert differs == marks[j];
      MarkedStep(marks, rowIdx, j);
      if differs {
        var colIdx := ColumnIndex(t2.columns, col) + 1;
        cells := cells + [Flag(rowIdx, colIdx)];
        count := count + 1;
      }
      j := j + 1;
    }
    assert marks[..j] == marks;
  }

  /**
   * One cell of a matched row: the first table's value under the same heading ("" when it has no
   * such column), the second table's value after substitution, empty cells read as "".
   */
  method CompareCell(t1: Indexed, t2: Indexed, subs: map<string, string>, i: nat, r1: nat, j: nat) returns (differs: bool)
    requires i < |t2.rows| && r1 < |t1.rows| && j < |t2.columns|
    ensures differs == CellDiffers(LeftCell(t1, r1, t2.columns[j]), t2.rows[i][j], subs)
  {
    var col := t2.columns[j];
    var value1 := if col in t1.columns then t1.rows[r1][ColumnIndex(t1.columns, col)] else Some("");
    var value2 := t2.rows[i][j];
    if value2.Some? && value2.value in subs {
      value2 := Some(subs[value2.value]);
    }
    if value1.None? {
      value1 := Some("");
    }
    if value2.None? {
      value2 := Some("");
    }
    differs := value1.value != value2.value;
  }

  /** The fill loop for an unmatched row: columns 1 to `n` of sheet row `row`. */
  method FlagRow(row: nat, n: nat) returns (whole: seq<Flag>)
    ensures whole == WholeRow(row, n)
  {
    whole := [];
    var c := 1;
    while c <= n
      invariant 1 <= c <= n + 1
      invariant whole == WholeRow(row, c - 1)
    {
      whole := whole + [Flag(row, c)];
      c := c + 1;
    }
  }
}
