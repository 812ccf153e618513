/**
 * `compare_excel_files` end to end: both workbooks are expanded and normalised, `fillna("")` is
 * applied, the key columns are checked, the keys are built and made the index, the substitution
 * lines are read, and the comparison loop produces the flags and the two counters. Reading the
 * folders, loading and saving workbooks, and the console output are not part of this model: the
 * sheets, their merged regions and the substitution lines are parameters.
 */
module Reconcile {
  import opened Wrappers
  import opened Errors
  import opened Substitution
  import opened Merge
  import opened Frame
  import opened Keys
  import opened Comparison
  import opened ComparisonProperties

  /** One sheet after `unmerge_excel`'s header slicing and `fillna("")`. */
  function Prepare(grid: seq<seq<Cell>>, width: nat, headerRow: nat): (t: Table)
    requires Rectangular(grid, width) && headerRow < |grid|
    ensures WellFormed(t) && Filled(t)
    ensures t.columns == grid[headerRow] && |t.rows| == |grid| - headerRow - 1
    ensures forall i, j :: 0 <= i < |t.rows| && 0 <= j < width ==> t.rows[i][j] == FillCell(grid[headerRow + 1 + i][j])
  {
    NormalisedIsWellFormed(grid, width, headerRow);
    FillNa(Normalise(grid, headerRow).value)
  }

  /**
   * What the source needs of its inputs once it gets past the key check. `set_index('key')`
   * needs "key" to head at most one column of each table. Once the substitution lines are read,
   * the comparison looks cells up: in the second table no key and no column label may repeat,
   * for `sheet2.at` and `get_loc` must give one value; in the first table only what is looked up
   * may not repeat, a key the second table also carries and a label that is a label of the
   * second table or a key column. `sheet1.at` on anything else is never evaluated.
   */
  predicate Admissible(grid1: seq<seq<Cell>>, width1: nat, grid2: seq<seq<Cell>>, width2: nat,
                       headerRow: nat, keyColumns: seq<string>, lines: seq<string>)
    requires Rectangular(grid1, width1) && Rectangular(grid2, width2)
  {
    headerRow < |grid1| && headerRow < |grid2| && AllPresent(keyColumns, grid1[headerRow], grid2[headerRow]) ==>
      && LabelOnce(grid1[headerRow], IndexLabel)
      && LabelOnce(grid2[headerRow], IndexLabel)
      && (ParseLines(lines).Success? ==>
            var k1 := SetIndex(Prepare(grid1, width1, headerRow), keyColumns);
            var k2 := SetIndex(Prepare(grid2, width2, headerRow), keyColumns);
            && LookedUpKeysOnce(k1.keys, k2.keys)
            && LookedUpLabelsOnce(grid1[headerRow], grid2[headerRow], keyColumns)
            && DistinctKeys(k2.keys)
            && UniqueLabels(grid2[headerRow]))
  }

  /**
   * The whole run on the expanded grids of the two sheets. It stops at the first failure, in
   * the source's order: the header row of the first sheet, that of the second, a missing key
   * column, a substitution line that cannot be unpacked.
   */
  function Run(grid1: seq<seq<Cell>>, width1: nat, grid2: seq<seq<Cell>>, width2: nat,
               headerRow: nat, keyColumns: seq<string>, lines: seq<string>): (r: Result<Report, Error>)
    requires Rectangular(grid1, width1) && Rectangular(grid2, width2)
    requires Admissible(grid1, width1, grid2, width2, headerRow, keyColumns, lines)
    ensures headerRow >= |grid1| ==> r == Failure(HeaderRowOutOfRange(headerRow, |grid1|))
    ensures headerRow < |grid1| && headerRow >= |grid2| ==> r == Failure(HeaderRowOutOfRange(headerRow, |grid2|))
    ensures r.Success? <==>
      headerRow < |grid1| && headerRow < |grid2| &&
      AllPresent(keyColumns, grid1[headerRow], grid2[headerRow]) && ParseLines(lines).Success?
    ensures headerRow < |grid1| && headerRow < |grid2| && !AllPresent(keyColumns, grid1[headerRow], grid2[headerRow]) ==>
      r == Failure(MissingKeyColumn(FirstMissingKeyColumn(keyColumns, grid1[headerRow], grid2[headerRow]).value))
    ensures headerRow < |grid1| && headerRow < |grid2| && AllPresent(keyColumns, grid1[headerRow], grid2[headerRow]) ==>
      r == match ParseLines(lines)
           case Failure(e) => Failure(e)
           case Success(subs) =>
             Success(Diff(SetIndex(Prepare(grid1, width1, headerRow), keyColumns),
                          SetIndex(Prepare(grid2, width2, headerRow), keyColumns), subs, headerRow))
  {
    if headerRow >= |grid1| then Failure(HeaderRowOutOfRange(headerRow, |grid1|))
    else if headerRow >= |grid2| then Failure(HeaderRowOutOfRange(headerRow, |grid2|))
    else
      var t1 := Prepare(grid1, width1, headerRow);
      var t2 := Prepare(grid2, width2, headerRow);
      match FirstMissingKeyColumn(keyColumns, t1.columns, t2.columns)
      case Some(k) => Failure(MissingKeyColumn(k))
      case None =>
        var k1 := SetIndex(t1, keyColumns);
        var k2 := SetIndex(t2, keyColumns);
        match ParseLines(lines)
        case Failure(e) => Failure(e)
        case Success(subs) => Success(Diff(k1, k2, subs, headerRow))
  }

  /**
   * The key check comes first: when a key column is missing from either header, the run fails
   * naming the first such column, whatever the data rows and whatever the substitution lines.
   */
  lemma KeyCheckComesFirst(grid1: seq<seq<Cell>>, width1: nat, grid2: seq<seq<Cell>>, width2: nat,
                           headerRow: nat, keyColumns: seq<string>, lines: seq<string>)
    requires Rectangular(grid1, width1) && Rectangular(grid2, width2)
    requires Admissible(grid1, width1, grid2, width2, headerRow, keyColumns, lines)
    requires headerRow < |grid1| && headerRow < |grid2|
    requires !AllPresent(keyColumns, grid1[headerRow], grid2[headerRow])
    ensures exists i :: (0 <= i < |keyColumns| &&
      Run(grid1, width1, grid2, width2, headerRow, keyColumns, lines) == Failure(MissingKeyColumn(keyColumns[i])) &&
      !(Some(keyColumns[i]) in grid1[headerRow] && Some(keyColumns[i]) in grid2[headerRow]) &&
      AllPresent(keyColumns[..i], grid1[headerRow], grid2[headerRow]))
  {
    var missing := FirstMissingKeyColumn(keyColumns, grid1[headerRow], grid2[headerRow]);
    var i :| 0 <= i < |keyColumns| && keyColumns[i] == missing.value &&
      !(Some(missing.value) in grid1[headerRow] && Some(missing.value) in grid2[headerRow]) &&
      AllPresent(keyColumns[..i], grid1[headerRow], grid2[headerRow]);
    assert Run(grid1, width1, grid2, width2, headerRow, keyColumns, lines) == Failure(MissingKeyColumn(keyColumns[i]));
  }

  /**
   * Every flag of a successful run lies in the data area of the second sheet: below its header
   * row, no lower than its last row, and within its width.
   */
  lemma FlagsInDataArea(grid1: seq<seq<Cell>>, width1: nat, grid2: seq<seq<Cell>>, width2: nat,
                        headerRow: nat, keyColumns: seq<string>, lines: seq<string>, f: Flag)
    requires Rectangular(grid1, width1) && Rectangular(grid2, width2)
    requires Admissible(grid1, width1, grid2, width2, headerRow, keyColumns, lines)
    requires Run(grid1, width1, grid2, width2, headerRow, keyColumns, lines).Success?
    requires f in Run(grid1, width1, grid2, width2, headerRow, keyColumns, lines).value.flags
    ensures headerRow + 2 <= f.row <= |grid2| && 1 <= f.col <= width2
  {
    var t1 := Prepare(grid1, width1, headerRow);
    var t2 := Prepare(grid2, width2, headerRow);
    var k1 := SetIndex(t1, keyColumns);
    var k2 := SetIndex(t2, keyColumns);
    var subs := ParseLines(lines).value;
    assert f in Diff(k1, k2, subs, headerRow).flags;
    Flagged(k1, k2, subs, headerRow, f.row, f.col);
  }

  /**
   * On admissible sheets `sheet1.at[key, col]` reads one row: the row the comparison matches
   * with row `i` of the second table is the only row of the first table carrying that key.
   */
  lemma MatchedRowIsOnly(grid1: seq<seq<Cell>>, width1: nat, grid2: seq<seq<Cell>>, width2: nat,
                         headerRow: nat, keyColumns: seq<string>, lines: seq<string>, i: nat, r: nat)
    requires Rectangular(grid1, width1) && Rectangular(grid2, width2)
    requires Admissible(grid1, width1, grid2, width2, headerRow, keyColumns, lines)
    requires headerRow < |grid1| && headerRow < |grid2| && AllPresent(keyColumns, grid1[headerRow], grid2[headerRow])
    requires ParseLines(lines).Success?
    requires i < |grid2| - headerRow - 1 && r < |grid1| - headerRow - 1
    requires SetIndex(Prepare(grid1, width1, headerRow), keyColumns).keys[r] ==
             SetIndex(Prepare(grid2, width2, headerRow), keyColumns).keys[i]
    ensures Match(SetIndex(Prepare(grid1, width1, headerRow), keyColumns),
                  SetIndex(Prepare(grid2, width2, headerRow), keyColumns), i) == Some(r)
  {
    var k1 := SetIndex(Prepare(grid1, width1, headerRow), keyColumns);
    var k2 := SetIndex(Prepare(grid2, width2, headerRow), keyColumns);
    assert k1.keys[r] in k2.keys by { assert k2.keys[i] == k1.keys[r]; }
    LookedUpKeyFound(k1.keys, k2.keys, r);
  }

  /** openpyxl's `sheet.values`: the cells, row by row. */
  method ReadValues(sheet: array2<Cell>) returns (grid: seq<seq<Cell>>)
    ensures grid == Values(sheet)
  {
    grid := [];
    var r := 0;
    while r < sheet.Length0
      invariant r <= sheet.Length0
      invariant |grid| == r
      invariant forall i :: 0 <= i < r ==> grid[i] == Values(sheet)[i]
    {
      var row := [];
      var c := 0;
      while c < sheet.Length1
        invariant c <= sheet.Length1
        invariant row == Values(sheet)[r][..c]
      {
        row := row + [sheet[r, c]];
        c := c + 1;
      }
      grid := grid + [row];
      r := r + 1;
    }
  }

  /**
   * `compare_excel_files` on two sheets with their merged regions: both sheets are expanded
   * in place (the second only once the first has a header row), then the run goes on as `Run`
   * on the expanded cells.
   */
  method CompareExcelFiles(sheet1: array2<Cell>, regions1: seq<Region>, sheet2: array2<Cell>, regions2: seq<Region>,
                           headerRow: nat, keyColumns: seq<string>, lines: seq<string>)
    returns (r: Result<Report, Error>)
    requires sheet1 != sheet2
    requires AllFit(regions1, sheet1.Length0, sheet1.Length1) && Disjoint(regions1)
    requires AllFit(regions2, sheet2.Length0, sheet2.Length1) && Disjoint(regions2)
    requires Admissible(Expanded(Values(sheet1), sheet1.Length1, regions1), sheet1.Length1,
                        Expanded(Values(sheet2), sheet2.Length1, regions2), sheet2.Length1, headerRow, keyColumns, lines)
    modifies sheet1, sheet2
    ensures Values(sheet1) == Expanded(old(Values(sheet1)), sheet1.Length1, regions1)
    ensures Values(sheet2) ==
      if headerRow < sheet1.Length0 then Expanded(old(Values(sheet2)), sheet2.Length1, regions2) else old(Values(sheet2))
    ensures r == Run(Expanded(old(Values(sheet1)), sheet1.Length1, regions1), sheet1.Length1,
                     Expanded(old(Values(sheet2)), sheet2.Length1, regions2), sheet2.Length1, headerRow, keyColumns, lines)
  {
    Unmerge(sheet1, regions1);
    var grid1 := ReadValues(sheet1);
    if headerRow >= |grid1| {
      return Failure(HeaderRowOutOfRange(headerRow, |grid1|));
    }
    Unmerge(sheet2, regions2);
    var grid2 := ReadValues(sheet2);
    if headerRow >= |grid2| {
      return Failure(HeaderRowOutOfRange(headerRow, |grid2|));
    }
    var t1 := Prepare(grid1, sheet1.Length1, headerRow);
    var t2 := Prepare(grid2, sheet2.Length1, headerRow);
    var missing := FirstMissingKeyColumn(keyColumns, t1.columns, t2.columns);
    if missing.Some? {
      return Failure(MissingKeyColumn(missing.value));
    }
    var k1 := SetIndex(t1, keyColumns);
    var k2 := SetIndex(t2, keyColumns);
    var subs := ReadReplaceInstructions(lines);
    if subs.Failure? {
      return Failure(subs.error);
    }
    DropIndexColumnUnique(t2.columns);
    var flags, countCellDiff, countRowDiff := CompareRows(k1, k2, subs.value, headerRow);
    r := Success(Report(flags, countCellDiff, countRowDiff));
  }
}

/**
 * A worked run: the first sheet holds one row (ID 1, note a, amount 10); the second holds the
 * same row with the amount written "ten" and a second row (ID 2, note b). With the keys ID and
 * Note and the substitution line "ten=10", the first row agrees and the second, absent from the
 * first sheet, is flagged in all three columns of sheet row 3.
 */
module ReconcileScenario {
  import opened Wrappers
  import opened Text
  import opened Substitution
  import opened Merge
  import opened Frame
  import opened Keys
  import opened Comparison
  import opened Reconcile

  const Header: seq<Cell> := [Some("ID"), Some("Note"), Some("Amt")]
  const Left: seq<seq<Cell>> := [Header, [Some("1"), Some("a"), Some("10")]]
  const Right: seq<seq<Cell>> := [Header, [Some("1"), Some("a"), Some("ten")], [Some("2"), Some("b"), Some("20")]]
  const KeyColumns: seq<string> := ["ID", "Note"]

  lemma ScenarioLines()
    ensures ParseLines(["ten=10\n"]) == Success(map["ten" := "10"])
  {
    PairRoundTrip("ten", "10", "\n");
    assert "ten" + "=" + "10" + "\n" == "ten=10\n";
    OutcomeAt(["ten=10\n"], 0);
    assert Outcomes(["ten=10\n"]) == [Pair("ten", "10")];
    assert Outcomes(["ten=10\n"])[..0] == [];
  }

  /** With no empty cell, preparing a sheet keeps its header and data rows as they are. */
  lemma PrepareFull(grid: seq<seq<Cell>>)
    requires Rectangular(grid, 3) && |grid| >= 1
    requires forall i, j :: 0 <= i < |grid| && 0 <= j < 3 ==> grid[i][j].Some?
    ensures Prepare(grid, 3, 0) == Table(grid[0], grid[1..])
  {
    var n := Table(grid[0], grid[1..]);
    assert Normalise(grid, 0).value == n;
    assert forall i, j :: 0 <= i < |n.rows| && 0 <= j < |n.rows[i]| ==> n.rows[i][j] == grid[i + 1][j];
    FillNaOfFilled(n);
  }

  /** The two key columns sit at positions 0 and 1, so a row's key is its first two cells joined. */
  lemma HeaderKey(row: seq<Cell>)
    requires |row| == 3 && row[0].Some? && row[1].Some?
    ensures (forall i :: 0 <= i < |KeyColumns| ==> Some(KeyColumns[i]) in Header)
    ensures RowKey(Header, row, KeyColumns) == row[0].value + "_" + row[1].value
  {
    assert Header[0] == Some("ID") && Header[1] == Some("Note");
    assert ColumnIndex(Header, Some("ID")) == 0;
    assert ColumnIndex(Header, Some("Note")) == 1;
    var values := KeyValues(Header, row, KeyColumns);
    assert values == [row[0].value, row[1].value];
    assert Join(values[1..], '_') == row[1].value;
  }

  lemma HeaderLabels()
    ensures UniqueLabels(Header) && IndexLabel !in Header
    ensures DropIndexColumn(Header, Header) == Header
  {
    assert Header[..1] == [Some("ID")] && Header[..2] == [Some("ID"), Some("Note")];
  }

  /** Indexing a sheet under `Header` whose key cells are filled: each row's key is its first two cells joined. */
  lemma IndexUnderHeader(rows: seq<seq<Cell>>, keys: seq<string>)
    requires |keys| == |rows|
    requires forall i :: 0 <= i < |rows| ==> |rows[i]| == 3 && rows[i][0].Some? && rows[i][1].Some?
    requires forall i :: 0 <= i < |rows| ==> keys[i] == rows[i][0].value + "_" + rows[i][1].value
    ensures WellFormed(Table(Header, rows)) && forall i :: 0 <= i < |KeyColumns| ==> Some(KeyColumns[i]) in Header
    ensures SetIndex(Table(Header, rows), KeyColumns) == Keyed(Header, rows, keys)
  {
    HeaderLabels();
    var k := SetIndex(Table(Header, rows), KeyColumns);
    forall i | 0 <= i < |rows| ensures k.rows[i] == rows[i] && k.keys[i] == keys[i] {
      HeaderKey(rows[i]);
    }
  }

  lemma LeftKeyed()
    ensures Rectangular(Left, 3)
    ensures SetIndex(Prepare(Left, 3, 0), KeyColumns) == Keyed(Header, Left[1..], ["1_a"])
  {
    PrepareFull(Left);
    assert "1" + "_" + "a" == "1_a";
    IndexUnderHeader(Left[1..], ["1_a"]);
  }

  lemma RightKeyed()
    ensures Rectangular(Right, 3)
    ensures SetIndex(Prepare(Right, 3, 0), KeyColumns) == Keyed(Header, Right[1..], ["1_a", "2_b"])
  {
    PrepareFull(Right);
    assert "1" + "_" + "a" == "1_a" && "2" + "_" + "b" == "2_b";
    IndexUnderHeader(Right[1..], ["1_a", "2_b"]);
  }

  /** Column by column, the first row of the second sheet agrees with its partner once "ten" reads as "10". */
  lemma ScenarioMarks(t1: Indexed, t2: Indexed)
    requires t1 == Keyed(Header, Left[1..], ["1_a"]) && t2 == Keyed(Header, Right[1..], ["1_a", "2_b"])
    ensures ColumnMarks(t1, t2, map["ten" := "10"], 0, 0) == [false, false, false]
  {
    var subs := map["ten" := "10"];
    HeaderLabels();
    forall j | 0 <= j < 3 ensures !CellDiffers(LeftCell(t1, 0, Header[j]), t2.rows[0][j], subs) {
      ColumnIndexOfUnique(Header, j);
      assert LeftCell(t1, 0, Header[j]) == Left[1][j];
      assert t2.rows[0][j] == Right[1][j];
    }
  }

  /** The first row of the second sheet agrees with its partner: nothing in it is flagged. */
  lemma ScenarioMatchedRow(t1: Indexed, t2: Indexed)
    requires t1 == Keyed(Header, Left[1..], ["1_a"]) && t2 == Keyed(Header, Right[1..], ["1_a", "2_b"])
    ensures RowResultAt(t1, t2, map["ten" := "10"], 0, 0) == RowResult(true, [])
  {
    assert Match(t1, t2, 0) == Some(0);
    ScenarioMarks(t1, t2);
    var marks := [false, false, false];
    assert marks[..2] == [false, false] && [false, false][..1] == [false];
    assert Marked([false], 2) == [];
    assert Marked([false, false], 2) == [];
    assert Marked(marks, 2) == [];
  }

  /** The second row of the second sheet has no partner: all of sheet row 3 is flagged. */
  lemma ScenarioUnmatchedRow(t1: Indexed, t2: Indexed)
    requires t1 == Keyed(Header, Left[1..], ["1_a"]) && t2 == Keyed(Header, Right[1..], ["1_a", "2_b"])
    ensures RowResultAt(t1, t2, map["ten" := "10"], 0, 1) == RowResult(false, [Flag(3, 1), Flag(3, 2), Flag(3, 3)])
  {
    assert Match(t1, t2, 1) == None;
    assert WholeRow(3, 3) == [Flag(3, 1), Flag(3, 2), Flag(3, 3)];
  }

  lemma ScenarioDiff(t1: Indexed, t2: Indexed)
    requires t1 == Keyed(Header, Left[1..], ["1_a"]) && t2 == Keyed(Header, Right[1..], ["1_a", "2_b"])
    ensures Diff(t1, t2, map["ten" := "10"], 0) == Report([Flag(3, 1), Flag(3, 2), Flag(3, 3)], 0, 1)
  {
    var subs := map["ten" := "10"];
    ScenarioMatchedRow(t1, t2);
    ScenarioUnmatchedRow(t1, t2);
    DiffStep(t1, t2, subs, 0, 0);
    DiffStep(t1, t2, subs, 0, 1);
  }

  /** Both sheets can be indexed by the two key columns. */
  lemma ScenarioAdmissible()
    ensures Rectangular(Left, 3) && Rectangular(Right, 3) && Admissible(Left, 3, Right, 3, 0, KeyColumns, ["ten=10\n"])
  {
    LeftKeyed();
    RightKeyed();
    HeaderLabels();
    ScenarioLines();
    assert DistinctKeys(["1_a", "2_b"]);
  }

  /** The whole run on the two sheets, from the cells and the substitution line to the report. */
  lemma Scenario()
    ensures Rectangular(Left, 3) && Rectangular(Right, 3) && Admissible(Left, 3, Right, 3, 0, KeyColumns, ["ten=10\n"])
    ensures Run(Left, 3, Right, 3, 0, KeyColumns, ["ten=10\n"]) ==
      Success(Report([Flag(3, 1), Flag(3, 2), Flag(3, 3)], 0, 1))
  {
    ScenarioAdmissible();
    LeftKeyed();
    RightKeyed();
    ScenarioLines();
    HeaderKey(Left[1]);
    ScenarioDiff(Keyed(Header, Left[1..], ["1_a"]), Keyed(Header, Right[1..], ["1_a", "2_b"]));
  }

  /**
   * Unlabelled columns that nothing looks up may repeat: a first sheet with two empty, unlabelled
   * columns beside ID and Note, against a second sheet holding the same row under ID and Note,
   * runs to an empty report.
   */
  const Wide: seq<seq<Cell>> := [[Some("ID"), Some("Note"), None, None], [Some("1"), Some("a"), None, None]]
  const Narrow: seq<seq<Cell>> := [[Some("ID"), Some("Note")], [Some("1"), Some("a")]]

  const WideRow: seq<Cell> := [Some("1"), Some("a"), Some(""), Some("")]

  lemma WidePrepared()
    ensures Rectangular(Wide, 4) && Prepare(Wide, 4, 0) == Table(Wide[0], [WideRow])
  {
    var t := Prepare(Wide, 4, 0);
    assert |t.rows| == 1 && |t.rows[0]| == 4;
    assert forall j :: 0 <= j < 4 ==> t.rows[0][j] == FillCell(Wide[1][j]);
    assert t.rows[0] == WideRow;
  }

  lemma WideKeyed()
    ensures Rectangular(Wide, 4) && Wide[0][..2] == Narrow[0]
    ensures SetIndex(Prepare(Wide, 4, 0), KeyColumns) == Keyed(Wide[0], [WideRow], ["1_a"])
  {
    WidePrepared();
    assert ColumnIndex(Wide[0], Some("ID")) == 0 && ColumnIndex(Wide[0], Some("Note")) == 1;
    assert KeyValues(Wide[0], WideRow, KeyColumns) == ["1", "a"];
    assert Join(["1", "a"][1..], '_') == "a";
    assert "1" + "_" + "a" == "1_a";
  }

  lemma NarrowPrepared()
    ensures Rectangular(Narrow, 2) && Prepare(Narrow, 2, 0) == Table(Narrow[0], Narrow[1..])
  {
    var t := Prepare(Narrow, 2, 0);
    assert |t.rows| == 1 && |t.rows[0]| == 2;
    assert t.rows[0][0] == FillCell(Narrow[1][0]) && t.rows[0][1] == FillCell(Narrow[1][1]);
    assert t.rows[0] == Narrow[1];
  }

  lemma NarrowKeyed()
    ensures Rectangular(Narrow, 2) && UniqueLabels(Narrow[0])
    ensures SetIndex(Prepare(Narrow, 2, 0), KeyColumns) == Keyed(Narrow[0], Narrow[1..], ["1_a"])
  {
    NarrowPrepared();
    assert Narrow[0][..1] == [Some("ID")];
    assert ColumnIndex(Narrow[0], Some("ID")) == 0 && ColumnIndex(Narrow[0], Some("Note")) == 1;
    assert KeyValues(Narrow[0], Narrow[1], KeyColumns) == ["1", "a"];
    assert Join(["1", "a"][1..], '_') == "a";
    assert "1" + "_" + "a" == "1_a";
  }

  /** The one row of the second sheet matches the row of the first and agrees with it in ID and Note. */
  lemma WideDiff(t1: Indexed, t2: Indexed)
    requires t1 == Keyed(Wide[0], [WideRow], ["1_a"]) && t2 == Keyed(Narrow[0], Narrow[1..], ["1_a"])
    ensures Diff(t1, t2, map[], 0) == Report([], 0, 0)
  {
    var subs: map<string, string> := map[];
    assert Match(t1, t2, 0) == Some(0);
    assert ColumnIndex(Wide[0], Some("ID")) == 0 && ColumnIndex(Wide[0], Some("Note")) == 1;
    assert ColumnMarks(t1, t2, subs, 0, 0) == [false, false];
    assert [false, false][..1] == [false];
    assert Marked([false], 2) == [];
    assert Marked([false, false], 2) == [];
    assert RowResultAt(t1, t2, subs, 0, 0) == RowResult(true, []);
    DiffStep(t1, t2, subs, 0, 0);
  }

  lemma WideAdmissible()
    ensures Rectangular(Wide, 4) && Rectangular(Narrow, 2) && Admissible(Wide, 4, Narrow, 2, 0, KeyColumns, [])
    ensures !UniqueLabels(Wide[0])
  {
    WideKeyed();
    NarrowKeyed();
    assert Wide[0][..3][2] == None;
    var columns := Wide[0];
    forall j | 0 <= j < |columns| && (columns[j] in Narrow[0] ||
        (columns[j].Some? && columns[j].value in KeyColumns))
      ensures columns[j] !in columns[..j]
    {
      assert j < 2;
      assert columns[..1] == [Some("ID")];
    }
  }

  lemma WideRun()
    ensures Rectangular(Wide, 4) && Rectangular(Narrow, 2) && Admissible(Wide, 4, Narrow, 2, 0, KeyColumns, [])
    ensures Run(Wide, 4, Narrow, 2, 0, KeyColumns, []) == Success(Report([], 0, 0))
  {
    WideAdmissible();
    WideKeyed();
    NarrowKeyed();
    var k1 := Keyed(Wide[0], [WideRow], ["1_a"]);
    var k2 := Keyed(Narrow[0], Narrow[1..], ["1_a"]);
    assert Wide[0][0] == Narrow[0][0] == Some(KeyColumns[0]) && Wide[0][1] == Narrow[0][1] == Some(KeyColumns[1]);
    assert AllPresent(KeyColumns, Wide[0], Narrow[0]);
    assert ParseLines([]) == Success(map[]);
    WideDiff(k1, k2);
  }


  /**
   * A second sheet headed "key" twice is not admissible: `set_index('key')` would be handed
   * two columns.
   */
  const Single: seq<seq<Cell>> := [[Some("ID")], [Some("1")]]
  const DoubleKey: seq<seq<Cell>> := [[Some("ID"), IndexLabel, IndexLabel], [Some("1"), Some("x"), Some("y")]]

  lemma DoubleKeyExcluded(lines: seq<string>)
    ensures Rectangular(Single, 1) && Rectangular(DoubleKey, 3)
    ensures !Admissible(Single, 1, DoubleKey, 3, 0, ["ID"], lines)
  {
    assert AllPresent(["ID"], Single[0], DoubleKey[0]) by {
      assert Single[0][0] == DoubleKey[0][0] == Some("ID");
    }
    assert DoubleKey[0][..2][1] == IndexLabel;
  }
}
