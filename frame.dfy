/**
 * Header normalisation, the second half of `unmerge_excel`, and the `fillna("")` that
 * `compare_excel_files` applies to both tables before anything else.
 */
module Frame {
  import opened Wrappers
  import opened Errors
  import opened Merge

  /** A cell value: a string, or empty (None / NaN). */
  type Cell = Option<string>

  /** A DataFrame: ordered column labels and ordered data rows, renumbered from 0. */
  datatype Table = Table(columns: seq<Cell>, rows: seq<seq<Cell>>)

  /** Every data row has one cell per column label. */
  predicate WellFormed(t: Table) {
    forall i :: 0 <= i < |t.rows| ==> |t.rows[i]| == |t.columns|
  }

  /** The 1-based spreadsheet row that holds data row `i` when the labels sit in grid row `headerRow`. */
  function SheetRow(headerRow: nat, i: nat): nat {
    i + headerRow + 2
  }

  /**
   * `df.columns = df.iloc[header_row]`, then `df[header_row + 1:]` with the index reset:
   * the header row gives the labels, the rows after it are the data rows, in order.
   */
  function Normalise(grid: seq<seq<Cell>>, headerRow: nat): (r: Result<Table, Error>)
    ensures r.Failure? <==> headerRow >= |grid|
    ensures r.Failure? ==> r.error == HeaderRowOutOfRange(headerRow, |grid|)
    ensures r.Success? ==>
      && r.value.columns == grid[headerRow]
      && |r.value.rows| == |grid| - headerRow - 1
      && forall i :: 0 <= i < |r.value.rows| ==> r.value.rows[i] == grid[SheetRow(headerRow, i) - 1]
  {
    if headerRow < |grid| then Success(Table(grid[headerRow], grid[headerRow + 1..]))
    else Failure(HeaderRowOutOfRange(headerRow, |grid|))
  }

  /** A rectangular grid gives a well-formed table whose width is the grid's. */
  lemma NormalisedIsWellFormed(grid: seq<seq<Cell>>, width: nat, headerRow: nat)
    requires Rectangular(grid, width) && headerRow < |grid|
    ensures WellFormed(Normalise(grid, headerRow).value)
    ensures |Normalise(grid, headerRow).value.columns| == width
  {
    var t := Normalise(grid, headerRow).value;
    forall i | 0 <= i < |t.rows| ensures |t.rows[i]| == width {
      assert t.rows[i] == grid[headerRow + 1 + i];
    }
  }

  function FillCell(c: Cell): Cell {
    if c.None? then Some("") else c
  }

  /** No data cell is empty. */
  predicate Filled(t: Table) {
    forall i, j :: 0 <= i < |t.rows| && 0 <= j < |t.rows[i]| ==> t.rows[i][j].Some?
  }

  /** `fillna("")`: empty data cells become "", the others and the labels are kept. */
  function FillNa(t: Table): (r: Table)
    ensures r.columns == t.columns && |r.rows| == |t.rows|
    ensures forall i :: 0 <= i < |t.rows| ==> |r.rows[i]| == |t.rows[i]|
    ensures Filled(r)
    ensures forall i, j :: 0 <= i < |t.rows| && 0 <= j < |t.rows[i]| && t.rows[i][j].Some? ==>
      r.rows[i][j] == t.rows[i][j]
    ensures forall i, j :: 0 <= i < |t.rows| && 0 <= j < |t.rows[i]| && t.rows[i][j].None? ==>
      r.rows[i][j] == Some("")
  {
    Table(t.columns, seq(|t.rows|, i requires 0 <= i < |t.rows| =>
      seq(|t.rows[i]|, j requires 0 <= j < |t.rows[i]| => FillCell(t.rows[i][j]))))
  }

  /** A table without empty cells is left as it is by `fillna("")`; so `fillna("")` is idempotent. */
  lemma FillNaOfFilled(t: Table)
    requires Filled(t)
    ensures FillNa(t) == t
  {
    var r := FillNa(t);
    forall i | 0 <= i < |t.rows| ensures r.rows[i] == t.rows[i] {
      assert forall j :: 0 <= j < |t.rows[i]| ==> r.rows[i][j] == t.rows[i][j];
    }
  }

  lemma FillNaIdempotent(t: Table)
    ensures FillNa(FillNa(t)) == FillNa(t)
  {
    FillNaOfFilled(FillNa(t));
  }
}
