/**
 * Merged-region expansion, the first half of `unmerge_excel`: every merged rectangle of the
 * first sheet is filled, cell by cell and in place, with the value of its top-left cell.
 * The sheet is a two-dimensional array; sheet row `r` and column `c` (1-based, as openpyxl
 * numbers them) live at index `[r - 1, c - 1]`.
 */
module Merge {
  import opened Wrappers

  /** A merged rectangle as openpyxl reports it: 1-based, both bounds inclusive. */
  datatype Region = Region(minRow: nat, minCol: nat, maxRow: nat, maxCol: nat)

  predicate Covers(g: Region, row: int, col: int) {
    g.minRow <= row <= g.maxRow && g.minCol <= col <= g.maxCol
  }

  /** The region lies inside a sheet of `rows` by `cols` cells. */
  predicate Fits(g: Region, rows: nat, cols: nat) {
    1 <= g.minRow <= g.maxRow <= rows && 1 <= g.minCol <= g.maxCol <= cols
  }

  predicate AllFit(regions: seq<Region>, rows: nat, cols: nat) {
    forall k :: 0 <= k < |regions| ==> Fits(regions[k], rows, cols)
  }

  /** Two rectangles share no cell. */
  predicate Apart(a: Region, b: Region) {
    a.maxRow < b.minRow || b.maxRow < a.minRow || a.maxCol < b.minCol || b.maxCol < a.minCol
  }

  predicate Disjoint(regions: seq<Region>) {
    forall i, j :: 0 <= i < j < |regions| ==> Apart(regions[i], regions[j])
  }

  predicate Uncovered(regions: seq<Region>, row: int, col: int) {
    forall k :: 0 <= k < |regions| ==> !Covers(regions[k], row, col)
  }

  /** The first region that covers the cell, if any. */
  function Owner(regions: seq<Region>, row: int, col: int): (r: Option<nat>)
    ensures r.Some? ==> r.value < |regions| && Covers(regions[r.value], row, col)
    ensures r.None? <==> Uncovered(regions, row, col)
  {
    if regions == [] then None
    else
      var last := |regions| - 1;
      var earlier := Owner(regions[..last], row, col);
      if earlier.Some? then earlier
      else if Covers(regions[last], row, col) then Some(last)
      else None
  }

  /** When the regions are disjoint, the owner of a cell is the one region that covers it. */
  lemma {:induction false} OwnerOfDisjoint(regions: seq<Region>, k: nat, row: int, col: int)
    requires Disjoint(regions)
    requires k < |regions| && Covers(regions[k], row, col)
    ensures Owner(regions, row, col) == Some(k)
  {
    var last := |regions| - 1;
    var earlier := regions[..last];
    if k < last {
      OwnerOfDisjoint(earlier, k, row, col);
    } else {
      forall k' | 0 <= k' < last ensures !Covers(earlier[k'], row, col) {
        assert Apart(regions[k'], regions[last]);
      }
    }
  }

  /** Every row of the grid has `width` cells. */
  predicate Rectangular<T>(grid: seq<seq<T>>, width: nat) {
    forall i :: 0 <= i < |grid| ==> |grid[i]| == width
  }

  /** The cells of the sheet, row by row: openpyxl's `sheet.values`. */
  ghost function Values<T>(sheet: array2<T>): (grid: seq<seq<T>>)
    reads sheet
    ensures |grid| == sheet.Length0 && Rectangular(grid, sheet.Length1)
  {
    seq(sheet.Length0, i requires 0 <= i < sheet.Length0 reads sheet =>
      seq(sheet.Length1, j requires 0 <= j < sheet.Length1 reads sheet => sheet[i, j]))
  }

  /** The grid after expansion: a covered cell holds its owner's top-left value, any other keeps its own. */
  function Expanded<T>(grid: seq<seq<T>>, width: nat, regions: seq<Region>): (r: seq<seq<T>>)
    requires Rectangular(grid, width) && AllFit(regions, |grid|, width)
    ensures |r| == |grid| && Rectangular(r, width)
  {
    seq(|grid|, i requires 0 <= i < |grid| =>
      seq(width, j requires 0 <= j < width =>
        match Owner(regions, i + 1, j + 1)
        case None => grid[i][j]
        case Some(k) => grid[regions[k].minRow - 1][regions[k].minCol - 1]))
  }

  /**
   * `Expanded` is what the source promises of disjoint regions: every cell of a region holds
   * that region's top-left value, every cell outside all regions is unchanged.
   */
  lemma ExpandedCells<T>(grid: seq<seq<T>>, width: nat, regions: seq<Region>, i: nat, j: nat)
    requires Rectangular(grid, width) && AllFit(regions, |grid|, width) && Disjoint(regions)
    requires i < |grid| && j < width
    ensures forall k :: 0 <= k < |regions| && Covers(regions[k], i + 1, j + 1) ==>
      Expanded(grid, width, regions)[i][j] == grid[regions[k].minRow - 1][regions[k].minCol - 1]
    ensures Uncovered(regions, i + 1, j + 1) ==> Expanded(grid, width, regions)[i][j] == grid[i][j]
  {
    forall k | 0 <= k < |regions| && Covers(regions[k], i + 1, j + 1)
      ensures Expanded(grid, width, regions)[i][j] == grid[regions[k].minRow - 1][regions[k].minCol - 1]
    {
      OwnerOfDisjoint(regions, k, i + 1, j + 1);
    }
  }

  /** A grid whose cells satisfy the two promises of `ExpandedCells` is the expanded grid. */
  lemma PointwiseExpanded<T>(before: seq<seq<T>>, after: seq<seq<T>>, width: nat, regions: seq<Region>)
    requires Rectangular(before, width) && AllFit(regions, |before|, width) && Disjoint(regions)
    requires |after| == |before| && Rectangular(after, width)
    requires forall k, i, j :: (0 <= k < |regions| && 0 <= i < |before| && 0 <= j < width &&
       Covers(regions[k], i + 1, j + 1)) ==> after[i][j] == before[regions[k].minRow - 1][regions[k].minCol - 1]
    requires forall i, j :: (0 <= i < |before| && 0 <= j < width &&
       Uncovered(regions, i + 1, j + 1)) ==> after[i][j] == before[i][j]
    ensures after == Expanded(before, width, regions)
  {
    var e := Expanded(before, width, regions);
    forall i | 0 <= i < |before| ensures after[i] == e[i] {
      forall j | 0 <= j < width ensures after[i][j] == e[i][j] {
        var o := Owner(regions, i + 1, j + 1);
        if o.Some? {
          OwnerOfDisjoint(regions, o.value, i + 1, j + 1);
        }
      }
    }
  }

  /** `unmerge_excel` on the sheet: afterwards the sheet holds the expanded grid. */
  method Unmerge<T>(sheet: array2<T>, regions: seq<Region>)
    requires AllFit(regions, sheet.Length0, sheet.Length1) && Disjoint(regions)
    modifies sheet
    ensures Values(sheet) == Expanded(old(Values(sheet)), sheet.Length1, regions)
  {
    FillRegions(sheet, regions);
    PointwiseExpanded(old(Values(sheet)), Values(sheet), sheet.Length1, regions);
  }

  /**
   * The loops of `unmerge_excel`: each region in turn, each of its rows, each of its columns.
   * A cell of a region ends up with the region's top-left value, any other cell keeps its own.
   */
  method FillRegions<T>(sheet: array2<T>, regions: seq<Region>)
    requires AllFit(regions, sheet.Length0, sheet.Length1) && Disjoint(regions)
    modifies sheet
    ensures forall k, r, c :: (0 <= k < |regions| && 0 <= r < sheet.Length0 && 0 <= c < sheet.Length1 &&
       Covers(regions[k], r + 1, c + 1)) ==>
        sheet[r, c] == old(sheet[regions[k].minRow - 1, regions[k].minCol - 1])
    ensures forall r, c :: (0 <= r < sheet.Length0 && 0 <= c < sheet.Length1 &&
       Uncovered(regions, r + 1, c + 1)) ==>
        sheet[r, c] == old(sheet[r, c])
  {
    var k := 0;
    while k < |regions|
      invariant 0 <= k <= |regions|
      invariant forall k', r, c :: (0 <= k' < k && 0 <= r < sheet.Length0 && 0 <= c < sheet.Length1 &&
         Covers(regions[k'], r + 1, c + 1)) ==>
          sheet[r, c] == old(sheet[regions[k'].minRow - 1, regions[k'].minCol - 1])
      invariant forall r, c :: (0 <= r < sheet.Length0 && 0 <= c < sheet.Length1 &&
         Uncovered(regions[..k], r + 1, c + 1)) ==>
          sheet[r, c] == old(sheet[r, c])
    {
      var g := regions[k];
      EarlierApart(regions, k);
      var topLeft := sheet[g.minRow - 1, g.minCol - 1];
      FillRegion(sheet, g, topLeft);
      forall r, c | Uncovered(regions[..k + 1], r, c)
        ensures Uncovered(regions[..k], r, c) && !Covers(g, r, c)
      {
        UncoveredPrefix(regions, k, r, c);
      }
      k := k + 1;
    }
    assert regions[..k] == regions;
  }

  /** The regions before `k` keep clear of region `k`, and so of its top-left cell. */
  lemma EarlierApart(regions: seq<Region>, k: nat)
    requires Disjoint(regions) && k < |regions|
    requires regions[k].minRow <= regions[k].maxRow && regions[k].minCol <= regions[k].maxCol
    ensures forall k' :: 0 <= k' < k ==> Apart(regions[k'], regions[k])
    ensures Uncovered(regions[..k], regions[k].minRow, regions[k].minCol)
  {
    forall k' | 0 <= k' < k ensures Apart(regions[k'], regions[k]) { }
  }

  /** A cell clear of the first `k + 1` regions is clear of the first `k` and of region `k`. */
  lemma UncoveredPrefix(regions: seq<Region>, k: nat, row: int, col: int)
    requires k < |regions| && Uncovered(regions[..k + 1], row, col)
    ensures Uncovered(regions[..k], row, col) && !Covers(regions[k], row, col)
  {
    assert regions[..k + 1][k] == regions[k];
    forall k' | 0 <= k' < k ensures !Covers(regions[..k][k'], row, col) {
      assert regions[..k][k'] == regions[..k + 1][k'];
    }
  }

  /** The two inner loops for one region: every cell of `g` receives `value`, no other cell changes. */
  method FillRegion<T>(sheet: array2<T>, g: Region, value: T)
    requires Fits(g, sheet.Length0, sheet.Length1)
    modifies sheet
    ensures forall r, c :: 0 <= r < sheet.Length0 && 0 <= c < sheet.Length1 ==>
      sheet[r, c] == if Covers(g, r + 1, c + 1) then value else old(sheet[r, c])
  {
    var row := g.minRow;
    while row <= g.maxRow
      invariant g.minRow <= row <= g.maxRow + 1
      invariant forall r, c :: 0 <= r < sheet.Length0 && 0 <= c < sheet.Length1 ==>
        sheet[r, c] == if Covers(g, r + 1, c + 1) && r + 1 < row then value else old(sheet[r, c])
    {
      var col := g.minCol;
      while col <= g.maxCol
        invariant g.minCol <= col <= g.maxCol + 1
        invariant forall r, c :: 0 <= r < sheet.Length0 && 0 <= c < sheet.Length1 ==>
          sheet[r, c] == if Covers(g, r + 1, c + 1) && (r + 1 < row || (r + 1 == row && c + 1 < col))
            then value else old(sheet[r, c])
      {
        sheet[row - 1, col - 1] := value;
        col := col + 1;
      }
      row := row + 1;
    }
  }
}
