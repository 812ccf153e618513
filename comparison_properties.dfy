/**
 * What the comparison promises, proved about its specification `Comparison.Diff`: which cells are
 * flagged, in which order, and what the two counters count. The bookkeeping of the row loop is
 * proved once about `Tally`, for any row results; the tables enter only through
 * `RowResultShape` and `RowResultFlag`.
 */
module ComparisonProperties {
  import opened Wrappers
  import opened Frame
  import opened Keys
  import opened Comparison

  /** Flag `a` is made before flag `b`: an earlier row, or the same row and an earlier column. */
  predicate Before(a: Flag, b: Flag) {
    a.row < b.row || (a.row == b.row && a.col < b.col)
  }

  /** Flags in strictly increasing order: row order of the second table, then column order. */
  predicate Ordered(flags: seq<Flag>) {
    forall p, q :: 0 <= p < q < |flags| ==> Before(flags[p], flags[q])
  }

  /** All flags lie in sheet row `row`. */
  predicate InRow(flags: seq<Flag>, row: nat) {
    forall p :: 0 <= p < |flags| ==> flags[p].row == row
  }

  // ---------------------------------------------------------------------------------------------
  // One cell

  /**
   * Substitution touches the right-hand value only, and only once: with `o` replaced by `n` and
   * `n` by `m`, a right `o` agrees with a left `n` (not with `m`), while a left `o` is never
   * replaced and so differs from a right `o`.
   */
  lemma SubstitutionOneSidedOnce(o: string, n: string, m: string)
    requires o != n && n != m && o != m
    ensures var subs := map[o := n, n := m];
      && !CellDiffers(Some(n), Some(o), subs)
      && CellDiffers(Some(m), Some(o), subs)
      && CellDiffers(Some(o), Some(o), subs)
  {
    var subs := map[o := n, n := m];
    assert Substitute(Some(o), subs) == Some(n);
  }

  /** An empty cell compares as "", on either side, as long as "" itself is not substituted. */
  lemma EmptyComparesAsBlank(left: Cell, right: Cell, subs: map<string, string>)
    requires "" !in subs
    ensures CellDiffers(left, None, subs) <==> Shown(left) != ""
    ensures CellDiffers(None, right, subs) == CellDiffers(Some(""), right, subs)
    ensures CellDiffers(None, Some(""), subs) == false
  {
  }

  /** A column of the second table that the first lacks compares against "" in a matched row. */
  lemma MissingColumnComparesWithBlank(t1: Indexed, t2: Indexed, subs: map<string, string>, headerRow: nat, i: nat, j: nat)
    requires i < |t2.rows| && j < |t2.columns| && t2.keys[i] in t1.keys && t2.columns[j] !in t1.columns
    ensures Flag(SheetRow(headerRow, i), j + 1) in Diff(t1, t2, subs, headerRow).flags <==>
      Shown(Substitute(t2.rows[i][j], subs)) != ""
  {
    FlaggedInDataRow(t1, t2, subs, headerRow, i, j + 1);
  }

  /** A matched row whose every cell agrees with its partner's gets no flag at all. */
  lemma AgreeingRowUnflagged(t1: Indexed, t2: Indexed, subs: map<string, string>, headerRow: nat, i: nat, c: nat)
    requires i < |t2.rows| && t2.keys[i] in t1.keys
    requires forall j :: 0 <= j < |t2.columns| ==>
      !CellDiffers(LeftCell(t1, Match(t1, t2, i).value, t2.columns[j]), t2.rows[i][j], subs)
    ensures Flag(SheetRow(headerRow, i), c) !in Diff(t1, t2, subs, headerRow).flags
  {
    FlaggedInDataRow(t1, t2, subs, headerRow, i, c);
  }

  /** A row whose key the first table lacks is flagged in every one of its columns. */
  lemma UnmatchedRowFlaggedWhole(t1: Indexed, t2: Indexed, subs: map<string, string>, headerRow: nat, i: nat, c: nat)
    requires i < |t2.rows| && t2.keys[i] !in t1.keys && 1 <= c <= |t2.columns|
    ensures Flag(SheetRow(headerRow, i), c) in Diff(t1, t2, subs, headerRow).flags
  {
    FlaggedInDataRow(t1, t2, subs, headerRow, i, c);
  }

  // ---------------------------------------------------------------------------------------------
  // One row

  /** The marked columns become flags of their 1-based positions, left to right. */
  lemma {:induction false} MarkedExact(marks: seq<bool>, row: nat)
    ensures var flags := Marked(marks, row);
      && (forall f :: f in flags <==> f.row == row && 1 <= f.col <= |marks| && marks[f.col - 1])
      && (forall p :: 0 <= p < |flags| ==> flags[p].row == row && flags[p].col <= |marks|)
      && Ordered(flags)
  {
    if marks != [] {
      var n := |marks|;
      var init := marks[..n - 1];
      MarkedExact(init, row);
      MarkedStep(marks, row, n - 1);
      assert marks[..n] == marks;
      var prev := Marked(init, row);
      var added := if marks[n - 1] then [Flag(row, n)] else [];
      assert Marked(marks, row) == prev + added;
      forall f ensures f in prev <==> f.row == row && 1 <= f.col <= n - 1 && marks[f.col - 1] {
        if 1 <= f.col <= n - 1 {
          assert init[f.col - 1] == marks[f.col - 1];
        }
      }
    }
  }

  /** Position `j` of a whole row is column `j + 1`. */
  lemma {:induction false} WholeRowAt(row: nat, n: nat)
    ensures forall j :: 0 <= j < n ==> WholeRow(row, n)[j] == Flag(row, j + 1)
  {
    if n > 0 {
      WholeRowAt(row, n - 1);
    }
  }

  /** An unmatched row flags every column once, left to right. */
  lemma WholeRowExact(row: nat, n: nat)
    ensures var flags := WholeRow(row, n);
      && (forall f :: f in flags <==> f.row == row && 1 <= f.col <= n)
      && Ordered(flags)
  {
    var flags := WholeRow(row, n);
    WholeRowAt(row, n);
    forall f: Flag | f.row == row && 1 <= f.col <= n ensures f in flags {
      assert flags[f.col - 1] == f;
    }
  }

  /**
   * Row `i` of the second table is matched exactly when its key is in the first table; its
   * flags lie in its own sheet row, left to right; and an unmatched row has one flag per column.
   */
  lemma RowResultShape(t1: Indexed, t2: Indexed, subs: map<string, string>, headerRow: nat, i: nat)
    requires i < |t2.rows|
    ensures var r := RowResultAt(t1, t2, subs, headerRow, i);
      && (r.matched <==> t2.keys[i] in t1.keys)
      && (!r.matched ==> |r.flags| == |t2.columns|)
      && InRow(r.flags, SheetRow(headerRow, i))
      && Ordered(r.flags)
  {
    match Match(t1, t2, i)
    case Some(r1) =>
      MarkedExact(ColumnMarks(t1, t2, subs, i, r1), SheetRow(headerRow, i));
    case None =>
      WholeRowExact(SheetRow(headerRow, i), |t2.columns|);
  }

  /** Column `c` of row `i`'s sheet row is among row `i`'s flags exactly when that cell is to be flagged. */
  lemma RowResultFlag(t1: Indexed, t2: Indexed, subs: map<string, string>, headerRow: nat, i: nat, c: nat)
    requires i < |t2.rows|
    ensures Flag(SheetRow(headerRow, i), c) in RowResultAt(t1, t2, subs, headerRow, i).flags <==>
      1 <= c <= |t2.columns| && ShouldFlag(t1, t2, subs, i, c - 1)
  {
    var f := Flag(SheetRow(headerRow, i), c);
    match Match(t1, t2, i)
    case Some(r1) =>
      var marks := ColumnMarks(t1, t2, subs, i, r1);
      MarkedExact(marks, SheetRow(headerRow, i));
      assert f in Marked(marks, SheetRow(headerRow, i)) <==> 1 <= c <= |marks| && marks[c - 1];
    case None =>
      WholeRowExact(SheetRow(headerRow, i), |t2.columns|);
  }

  // ---------------------------------------------------------------------------------------------
  // The row loop's bookkeeping, for any row results

  /** Row result `k` lies in sheet row `base + k`. */
  predicate RowsInPlace(rs: seq<RowResult>, base: nat) {
    forall k :: 0 <= k < |rs| ==> InRow(rs[k].flags, base + k)
  }

  /** The flags of every row result are ordered. */
  predicate RowsOrdered(rs: seq<RowResult>) {
    forall k :: 0 <= k < |rs| ==> Ordered(rs[k].flags)
  }

  /** No row result holds a flag twice. */
  predicate RowsWithoutRepeats(rs: seq<RowResult>) {
    forall k :: 0 <= k < |rs| ==> |set f | f in rs[k].flags| == |rs[k].flags|
  }

  lemma RowsInPlacePrefix(rs: seq<RowResult>, base: nat, n: nat)
    requires n <= |rs|
    ensures RowsInPlace(rs, base) ==> RowsInPlace(rs[..n], base)
    ensures RowsOrdered(rs) ==> RowsOrdered(rs[..n])
    ensures RowsWithoutRepeats(rs) ==> RowsWithoutRepeats(rs[..n])
  {
    assert forall k :: 0 <= k < n ==> rs[..n][k] == rs[k];
  }

  /** Every reported flag lies in the sheet row of one of the row results. */
  lemma {:induction false} TallyRows(rs: seq<RowResult>, base: nat)
    requires RowsInPlace(rs, base)
    ensures forall p :: 0 <= p < |Tally(rs).flags| ==> base <= Tally(rs).flags[p].row < base + |rs|
  {
    if rs != [] {
      var n := |rs|;
      RowsInPlacePrefix(rs, base, n - 1);
      TallyRows(rs[..n - 1], base);
      assert InRow(rs[n - 1].flags, base + n - 1);
    }
  }

  /** A flag is reported exactly when the row result of its sheet row holds it. */
  lemma {:induction false} TallyMember(rs: seq<RowResult>, base: nat, f: Flag)
    requires RowsInPlace(rs, base)
    ensures f in Tally(rs).flags <==> (base <= f.row < base + |rs| && f in rs[f.row - base].flags)
  {
    if rs != [] {
      var n := |rs|;
      var init := rs[..n - 1];
      var last := rs[n - 1].flags;
      RowsInPlacePrefix(rs, base, n - 1);
      TallyMember(init, base, f);
      assert Tally(rs).flags == Tally(init).flags + last;
      assert InRow(last, base + n - 1);
      if f in last {
        var p :| 0 <= p < |last| && last[p] == f;
      }
      if base <= f.row < base + n - 1 {
        assert init[f.row - base] == rs[f.row - base];
      }
    }
  }

  lemma ConcatOrdered(a: seq<Flag>, b: seq<Flag>, row: nat)
    requires Ordered(a) && Ordered(b)
    requires forall p :: 0 <= p < |a| ==> a[p].row < row
    requires forall p :: 0 <= p < |b| ==> b[p].row == row
    ensures Ordered(a + b)
  {
  }

  /** Row results taken in order give flags in order. */
  lemma {:induction false} TallyOrdered(rs: seq<RowResult>, base: nat)
    requires RowsInPlace(rs, base) && RowsOrdered(rs)
    ensures Ordered(Tally(rs).flags)
  {
    if rs != [] {
      var n := |rs|;
      RowsInPlacePrefix(rs, base, n - 1);
      TallyOrdered(rs[..n - 1], base);
      TallyRows(rs[..n - 1], base);
      var prev := Tally(rs[..n - 1]).flags;
      var last := rs[n - 1].flags;
      assert InRow(last, base + n - 1);
      assert Ordered(last);
      ConcatOrdered(prev, last, base + n - 1);
    }
  }

  /** The positions of the unmatched row results. */
  function UnmatchedIn(rs: seq<RowResult>): set<nat> {
    set k: nat | k < |rs| && !rs[k].matched
  }

  /** The row counter counts the unmatched row results. */
  lemma {:induction false} TallyRowCount(rs: seq<RowResult>)
    ensures Tally(rs).rowDiffs == |UnmatchedIn(rs)|
  {
    if rs != [] {
      var n := |rs|;
      TallyRowCount(rs[..n - 1]);
      assert n - 1 !in UnmatchedIn(rs[..n - 1]);
      if rs[n - 1].matched {
        assert UnmatchedIn(rs) == UnmatchedIn(rs[..n - 1]);
      } else {
        assert UnmatchedIn(rs) == UnmatchedIn(rs[..n - 1]) + {n - 1};
      }
    }
  }

  /** When every unmatched row result has `width` flags, there are as many flags as the cell count plus `width` per unmatched row. */
  lemma {:induction false} TallyFlagCount(rs: seq<RowResult>, width: nat)
    requires forall k :: 0 <= k < |rs| && !rs[k].matched ==> |rs[k].flags| == width
    ensures |Tally(rs).flags| == Tally(rs).cellDiffs + Tally(rs).rowDiffs * width
  {
    if rs != [] {
      var n := |rs|;
      TallyFlagCount(rs[..n - 1], width);
      var k := Tally(rs[..n - 1]).rowDiffs;
      assert (k + 1) * width == k * width + width;
    }
  }

  /** The flags, among `flags`, whose sheet row holds a matched row result. */
  function MatchedIn(rs: seq<RowResult>, base: nat, flags: seq<Flag>): set<Flag> {
    set f | f in flags && base <= f.row < base + |rs| && rs[f.row - base].matched
  }

  /** A sequence without repeats has as many distinct elements as positions. */
  lemma {:induction false} DistinctCount(s: seq<Flag>)
    requires forall p, q :: 0 <= p < q < |s| ==> s[p] != s[q]
    ensures |set f | f in s| == |s|
  {
    if s != [] {
      var init := s[..|s| - 1];
      DistinctCount(init);
      assert (set f | f in s) == (set f | f in init) + {s[|s| - 1]};
      assert s[|s| - 1] !in init;
    }
  }

  /** The cell counter counts the distinct flags of matched row results. */
  lemma {:induction false} TallyCellCount(rs: seq<RowResult>, base: nat)
    requires RowsInPlace(rs, base) && RowsWithoutRepeats(rs)
    ensures Tally(rs).cellDiffs == |MatchedIn(rs, base, Tally(rs).flags)|
  {
    if rs != [] {
      var n := |rs|;
      var init := rs[..n - 1];
      RowsInPlacePrefix(rs, base, n - 1);
      TallyCellCount(init, base);
      TallyRows(init, base);
      var prev := Tally(init).flags;
      assert Tally(rs).flags == prev + rs[n - 1].flags;
      MatchedInLast(rs, base, prev);
    }
  }

  /** Taking the last row result in adds its flags to the matched ones exactly when it is matched. */
  lemma MatchedInLast(rs: seq<RowResult>, base: nat, prev: seq<Flag>)
    requires rs != [] && RowsInPlace(rs, base) && RowsWithoutRepeats(rs)
    requires forall p :: 0 <= p < |prev| ==> base <= prev[p].row < base + |rs| - 1
    ensures var last := rs[|rs| - 1];
      |MatchedIn(rs, base, prev + last.flags)| ==
      |MatchedIn(rs[..|rs| - 1], base, prev)| + (if last.matched then |last.flags| else 0)
  {
    var n := |rs|;
    var last := rs[n - 1];
    MatchedInPrefix(rs, base, prev);
    assert InRow(last.flags, base + n - 1);
    assert |set f | f in last.flags| == |last.flags|;
    MatchedInAppend(rs, base, prev, last.flags);
  }

  /** Flags that lie before the last row result's sheet row see the same matches without it. */
  lemma MatchedInPrefix(rs: seq<RowResult>, base: nat, prev: seq<Flag>)
    requires rs != []
    requires forall p :: 0 <= p < |prev| ==> base <= prev[p].row < base + |rs| - 1
    ensures MatchedIn(rs, base, prev) == MatchedIn(rs[..|rs| - 1], base, prev)
  {
    var init := rs[..|rs| - 1];
    forall f | f in prev
      ensures base <= f.row < base + |rs| - 1 && init[f.row - base] == rs[f.row - base]
    {
      var p :| 0 <= p < |prev| && prev[p] == f;
    }
  }

  /** Appending the flags of the last sheet row. */
  lemma MatchedInAppend(rs: seq<RowResult>, base: nat, prev: seq<Flag>, last: seq<Flag>)
    requires rs != [] && InRow(last, base + |rs| - 1)
    requires forall p :: 0 <= p < |prev| ==> prev[p].row < base + |rs| - 1
    ensures rs[|rs| - 1].matched ==>
      MatchedIn(rs, base, prev + last) == MatchedIn(rs, base, prev) + (set f | f in last) &&
      MatchedIn(rs, base, prev) !! (set f | f in last)
    ensures !rs[|rs| - 1].matched ==> MatchedIn(rs, base, prev + last) == MatchedIn(rs, base, prev)
  {
    forall f | f in last ensures f.row == base + |rs| - 1 {
      var p :| 0 <= p < |last| && last[p] == f;
    }
    forall f | f in prev ensures f.row < base + |rs| - 1 {
      var p :| 0 <= p < |prev| && prev[p] == f;
    }
  }

  // ---------------------------------------------------------------------------------------------
  // The whole comparison

  lemma ResultsInPlace(t1: Indexed, t2: Indexed, subs: map<string, string>, headerRow: nat)
    ensures RowsInPlace(RowResults(t1, t2, subs, headerRow, |t2.rows|), headerRow + 2)
  {
    var rs := RowResults(t1, t2, subs, headerRow, |t2.rows|);
    forall k | 0 <= k < |rs| ensures InRow(rs[k].flags, headerRow + 2 + k) {
      RowResultsAt(t1, t2, subs, headerRow, |t2.rows|, k);
      RowResultShape(t1, t2, subs, headerRow, k);
    }
  }

  lemma ResultsOrdered(t1: Indexed, t2: Indexed, subs: map<string, string>, headerRow: nat)
    ensures RowsOrdered(RowResults(t1, t2, subs, headerRow, |t2.rows|))
    ensures RowsWithoutRepeats(RowResults(t1, t2, subs, headerRow, |t2.rows|))
  {
    var rs := RowResults(t1, t2, subs, headerRow, |t2.rows|);
    forall k | 0 <= k < |rs| ensures Ordered(rs[k].flags) && |set f | f in rs[k].flags| == |rs[k].flags| {
      RowResultsAt(t1, t2, subs, headerRow, |t2.rows|, k);
      RowResultShape(t1, t2, subs, headerRow, k);
      DistinctCount(rs[k].flags);
    }
  }

  /** Outside the sheet rows of the second table's data rows nothing is flagged. */
  lemma FlaggedOnlyInDataRows(t1: Indexed, t2: Indexed, subs: map<string, string>, headerRow: nat, f: Flag)
    requires !(headerRow + 2 <= f.row < headerRow + 2 + |t2.rows|)
    ensures f !in Diff(t1, t2, subs, headerRow).flags
  {
    ResultsInPlace(t1, t2, subs, headerRow);
    TallyMember(RowResults(t1, t2, subs, headerRow, |t2.rows|), headerRow + 2, f);
  }

  /** In the sheet row of data row `i`, column `c` is flagged exactly when that cell is to be flagged. */
  lemma FlaggedInDataRow(t1: Indexed, t2: Indexed, subs: map<string, string>, headerRow: nat, i: nat, c: nat)
    requires i < |t2.rows|
    ensures Flag(SheetRow(headerRow, i), c) in Diff(t1, t2, subs, headerRow).flags <==>
      1 <= c <= |t2.columns| && ShouldFlag(t1, t2, subs, i, c - 1)
  {
    var rs := RowResults(t1, t2, subs, headerRow, |t2.rows|);
    var f := Flag(SheetRow(headerRow, i), c);
    ResultsInPlace(t1, t2, subs, headerRow);
    TallyMember(rs, headerRow + 2, f);
    assert f.row - (headerRow + 2) == i;
    assert f in Diff(t1, t2, subs, headerRow).flags <==> f in rs[i].flags;
    RowResultsAt(t1, t2, subs, headerRow, |t2.rows|, i);
    RowResultFlag(t1, t2, subs, headerRow, i, c);
  }

  /**
   * A cell (sheet row `r`, column `c`) is flagged exactly when `r` is the sheet row of a data
   * row of the second table, `c` is one of its columns, and that row either has no partner in
   * the first table or differs from its partner in that column.
   */
  lemma Flagged(t1: Indexed, t2: Indexed, subs: map<string, string>, headerRow: nat, r: nat, c: nat)
    ensures Flag(r, c) in Diff(t1, t2, subs, headerRow).flags <==>
      (headerRow + 2 <= r < headerRow + 2 + |t2.rows| && 1 <= c <= |t2.columns| &&
       ShouldFlag(t1, t2, subs, r - headerRow - 2, c - 1))
  {
    if headerRow + 2 <= r < headerRow + 2 + |t2.rows| {
      FlaggedInDataRow(t1, t2, subs, headerRow, r - headerRow - 2, c);
    } else {
      FlaggedOnlyInDataRows(t1, t2, subs, headerRow, Flag(r, c));
    }
  }

  /** The flags come out in row order of the second table, then column order, each at most once. */
  lemma OrderedFlags(t1: Indexed, t2: Indexed, subs: map<string, string>, headerRow: nat)
    ensures Ordered(Diff(t1, t2, subs, headerRow).flags)
  {
    ResultsInPlace(t1, t2, subs, headerRow);
    ResultsOrdered(t1, t2, subs, headerRow);
    TallyOrdered(RowResults(t1, t2, subs, headerRow, |t2.rows|), headerRow + 2);
  }

  /** The data rows of the second table whose key the first table lacks. */
  function UnmatchedRows(t1: Indexed, t2: Indexed): set<nat>
  {
    set i: nat | i < |t2.rows| && t2.keys[i] !in t1.keys
  }

  /** The flagged cells whose sheet row holds a second-table row that has a partner in the first. */
  function MatchedFlags(t1: Indexed, t2: Indexed, headerRow: nat, flags: seq<Flag>): set<Flag>
  {
    set f | f in flags && headerRow + 2 <= f.row < headerRow + 2 + |t2.rows| && t2.keys[f.row - headerRow - 2] in t1.keys
  }

  /**
   * The counters: `countRowDiff` counts the second-table rows whose key the first table lacks
   * (matched rows never raise it); `countCellDiff` counts the flagged cells of matched rows; and
   * there are `countCellDiff + countRowDiff * columns` flags in all, since every unmatched row is
   * flagged in every column.
   */
  lemma Counts(t1: Indexed, t2: Indexed, subs: map<string, string>, headerRow: nat)
    ensures var report := Diff(t1, t2, subs, headerRow);
      && report.rowDiffs == |UnmatchedRows(t1, t2)|
      && report.cellDiffs == |MatchedFlags(t1, t2, headerRow, report.flags)|
      && |report.flags| == report.cellDiffs + report.rowDiffs * |t2.columns|
  {
    var rs := RowResults(t1, t2, subs, headerRow, |t2.rows|);
    forall k | 0 <= k < |rs|
      ensures (rs[k].matched <==> t2.keys[k] in t1.keys) && (!rs[k].matched ==> |rs[k].flags| == |t2.columns|)
    {
      RowResultsAt(t1, t2, subs, headerRow, |t2.rows|, k);
      RowResultShape(t1, t2, subs, headerRow, k);
    }
    ResultsInPlace(t1, t2, subs, headerRow);
    ResultsOrdered(t1, t2, subs, headerRow);
    TallyRowCount(rs);
    TallyCellCount(rs, headerRow + 2);
    TallyFlagCount(rs, |t2.columns|);
    assert UnmatchedIn(rs) == UnmatchedRows(t1, t2);
    assert MatchedIn(rs, headerRow + 2, Tally(rs).flags) == MatchedFlags(t1, t2, headerRow, Tally(rs).flags);
  }
}
