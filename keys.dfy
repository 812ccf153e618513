/**
 * The composite key: the key-column check, the `'_'`-join of the stringified key-column
 * values, and `set_index('key')`, which turns the key into the row index and drops any
 * column that was already labelled "key".
 */
module Keys {
  import opened Wrappers
  import opened Text
  import opened Frame

  /** Labels appear at most once. */
  predicate UniqueLabels(columns: seq<Cell>) {
    forall j :: 0 <= j < |columns| ==> columns[j] !in columns[..j]
  }

  /** Position of a column carrying `heading`: the first, as `ColumnIndexIsFirst` shows. */
  function ColumnIndex(columns: seq<Cell>, heading: Cell): (p: nat)
    requires heading in columns
    ensures p < |columns| && columns[p] == heading
  {
    if columns[0] == heading then 0 else 1 + ColumnIndex(columns[1..], heading)
  }

  /** No column before the one `ColumnIndex` finds carries `heading`. */
  lemma {:induction false} ColumnIndexIsFirst(columns: seq<Cell>, heading: Cell)
    requires heading in columns
    ensures heading !in columns[..ColumnIndex(columns, heading)]
  {
    if columns[0] != heading {
      var p := ColumnIndex(columns[1..], heading);
      ColumnIndexIsFirst(columns[1..], heading);
      assert columns[..p + 1] == [columns[0]] + columns[1..][..p];
    }
  }

  /** With unique labels, a label's first position is its only one. */
  lemma ColumnIndexOfUnique(columns: seq<Cell>, j: nat)
    requires UniqueLabels(columns) && j < |columns|
    ensures ColumnIndex(columns, columns[j]) == j
  {
  }

  /** Every label is found (by its first occurrence) at its own position. */
  predicate Positional(columns: seq<Cell>) {
    forall j :: 0 <= j < |columns| ==> ColumnIndex(columns, columns[j]) == j
  }

  /** Unique labels are positional, and positional labels are unique. */
  lemma UniqueIsPositional(columns: seq<Cell>)
    ensures UniqueLabels(columns) <==> Positional(columns)
  {
    if UniqueLabels(columns) {
      forall j | 0 <= j < |columns| ensures ColumnIndex(columns, columns[j]) == j {
        ColumnIndexOfUnique(columns, j);
      }
    }
  }

  predicate AllPresent(keyColumns: seq<string>, columns1: seq<Cell>, columns2: seq<Cell>) {
    forall i :: 0 <= i < |keyColumns| ==> Some(keyColumns[i]) in columns1 && Some(keyColumns[i]) in columns2
  }

  /** The key-column check: the first key column, in configured order, missing from either table. */
  function FirstMissingKeyColumn(keyColumns: seq<string>, columns1: seq<Cell>, columns2: seq<Cell>): (r: Option<string>)
    ensures r.None? <==> AllPresent(keyColumns, columns1, columns2)
    ensures r.Some? ==> exists i :: (0 <= i < |keyColumns| && keyColumns[i] == r.value &&
      !(Some(r.value) in columns1 && Some(r.value) in columns2) &&
      AllPresent(keyColumns[..i], columns1, columns2))
  {
    if keyColumns == [] then None
    else if !(Some(keyColumns[0]) in columns1 && Some(keyColumns[0]) in columns2) then
      assert AllPresent(keyColumns[..0], columns1, columns2);
      Some(keyColumns[0])
    else
      var rest := FirstMissingKeyColumn(keyColumns[1..], columns1, columns2);
      if rest.Some? then
        var i :| 0 <= i < |keyColumns[1..]| && keyColumns[1..][i] == rest.value &&
          !(Some(rest.value) in columns1 && Some(rest.value) in columns2) &&
          AllPresent(keyColumns[1..][..i], columns1, columns2);
        assert keyColumns[..i + 1] == [keyColumns[0]] + keyColumns[1..][..i];
        rest
      else
        rest
  }

  /** numpy's `astype(str)` of a cell: an empty cell would read "None". */
  function Str(c: Cell): string {
    match c
    case Some(s) => s
    case None => "None"
  }

  /** The stringified key-column values of a row, in `key_columns` order. */
  function KeyValues(columns: seq<Cell>, row: seq<Cell>, keyColumns: seq<string>): (r: seq<string>)
    requires |row| == |columns|
    requires forall i :: 0 <= i < |keyColumns| ==> Some(keyColumns[i]) in columns
    ensures |r| == |keyColumns|
    ensures forall i :: 0 <= i < |keyColumns| ==> r[i] == Str(row[ColumnIndex(columns, Some(keyColumns[i]))])
  {
    if keyColumns == [] then []
    else [Str(row[ColumnIndex(columns, Some(keyColumns[0]))])] + KeyValues(columns, row, keyColumns[1..])
  }

  /** `'_'.join(row.values.astype(str))` over the key columns. */
  function RowKey(columns: seq<Cell>, row: seq<Cell>, keyColumns: seq<string>): string
    requires |row| == |columns|
    requires forall i :: 0 <= i < |keyColumns| ==> Some(keyColumns[i]) in columns
  {
    Join(KeyValues(columns, row, keyColumns), '_')
  }

  /** After `fillna("")` an empty cell contributes "" to the key, never "None". */
  lemma FilledCellsKeyAsEmpty(t: Table, i: nat, keyColumns: seq<string>, k: nat)
    requires WellFormed(t) && i < |t.rows| && k < |keyColumns|
    requires forall j :: 0 <= j < |keyColumns| ==> Some(keyColumns[j]) in t.columns
    ensures var p := ColumnIndex(t.columns, Some(keyColumns[k]));
      t.rows[i][p].None? ==> KeyValues(t.columns, FillNa(t).rows[i], keyColumns)[k] == ""
  {
  }

  /**
   * When no key value holds '_', the key determines the key values: two rows get the same
   * key exactly when their key columns hold the same strings.
   */
  lemma {:induction false} KeyDeterminesValues(columns: seq<Cell>, row1: seq<Cell>, row2: seq<Cell>, keyColumns: seq<string>)
    requires |row1| == |columns| && |row2| == |columns| && |keyColumns| >= 1
    requires forall i :: 0 <= i < |keyColumns| ==> Some(keyColumns[i]) in columns
    requires forall i :: 0 <= i < |keyColumns| ==> '_' !in KeyValues(columns, row1, keyColumns)[i]
    requires forall i :: 0 <= i < |keyColumns| ==> '_' !in KeyValues(columns, row2, keyColumns)[i]
    ensures RowKey(columns, row1, keyColumns) == RowKey(columns, row2, keyColumns) <==>
      KeyValues(columns, row1, keyColumns) == KeyValues(columns, row2, keyColumns)
  {
    SplitJoin(KeyValues(columns, row1, keyColumns), '_');
    SplitJoin(KeyValues(columns, row2, keyColumns), '_');
  }

  /** There is no escaping: different key values that contain '_' can give the same key. */
  lemma KeysCanCollide()
    ensures Join(["a_b", "c"], '_') == Join(["a", "b_c"], '_')
  {
  }

  /** The heading `set_index('key')` consumes. */
  const IndexLabel: Cell := Some("key")

  /** `values` without the entry under the "key" heading, if the table had such a column. */
  function DropIndexColumn<T>(columns: seq<Cell>, values: seq<T>): (r: seq<T>)
    requires |values| == |columns|
    ensures IndexLabel !in columns ==> r == values
    ensures IndexLabel in columns ==> |r| == |values| - 1
  {
    if IndexLabel in columns then
      var p := ColumnIndex(columns, IndexLabel);
      values[..p] + values[p + 1..]
    else values
  }

  /** Removing one entry shifts the later entries down by one. */
  lemma DropShifts<T>(columns: seq<Cell>, values: seq<T>)
    requires |values| == |columns| && IndexLabel in columns
    ensures var p := ColumnIndex(columns, IndexLabel);
      forall k :: 0 <= k < |values| - 1 ==> DropIndexColumn(columns, values)[k] == values[if k < p then k else k + 1]
  {
  }

  /** Dropping the "key" column from unique labels leaves unique labels, none of them "key". */
  lemma DropIndexColumnUnique(columns: seq<Cell>)
    requires UniqueLabels(columns)
    ensures UniqueLabels(DropIndexColumn(columns, columns)) && IndexLabel !in DropIndexColumn(columns, columns)
  {
    var cols := DropIndexColumn(columns, columns);
    if IndexLabel in columns {
      var p := ColumnIndex(columns, IndexLabel);
      DropShifts(columns, columns);
      forall k | 0 <= k < |cols| ensures cols[k] !in cols[..k] && cols[k] != IndexLabel {
        var m := if k < p then k else k + 1;
        forall q | 0 <= q < k ensures cols[..k][q] != cols[k] {
          var n := if q < p then q else q + 1;
          assert columns[..m][n] == cols[q];
        }
        if m < p {
          assert columns[..p][m] == cols[k];
        } else {
          assert columns[..m][p] == IndexLabel;
        }
      }
    }
  }

  /** Dropping the "key" column keeps every other heading and adds none. */
  lemma DropKeepsHeadings(columns: seq<Cell>, heading: Cell)
    requires heading != IndexLabel
    ensures heading in DropIndexColumn(columns, columns) <==> heading in columns
  {
    if IndexLabel in columns {
      var cols := DropIndexColumn(columns, columns);
      var p := ColumnIndex(columns, IndexLabel);
      DropShifts(columns, columns);
      if heading in columns {
        var q :| 0 <= q < |columns| && columns[q] == heading;
        assert cols[if q < p then q else q - 1] == heading;
      }
      if heading in cols {
        var k :| 0 <= k < |cols| && cols[k] == heading;
        assert columns[if k < p then k else k + 1] == heading;
      }
    }
  }

  /** With unique labels, a heading other than "key" keeps its cell when the "key" column is dropped. */
  lemma DropKeepsCell(columns: seq<Cell>, row: seq<Cell>, heading: Cell)
    requires |row| == |columns| && heading != IndexLabel && heading in columns
    requires UniqueLabels(DropIndexColumn(columns, columns))
    ensures DropIndexColumn(columns, row)[ColumnIndex(DropIndexColumn(columns, columns), heading)] ==
      row[ColumnIndex(columns, heading)]
  {
    if IndexLabel in columns {
      var cols := DropIndexColumn(columns, columns);
      var p := ColumnIndex(columns, IndexLabel);
      var q := ColumnIndex(columns, heading);
      var k := if q < p then q else q - 1;
      DropShifts(columns, columns);
      DropShifts(columns, row);
      assert cols[k] == heading;
      ColumnIndexOfUnique(cols, k);
    }
  }

  /** With unique labels, dropping the "key" column leaves every other heading and its cell in place. */
  lemma DropIndexColumnKeepsOthers(columns: seq<Cell>, row: seq<Cell>, heading: Cell)
    requires UniqueLabels(columns) && |row| == |columns| && heading != IndexLabel
    ensures var cols := DropIndexColumn(columns, columns);
      && UniqueLabels(cols) && IndexLabel !in cols
      && (heading in cols <==> heading in columns)
      && (heading in columns ==> DropIndexColumn(columns, row)[ColumnIndex(cols, heading)] == row[ColumnIndex(columns, heading)])
  {
    DropIndexColumnUnique(columns);
    DropKeepsHeadings(columns, heading);
    if heading in columns {
      DropKeepsCell(columns, row, heading);
    }
  }

  /** A table indexed by its composite key: the data columns, the data rows and each row's key. */
  datatype Keyed = Keyed(columns: seq<Cell>, rows: seq<seq<Cell>>, keys: seq<string>)

  predicate KeyedWellFormed(k: Keyed) {
    && |k.keys| == |k.rows|
    && forall i :: 0 <= i < |k.rows| ==> |k.rows[i]| == |k.columns|
  }

  /** A keyed table with one key per row and one cell per column in every row. */
  type Indexed = k: Keyed | KeyedWellFormed(k) witness Keyed([], [], [])

  /** Every row has its own key. */
  predicate DistinctKeys(keys: seq<string>) {
    forall i, j :: 0 <= i < j < |keys| ==> keys[i] != keys[j]
  }

  /** No key of `keys1` that `keys2` also carries is repeated in `keys1`. */
  predicate LookedUpKeysOnce(keys1: seq<string>, keys2: seq<string>) {
    forall i, j :: 0 <= i < j < |keys1| && keys1[i] == keys1[j] ==> keys1[i] !in keys2
  }

  /** A key looked up from `keys2` is found at the one row of `keys1` that carries it. */
  lemma LookedUpKeyFound(keys1: seq<string>, keys2: seq<string>, i: nat)
    requires LookedUpKeysOnce(keys1, keys2) && i < |keys1| && keys1[i] in keys2
    ensures FindKey(keys1, keys1[i]) == Some(i)
  {
  }

  /**
   * No label of the header `columns` is repeated when it is looked up: when it is one of the
   * labels `lookedUp` of the other table, or a key column.
   */
  predicate LookedUpLabelsOnce(columns: seq<Cell>, lookedUp: seq<Cell>, keyColumns: seq<string>) {
    forall j :: (0 <= j < |columns| && (columns[j] in lookedUp ||
      (columns[j].Some? && columns[j].value in keyColumns))) ==> columns[j] !in columns[..j]
  }

  /** A looked-up label sits at one position only, the one `ColumnIndex` finds. */
  lemma LookedUpLabelFound(columns: seq<Cell>, lookedUp: seq<Cell>, keyColumns: seq<string>, j: nat)
    requires LookedUpLabelsOnce(columns, lookedUp, keyColumns) && j < |columns| && columns[j] in lookedUp
    ensures ColumnIndex(columns, columns[j]) == j
  {
  }

  /** `heading` heads at most one column. */
  predicate LabelOnce(columns: seq<Cell>, heading: Cell) {
    forall j :: 0 <= j < |columns| && columns[j] == heading ==> heading !in columns[..j]
  }

  /**
   * `sheet['key'] = ...` then `sheet.set_index('key', inplace=True)`. The key becomes the row
   * index and the column headed "key" is dropped; with a header holding "key" twice
   * `set_index` is handed two columns, which the callers rule out (`LabelOnce`).
   */
  function SetIndex(t: Table, keyColumns: seq<string>): (k: Indexed)
    requires WellFormed(t)
    requires forall i :: 0 <= i < |keyColumns| ==> Some(keyColumns[i]) in t.columns
    ensures |k.rows| == |t.rows|
    ensures k.columns == DropIndexColumn(t.columns, t.columns)
    ensures forall i :: 0 <= i < |t.rows| ==>
      k.rows[i] == DropIndexColumn(t.columns, t.rows[i]) && k.keys[i] == RowKey(t.columns, t.rows[i], keyColumns)
  {
    Keyed(DropIndexColumn(t.columns, t.columns),
      seq(|t.rows|, i requires 0 <= i < |t.rows| => DropIndexColumn(t.columns, t.rows[i])),
      seq(|t.rows|, i requires 0 <= i < |t.rows| => RowKey(t.columns, t.rows[i], keyColumns)))
  }

  /** The last row carrying `key`, if any. */
  function FindKey(keys: seq<string>, key: string): (r: Option<nat>)
    ensures r.Some? <==> key in keys
    ensures r.Some? ==> r.value < |keys| && keys[r.value] == key
  {
    if keys == [] then None
    else
      var last := |keys| - 1;
      if keys[last] == key then Some(last)
      else
        assert keys == keys[..last] + [keys[last]];
        FindKey(keys[..last], key)
  }

  /** The row index of a keyed table: each key to the position of its row. */
  function Positions(keys: seq<string>): map<string, nat>
  {
    if keys == [] then map[]
    else
      var last := |keys| - 1;
      Positions(keys[..last])[keys[last] := last]
  }

  /** A key is in the index exactly when some row carries it, and the index gives the last such row. */
  lemma {:induction false} PositionsFind(keys: seq<string>, key: string)
    ensures key in Positions(keys) <==> key in keys
    ensures key in Positions(keys) ==> Some(Positions(keys)[key]) == FindKey(keys, key)
  {
    if keys != [] {
      var last := |keys| - 1;
      PositionsFind(keys[..last], key);
      assert keys == keys[..last] + [keys[last]];
    }
  }

  /** With distinct keys, the index maps each row's key to that row. */
  lemma PositionsOfDistinct(keys: seq<string>, i: nat)
    requires DistinctKeys(keys) && i < |keys|
    ensures keys[i] in Positions(keys) && Positions(keys)[keys[i]] == i
  {
    PositionsFind(keys, keys[i]);
  }
}
