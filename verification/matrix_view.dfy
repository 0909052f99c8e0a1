/** The `entries` table of the matrix view (`src/widgets/matrix_view.py`): one
    cell widget per grid position, kept in step with the matrix shape. Widgets are
    an opaque type `W`; creating one is a function of its position, and the grid
    the widgets are attached to is reduced to a lookup `childAt(left, top)`. */
module MatrixView {
  import opened Wrappers
  import MatrixData

  /** A dictionary key `(row, col)`. */
  type Key = (nat, nat)

  /** The positions of a `rows` by `cols` grid. */
  function Cells(rows: nat, cols: nat): (s: set<Key>)
    ensures forall k :: k in s <==> k.0 < rows && k.1 < cols
  {
    set r: nat, c: nat | r < rows && c < cols :: (r, c)
  }

  /** `remove_old_entries(rows, cols)`: every key outside the grid is popped, whatever
      the grid holds at its position; every key inside keeps its widget. */
  function RemoveOldEntries<W>(entries: map<Key, W>, rows: nat, cols: nat): (r: map<Key, W>)
    ensures forall k :: k in r <==> k in entries && k.0 < rows && k.1 < cols
    ensures forall k :: k in r ==> r[k] == entries[k]
  {
    var stale := set k | k in entries && (k.0 >= rows || k.1 >= cols);
    entries - stale
  }

  /** `update_existing_entries(rows, cols)`: the positions whose widget is not the
      grid's child there and is attached again. The table itself is not changed. */
  function UpdateExistingEntries<W(==)>(entries: map<Key, W>, rows: nat, cols: nat, childAt: (nat, nat) -> Option<W>): (r: set<Key>)
    ensures forall k :: k in r ==> k in entries && k.0 < rows && k.1 < cols
    ensures forall k :: k in r ==> childAt(k.1, k.0) != Some(entries[k])
    ensures forall k :: k in entries && k.0 < rows && k.1 < cols && childAt(k.1, k.0) != Some(entries[k]) ==> k in r
  {
    set r: nat, c: nat | r < rows && c < cols && (r, c) in entries && childAt(c, r) != Some(entries[(r, c)]) :: (r, c)
  }

  /** The inner loop of `add_new_entries` from column `col` of row `row` on. */
  function AddRow<W>(entries: map<Key, W>, row: nat, col: nat, cols: nat, create: (nat, nat) -> W): (r: map<Key, W>)
    decreases cols - col
    ensures forall k :: k in r <==> k in entries || (k.0 == row && col <= k.1 < cols)
    ensures forall k :: k in entries ==> r[k] == entries[k]
    ensures forall k :: k in r && k !in entries ==> r[k] == create(k.0, k.1)
  {
    if col >= cols then entries
    else
      var next := if (row, col) in entries then entries else entries[(row, col) := create(row, col)];
      AddRow(next, row, col + 1, cols, create)
  }

  /** The outer loop of `add_new_entries` from row `row` on. */
  function AddRows<W>(entries: map<Key, W>, row: nat, rows: nat, cols: nat, create: (nat, nat) -> W): (r: map<Key, W>)
    decreases rows - row
    ensures forall k :: k in r <==> k in entries || (row <= k.0 < rows && k.1 < cols)
    ensures forall k :: k in entries ==> r[k] == entries[k]
    ensures forall k :: k in r && k !in entries ==> r[k] == create(k.0, k.1)
  {
    if row >= rows then entries
    else AddRows(AddRow(entries, row, 0, cols, create), row + 1, rows, cols, create)
  }

  /** `add_new_entries(rows, cols)`: a widget is created for every grid position
      that has none; no existing widget is replaced. */
  function AddNewEntries<W>(entries: map<Key, W>, rows: nat, cols: nat, create: (nat, nat) -> W): (r: map<Key, W>)
    ensures r.Keys == entries.Keys + Cells(rows, cols)
    ensures forall k :: k in entries ==> r[k] == entries[k]
    ensures forall k :: k in r && k !in entries ==> r[k] == create(k.0, k.1)
  {
    AddRows(entries, 0, rows, cols, create)
  }

  /** `refresh_matrix()` for a `rows` by `cols` matrix (`update_existing_entries`
      leaves the table as it is): afterwards there is a widget for exactly the
      grid's positions, the ones that were already there are kept rather than
      recreated, and the others are new. */
  function RefreshMatrix<W>(entries: map<Key, W>, rows: nat, cols: nat, create: (nat, nat) -> W): (r: map<Key, W>)
    ensures r.Keys == Cells(rows, cols)
    ensures forall k :: k in entries && k.0 < rows && k.1 < cols ==> r[k] == entries[k]
    ensures forall k :: k in r && k !in entries ==> r[k] == create(k.0, k.1)
  {
    AddNewEntries(RemoveOldEntries(entries, rows, cols), rows, cols, create)
  }

  /** Refreshing an already refreshed table for the same shape changes nothing,
      whatever widgets the second refresh would have created. */
  lemma RefreshIdempotent<W>(entries: map<Key, W>, rows: nat, cols: nat, create: (nat, nat) -> W, create': (nat, nat) -> W)
    ensures RefreshMatrix(RefreshMatrix(entries, rows, cols, create), rows, cols, create')
         == RefreshMatrix(entries, rows, cols, create)
  {
    var once := RefreshMatrix(entries, rows, cols, create);
    var twice := RefreshMatrix(once, rows, cols, create');
    assert twice.Keys == once.Keys;
  }

  /** Every widget that `update_existing_entries` attaches again is still the
      table's widget for its position once `add_new_entries` has run. */
  lemma ReattachedSurviveRefresh<W>(entries: map<Key, W>, rows: nat, cols: nat, childAt: (nat, nat) -> Option<W>, create: (nat, nat) -> W)
    ensures var pruned := RemoveOldEntries(entries, rows, cols);
      forall k :: k in UpdateExistingEntries(pruned, rows, cols, childAt) ==>
        k in RefreshMatrix(entries, rows, cols, create) && RefreshMatrix(entries, rows, cols, create)[k] == entries[k]
  {
  }

  /** After a refresh for matrix `m`, the table has a widget exactly at the cells of
      `m`, so every position a widget reports a change for can be updated. */
  lemma EntriesMatchMatrix<V, W>(m: MatrixData.Matrix<V>, entries: map<Key, W>, create: (nat, nat) -> W)
    requires m.Valid()
    ensures forall row: nat, col: nat ::
      (row, col) in RefreshMatrix(entries, m.rows, m.cols, create) <==> m.InRange(row, col)
  {
  }
}
