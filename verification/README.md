# Eigen matrix entry: numeric filter, matrix data and entry table in Dafny

A model of the pure logic inside the Eigen desktop app's matrix editor, and proofs
about it. The app lets a user type a small matrix into a grid of text fields. The
model covers four parts:

- **`NumericEntry`** (`src/widgets/entry.py`). This is the text filter of a cell
  field. `_needs_filtering` decides whether the text leaves the grammar "optional
  leading `-`, then digits, with at most one `.`". `filter_input` sorts the text
  into three cases: it needs filtering, it is an unwritten number (`.`, `-`,
  `-.`), or it is accepted. `_apply_numeric_filter` rescans the text left to
  right and threads two flags, `dot_allowed` and `minus_allowed`, through the
  scan. The write-back then moves the cursor with a clamped formula.
- **`MatrixData`** (`src/math/matrix_data.py`). This is the `rows × cols` grid of
  optional values. It supports `update_value` and a `resize` that keeps every
  surviving cell.
- **`LegacyMatrix`** (`MatrixData` in `src/widgets/matrix.py`). This is the
  older grid, with no resize. Its `update_value` empties the cell on every
  parse failure.
- **`MatrixView`** (`src/widgets/matrix_view.py`). This is the `entries`
  dictionary from `(row, col)` to cell widget. `refresh_matrix` reconciles it
  with the matrix shape.

Everything is a pure function over immutable values:

- Strings are `seq<char>`.
- The grid is `seq<seq<Option<V>>>` over an abstract cell value type `V`.
- The widget table is a `map<(nat, nat), W>` over an opaque widget type `W`.
- Python's `float()` on strings is a parameter `parse: string -> Option<V>`.
- Creating a widget is a parameter `create: (nat, nat) -> W`.
- The grid lookup `get_child_at(left, top)` is a parameter `childAt`.
- The cursor position that `get_position()` returns is part of the modelled
  widget state `Entry`.

The modules are `Wrappers` (the `Option` type), `NumericEntry`, `MatrixData`,
`LegacyMatrix` and `MatrixView`, one file each.

Notes on the code's behaviour that the model keeps:

- **Filter.** The filter is a full left-to-right rescan with two flags. It does
  not diff the new text against the last accepted one.
- **No checks.** `update_value` and `resize` have no range or size checks. The
  model states preconditions instead: indices inside the grid, and sizes as
  `nat`.
- **Failed parse.** `src/math/matrix_data.py` keeps the cell when non-empty text
  does not parse. `src/widgets/matrix.py` empties it.
  `LegacyMatrix.UpdatePolicies` states exactly where the two behaviours part.
- **Empty text.** `filter_input` accepts the empty text.
- **Queued passes.** The flags are restored only by `filter_input`, and a pass
  spends them. So when two changes that need filtering are queued before the
  idle loop runs, the second pass drops every `.` of its text
  (`NumericEntry.QueuedPassDropsDot`).

## Model

| member | source | states |
|---|---|---|
| NumericEntry.NeedsFiltering | src/widgets/entry.py:54-75 | The three checks return true exactly when the text is outside the grammar. The grammar is: every character is a digit, `.` or `-`; a `-` appears only at index 0; and there is at most one `.`. |
| NumericEntry.Classify | src/widgets/entry.py:40-52 | Text outside the grammar is filtered. Otherwise exactly `.`, `-` and `-.` are incomplete. Every other text is accepted, and an accepted text is empty or contains a digit. |
| NumericEntry.WellFormedWithoutDigit | src/widgets/entry.py:40-52 | A text in the grammar that has no digit is `""`, `.`, `-` or `-.`. So the unwritten-number list plus the empty text covers every digit-free text that `_needs_filtering` lets through. |
| NumericEntry.FilterInput | src/widgets/entry.py:42-52 | A filter pass is scheduled exactly for text outside the grammar. That pass runs from the default flags, whatever flags the widget held, so it writes back text in the grammar that differs from the old text. Any other text is already in the grammar, and the widget is left untouched. |
| NumericEntry.ScanPrefix | src/widgets/entry.py:92-100 | After `n` iterations, the loop's `new_text` is the input's first `n` characters restricted to the positions `Kept` marks. A `.` flag is still set only if it was set and no `.` has been seen. A `-` flag is still set only if it was set and the input does not start with `-`. |
| NumericEntry.Filter | src/widgets/entry.py:89-100 | The output of a pass is always in the grammar, whatever the starting flags. It is either the input itself or strictly shorter. With both flags true, it equals the input exactly when the input is in the grammar. The flags only go from true to false, and their final values are determined by the input. |
| NumericEntry.FilterSelectsKept | src/widgets/entry.py:92-100 | The output is the input restricted to these positions: every digit; the first `.` of the input, if dots are allowed; and a `-` at index 0, if a minus is allowed. |
| NumericEntry.FilterIsSubsequence | src/widgets/entry.py:92-100 | The output is obtained from the input by deleting characters. |
| NumericEntry.FilterKeepsDigits | src/widgets/entry.py:93-94 | The digits of the output are exactly the digits of the input, in the same order. |
| NumericEntry.FilterMarks | src/widgets/entry.py:95-100 | The output holds one `.` if dots were allowed and the input has a `.`, and no `.` otherwise. It holds a `-` exactly when a minus was allowed and the input starts with `-`. |
| NumericEntry.FilterIdempotent | src/widgets/entry.py:89-103 | Filtering the output again from the default flags returns the same output. |
| NumericEntry.QueuedPassDropsDot | src/widgets/entry.py:42-100 | Suppose two changes that both need filtering are queued before the idle loop runs. Both are scheduled, and the first pass keeps its `.`. That pass spends the flags, and nothing restores them before the second pass. The second pass then drops every `.` of its own text, although a pass from the default flags would keep one. |
| NumericEntry.NewCursor | src/widgets/entry.py:117 | The new cursor lies in `[0, len(new_text)]`. When the text got shorter, the cursor is never further right than before. The cursor keeps its distance from the end of the text when that distance fits, and otherwise moves to 0. |
| NumericEntry.ApplyNumericFilter | src/widgets/entry.py:89-103 | Text in the grammar, scanned from the default flags, is never written back: the text and cursor stay as they were. Text outside the grammar is replaced by a shorter text in the grammar, with the cursor inside it and no further right. The flags only fall. |
| NumericEntry.ChangeThenIdle | src/widgets/entry.py:42-46 | A change event followed by its idle pass filters from the default flags, whatever flags the widget held before. It writes back a shorter text that is in the grammar, that the handler would not filter again, and that keeps every digit. |
| MatrixData.New | src/math/matrix_data.py:16-18 | A new matrix has `rows` rows of `cols` cells each, and every cell is `None`. |
| MatrixData.UpdateValue | src/math/matrix_data.py:29-32 | Empty text sets the cell to `None`. Text that parses stores its value. Non-empty text that does not parse leaves the whole matrix unchanged. No other cell changes, and neither do the dimensions or the shape. |
| MatrixData.UpdateValueIdempotent | src/math/matrix_data.py:29-32 | Repeating an update with the same text changes nothing more. |
| MatrixData.UnwrittenTextKeepsCell | src/math/matrix_data.py:29-32 | A field showing `.`, `-` or `-.` leaves the cell at the last number it held. |
| MatrixData.Resize | src/math/matrix_data.py:42-54 | After `resize(R, C)` the grid has `R` rows of `C` cells, with `rows = R` and `cols = C`. Every cell inside both the old and the new bounds keeps its value. Every other cell, including each cell of a newly added row, is `None`. |
| MatrixData.ResizeSameShape | src/math/matrix_data.py:42-54 | Resizing to the current size is the identity. |
| MatrixData.GrowThenRestore | src/math/matrix_data.py:42-54 | Growing and then resizing back to the original size returns the original matrix. |
| MatrixData.ShrinkThenRegrow | src/math/matrix_data.py:42-51 | After shrinking and growing back, the regrown region is `None`. The discarded values do not come back. |
| MatrixData.ResizeIdempotent | src/math/matrix_data.py:42-54 | Resizing twice to the same size is the same as resizing once. |
| LegacyMatrix.New | src/widgets/matrix.py:6-9 | The older constructor builds the same empty `rows × cols` grid as the newer one. |
| LegacyMatrix.UpdateValue | src/widgets/matrix.py:11-15 | The cell is `None` exactly when the text does not parse, the empty text included. Otherwise it holds the parsed value. No other cell changes, and neither do `rows` or `cols`. |
| LegacyMatrix.UpdatePolicies | src/widgets/matrix.py:11-15 | Given that the empty text does not parse, the older and newer updates agree exactly when the text parses, is empty, or the cell was already `None`. On a non-empty text that does not parse, the older class empties the cell and the newer one keeps it. |
| MatrixView.RemoveOldEntries | src/widgets/matrix_view.py:66-68 | Afterwards every key `(r, c)` has `r < rows` and `c < cols`. Every key inside those bounds is kept with the same widget. Keys outside are popped whatever the grid holds at their position. |
| MatrixView.UpdateExistingEntries | src/widgets/matrix_view.py:83-87 | The positions reattached are exactly the in-bounds keys whose widget is not the grid's child at `(col, row)`. The table itself is not an output, so it does not change. |
| MatrixView.AddNewEntries | src/widgets/matrix_view.py:97-104 | The key set becomes the old keys plus every position of the grid. No existing widget is replaced. Each new key gets the widget created for its position. |
| MatrixView.RefreshMatrix | src/widgets/matrix_view.py:35-43 | Afterwards the key set is exactly `[0, rows) × [0, cols)`. Widgets already present inside the bounds are kept, not recreated. |
| MatrixView.RefreshIdempotent | src/widgets/matrix_view.py:35-43 | A second refresh for the same shape changes nothing, whatever widgets it would create. |
| MatrixView.ReattachedSurviveRefresh | src/widgets/matrix_view.py:83-104 | Every widget that `update_existing_entries` attaches again is still the table's widget for that position after `add_new_entries`. |
| MatrixView.EntriesMatchMatrix | src/widgets/matrix_view.py:39-43 | After a refresh for matrix `m`, the table has a widget exactly at the cells of `m`. So every position a widget reports a change for is a valid `update_value` index. |

## Left out

- `str.isdigit` is Unicode-wide in Python. `NumericEntry.IsDigit` accepts only the ASCII digits `0`–`9`.
- Python's `float()` is not modelled. It accepts forms such as `inf`, `1e5`, `1_0` and surrounding whitespace, and it produces IEEE doubles. The model takes it as a parameter `parse` and assumes nothing about it, except where a lemma says so in its precondition: that `""` or the unwritten forms do not parse.
- Event-loop scheduling is not modelled: `GLib.idle_add`, `GLib.timeout_add`, the 300 ms error-class removal and the CSS `error` class. `ApplyNumericFilter` is the idle callback as a function. `NumericEntry.Reaction` records only which branch of `filter_input` was taken. Only one interleaving of queued callbacks is modelled: `QueuedPassDropsDot` covers two changes queued before either pass runs.
- `handler_block_by_func` and `handler_unblock_by_func` are not modelled. `ChangeThenIdle` shows that the written-back text would not be filtered again anyway.
- `text_getter` is not modelled separately. The current text is the `text` of `Entry`.
- `MatrixData.UpdateValue` and `LegacyMatrix.UpdateValue` require `row` and `col` to index an existing cell. Python would raise `IndexError` otherwise, and it would wrap negative indices; neither is modelled.
- `MatrixData.Resize` requires the class invariant `Valid()`. `New` establishes the invariant and every operation keeps it. Negative sizes are excluded by `nat`.
- List aliasing is not modelled. Every row in the source is built by a comprehension, so rows are never shared. Values in the model cannot alias.
- `MatrixView.AddNewEntries` models `create_entry` as a function of the position. Widget identity and freshness are not modelled.
- The `Gtk.Grid` attach and remove calls, revealer transitions and `set_margins` are not modelled. They are layout and animation only. `get_child_at` is reduced to the parameter `childAt`.
- `on_entry_changed`, `update_matrix_data`, `create_entry` and `clear_matrix` in `src/widgets/matrix_view.py` are not modelled. They are widget wiring around `update_value`.
- The `MatrixView` class of `src/widgets/matrix.py` and the application and window modules are not modelled. They build widgets, connect signals, load CSS and persist settings.
