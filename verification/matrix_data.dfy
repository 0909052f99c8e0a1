/** The matrix the entries feed (`src/math/matrix_data.py`): a `rows` by `cols`
    grid of optional numbers that can be resized while keeping surviving cells. */
module MatrixData {
  import opened Wrappers
  import NumericEntry

  /** `rows`, `cols` and the row-major list of lists `data`. */
  datatype Matrix<V> = Matrix(rows: nat, cols: nat, data: seq<seq<Option<V>>>)
  {
    /** The shape every operation keeps: `rows` rows of `cols` cells each. */
    predicate Valid() {
      |data| == rows && forall i :: 0 <= i < |data| ==> |data[i]| == cols
    }

    /** `data[row][col]` exists. */
    predicate InRange(row: nat, col: nat) {
      row < |data| && col < |data[row]|
    }
  }

  /** `[None] * n`. */
  function Nones<V>(n: nat): (r: seq<Option<V>>)
    ensures |r| == n
    ensures forall j :: 0 <= j < n ==> r[j] == None
  {
    seq(n, _ => None)
  }

  /** `MatrixData(rows, cols)`: the requested shape, every cell empty. */
  function New<V>(rows: nat, cols: nat): (m: Matrix<V>)
    ensures m.Valid() && m.rows == rows && m.cols == cols
    ensures forall i, j :: 0 <= i < rows && 0 <= j < cols ==> m.data[i][j] == None
  {
    Matrix(rows, cols, seq(rows, _ => Nones(cols)))
  }

  /** `data[row][col] = v`: only that cell changes. */
  function SetCell<V>(m: Matrix<V>, row: nat, col: nat, v: Option<V>): (r: Matrix<V>)
    requires m.InRange(row, col)
    ensures r.rows == m.rows && r.cols == m.cols && |r.data| == |m.data|
    ensures forall i :: 0 <= i < |m.data| ==> |r.data[i]| == |m.data[i]|
    ensures r.data[row][col] == v
    ensures forall i, j :: 0 <= i < |m.data| && 0 <= j < |m.data[i]| && (i != row || j != col) ==>
      r.data[i][j] == m.data[i][j]
    ensures m.Valid() ==> r.Valid()
  {
    m.(data := m.data[row := m.data[row][col := v]])
  }

  /** Two valid matrices of one shape with the same cells are equal. */
  lemma SameCells<V>(a: Matrix<V>, b: Matrix<V>)
    requires a.Valid() && b.Valid() && a.rows == b.rows && a.cols == b.cols
    requires forall i, j :: 0 <= i < a.rows && 0 <= j < a.cols ==> a.data[i][j] == b.data[i][j]
    ensures a == b
  {
    forall i | 0 <= i < a.rows
      ensures a.data[i] == b.data[i]
    {
    }
  }

  /** `update_value(row, col, text)`: empty text empties the cell, parseable text
      stores its value, and text `parse` rejects leaves the matrix as it was.
      `parse` stands for Python's `float` on strings. */
  function UpdateValue<V>(m: Matrix<V>, row: nat, col: nat, text: string, parse: string -> Option<V>): (r: Matrix<V>)
    requires m.InRange(row, col)
    ensures r.rows == m.rows && r.cols == m.cols && |r.data| == |m.data|
    ensures forall i :: 0 <= i < |m.data| ==> |r.data[i]| == |m.data[i]|
    ensures text == "" ==> r.data[row][col] == None
    ensures text != "" && parse(text).Some? ==> r.data[row][col] == parse(text)
    ensures text != "" && parse(text).None? ==> r == m
    ensures forall i, j :: 0 <= i < |m.data| && 0 <= j < |m.data[i]| && (i != row || j != col) ==>
      r.data[i][j] == m.data[i][j]
    ensures m.Valid() ==> r.Valid()
  {
    if text == "" then SetCell(m, row, col, None)
    else
      match parse(text)
      case Some(x) => SetCell(m, row, col, Some(x))
      case None => m
  }

  /** Applying the same update twice is applying it once. */
  lemma UpdateValueIdempotent<V>(m: Matrix<V>, row: nat, col: nat, text: string, parse: string -> Option<V>)
    requires m.InRange(row, col)
    ensures UpdateValue(UpdateValue(m, row, col, text, parse), row, col, text, parse)
         == UpdateValue(m, row, col, text, parse)
  {
    var once := UpdateValue(m, row, col, text, parse);
    if text != "" && parse(text).None? {
    } else {
      assert once.data[row][col := once.data[row][col]] == once.data[row];
      assert once.data[row := once.data[row]] == once.data;
    }
  }

  /** An entry showing an unwritten number (`.`, `-` or `-.`), which Python's
      `float` rejects, leaves the whole matrix as it was: the cell keeps the last
      number it held, for instance the `-5` of a text whose `5` was just erased. */
  lemma UnwrittenTextKeepsCell<V>(m: Matrix<V>, row: nat, col: nat, text: string, parse: string -> Option<V>)
    requires m.InRange(row, col)
    requires NumericEntry.Classify(text) == NumericEntry.Incomplete
    requires parse(text) == None
    ensures UpdateValue(m, row, col, text, parse) == m
    ensures UpdateValue(m, row, col, text, parse).data[row][col] == m.data[row][col]
  {
    assert text != "";
  }

  /** `row` of the old width `oldCols`, padded with `None` or cut to `newCols`. */
  function FitRow<V>(row: seq<Option<V>>, oldCols: nat, newCols: nat): (r: seq<Option<V>>)
    requires |row| == oldCols
    ensures |r| == newCols
    ensures forall j :: 0 <= j < newCols ==> r[j] == if j < oldCols then row[j] else None
  {
    if newCols > oldCols then row + Nones(newCols - oldCols)
    else if newCols < oldCols then row[..newCols]
    else row
  }

  /** `resize(newRows, newCols)`: rows are appended (of the old width) or cut
      first, then every row is padded or cut. The result has the new shape, every
      cell inside both the old and the new bounds keeps its value, and every other
      cell is empty. */
  function Resize<V>(m: Matrix<V>, newRows: nat, newCols: nat): (r: Matrix<V>)
    requires m.Valid()
    ensures r.Valid() && r.rows == newRows && r.cols == newCols
    ensures forall i, j :: 0 <= i < newRows && 0 <= j < newCols ==>
      r.data[i][j] == if i < m.rows && j < m.cols then m.data[i][j] else None
  {
    var kept :=
      if newRows > m.rows then m.data + seq(newRows - m.rows, _ => Nones(m.cols))
      else if newRows < m.rows then m.data[..newRows]
      else m.data;
    assert |kept| == newRows;
    assert forall i :: 0 <= i < newRows ==> |kept[i]| == m.cols;
    Matrix(newRows, newCols, seq(newRows, i requires 0 <= i < newRows => FitRow(kept[i], m.cols, newCols)))
  }

  /** Resizing to the current shape changes nothing. */
  lemma ResizeSameShape<V>(m: Matrix<V>)
    requires m.Valid()
    ensures Resize(m, m.rows, m.cols) == m
  {
    SameCells(Resize(m, m.rows, m.cols), m);
  }

  /** Growing and then returning to the original shape gives back the matrix. */
  lemma GrowThenRestore<V>(m: Matrix<V>, newRows: nat, newCols: nat)
    requires m.Valid()
    requires newRows >= m.rows && newCols >= m.cols
    ensures Resize(Resize(m, newRows, newCols), m.rows, m.cols) == m
  {
    SameCells(Resize(Resize(m, newRows, newCols), m.rows, m.cols), m);
  }

  /** Shrinking is destructive: after shrinking and growing back, the region that
      was cut off holds `None`, not the values it held before. */
  lemma ShrinkThenRegrow<V>(m: Matrix<V>, newRows: nat, newCols: nat)
    requires m.Valid()
    requires newRows <= m.rows && newCols <= m.cols
    ensures var back := Resize(Resize(m, newRows, newCols), m.rows, m.cols);
      && back.Valid() && back.rows == m.rows && back.cols == m.cols
      && forall i, j :: 0 <= i < m.rows && 0 <= j < m.cols ==>
           back.data[i][j] == if i < newRows && j < newCols then m.data[i][j] else None
  {
  }

  /** Resizing twice to the same shape is resizing once. */
  lemma ResizeIdempotent<V>(m: Matrix<V>, newRows: nat, newCols: nat)
    requires m.Valid()
    ensures Resize(Resize(m, newRows, newCols), newRows, newCols) == Resize(m, newRows, newCols)
  {
    ResizeSameShape(Resize(m, newRows, newCols));
  }
}
