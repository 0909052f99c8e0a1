/** The older matrix data class (`MatrixData` in `src/widgets/matrix.py`): the same
    grid without resizing, whose update empties a cell on every parse failure. */
module LegacyMatrix {
  import opened Wrappers
  import MatrixData

  /** `MatrixData(rows, cols)`, written with nested comprehensions; it builds the
      same empty grid as the newer class. */
  function New<V>(rows: nat, cols: nat): (m: MatrixData.Matrix<V>)
    ensures m == MatrixData.New(rows, cols)
  {
    MatrixData.Matrix(rows, cols, seq(rows, _ => seq(cols, _ => None)))
  }

  /** `update_value(row, col, text)`: the cell becomes the parsed value, or `None`
      when `float` raises; the empty text is no special case. */
  function UpdateValue<V>(m: MatrixData.Matrix<V>, row: nat, col: nat, text: string, parse: string -> Option<V>): (r: MatrixData.Matrix<V>)
    requires m.InRange(row, col)
    ensures r.rows == m.rows && r.cols == m.cols && |r.data| == |m.data|
    ensures forall i :: 0 <= i < |m.data| ==> |r.data[i]| == |m.data[i]|
    ensures r.data[row][col] == None <==> parse(text) == None
    ensures parse(text).Some? ==> r.data[row][col] == parse(text)
    ensures forall i, j :: 0 <= i < |m.data| && 0 <= j < |m.data[i]| && (i != row || j != col) ==>
      r.data[i][j] == m.data[i][j]
    ensures m.Valid() ==> r.Valid()
  {
    match parse(text)
    case Some(x) => MatrixData.SetCell(m, row, col, Some(x))
    case None => MatrixData.SetCell(m, row, col, None)
  }

  /** Where the two update policies part: given that the empty text does not
      parse, the older and the newer update agree exactly when the text parses,
      is empty, or the cell was already empty. On a non-empty text that does not
      parse, the older class empties the cell and the newer one keeps it. */
  lemma UpdatePolicies<V>(m: MatrixData.Matrix<V>, row: nat, col: nat, text: string, parse: string -> Option<V>)
    requires m.InRange(row, col)
    requires parse("") == None
    ensures UpdateValue(m, row, col, text, parse) == MatrixData.UpdateValue(m, row, col, text, parse)
        <==> parse(text).Some? || text == "" || m.data[row][col] == None
  {
    var older := UpdateValue(m, row, col, text, parse);
    var newer := MatrixData.UpdateValue(m, row, col, text, parse);
    if parse(text).Some? || text == "" {
      assert older.data[row] == newer.data[row];
    } else if m.data[row][col] == None {
      assert older.data[row] == m.data[row];
    } else {
      assert older.data[row][col] != newer.data[row][col];
    }
  }
}
