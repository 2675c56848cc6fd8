/** `SudokuModel.isValidPlacement` and `SudokuModel.isCorrectValue`: pure
    scans of the solution board. */
module Placement {
  import opened Grid
  import opened JavaInteger

  /** Scan of row `row` from column `from` to the end of the row. */
  function RowHas(g: Board, row: int, from: int, num: int): (found: bool)
    requires 0 <= row < Size && 0 <= from <= Size
    decreases Size - from
    ensures found <==> exists j :: from <= j < Size && g[row][j] == num
  {
    if from == Size then false
    else g[row][from] == num || RowHas(g, row, from + 1, num)
  }

  /** Scan of column `col` from row `from` to the bottom of the board. */
  function ColumnHas(g: Board, col: int, from: int, num: int): (found: bool)
    requires 0 <= col < Size && 0 <= from <= Size
    decreases Size - from
    ensures found <==> exists i :: from <= i < Size && g[i][col] == num
  {
    if from == Size then false
    else g[from][col] == num || ColumnHas(g, col, from + 1, num)
  }

  /** Inner loop of the box scan: row `row` of the box whose left column
      is `left`, from column `from` to the box's right edge. */
  function BoxRowHas(g: Board, row: int, left: int, from: int, num: int): (found: bool)
    requires 0 <= row < Size && 0 <= left && left + BoxWidth <= Size
    requires left <= from <= left + BoxWidth
    decreases left + BoxWidth - from
    ensures found <==> exists j :: from <= j < left + BoxWidth && g[row][j] == num
  {
    if from == left + BoxWidth then false
    else g[row][from] == num || BoxRowHas(g, row, left, from + 1, num)
  }

  /** Outer loop of the box scan: the rows of the 2x3 box with corner
      (top, left), from row `from` to the box's bottom edge. */
  function BoxHas(g: Board, top: int, left: int, from: int, num: int): (found: bool)
    requires 0 <= top && top + BoxHeight <= Size && 0 <= left && left + BoxWidth <= Size
    requires top <= from <= top + BoxHeight
    decreases top + BoxHeight - from
    ensures found <==>
      exists i, j :: from <= i < top + BoxHeight && left <= j < left + BoxWidth && g[i][j] == num
  {
    if from == top + BoxHeight then false
    else BoxRowHas(g, from, left, left, num) || BoxHas(g, top, left, from + 1, num)
  }

  /** `isValidPlacement(row, col, num)`: `num` is absent from the row, the
      column and the 2x3 box of (row, col). The cell itself is part of all
      three scans. */
  function IsValidPlacement(g: Board, row: int, col: int, num: int): (ok: bool)
    requires InRange(row, col)
    ensures ok <==> forall r, c :: InRange(r, c) && SameUnit(row, col, r, c) ==> g[r][c] != num
  {
    var (top, left) := BoxOrigin(row, col);
    var ok := !RowHas(g, row, 0, num) && !ColumnHas(g, col, 0, num)
              && !BoxHas(g, top, left, top, num);
    assert ok ==> forall r, c :: InRange(r, c) && SameUnit(row, col, r, c) ==> g[r][c] != num by {
      if ok {
        forall r, c | InRange(r, c) && SameUnit(row, col, r, c)
          ensures g[r][c] != num
        {
          if SameBox(row, col, r, c) {
            assert BoxOrigin(r, c) == (top, left);
          }
        }
      }
    }
    assert !ok ==> exists r, c :: InRange(r, c) && SameUnit(row, col, r, c) && g[r][c] == num by {
      if RowHas(g, row, 0, num) {
        var j :| 0 <= j < Size && g[row][j] == num;
        assert SameUnit(row, col, row, j);
      } else if ColumnHas(g, col, 0, num) {
        var i :| 0 <= i < Size && g[i][col] == num;
        assert SameUnit(row, col, i, col);
      } else if BoxHas(g, top, left, top, num) {
        var i, j :| top <= i < top + BoxHeight && left <= j < left + BoxWidth && g[i][j] == num;
        assert BoxOrigin(i, j) == (top, left);
        assert SameUnit(row, col, i, j);
      }
    }
    ok
  }

  /** Each of the three scans on its own rejects `num`: found anywhere in
      the row, anywhere in the column, or anywhere in the 2x3 box. */
  lemma RejectsRowColumnBox(g: Board, row: int, col: int, num: int)
    requires InRange(row, col)
    ensures (exists j :: 0 <= j < Size && g[row][j] == num) ==> !IsValidPlacement(g, row, col, num)
    ensures (exists i :: 0 <= i < Size && g[i][col] == num) ==> !IsValidPlacement(g, row, col, num)
    ensures (exists i, j :: BoxOrigin(row, col).0 <= i < BoxOrigin(row, col).0 + BoxHeight &&
                            BoxOrigin(row, col).1 <= j < BoxOrigin(row, col).1 + BoxWidth && g[i][j] == num)
            ==> !IsValidPlacement(g, row, col, num)
  {
    var (top, left) := BoxOrigin(row, col);
    if exists i, j :: top <= i < top + BoxHeight && left <= j < left + BoxWidth && g[i][j] == num {
      var i, j :| top <= i < top + BoxHeight && left <= j < left + BoxWidth && g[i][j] == num;
      BoxMember(top, left, i, j);
      assert SameUnit(row, col, i, j);
    }
  }

  /** The public entry point with the exceptions of the Java code: the row
      index is used first, so a bad row throws at once; the row scan runs
      before the column is touched, so a bad column throws only when `num`
      is not already in the row. */
  function CheckedValidPlacement(g: Board, row: int, col: int, num: int): (r: Result<bool>)
    ensures r.Err? ==> r.error == IndexOutOfBoundsException
    ensures r.Err? <==> !(0 <= row < Size) || (!(0 <= col < Size) && !RowHas(g, row, 0, num))
    ensures InRange(row, col) ==> r == Ok(IsValidPlacement(g, row, col, num))
    ensures 0 <= row < Size && r == Ok(true) ==> forall j :: 0 <= j < Size ==> g[row][j] != num
  {
    if !(0 <= row < Size) then Err(IndexOutOfBoundsException)
    else if RowHas(g, row, 0, num) then Ok(false)
    else if !(0 <= col < Size) then Err(IndexOutOfBoundsException)
    else Ok(IsValidPlacement(g, row, col, num))
  }

  /** `isCorrectValue(row, col, num)`: does `num` equal the solution's
      value at (row, col)? Coordinates off the board throw. */
  function IsCorrectValue(g: Board, row: int, col: int, num: int): (r: Result<bool>)
    ensures r.Err? <==> !InRange(row, col)
    ensures r.Err? ==> r.error == IndexOutOfBoundsException
    ensures r == Ok(true) ==> g[row][col] == num
    ensures InRange(row, col) && g[row][col] == num ==> r == Ok(true)
  {
    if InRange(row, col) then Ok(g[row][col] == num) else Err(IndexOutOfBoundsException)
  }
}
