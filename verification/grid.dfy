/** Geometry and rules of the 6x6 board with 2x3 boxes.

    A board is six rows of six integers; 0 stands for an empty cell and the
    digits 1..6 for a placed value. Cells are visited in row-major order,
    numbered by `Idx`. */
module Grid {

  const Size: int := 6
  const BoxHeight: int := 2
  const BoxWidth: int := 3

  /** Six rows of six entries each. */
  predicate IsSixBySix<T>(g: seq<seq<T>>) {
    |g| == Size && forall r :: 0 <= r < |g| ==> |g[r]| == Size
  }

  function Zeros(): (g: seq<seq<int>>)
    ensures IsSixBySix(g)
    ensures forall r, c :: 0 <= r < 6 && 0 <= c < 6 ==> g[r][c] == 0
  {
    seq(Size, _ => seq(Size, _ => 0))
  }

  type Board = g: seq<seq<int>> | IsSixBySix(g) witness Zeros()

  predicate InRange(r: int, c: int) {
    0 <= r < Size && 0 <= c < Size
  }

  /** Position of cell (r, c) in row-major order. */
  function Idx(r: int, c: int): int {
    r * Size + c
  }

  /** Writes `v` into cell (r, c); every other cell keeps its value. */
  function Set(g: Board, r: int, c: int, v: int): (h: Board)
    requires InRange(r, c)
    ensures h[r][c] == v
    ensures forall r', c' :: InRange(r', c') && (r', c') != (r, c) ==> h[r'][c'] == g[r'][c']
  {
    g[r := g[r][c := v]]
  }

  /** Top-left corner of the 2x3 box holding cell (r, c). The box lies
      inside the board and contains the cell. */
  function BoxOrigin(r: int, c: int): (o: (int, int))
    requires InRange(r, c)
    ensures 0 <= o.0 && o.0 + BoxHeight <= Size && 0 <= o.1 && o.1 + BoxWidth <= Size
    ensures o.0 <= r < o.0 + BoxHeight && o.1 <= c < o.1 + BoxWidth
    ensures o.0 % BoxHeight == 0 && o.1 % BoxWidth == 0
  {
    ((r / BoxHeight) * BoxHeight, (c / BoxWidth) * BoxWidth)
  }

  /** A cell inside the box with corner (top, left) has that corner as its box origin. */
  lemma BoxMember(top: int, left: int, r: int, c: int)
    requires 0 <= top && top % BoxHeight == 0 && 0 <= left && left % BoxWidth == 0
    requires top <= r < top + BoxHeight && left <= c < left + BoxWidth && InRange(r, c)
    ensures BoxOrigin(r, c) == (top, left)
  {
    assert r / BoxHeight == top / BoxHeight;
    assert c / BoxWidth == left / BoxWidth;
  }

  predicate SameBox(r1: int, c1: int, r2: int, c2: int)
    requires InRange(r1, c1) && InRange(r2, c2)
  {
    BoxOrigin(r1, c1) == BoxOrigin(r2, c2)
  }

  /** Two cells constrain each other when they share a row, a column or a box. */
  predicate SameUnit(r1: int, c1: int, r2: int, c2: int)
    requires InRange(r1, c1) && InRange(r2, c2)
  {
    r1 == r2 || c1 == c2 || SameBox(r1, c1, r2, c2)
  }

  predicate IsDigit(v: int) {
    1 <= v <= Size
  }

  // ----- The Sudoku rules -----

  ghost predicate AllDigits(g: Board) {
    forall r, c :: InRange(r, c) ==> IsDigit(g[r][c])
  }

  ghost predicate RowsDistinct(g: Board) {
    forall r, c1, c2 :: InRange(r, c1) && InRange(r, c2) && c1 != c2 ==> g[r][c1] != g[r][c2]
  }

  ghost predicate ColumnsDistinct(g: Board) {
    forall r1, r2, c :: InRange(r1, c) && InRange(r2, c) && r1 != r2 ==> g[r1][c] != g[r2][c]
  }

  ghost predicate BoxesDistinct(g: Board) {
    forall r1, c1, r2, c2 ::
      InRange(r1, c1) && InRange(r2, c2) && (r1, c1) != (r2, c2) && SameBox(r1, c1, r2, c2)
      ==> g[r1][c1] != g[r2][c2]
  }

  /** A complete, rule-valid Sudoku: every cell holds 1..6 and no row,
      column or 2x3 box repeats a value. */
  ghost predicate IsSolved(g: Board) {
    AllDigits(g) && RowsDistinct(g) && ColumnsDistinct(g) && BoxesDistinct(g)
  }

  /** The rules stated through `SameUnit`: no two distinct cells that
      constrain each other hold the same value. */
  lemma SolvedIffNoUnitClash(g: Board)
    ensures IsSolved(g) <==>
      AllDigits(g) &&
      forall r1, c1, r2, c2 ::
        InRange(r1, c1) && InRange(r2, c2) && (r1, c1) != (r2, c2) && SameUnit(r1, c1, r2, c2)
        ==> g[r1][c1] != g[r2][c2]
  {
  }
}
