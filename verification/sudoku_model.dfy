/** The `SudokuModel` object: the generated solution board and the player's
    attempt grid, plus what the placement and value checks mean on a solved board. */
module SudokuModel {
  import opened Grid
  import opened JavaInteger
  import opened Placement
  import opened Generation
  import opened Completeness

  /** A cell of the attempt grid: a Java `Integer`, which the controller may
      also set to `null`. */
  datatype Entry = Null | Num(value: int)

  function EmptyAttempt(): (a: seq<seq<Entry>>)
    ensures IsSixBySix(a)
  {
    seq(Size, _ => seq(Size, _ => Num(0)))
  }

  type Attempt = a: seq<seq<Entry>> | IsSixBySix(a) witness EmptyAttempt()

  /** `generateSudoku()`: a 6x6 board of zeros filled by `fillBoard(0, 0)`.
      `generateSudoku` ignores the boolean `fillBoard` returns; the search never
      fails from the all-zero board, so the board is always solved. */
  function GenerateSudoku(sh: nat -> seq<int>): (g: Board)
    requires Shuffles(sh)
    ensures IsSolved(g)
  {
    FillFromZerosSucceeds(sh, 0);
    FillBoard(Zeros(), 0, 0, sh, 0).board
  }

  /** `generateEmptySudoku()`: the attempt grid starts as 36 zeros. */
  function GenerateEmptySudoku(): (a: Attempt)
    ensures forall r, c :: InRange(r, c) ==> a[r][c] == Num(0)
  {
    EmptyAttempt()
  }

  /** The state the `SudokuModel` constructor builds. */
  datatype Model = Model(board: Board, attempt: Attempt)

  function NewModel(sh: nat -> seq<int>): (m: Model)
    requires Shuffles(sh)
    ensures IsSolved(m.board)
    ensures forall r, c :: InRange(r, c) ==> m.attempt[r][c] == Num(0)
  {
    Model(GenerateSudoku(sh), GenerateEmptySudoku())
  }

  // ----- Units of a solved board are permutations of 1..6 -----

  function Column(g: Board, c: int): (s: seq<int>)
    requires 0 <= c < Size
    ensures |s| == Size && forall i :: 0 <= i < Size ==> s[i] == g[i][c]
  {
    seq(Size, i requires 0 <= i < Size => g[i][c])
  }

  /** The six cells of the box with corner (top, left): its top row's
      three cells, then its bottom row's. */
  function BoxCells(g: Board, top: int, left: int): (s: seq<int>)
    requires 0 <= top && top + BoxHeight <= Size && 0 <= left && left + BoxWidth <= Size
    ensures |s| == Size
    ensures forall j :: 0 <= j < BoxWidth ==> s[j] == g[top][left + j]
    ensures forall j :: BoxWidth <= j < Size ==> s[j] == g[top + 1][left + j - BoxWidth]
  {
    g[top][left..left + BoxWidth] + g[top + 1][left..left + BoxWidth]
  }

  ghost predicate Distinct(s: seq<int>) {
    forall i, j :: 0 <= i < |s| && 0 <= j < |s| && i != j ==> s[i] != s[j]
  }

  lemma {:induction false} DistinctCardinality(s: seq<int>)
    requires Distinct(s)
    ensures |set x | x in s| == |s|
  {
    if |s| > 0 {
      var init := s[..|s| - 1];
      assert Distinct(init);
      DistinctCardinality(init);
      assert (set x | x in s) == (set x | x in init) + {s[|s| - 1]};
      assert s[|s| - 1] !in init;
    }
  }

  /** Six distinct digits are all six digits. */
  lemma DistinctDigitsCoverAll(s: seq<int>)
    requires |s| == Size && Distinct(s) && forall i :: 0 <= i < |s| ==> IsDigit(s[i])
    ensures forall v :: IsDigit(v) ==> v in s
  {
    var values := set x | x in s;
    var digits := {1, 2, 3, 4, 5, 6};
    DistinctCardinality(s);
    assert values <= digits;
    assert |digits - values| == 0;
    assert values == digits;
  }

  /** Every row of a solved board holds each of 1..6. */
  lemma SolvedRowCovers(g: Board, r: int, v: int)
    requires IsSolved(g) && 0 <= r < Size && IsDigit(v)
    ensures v in g[r]
  {
    assert forall j :: 0 <= j < Size ==> IsDigit(g[r][j]);
    DistinctDigitsCoverAll(g[r]);
  }

  /** Every column of a solved board holds each of 1..6. */
  lemma SolvedColumnCovers(g: Board, c: int, v: int)
    requires IsSolved(g) && 0 <= c < Size && IsDigit(v)
    ensures v in Column(g, c)
  {
    DistinctDigitsCoverAll(Column(g, c));
  }

  lemma BoxCellsDistinct(g: Board, top: int, left: int)
    requires BoxesDistinct(g)
    requires 0 <= top && top + BoxHeight <= Size && top % BoxHeight == 0
    requires 0 <= left && left + BoxWidth <= Size && left % BoxWidth == 0
    ensures Distinct(BoxCells(g, top, left))
  {
    var s := BoxCells(g, top, left);
    forall r, c | top <= r < top + BoxHeight && left <= c < left + BoxWidth
      ensures BoxOrigin(r, c) == (top, left)
    {
      BoxMember(top, left, r, c);
    }
    forall i, j | 0 <= i < Size && 0 <= j < Size && i != j
      ensures s[i] != s[j]
    {
      var r1, c1 := if i < BoxWidth then top else top + 1, if i < BoxWidth then left + i else left + i - BoxWidth;
      var r2, c2 := if j < BoxWidth then top else top + 1, if j < BoxWidth then left + j else left + j - BoxWidth;
      assert s[i] == g[r1][c1] && s[j] == g[r2][c2];
      assert SameBox(r1, c1, r2, c2);
    }
  }

  /** Every 2x3 box of a solved board holds each of 1..6. */
  lemma SolvedBoxCovers(g: Board, row: int, col: int, v: int)
    requires IsSolved(g) && InRange(row, col) && IsDigit(v)
    ensures v in BoxCells(g, BoxOrigin(row, col).0, BoxOrigin(row, col).1)
  {
    var (top, left) := BoxOrigin(row, col);
    BoxCellsDistinct(g, top, left);
    var s := BoxCells(g, top, left);
    assert forall i :: 0 <= i < Size ==> IsDigit(s[i]);
    DistinctDigitsCoverAll(s);
  }

  // ----- The checks on a solved board -----

  /** Once the board is full, no digit can be placed anywhere: each cell's
      row already holds every digit, the cell's own value included. */
  lemma SolvedBoardRejectsEveryDigit(g: Board, row: int, col: int, num: int)
    requires IsSolved(g) && InRange(row, col) && IsDigit(num)
    ensures !IsValidPlacement(g, row, col, num)
  {
    SolvedRowCovers(g, row, num);
    var j :| 0 <= j < Size && g[row][j] == num;
    assert SameUnit(row, col, row, j);
  }

  /** With one cell of a solved board cleared, exactly one digit may be
      placed there: the one `isCorrectValue` accepts. */
  lemma ClearedCellAcceptsOnlyCorrectValue(g: Board, row: int, col: int, num: int)
    requires IsSolved(g) && InRange(row, col) && IsDigit(num)
    ensures IsValidPlacement(Set(g, row, col, 0), row, col, num) <==> IsCorrectValue(g, row, col, num) == Ok(true)
  {
    var cleared := Set(g, row, col, 0);
    SolvedIffNoUnitClash(g);
    if num == g[row][col] {
      forall r, c | InRange(r, c) && SameUnit(row, col, r, c)
        ensures cleared[r][c] != num
      {
      }
    } else {
      SolvedRowCovers(g, row, num);
      var j :| 0 <= j < Size && g[row][j] == num;
      assert cleared[row][j] == num && SameUnit(row, col, row, j);
    }
  }
}
