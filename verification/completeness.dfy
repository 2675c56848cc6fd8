/** Soundness and completeness of the backtracking search.

    Soundness: a successful search from (0, 0) leaves a solved board.
    Completeness: a search over an empty suffix succeeds whenever some
    solved board extends the filled prefix, whatever the shuffles; since
    solved 6x6 boards exist, the search from the all-zero board always
    succeeds. */
module Completeness {
  import opened Grid
  import opened Placement
  import opened Generation

  /** A board consistent and filled from position 0 on is a solved Sudoku. */
  lemma ConsistentBoardIsSolved(g: Board)
    requires FilledFrom(g, 0) && ConsistentFrom(g, 0)
    ensures IsSolved(g)
  {
    forall r1, c1, r2, c2 |
      InRange(r1, c1) && InRange(r2, c2) && (r1, c1) != (r2, c2) && SameUnit(r1, c1, r2, c2)
      ensures g[r1][c1] != g[r2][c2]
    {
      IdxInjective(r1, c1, r2, c2);
      if Idx(r1, c1) < Idx(r2, c2) {
        assert NoEarlierClash(g, r2, c2);
      } else {
        assert NoEarlierClash(g, r1, c1);
        assert SameUnit(r2, c2, r1, c1);
      }
    }
    SolvedIffNoUnitClash(g);
  }

  /** Soundness of `fillBoard(0, 0)`: whenever it reports success the board
      is a complete, rule-valid Sudoku, for every sequence of shuffles and
      every starting board. */
  lemma FillSound(g: Board, sh: nat -> seq<int>, k: nat)
    requires Shuffles(sh)
    ensures FillBoard(g, 0, 0, sh, k).solved ==> IsSolved(FillBoard(g, 0, 0, sh, k).board)
  {
    var s := FillBoard(g, 0, 0, sh, k);
    if s.solved {
      ConsistentBoardIsSolved(s.board);
    }
  }

  /** The value a solved extension holds at (row, col) passes
      `isValidPlacement` on a board that copies the extension before
      (row, col) and is empty from there on. */
  lemma ExtensionValuePlaceable(g: Board, row: int, col: int, sol: Board)
    requires InRange(row, col)
    requires IsSolved(sol) && Agrees(g, sol, Idx(row, col)) && EmptyFrom(g, Idx(row, col))
    ensures IsValidPlacement(g, row, col, sol[row][col])
  {
    SolvedIffNoUnitClash(sol);
    forall r, c | InRange(r, c) && SameUnit(row, col, r, c)
      ensures g[r][c] != sol[row][col]
    {
      IdxInjective(r, c, row, col);
    }
  }

  /** Completeness of `fillBoard`: from an empty suffix whose prefix some
      solved board extends, the search succeeds. */
  lemma {:induction false} FillComplete(g: Board, row: int, col: int, sh: nat -> seq<int>, k: nat, sol: Board)
    requires 0 <= row <= Size && 0 <= col < Size
    requires Shuffles(sh)
    requires IsSolved(sol) && Agrees(g, sol, Idx(row, col)) && EmptyFrom(g, Idx(row, col))
    decreases Size * Size + Size - Idx(row, col), 1, 0
    ensures FillBoard(g, row, col, sh, k).solved
  {
    if row < Size {
      assert IsShuffle(sh(k));
      assert IsDigit(sol[row][col]);
      assert sol[row][col] in sh(k)[0..];
      TryComplete(g, row, col, sh(k), 0, sh, k + 1, sol);
    }
  }

  /** The candidate loop succeeds when the extension's value is still among
      the candidates left to try: every earlier candidate either fails the
      placement check or, after a failed recursion, leaves the board as it was. */
  lemma {:induction false} TryComplete(g: Board, row: int, col: int, cands: seq<int>, i: int,
                                       sh: nat -> seq<int>, k: nat, sol: Board)
    requires InRange(row, col)
    requires 0 <= i <= |cands| && forall j :: 0 <= j < |cands| ==> IsDigit(cands[j])
    requires Shuffles(sh)
    requires IsSolved(sol) && Agrees(g, sol, Idx(row, col)) && EmptyFrom(g, Idx(row, col))
    requires sol[row][col] in cands[i..]
    decreases Size * Size + Size - Idx(row, col), 0, |cands| - i
    ensures TryCandidates(g, row, col, cands, i, sh, k).solved
  {
    var num := cands[i];
    var (nextRow, nextCol) := NextCell(row, col);
    var placed := Set(g, row, col, num);
    if num == sol[row][col] {
      ExtensionValuePlaceable(g, row, col, sol);
      forall r, c | InRange(r, c) && Idx(r, c) < Idx(row, col) + 1
        ensures placed[r][c] == sol[r][c]
      {
        IdxInjective(r, c, row, col);
      }
      forall r, c | InRange(r, c) && Idx(r, c) >= Idx(row, col) + 1
        ensures placed[r][c] == 0
      {
        IdxInjective(r, c, row, col);
      }
      FillComplete(placed, nextRow, nextCol, sh, k, sol);
    } else {
      assert sol[row][col] in cands[i + 1..];
      if IsValidPlacement(g, row, col, num) {
        var s := FillBoard(placed, nextRow, nextCol, sh, k);
        if !s.solved {
          RestoredAfterFailure(g, row, col, num, s.board);
          TryComplete(g, row, col, cands, i + 1, sh, s.draws, sol);
        }
      } else {
        TryComplete(g, row, col, cands, i + 1, sh, k, sol);
      }
    }
  }

  // ----- A solved board exists -----

  /** Row r of the reference board is 1..6 rotated left by `Shift(r)`;
      the shifts 0, 3, 1, 4, 2, 5 keep columns and boxes free of repeats. */
  function Shift(r: int): int
    requires 0 <= r < Size
  {
    [0, 3, 1, 4, 2, 5][r]
  }

  function ReferenceValue(r: int, c: int): int
    requires InRange(r, c)
  {
    var x := Shift(r) + c;
    if x < Size then x + 1 else x - Size + 1
  }

  function ReferenceBoard(): (g: Board)
    ensures forall r, c :: InRange(r, c) ==> g[r][c] == ReferenceValue(r, c)
  {
    seq(Size, r requires 0 <= r < Size => seq(Size, c requires 0 <= c < Size => ReferenceValue(r, c)))
  }

  lemma ReferenceRowsDistinct(r: int, c1: int, c2: int)
    requires InRange(r, c1) && InRange(r, c2) && c1 != c2
    ensures ReferenceValue(r, c1) != ReferenceValue(r, c2)
  {
  }

  lemma ReferenceColumnsDistinct(r1: int, r2: int, c: int)
    requires InRange(r1, c) && InRange(r2, c) && r1 != r2
    ensures ReferenceValue(r1, c) != ReferenceValue(r2, c)
  {
    assert 0 <= Shift(r1) < Size && 0 <= Shift(r2) < Size && Shift(r1) != Shift(r2);
  }

  lemma ReferenceBoxesDistinct(r1: int, c1: int, r2: int, c2: int)
    requires InRange(r1, c1) && InRange(r2, c2) && (r1, c1) != (r2, c2) && SameBox(r1, c1, r2, c2)
    ensures ReferenceValue(r1, c1) != ReferenceValue(r2, c2)
  {
    var (top, left) := BoxOrigin(r1, c1);
    assert BoxOrigin(r2, c2) == (top, left);
    if r1 == r2 {
      ReferenceRowsDistinct(r1, c1, c2);
    }
  }

  lemma ReferenceBoardSolved()
    ensures IsSolved(ReferenceBoard())
  {
    var g := ReferenceBoard();
    forall r, c1, c2 | InRange(r, c1) && InRange(r, c2) && c1 != c2
      ensures g[r][c1] != g[r][c2]
    {
      ReferenceRowsDistinct(r, c1, c2);
    }
    forall r1, r2, c | InRange(r1, c) && InRange(r2, c) && r1 != r2
      ensures g[r1][c] != g[r2][c]
    {
      ReferenceColumnsDistinct(r1, r2, c);
    }
    forall r1, c1, r2, c2 |
      InRange(r1, c1) && InRange(r2, c2) && (r1, c1) != (r2, c2) && SameBox(r1, c1, r2, c2)
      ensures g[r1][c1] != g[r2][c2]
    {
      ReferenceBoxesDistinct(r1, c1, r2, c2);
    }
  }

  /** `fillBoard(0, 0)` on the all-zero board succeeds for every sequence of
      shuffles, and leaves a solved board. */
  lemma FillFromZerosSucceeds(sh: nat -> seq<int>, k: nat)
    requires Shuffles(sh)
    ensures FillBoard(Zeros(), 0, 0, sh, k).solved
    ensures IsSolved(FillBoard(Zeros(), 0, 0, sh, k).board)
  {
    ReferenceBoardSolved();
    FillComplete(Zeros(), 0, 0, sh, k, ReferenceBoard());
    FillSound(Zeros(), sh, k);
  }
}
