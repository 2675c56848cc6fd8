/** `SudokuModel.fillBoard` and `SudokuModel.generateSudoku`: randomized
    backtracking over the cells in row-major order.

    Randomness enters through `Collections.shuffle`. The model receives the
    shuffles as an oracle `sh`: the k-th shuffle the search performs yields
    the candidate order `sh(k)`, an arbitrary permutation of 1..6. A search
    threads the number of shuffles drawn so far. */
module Generation {
  import opened Grid
  import opened Placement

  /** One candidate order: the digits 1..6, each exactly once, in some order. */
  ghost predicate IsShuffle(p: seq<int>) {
    |p| == Size && (forall i :: 0 <= i < |p| ==> IsDigit(p[i])) && (forall v :: IsDigit(v) ==> v in p)
  }

  ghost predicate Shuffles(sh: nat -> seq<int>) {
    forall k: nat :: IsShuffle(sh(k))
  }

  // ----- Facts about the board relative to the search position n -----

  /** `a` and `b` agree on every cell before position n. */
  ghost predicate Agrees(a: Board, b: Board, n: int) {
    forall r, c :: InRange(r, c) && Idx(r, c) < n ==> a[r][c] == b[r][c]
  }

  /** Every cell from position n on is empty. */
  ghost predicate EmptyFrom(g: Board, n: int) {
    forall r, c :: InRange(r, c) && Idx(r, c) >= n ==> g[r][c] == 0
  }

  /** Every cell from position n on holds a digit. */
  ghost predicate FilledFrom(g: Board, n: int) {
    forall r, c :: InRange(r, c) && Idx(r, c) >= n ==> IsDigit(g[r][c])
  }

  /** No cell before (r, c) that shares a row, column or box with it holds its value. */
  ghost predicate NoEarlierClash(g: Board, r: int, c: int)
    requires InRange(r, c)
  {
    forall r2, c2 :: InRange(r2, c2) && Idx(r2, c2) < Idx(r, c) && SameUnit(r, c, r2, c2)
      ==> g[r2][c2] != g[r][c]
  }

  /** No cell from position n on clashes with an earlier cell. */
  ghost predicate ConsistentFrom(g: Board, n: int) {
    forall r, c :: InRange(r, c) && Idx(r, c) >= n ==> NoEarlierClash(g, r, c)
  }

  lemma IdxInjective(r1: int, c1: int, r2: int, c2: int)
    requires InRange(r1, c1) && InRange(r2, c2)
    ensures Idx(r1, c1) == Idx(r2, c2) <==> (r1, c1) == (r2, c2)
  {
  }

  /** The cell after (row, col) in row-major order: the next column, or
      column 0 of the next row after the last column. */
  function NextCell(row: int, col: int): (next: (int, int))
    requires InRange(row, col)
    ensures Idx(next.0, next.1) == Idx(row, col) + 1
    ensures 0 <= next.1 < Size && row <= next.0 <= row + 1 && next.0 <= Size
  {
    if col == Size - 1 then (row + 1, 0) else (row, col + 1)
  }

  /** The outcome of a search: whether it succeeded, the board it left
      behind and the number of shuffles drawn so far. */
  datatype Search = Search(solved: bool, board: Board, draws: nat)

  /** `fillBoard(row, col)`. Position 36 (row 6) ends the search with success.
      Otherwise the candidates are the next shuffle. On success the cells
      before (row, col) are untouched and every later cell holds a digit that
      clashes with no earlier cell. On failure the cells before (row, col)
      are untouched, and a board that was empty from (row, col) on is
      returned exactly as it came in. */
  function FillBoard(g: Board, row: int, col: int, sh: nat -> seq<int>, k: nat): (s: Search)
    requires 0 <= row <= Size && 0 <= col < Size
    requires Shuffles(sh)
    decreases Size * Size + Size - Idx(row, col), 1, 0
    ensures s.draws >= k
    ensures Agrees(g, s.board, Idx(row, col))
    ensures s.solved ==> FilledFrom(s.board, Idx(row, col)) && ConsistentFrom(s.board, Idx(row, col))
    ensures !s.solved && EmptyFrom(g, Idx(row, col)) ==> s.board == g
  {
    if row == Size then Search(true, g, k)
    else
      assert IsShuffle(sh(k));
      TryCandidates(g, row, col, sh(k), 0, sh, k + 1)
  }

  /** The `for (int num : numbers)` loop of `fillBoard` from candidate `i` on:
      a candidate that passes `isValidPlacement` is written, the search
      recurses into the next cell, and on failure the cell is reset to 0. */
  function TryCandidates(g: Board, row: int, col: int, cands: seq<int>, i: int,
                         sh: nat -> seq<int>, k: nat): (s: Search)
    requires InRange(row, col)
    requires 0 <= i <= |cands| && forall j :: 0 <= j < |cands| ==> IsDigit(cands[j])
    requires Shuffles(sh)
    decreases Size * Size + Size - Idx(row, col), 0, |cands| - i
    ensures s.draws >= k
    ensures Agrees(g, s.board, Idx(row, col))
    ensures s.solved ==> FilledFrom(s.board, Idx(row, col)) && ConsistentFrom(s.board, Idx(row, col))
    ensures !s.solved && EmptyFrom(g, Idx(row, col)) ==> s.board == g
  {
    if i == |cands| then Search(false, g, k)
    else
      var num := cands[i];
      if IsValidPlacement(g, row, col, num) then
        var (nextRow, nextCol) := NextCell(row, col);
        var placed := Set(g, row, col, num);
        var s := FillBoard(placed, nextRow, nextCol, sh, k);
        if s.solved then
          PlacedCellSound(g, row, col, num, s.board);
          s
        else
          var reset := Set(s.board, row, col, 0);
          RestoredAfterFailure(g, row, col, num, s.board);
          TryCandidates(reset, row, col, cands, i + 1, sh, s.draws)
      else
        TryCandidates(g, row, col, cands, i + 1, sh, k)
  }

  /** Success step: a digit that passed `isValidPlacement` on `g`, followed
      by a successful search of the rest, leaves a board consistent from
      (row, col) on. */
  lemma PlacedCellSound(g: Board, row: int, col: int, num: int, b: Board)
    requires InRange(row, col) && IsDigit(num)
    requires IsValidPlacement(g, row, col, num)
    requires Agrees(Set(g, row, col, num), b, Idx(row, col) + 1)
    requires FilledFrom(b, Idx(row, col) + 1) && ConsistentFrom(b, Idx(row, col) + 1)
    ensures Agrees(g, b, Idx(row, col))
    ensures FilledFrom(b, Idx(row, col)) && ConsistentFrom(b, Idx(row, col))
  {
    assert b[row][col] == num;
    forall r, c | InRange(r, c) && Idx(r, c) >= Idx(row, col)
      ensures IsDigit(b[r][c]) && NoEarlierClash(b, r, c)
    {
      IdxInjective(r, c, row, col);
      if (r, c) == (row, col) {
        forall r2, c2 | InRange(r2, c2) && Idx(r2, c2) < Idx(r, c) && SameUnit(r, c, r2, c2)
          ensures b[r2][c2] != b[r][c]
        {
          assert b[r2][c2] == g[r2][c2];
        }
      }
    }
  }

  /** Failure step: resetting the cell to 0 after a failed recursion keeps
      the cells before (row, col), and gives back `g` itself when `g` was
      empty from (row, col) on. */
  lemma RestoredAfterFailure(g: Board, row: int, col: int, num: int, b: Board)
    requires InRange(row, col)
    requires Agrees(Set(g, row, col, num), b, Idx(row, col) + 1)
    requires EmptyFrom(Set(g, row, col, num), Idx(row, col) + 1) ==> b == Set(g, row, col, num)
    ensures Agrees(g, Set(b, row, col, 0), Idx(row, col))
    ensures EmptyFrom(g, Idx(row, col)) ==> Set(b, row, col, 0) == g
  {
    var placed := Set(g, row, col, num);
    if EmptyFrom(g, Idx(row, col)) {
      forall r, c | InRange(r, c) && Idx(r, c) >= Idx(row, col) + 1
        ensures placed[r][c] == 0
      {
        IdxInjective(r, c, row, col);
      }
      var reset := Set(b, row, col, 0);
      forall r | 0 <= r < Size
        ensures reset[r] == g[r]
      {
        forall c | 0 <= c < Size
          ensures reset[r][c] == g[r][c]
        {
          IdxInjective(r, c, row, col);
        }
      }
    }
  }
}
