/** The recursive solver of basics/7_refactoring/sudoku_after.py: find the
    first empty cell in row-major order, try the digits 1..9 that the rule
    accepts there, recurse, and clear the cell again when the recursion
    fails. */
module After {
  import opened Wrappers
  import opened Board
  import opened Solutions

  // ---------------------------------------------------------------------
  // find_empty
  // ---------------------------------------------------------------------

  /** The nested scan over rows, then columns: the first cell holding 0 in
      row-major order, or `None` exactly when the board is full. */
  method FindEmpty(b: Grid) returns (r: Option<Cell>)
    requires IsBoard(b)
    ensures r.Some? ==> InRange(r.value) && At(b, r.value) == 0 && FilledBefore(b, Index(r.value))
    ensures r.None? <==> FilledBefore(b, 81)
  {
    for row := 0 to 9
      invariant FilledBefore(b, 9 * row)
    {
      for col := 0 to 9
        invariant FilledBefore(b, 9 * row + col)
      {
        if b[row][col] == 0 {
          return Some(Cell(row, col));
        }
      }
    }
    return None;
  }

  // ---------------------------------------------------------------------
  // is_valid
  // ---------------------------------------------------------------------

  /** The block corner `row - row % 3` is the block start of the rule. */
  lemma CornerIsBlockStart(i: int)
    requires 0 <= i < 9
    ensures i - i % 3 == BlockStart(i) && 0 <= i - i % 3 <= 6
  {
  }

  /** The scan of row and column together, then of the 3x3 block: `num` is
      accepted exactly when the placement rule accepts it. */
  method IsValidScan(b: Grid, row: int, col: int, num: int) returns (ok: bool)
    requires IsBoard(b) && 0 <= row < 9 && 0 <= col < 9
    ensures ok == IsValid(b, num, Cell(row, col))
  {
    var p := Cell(row, col);
    for i := 0 to 9
      invariant forall k :: 0 <= k < i ==> b[row][k] != num && b[k][col] != num
    {
      if b[row][i] == num || b[i][col] == num {
        assert b[row][i] == num ==> num in b[row];
        assert b[i][col] == num ==> Column(b, col)[i] == num;
        return false;
      }
    }
    CornerIsBlockStart(row);
    CornerIsBlockStart(col);
    var startRow := row - row % 3;
    var startCol := col - col % 3;
    for r := 0 to 3
      invariant forall k :: 0 <= k < 3 * r ==> Block(b, p)[k] != num
    {
      for c := 0 to 3
        invariant forall k :: 0 <= k < 3 * r + c ==> Block(b, p)[k] != num
      {
        BlockEntry(b, p, r, c);
        if b[startRow + r][startCol + c] == num {
          return false;
        }
      }
    }
    assert num !in Column(b, col) by {
      forall k | 0 <= k < 9
        ensures Column(b, col)[k] != num
      {
      }
    }
    return true;
  }

  // ---------------------------------------------------------------------
  // solve
  // ---------------------------------------------------------------------

  /** The recursive solver. Boards are values, so the board the in-place
      original leaves behind is returned. On success it is the first solution
      of `b` in row-major, ascending order; on failure it is `b` again (every
      placement was undone) and no solution exists. */
  method Solve(b: Grid) returns (solved: bool, r: Grid)
    requires IsBoard(b)
    ensures SolverOutcome(b, solved, r)
    decreases ZeroSet(b)
  {
    var pos := FindEmpty(b);
    if pos.None? {
      FullBoardIsFirstSolution(b);
      return true, b;
    }
    var p := pos.value;
    var board := b;
    for num := 1 to 10
      invariant board == b
      invariant forall t :: IsSolution(b, t) ==> At(t, p) >= num
    {
      var ok := IsValidScan(board, p.row, p.col, num);
      if ok {
        board := Put(board, p, num);
        FillShrinks(b, p, num);
        var s, r' := Solve(board);
        if s {
          FillSolved(b, p, num, r');
          return true, r';
        }
        UnsolvablePlacementUnused(b, p, num);
        board := Put(r', p, 0);
        BoardExt(board, b);
      } else {
        RejectedDigitUnused(b, p, num);
      }
    }
    return false, board;
  }
}
