/** The recursive solver of basics/7_refactoring/sudoku_before.py, the
    version before refactoring: the scan for an empty cell, the rule check
    (through an `ok` flag that is cleared but never returned early) and the
    recursion are one function. Only the first empty cell is ever worked on:
    after its digits are exhausted the function returns `False` without
    looking further. */
module Before {
  import opened Board
  import opened Solutions

  /** No `num` among the first `k` entries of the row or of the column. */
  predicate LineClear(b: Grid, row: int, col: int, num: int, k: int)
    requires IsBoard(b) && 0 <= row < 9 && 0 <= col < 9 && 0 <= k <= 9
  {
    forall k' :: 0 <= k' < k ==> b[row][k'] != num && b[k'][col] != num
  }

  /** No `num` among the first `k` entries of the block, row by row. */
  predicate BlockClear(b: Grid, p: Cell, num: int, k: int)
    requires IsBoard(b) && InRange(p) && 0 <= k <= 9
  {
    forall k' :: 0 <= k' < k ==> Block(b, p)[k'] != num
  }

  lemma LineClearIsRule(b: Grid, row: int, col: int, num: int)
    requires IsBoard(b) && 0 <= row < 9 && 0 <= col < 9
    ensures LineClear(b, row, col, num, 9) <==> num !in b[row] && num !in Column(b, col)
  {
    if !LineClear(b, row, col, num, 9) {
      var k' :| 0 <= k' < 9 && (b[row][k'] == num || b[k'][col] == num);
      assert Column(b, col)[k'] == b[k'][col];
    } else {
      assert forall k' :: 0 <= k' < 9 ==> Column(b, col)[k'] != num;
    }
  }

  /** The row and column scan of the `ok` flag: a match clears it without
      leaving the loop. */
  method LineScan(b: Grid, row: int, col: int, num: int) returns (ok: bool)
    requires IsBoard(b) && 0 <= row < 9 && 0 <= col < 9
    ensures ok <==> num !in b[row] && num !in Column(b, col)
  {
    ok := true;
    for k := 0 to 9
      invariant ok == LineClear(b, row, col, num, k)
    {
      if b[row][k] == num || b[k][col] == num {
        ok := false;
      }
    }
    LineClearIsRule(b, row, col, num);
  }

  /** The block scan of the `ok` flag, from `(I - I % 3, J - J % 3)`: the
      flag coming in stays set only if the block has no `num`. */
  method BlockScan(b: Grid, row: int, col: int, num: int, ok0: bool) returns (ok: bool)
    requires IsBoard(b) && 0 <= row < 9 && 0 <= col < 9
    ensures ok == (ok0 && BlockClear(b, Cell(row, col), num, 9))
  {
    var p := Cell(row, col);
    ok := ok0;
    var boxR := row - row % 3;
    var boxC := col - col % 3;
    assert boxR == BlockStart(row) && boxC == BlockStart(col);
    for r := 0 to 3
      invariant ok == (ok0 && BlockClear(b, p, num, 3 * r))
    {
      for c := 0 to 3
        invariant ok == (ok0 && BlockClear(b, p, num, 3 * r + c))
      {
        BlockEntry(b, p, r, c);
        if b[boxR + r][boxC + c] == num {
          ok := false;
        }
      }
    }
  }

  /** The `ok` flag computation: the row and column scan, then the block
      scan, on one flag. */
  method OkFlag(b: Grid, row: int, col: int, num: int) returns (ok: bool)
    requires IsBoard(b) && 0 <= row < 9 && 0 <= col < 9
    ensures ok == IsValid(b, num, Cell(row, col))
  {
    ok := LineScan(b, row, col, num);
    ok := BlockScan(b, row, col, num, ok);
  }

  /** The solver. Boards are values, so the board the in-place original
      leaves behind is returned. It behaves as the refactored solver: on
      success the first solution of `b` in row-major, ascending order, on
      failure `b` again with no solution in existence. */
  method Sudoku(b: Grid) returns (solved: bool, r: Grid)
    requires IsBoard(b)
    ensures SolverOutcome(b, solved, r)
    decreases ZeroSet(b)
  {
    for i := 0 to 9
      invariant FilledBefore(b, 9 * i)
    {
      for j := 0 to 9
        invariant FilledBefore(b, 9 * i + j)
      {
        if b[i][j] == 0 {
          var p := Cell(i, j);
          var board := b;
          for num := 1 to 10
            invariant board == b
            invariant forall t :: IsSolution(b, t) ==> At(t, p) >= num
          {
            var ok := OkFlag(board, i, j, num);
            if ok {
              board := Put(board, p, num);
              FillShrinks(b, p, num);
              var s, r' := Sudoku(board);
              if s {
                FillSolved(b, p, num, r');
                return true, r';
              }
              UnsolvablePlacementUnused(b, p, num);
              board := Put(r', p, 0);
              BoardExt(board, b);
            } else {
              RejectedDigitUnused(b, p, num);
            }
          }
          return false, board;
        }
      }
    }
    FullBoardIsFirstSolution(b);
    return true, b;
  }
}
