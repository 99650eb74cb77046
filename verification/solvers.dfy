/** The solver entry points built on the shared cursor loop and the two
    recursive solvers: `solve_sudoku` of sudoku_solver.py and of
    basics/8_refactoring/sudoku_solver.py (which copies its argument and
    raises `ValueError` on failure), the set-based rule of the refactored
    module with the facts its tests check, and the agreement of all solver
    forms. */
module Solvers {
  import opened Wrappers
  import opened Board
  import opened Solutions
  import Cursor
  import After
  import Before

  // ---------------------------------------------------------------------
  // solve_sudoku
  // ---------------------------------------------------------------------

  /** Whatever solver produced it, the outcome on a board without a 0 is
      success with the board unchanged, even when its givens clash. */
  lemma FullBoardSolvedUnchanged(b: Grid, solved: bool, r: Grid)
    requires IsBoard(b) && FilledBefore(b, 81) && SolverOutcome(b, solved, r)
    ensures solved && r == b
  {
    FullBoardIsFirstSolution(b);
    assert IsSolution(b, b);
    if solved {
      FirstSolutionUnique(b, b, r);
    }
  }

  /** `solve_sudoku`: the cursor loop on a copy of the board (boards are
      values, so the caller's board is never changed). The result is the
      first solution in row-major, ascending order, or `ValueError` exactly
      when no solution exists. A board without a 0 comes back unchanged; when
      the givens clash with nothing, the result is a valid Sudoku. */
  method SolveSudoku(b: Grid) returns (r: Result<Grid>)
    requires IsBoard(b)
    ensures r.Ok? ==> IsFirstSolution(b, r.value)
    ensures r.Err? <==> NoSolution(b)
    ensures r.Err? ==> r.error == ValueError("No solution found")
    ensures FilledBefore(b, 81) ==> r == Ok(b)
    ensures r.Ok? && (forall i, j :: 0 <= i < 9 && 0 <= j < 9 && b[i][j] != 0 ==> ClashFree(b, Cell(i, j)))
      ==> IsValidSudoku(r.value)
  {
    var solved, c := Cursor.Backtrack(b);
    if FilledBefore(b, 81) {
      FullBoardSolvedUnchanged(b, solved, c);
    }
    if !solved {
      return Err(ValueError("No solution found"));
    }
    assert IsSolution(b, c);
    if forall i, j :: 0 <= i < 9 && 0 <= j < 9 && b[i][j] != 0 ==> ClashFree(b, Cell(i, j)) {
      SolutionIsValidSudoku(b, c);
    }
    return Ok(c);
  }

  // ---------------------------------------------------------------------
  // The set-based rule of basics/8_refactoring/sudoku_solver.py
  // ---------------------------------------------------------------------

  function RowNumbers(b: Grid, row: int): set<int>
    requires IsBoard(b) && 0 <= row < 9
  {
    set k | 0 <= k < 9 :: b[row][k]
  }

  function ColumnNumbers(b: Grid, col: int): set<int>
    requires IsBoard(b) && 0 <= col < 9
  {
    set k | 0 <= k < 9 :: b[k][col]
  }

  /** The flattened 3x3 tile, row by row, as a set. */
  function TileNumbers(b: Grid, p: Cell): set<int>
    requires IsBoard(b) && InRange(p)
  {
    set k | 0 <= k < 9 :: Block(b, p)[k]
  }

  /** `number not in row_numbers | col_numbers | tile_numbers`. */
  predicate IsValidSets(b: Grid, n: int, p: Cell)
    requires IsBoard(b) && InRange(p)
  {
    n !in RowNumbers(b, p.row) + ColumnNumbers(b, p.col) + TileNumbers(b, p)
  }

  /** The set-based rule accepts exactly what the membership rule accepts. */
  lemma IsValidSetsIff(b: Grid, n: int, p: Cell)
    requires IsBoard(b) && InRange(p)
    ensures IsValidSets(b, n, p) <==> IsValid(b, n, p)
  {
    if n in b[p.row] {
      var k :| 0 <= k < 9 && b[p.row][k] == n;
      assert n in RowNumbers(b, p.row);
    }
    if n in Column(b, p.col) {
      var k :| 0 <= k < 9 && Column(b, p.col)[k] == n;
      assert n in ColumnNumbers(b, p.col);
    }
    if n in Block(b, p) {
      var k :| 0 <= k < 9 && Block(b, p)[k] == n;
      assert n in TileNumbers(b, p);
    }
    if n in RowNumbers(b, p.row) {
      var k :| 0 <= k < 9 && b[p.row][k] == n;
      assert b[p.row][k] in b[p.row];
    }
    if n in ColumnNumbers(b, p.col) {
      var k :| 0 <= k < 9 && b[k][p.col] == n;
      assert Column(b, p.col)[k] == n;
    }
  }

  /** The board of zeros. */
  function EmptyBoard(): Grid {
    seq(9, i => seq(9, j => 0))
  }

  lemma EmptyBoardFacts()
    ensures IsBoard(EmptyBoard())
    ensures forall i, j :: 0 <= i < 9 && 0 <= j < 9 ==> EmptyBoard()[i][j] == 0
  {
  }

  /** On the empty board every digit fits everywhere. */
  lemma EmptyBoardAcceptsAll(n: int, p: Cell)
    requires InRange(p) && 1 <= n <= 9
    ensures IsBoard(EmptyBoard()) && IsValidSets(EmptyBoard(), n, p)
  {
    var b := EmptyBoard();
    EmptyBoardFacts();
    IsValidSetsIff(b, n, p);
    IsValidIffFree(b, n, p);
  }

  /** With a single 5 at (0, 0), the digit 5 is rejected exactly in row 0,
      column 0 and the top-left block, and every other digit fits
      everywhere. */
  lemma LoneFive(n: int, p: Cell)
    requires InRange(p) && 1 <= n <= 9
    ensures var b := Put(EmptyBoard(), Cell(0, 0), 5);
      IsValidSets(b, n, p) <==> n != 5 || (p.row != 0 && p.col != 0 && (p.row >= 3 || p.col >= 3))
  {
    EmptyBoardFacts();
    var b := Put(EmptyBoard(), Cell(0, 0), 5);
    IsValidSetsIff(b, n, p);
    IsValidIffFree(b, n, p);
    if n == 5 && (p.row == 0 || p.col == 0 || (p.row < 3 && p.col < 3)) {
      assert Sees(p, 0, 0) && b[0][0] == 5;
    }
  }

  // ---------------------------------------------------------------------
  // Agreement of the solver forms
  // ---------------------------------------------------------------------

  /** The iterative solver, the refactored recursive solver and its
      unrefactored original report the same flag and leave the same board on
      every input. */
  method CompareSolvers(b: Grid) returns (okCursor: bool, rCursor: Grid, okAfter: bool, rAfter: Grid,
                                          okBefore: bool, rBefore: Grid)
    requires IsBoard(b)
    ensures okCursor == okAfter == okBefore
    ensures rCursor == rAfter == rBefore
    ensures SolverOutcome(b, okCursor, rCursor)
  {
    okCursor, rCursor := Cursor.Backtrack(b);
    okAfter, rAfter := After.Solve(b);
    okBefore, rBefore := Before.Sudoku(b);
    OutcomeDeterministic(b, okCursor, rCursor, okAfter, rAfter);
    OutcomeDeterministic(b, okAfter, rAfter, okBefore, rBefore);
  }
}
