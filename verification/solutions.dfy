/** What the backtracking solvers search for. A solution of a starting board
    keeps every given, leaves no cell empty, and has no clash at any cell that
    was empty at the start. Clashes between two givens are not checked by any
    of the solvers, so they are not excluded here. The solvers enumerate the
    empty cells in row-major order and digits in ascending order, so the
    solution they report is the first one in that order. */
module Solutions {
  import opened Wrappers
  import opened Board
  import opened Lex

  /** The entries of `s` at the cells `e`, in list order. */
  function Digits(s: Grid, e: seq<Cell>): (r: seq<int>)
    requires IsBoard(s) && AllInRange(e)
    ensures |r| == |e| && forall k :: 0 <= k < |e| ==> r[k] == At(s, e[k])
  {
    seq(|e|, k requires 0 <= k < |e| => At(s, e[k]))
  }

  ghost predicate IsSolution(b0: Grid, s: Grid) {
    && IsBoard(b0) && IsBoard(s)
    && (forall i, j :: 0 <= i < 9 && 0 <= j < 9 && b0[i][j] != 0 ==> s[i][j] == b0[i][j])
    && (forall i, j :: 0 <= i < 9 && 0 <= j < 9 ==> s[i][j] != 0)
    && (forall i, j :: 0 <= i < 9 && 0 <= j < 9 && b0[i][j] == 0 ==> ClashFree(s, Cell(i, j)))
  }

  /** `s` is a solution and no solution comes before it when the originally
      empty cells are read in row-major order. */
  ghost predicate IsFirstSolution(b0: Grid, s: Grid) {
    && IsSolution(b0, s)
    && forall t :: IsSolution(b0, t) ==> LexLe(Digits(s, EmptyCells(b0)), Digits(t, EmptyCells(b0)))
  }

  ghost predicate NoSolution(b0: Grid) {
    forall t :: !IsSolution(b0, t)
  }

  /** The outcome every solver variant is proved to produce. */
  ghost predicate SolverOutcome(b0: Grid, solved: bool, b: Grid) {
    && (solved ==> IsFirstSolution(b0, b))
    && (!solved ==> b == b0 && NoSolution(b0))
  }

  /** Two solutions that agree on the originally empty cells are equal. */
  lemma SameDigitsSameSolution(b0: Grid, s: Grid, t: Grid)
    requires IsSolution(b0, s) && IsSolution(b0, t)
    requires Digits(s, EmptyCells(b0)) == Digits(t, EmptyCells(b0))
    ensures s == t
  {
    var e := EmptyCells(b0);
    forall i, j | 0 <= i < 9 && 0 <= j < 9
      ensures s[i][j] == t[i][j]
    {
      if b0[i][j] == 0 {
        ZeroCellListed(b0, i, j);
        var m :| 0 <= m < |e| && e[m] == Cell(i, j);
        assert Digits(s, e)[m] == Digits(t, e)[m];
      }
    }
    BoardExt(s, t);
  }

  /** There is at most one first solution, so every solver that reaches the
      outcome above computes the same board. */
  lemma FirstSolutionUnique(b0: Grid, s: Grid, t: Grid)
    requires IsFirstSolution(b0, s) && IsFirstSolution(b0, t)
    ensures s == t
  {
    var e := EmptyCells(b0);
    LexLeAntisymmetric(Digits(s, e), Digits(t, e));
    SameDigitsSameSolution(b0, s, t);
  }

  lemma {:induction false} OutcomeDeterministic(b0: Grid, ok1: bool, b1: Grid, ok2: bool, b2: Grid)
    requires SolverOutcome(b0, ok1, b1) && SolverOutcome(b0, ok2, b2)
    ensures ok1 == ok2 && b1 == b2
  {
    if ok1 {
      assert IsSolution(b0, b1);
    }
    if ok2 {
      assert IsSolution(b0, b2);
    }
    if ok1 && ok2 {
      FirstSolutionUnique(b0, b1, b2);
    }
  }

  /** A board with no empty cell is its own (and only) solution, whatever its
      givens are. */
  lemma FullBoardIsFirstSolution(b: Grid)
    requires IsBoard(b) && forall i, j :: 0 <= i < 9 && 0 <= j < 9 ==> b[i][j] != 0
    ensures EmptyCells(b) == [] && IsFirstSolution(b, b)
  {
    var e := EmptyCells(b);
    EmptyCellsOfFullBoard(b);
    assert forall t :: IsSolution(b, t) ==> LexLe(Digits(b, e), Digits(t, e));
  }

  /** In a solution, the entry of a cell that is empty in `b` is free on `b`:
      every cell of `b` it sees is either a given that the solution keeps, or
      empty. */
  lemma SolutionEntryIsFree(b: Grid, t: Grid, p: Cell)
    requires IsSolution(b, t) && InRange(p) && At(b, p) == 0
    ensures Free(b, At(t, p), p)
  {
    assert ClashFree(t, Cell(p.row, p.col));
    forall i, j | 0 <= i < 9 && 0 <= j < 9 && Sees(p, i, j)
      ensures b[i][j] != At(t, p)
    {
      if b[i][j] != 0 {
        assert t[i][j] == b[i][j];
      }
    }
  }

  /** Solutions of the board with one more placement are solutions of the
      board without it, provided the placed digit was valid. */
  lemma PlacedSolutionSolves(b: Grid, p: Cell, n: int, t: Grid)
    requires IsBoard(b) && InRange(p) && At(b, p) == 0 && 1 <= n <= 9
    requires IsValid(b, n, p)
    requires IsSolution(Put(b, p, n), t)
    ensures IsSolution(b, t) && At(t, p) == n
  {
    var c := Put(b, p, n);
    IsValidIffFree(b, n, p);
    forall i, j | 0 <= i < 9 && 0 <= j < 9 && b[i][j] == 0
      ensures ClashFree(t, Cell(i, j))
    {
      if i == p.row && j == p.col {
        forall i', j' | 0 <= i' < 9 && 0 <= j' < 9 && Sees(p, i', j') && (i' != p.row || j' != p.col)
          ensures t[i'][j'] != t[p.row][p.col]
        {
          if b[i'][j'] != 0 {
            assert t[i'][j'] == c[i'][j'] == b[i'][j'];
          } else {
            assert c[i'][j'] == 0;
            assert ClashFree(t, Cell(i', j'));
            assert Sees(Cell(i', j'), p.row, p.col);
          }
        }
      } else {
        assert c[i][j] == 0;
      }
    }
  }

  /** Conversely, a solution of `b` that has `n` at `p` solves the board with
      `n` placed at `p`. */
  lemma SolutionSolvesPlaced(b: Grid, p: Cell, t: Grid)
    requires IsSolution(b, t) && InRange(p) && At(b, p) == 0
    ensures IsSolution(Put(b, p, At(t, p)), t)
  {
  }

  // ---------------------------------------------------------------------
  // One level of the recursive solvers
  // ---------------------------------------------------------------------

  lemma DigitsCons(x: Grid, p: Cell, ec: seq<Cell>)
    requires IsBoard(x) && InRange(p) && AllInRange(ec)
    ensures AllInRange([p] + ec) && Digits(x, [p] + ec) == [At(x, p)] + Digits(x, ec)
  {
    assert AllInRange([p] + ec) by {
      forall k | 0 <= k < |[p] + ec|
        ensures InRange(([p] + ec)[k])
      {
        if k > 0 {
          assert ([p] + ec)[k] == ec[k - 1];
        }
      }
    }
  }

  /** A digit the rule rejects at an empty cell stands there in no solution. */
  lemma RejectedDigitUnused(b: Grid, p: Cell, n: int)
    requires IsBoard(b) && InRange(p) && At(b, p) == 0 && !IsValid(b, n, p)
    ensures forall t :: IsSolution(b, t) ==> At(t, p) != n
  {
    forall t | IsSolution(b, t)
      ensures At(t, p) != n
    {
      SolutionEntryIsFree(b, t, p);
      IsValidIffFree(b, At(t, p), p);
    }
  }

  /** When the board with `n` placed at `p` has no solution, no solution of
      the board has `n` at `p`. */
  lemma UnsolvablePlacementUnused(b: Grid, p: Cell, n: int)
    requires IsBoard(b) && InRange(p) && At(b, p) == 0 && 1 <= n <= 9
    requires NoSolution(Put(b, p, n))
    ensures forall t :: IsSolution(b, t) ==> At(t, p) != n
  {
    forall t | IsSolution(b, t)
      ensures At(t, p) != n
    {
      SolutionSolvesPlaced(b, p, t);
    }
  }

  /** The recursion step: placing the smallest digit any solution can have at
      the first empty cell, the first solution of the resulting board is the
      first solution of the board. */
  lemma PlacedFirstIsFirst(b: Grid, n: int, s: Grid)
    requires IsBoard(b) && EmptyCells(b) != [] && 1 <= n <= 9
    requires IsValid(b, n, EmptyCells(b)[0])
    requires IsFirstSolution(Put(b, EmptyCells(b)[0], n), s)
    requires forall t :: IsSolution(b, t) ==> At(t, EmptyCells(b)[0]) >= n
    ensures IsFirstSolution(b, s)
  {
    var e := EmptyCells(b);
    var p := e[0];
    var c := Put(b, p, n);
    var ec := EmptyCells(c);
    EmptyCellsFillFirst(b, n);
    assert e == [p] + ec;
    PlacedSolutionSolves(b, p, n, s);
    forall t | IsSolution(b, t)
      ensures LexLe(Digits(s, e), Digits(t, e))
    {
      DigitsCons(s, p, ec);
      DigitsCons(t, p, ec);
      var ds, dt := Digits(s, e), Digits(t, e);
      assert ds[1..] == Digits(s, ec) && dt[1..] == Digits(t, ec);
      if At(t, p) == n {
        SolutionSolvesPlaced(b, p, t);
      }
    }
  }

  /** A first solution found after placing the smallest digit any solution
      can have at the first empty cell is the first solution of the board. */
  lemma FillSolved(b: Grid, p: Cell, n: int, s: Grid)
    requires IsBoard(b) && InRange(p) && At(b, p) == 0 && FilledBefore(b, Index(p)) && 1 <= n <= 9
    requires IsValid(b, n, p) && IsFirstSolution(Put(b, p, n), s)
    requires forall t :: IsSolution(b, t) ==> At(t, p) >= n
    ensures IsFirstSolution(b, s)
  {
    FirstZeroIsHead(b, p);
    PlacedFirstIsFirst(b, n, s);
  }

  // ---------------------------------------------------------------------
  // The shape of a valid Sudoku
  // ---------------------------------------------------------------------

  function RowSet(s: Grid, r: int): set<int>
    requires IsBoard(s) && 0 <= r < 9
  {
    set j | 0 <= j < 9 :: s[r][j]
  }

  function ColumnSet(s: Grid, c: int): set<int>
    requires IsBoard(s) && 0 <= c < 9
  {
    set i | 0 <= i < 9 :: s[i][c]
  }

  /** The entries of block (br, bc), read row by row. */
  function BlockEntries(s: Grid, br: int, bc: int): (r: seq<int>)
    requires IsBoard(s) && 0 <= br < 3 && 0 <= bc < 3
    ensures |r| == 9 && forall k :: 0 <= k < 9 ==> r[k] == s[3 * br + k / 3][3 * bc + k % 3]
  {
    seq(9, k requires 0 <= k < 9 => s[3 * br + k / 3][3 * bc + k % 3])
  }

  function BlockSet(s: Grid, br: int, bc: int): set<int>
    requires IsBoard(s) && 0 <= br < 3 && 0 <= bc < 3
  {
    var q := BlockEntries(s, br, bc);
    set k | 0 <= k < 9 :: q[k]
  }

  function AllDigits(): set<int> {
    {1, 2, 3, 4, 5, 6, 7, 8, 9}
  }

  /** A completed Sudoku: every row, column and block holds the digits 1..9. */
  ghost predicate IsValidSudoku(s: Grid) {
    && IsBoard(s)
    && (forall r :: 0 <= r < 9 ==> RowSet(s, r) == AllDigits())
    && (forall c :: 0 <= c < 9 ==> ColumnSet(s, c) == AllDigits())
    && (forall br, bc :: 0 <= br < 3 && 0 <= bc < 3 ==> BlockSet(s, br, bc) == AllDigits())
  }

  /** Nine pairwise different digits from 1..9 are all of them. */
  lemma NineDistinctDigits(q: seq<int>)
    requires |q| == 9 && forall k :: 0 <= k < 9 ==> 1 <= q[k] <= 9
    requires forall k, k' :: 0 <= k < k' < 9 ==> q[k] != q[k']
    ensures (set k | 0 <= k < 9 :: q[k]) == AllDigits()
  {
    var img := set k | 0 <= k < 9 :: q[k];
    assert img <= AllDigits();
    ImageSize(q, 9);
    AllDigitsSize();
    var missing := AllDigits() - img;
    assert AllDigits() == img + missing;
  }

  /** The display's size, element by element. */
  lemma AllDigitsSize()
    ensures |AllDigits()| == 9
  {
    assert |{1, 2}| == 2;
    assert |{1, 2, 3}| == 3;
    assert |{1, 2, 3, 4}| == 4;
    assert |{1, 2, 3, 4, 5}| == 5;
    assert |{1, 2, 3, 4, 5, 6}| == 6;
    assert |{1, 2, 3, 4, 5, 6, 7}| == 7;
    assert |{1, 2, 3, 4, 5, 6, 7, 8}| == 8;
  }

  lemma {:induction false} ImageSize(q: seq<int>, n: nat)
    requires n <= |q|
    requires forall k, k' :: 0 <= k < k' < n ==> q[k] != q[k']
    ensures |set k | 0 <= k < n :: q[k]| == n
    decreases n
  {
    if n > 0 {
      ImageSize(q, n - 1);
      var smaller := set k | 0 <= k < n - 1 :: q[k];
      assert (set k | 0 <= k < n :: q[k]) == smaller + {q[n - 1]};
      assert q[n - 1] !in smaller;
    }
  }

  /** When the givens do not clash among themselves, no cell of a solution
      has a clash. */
  lemma SolutionAllClashFree(b0: Grid, s: Grid, i: int, j: int)
    requires IsSolution(b0, s) && 0 <= i < 9 && 0 <= j < 9
    requires forall i, j :: 0 <= i < 9 && 0 <= j < 9 && b0[i][j] != 0 ==> ClashFree(b0, Cell(i, j))
    ensures ClashFree(s, Cell(i, j))
  {
    if b0[i][j] != 0 {
      assert ClashFree(b0, Cell(i, j));
      forall i', j' | 0 <= i' < 9 && 0 <= j' < 9 && Sees(Cell(i, j), i', j') && (i' != i || j' != j)
        ensures s[i'][j'] != s[i][j]
      {
        if b0[i'][j'] == 0 {
          assert ClashFree(s, Cell(i', j'));
          assert Sees(Cell(i', j'), i, j);
        }
      }
    } else {
      assert ClashFree(s, Cell(i, j));
    }
  }

  lemma RowsComplete(s: Grid, r: int)
    requires IsBoard(s) && 0 <= r < 9
    requires forall i, j :: 0 <= i < 9 && 0 <= j < 9 ==> s[i][j] != 0 && ClashFree(s, Cell(i, j))
    ensures RowSet(s, r) == AllDigits()
  {
    forall k, k' | 0 <= k < k' < 9
      ensures s[r][k] != s[r][k']
    {
      assert ClashFree(s, Cell(r, k));
      assert Sees(Cell(r, k), r, k');
    }
    NineDistinctDigits(s[r]);
  }

  lemma ColumnsComplete(s: Grid, c: int)
    requires IsBoard(s) && 0 <= c < 9
    requires forall i, j :: 0 <= i < 9 && 0 <= j < 9 ==> s[i][j] != 0 && ClashFree(s, Cell(i, j))
    ensures ColumnSet(s, c) == AllDigits()
  {
    var q := Column(s, c);
    forall k, k' | 0 <= k < k' < 9
      ensures q[k] != q[k']
    {
      assert ClashFree(s, Cell(k, c));
      assert Sees(Cell(k, c), k', c);
    }
    NineDistinctDigits(q);
    assert ColumnSet(s, c) == set k | 0 <= k < 9 :: q[k];
  }

  /** The k-th cell of block (br, bc), read row by row, lies inside that block,
      and different k give different cells. */
  lemma BlockCell(br: int, bc: int, k: int, k': int)
    requires 0 <= br < 3 && 0 <= bc < 3 && 0 <= k < 9 && 0 <= k' < 9
    ensures 0 <= 3 * br + k / 3 < 9 && 0 <= 3 * bc + k % 3 < 9
    ensures (3 * br + k / 3) / 3 == br && (3 * bc + k % 3) / 3 == bc
    ensures k != k' ==> k / 3 != k' / 3 || k % 3 != k' % 3
  {
  }

  lemma BlockPairDistinct(s: Grid, br: int, bc: int, k: int, k': int)
    requires IsBoard(s) && 0 <= br < 3 && 0 <= bc < 3 && 0 <= k < k' < 9
    requires ClashFree(s, Cell(3 * br + k / 3, 3 * bc + k % 3))
    ensures s[3 * br + k / 3][3 * bc + k % 3] != s[3 * br + k' / 3][3 * bc + k' % 3]
  {
    BlockCell(br, bc, k, k');
    BlockCell(br, bc, k', k);
    assert Sees(Cell(3 * br + k / 3, 3 * bc + k % 3), 3 * br + k' / 3, 3 * bc + k' % 3);
  }

  lemma BlocksComplete(s: Grid, br: int, bc: int)
    requires IsBoard(s) && 0 <= br < 3 && 0 <= bc < 3
    requires forall i, j :: 0 <= i < 9 && 0 <= j < 9 ==> s[i][j] != 0 && ClashFree(s, Cell(i, j))
    ensures BlockSet(s, br, bc) == AllDigits()
  {
    var q := BlockEntries(s, br, bc);
    forall k | 0 <= k < 9
      ensures 1 <= q[k] <= 9 && ClashFree(s, Cell(3 * br + k / 3, 3 * bc + k % 3))
    {
      BlockCell(br, bc, k, k);
    }
    forall k, k' | 0 <= k < k' < 9
      ensures q[k] != q[k']
    {
      BlockPairDistinct(s, br, bc, k, k');
    }
    NineDistinctDigits(q);
  }

  /** A solution whose givens do not clash among themselves is a valid Sudoku:
      every row, column and block holds the digits 1..9. */
  lemma SolutionIsValidSudoku(b0: Grid, s: Grid)
    requires IsSolution(b0, s)
    requires forall i, j :: 0 <= i < 9 && 0 <= j < 9 && b0[i][j] != 0 ==> ClashFree(b0, Cell(i, j))
    ensures IsValidSudoku(s)
  {
    forall i, j | 0 <= i < 9 && 0 <= j < 9
      ensures s[i][j] != 0 && ClashFree(s, Cell(i, j))
    {
      SolutionAllClashFree(b0, s, i, j);
    }
    forall r | 0 <= r < 9
      ensures RowSet(s, r) == AllDigits()
    {
      RowsComplete(s, r);
    }
    forall c | 0 <= c < 9
      ensures ColumnSet(s, c) == AllDigits()
    {
      ColumnsComplete(s, c);
    }
    forall br, bc | 0 <= br < 3 && 0 <= bc < 3
      ensures BlockSet(s, br, bc) == AllDigits()
    {
      BlocksComplete(s, br, bc);
    }
  }
}
