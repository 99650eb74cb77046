/** The Sudoku board model shared by every solver variant: a 9x9 grid of
    digits where 0 marks an empty cell, the placement rule, and the row-major
    list of empty cells that drives the cursor solvers. */
module Board {
  import opened Wrappers

  type Grid = seq<seq<int>>

  /** A (row, column) position. */
  datatype Cell = Cell(row: int, col: int)

  predicate InRange(p: Cell) {
    0 <= p.row < 9 && 0 <= p.col < 9
  }

  /** A 9x9 grid whose entries are 0 (empty) or a digit 1..9. */
  predicate IsBoard(b: Grid) {
    && |b| == 9
    && (forall i :: 0 <= i < 9 ==> |b[i]| == 9)
    && (forall i, j :: 0 <= i < 9 && 0 <= j < 9 ==> 0 <= b[i][j] <= 9)
  }

  function At(b: Grid, p: Cell): int
    requires IsBoard(b) && InRange(p)
  {
    b[p.row][p.col]
  }

  /** The board after writing `v` into cell `p`. */
  function Put(b: Grid, p: Cell, v: int): (r: Grid)
    requires IsBoard(b) && InRange(p) && 0 <= v <= 9
    ensures IsBoard(r)
    ensures r[p.row][p.col] == v
    ensures forall i, j :: 0 <= i < 9 && 0 <= j < 9 && (i != p.row || j != p.col) ==> r[i][j] == b[i][j]
  {
    b[p.row := b[p.row][p.col := v]]
  }

  /** Two boards with the same entries are the same board. */
  lemma BoardExt(a: Grid, b: Grid)
    requires IsBoard(a) && IsBoard(b)
    requires forall i, j :: 0 <= i < 9 && 0 <= j < 9 ==> a[i][j] == b[i][j]
    ensures a == b
  {
    forall i | 0 <= i < 9
      ensures a[i] == b[i]
    {
      assert forall j :: 0 <= j < 9 ==> a[i][j] == b[i][j];
    }
  }

  // ---------------------------------------------------------------------
  // The placement rule, in the form the numpy solvers write it
  // ---------------------------------------------------------------------

  /** Top-left row (or column) of the 3x3 block containing row (or column) `i`. */
  function BlockStart(i: int): int {
    3 * (i / 3)
  }

  function Column(b: Grid, c: int): (r: seq<int>)
    requires IsBoard(b) && 0 <= c < 9
    ensures |r| == 9 && forall i :: 0 <= i < 9 ==> r[i] == b[i][c]
  {
    seq(9, i requires 0 <= i < 9 => b[i][c])
  }

  /** The nine entries of the block containing `p`, read row by row. */
  function Block(b: Grid, p: Cell): (r: seq<int>)
    requires IsBoard(b) && InRange(p)
    ensures |r| == 9
  {
    seq(9, k requires 0 <= k < 9 => b[BlockStart(p.row) + k / 3][BlockStart(p.col) + k % 3])
  }

  /** Digit `n` may be placed at `p`: it occurs neither in `p`'s row, nor in its
      column, nor in its block. The cell `p` itself is part of all three. */
  function IsValid(b: Grid, n: int, p: Cell): (ok: bool)
    requires IsBoard(b) && InRange(p)
    ensures ok ==> b[p.row][p.col] != n
  {
    n !in b[p.row] && n !in Column(b, p.col) && n !in Block(b, p)
  }

  /** Cell (i, j) lies in the row, the column or the block of `p` (or is `p`). */
  predicate Sees(p: Cell, i: int, j: int) {
    i == p.row || j == p.col || (i / 3 == p.row / 3 && j / 3 == p.col / 3)
  }

  /** No cell that `p` sees holds `n`. */
  predicate Free(b: Grid, n: int, p: Cell)
    requires IsBoard(b) && InRange(p)
  {
    forall i, j :: 0 <= i < 9 && 0 <= j < 9 && Sees(p, i, j) ==> b[i][j] != n
  }

  /** No other cell in the row, column or block of `p` shares `p`'s entry. */
  predicate ClashFree(b: Grid, p: Cell)
    requires IsBoard(b) && InRange(p)
  {
    forall i, j :: 0 <= i < 9 && 0 <= j < 9 && Sees(p, i, j) && (i != p.row || j != p.col) ==> b[i][j] != b[p.row][p.col]
  }

  /** Entry `3 * r + c` of the block is row `r`, column `c` of the block. */
  lemma BlockEntry(b: Grid, p: Cell, r: int, c: int)
    requires IsBoard(b) && InRange(p) && 0 <= r < 3 && 0 <= c < 3
    ensures 0 <= BlockStart(p.row) <= 6 && 0 <= BlockStart(p.col) <= 6
    ensures Block(b, p)[3 * r + c] == b[BlockStart(p.row) + r][BlockStart(p.col) + c]
  {
    var k := 3 * r + c;
    assert k / 3 == r && k % 3 == c;
  }

  lemma BlockIndex(i: int, r: int)
    requires 0 <= i < 9 && 0 <= r < 9
    ensures i / 3 == r / 3 <==> BlockStart(r) <= i < BlockStart(r) + 3
  {
  }

  /** The row/column/block membership test is exactly "no cell that `p` sees
      holds `n`". */
  lemma IsValidIffFree(b: Grid, n: int, p: Cell)
    requires IsBoard(b) && InRange(p)
    ensures IsValid(b, n, p) <==> Free(b, n, p)
  {
    if IsValid(b, n, p) {
      forall i, j | 0 <= i < 9 && 0 <= j < 9 && Sees(p, i, j)
        ensures b[i][j] != n
      {
        if i == p.row {
          assert b[i][j] in b[p.row];
        } else if j == p.col {
          assert b[i][j] == Column(b, p.col)[i];
        } else {
          BlockIndex(i, p.row);
          BlockIndex(j, p.col);
          BlockEntry(b, p, i - BlockStart(p.row), j - BlockStart(p.col));
          assert b[i][j] == Block(b, p)[3 * (i - BlockStart(p.row)) + (j - BlockStart(p.col))];
        }
      }
    }
    if Free(b, n, p) {
      forall j | 0 <= j < 9
        ensures b[p.row][j] != n
      {
        assert Sees(p, p.row, j);
      }
      forall i | 0 <= i < 9
        ensures Column(b, p.col)[i] != n
      {
        assert Sees(p, i, p.col);
      }
      forall k | 0 <= k < 9
        ensures Block(b, p)[k] != n
      {
        var i, j := BlockStart(p.row) + k / 3, BlockStart(p.col) + k % 3;
        BlockIndex(i, p.row);
        BlockIndex(j, p.col);
        assert Sees(p, i, j);
      }
    }
  }

  /** Because the rule scans `p` itself, a digit already standing at `p` is
      never valid there. */
  lemma OwnValueIsInvalid(b: Grid, p: Cell)
    requires IsBoard(b) && InRange(p) && At(b, p) != 0
    ensures !IsValid(b, At(b, p), p)
  {
    assert At(b, p) == b[p.row][p.col];
    assert b[p.row][p.col] in b[p.row];
  }

  /** The solvers resume above the cell's current entry without clearing it
      first. Probing a larger digit on the uncleared board gives the same
      answer as on the cleared board, so the stale entry causes no false
      conflict. */
  lemma NoClearNeeded(b: Grid, n: int, p: Cell)
    requires IsBoard(b) && InRange(p) && At(b, p) < n
    ensures IsValid(b, n, p) <==> IsValid(Put(b, p, 0), n, p)
  {
    var c := Put(b, p, 0);
    IsValidIffFree(b, n, p);
    IsValidIffFree(c, n, p);
    if Free(c, n, p) {
      forall i, j | 0 <= i < 9 && 0 <= j < 9 && Sees(p, i, j)
        ensures b[i][j] != n
      {
        if i == p.row && j == p.col {
        } else {
          assert c[i][j] == b[i][j];
        }
      }
    }
    if Free(b, n, p) {
      assert n != 0;
      forall i, j | 0 <= i < 9 && 0 <= j < 9 && Sees(p, i, j)
        ensures c[i][j] != n
      {
      }
    }
  }

  /** Writing a free digit leaves the written cell clash-free, and keeps every
      other clash-free cell clash-free. */
  lemma PutFreeKeepsClashFree(b: Grid, n: int, p: Cell, q: Cell)
    requires IsBoard(b) && InRange(p) && InRange(q) && 1 <= n <= 9
    requires Free(b, n, p)
    requires q == p || ClashFree(b, q)
    ensures ClashFree(Put(b, p, n), q)
  {
    var c := Put(b, p, n);
    if q != p {
      forall i, j | 0 <= i < 9 && 0 <= j < 9 && Sees(q, i, j) && (i != q.row || j != q.col)
        ensures c[i][j] != c[q.row][q.col]
      {
        if i == p.row && j == p.col {
          assert Sees(p, q.row, q.col);
        }
      }
    }
  }

  /** Clearing a cell never creates a clash at a non-empty cell. */
  lemma ClearKeepsClashFree(b: Grid, p: Cell, q: Cell)
    requires IsBoard(b) && InRange(p) && InRange(q) && q != p
    requires ClashFree(b, q) && At(b, q) != 0
    ensures ClashFree(Put(b, p, 0), q)
  {
  }

  // ---------------------------------------------------------------------
  // Row-major enumeration of cells
  // ---------------------------------------------------------------------

  /** Position of a cell in row-major order. */
  function Index(p: Cell): int {
    9 * p.row + p.col
  }

  function CellAt(k: int): (p: Cell)
    requires 0 <= k < 81
    ensures InRange(p) && Index(p) == k
  {
    Cell(k / 9, k % 9)
  }

  lemma IndexInjective(p: Cell, q: Cell)
    requires InRange(p) && InRange(q) && Index(p) == Index(q)
    ensures p == q
  {
  }

  /** Every cell, in row-major order: `for i in range(9) for j in range(9)`. */
  function AllCells(): seq<Cell> {
    seq(81, k requires 0 <= k < 81 => CellAt(k))
  }

  lemma AllCellsAt()
    ensures |AllCells()| == 81 && forall k :: 0 <= k < 81 ==> AllCells()[k] == CellAt(k)
  {
  }

  lemma AllCellAt(i: int, j: int)
    requires 0 <= i < 9 && 0 <= j < 9
    ensures AllInRange(AllCells()) && 9 * i + j < |AllCells()| && AllCells()[9 * i + j] == Cell(i, j)
  {
    AllCellsAt();
  }

  /** Strictly increasing row-major order. */
  predicate IndexSorted(cs: seq<Cell>) {
    forall k, k' :: 0 <= k < k' < |cs| ==> Index(cs[k]) < Index(cs[k'])
  }

  lemma AllCellsSorted()
    ensures AllInRange(AllCells()) && IndexSorted(AllCells())
  {
    AllCellsAt();
  }

  predicate AllInRange(cs: seq<Cell>) {
    forall k :: 0 <= k < |cs| ==> InRange(cs[k])
  }

  /** The cells of `cs` that hold 0 on `b`, in the order of `cs`. */
  function ZeroCells(b: Grid, cs: seq<Cell>): (r: seq<Cell>)
    requires IsBoard(b) && AllInRange(cs)
    ensures |r| <= |cs|
    ensures forall m :: 0 <= m < |r| ==> InRange(r[m]) && At(b, r[m]) == 0
    decreases |cs|
  {
    if cs == [] then []
    else (if At(b, cs[0]) == 0 then [cs[0]] else []) + ZeroCells(b, cs[1..])
  }

  /** Filtering keeps every listed cell that holds 0. */
  lemma {:induction false} ZeroCellsComplete(b: Grid, cs: seq<Cell>, k: int)
    requires IsBoard(b) && AllInRange(cs) && 0 <= k < |cs| && At(b, cs[k]) == 0
    ensures exists m :: 0 <= m < |ZeroCells(b, cs)| && ZeroCells(b, cs)[m] == cs[k]
    decreases |cs|
  {
    var r := ZeroCells(b, cs);
    if k == 0 {
      assert r[0] == cs[0];
    } else {
      assert cs[1..][k - 1] == cs[k];
      ZeroCellsComplete(b, cs[1..], k - 1);
      var rest := ZeroCells(b, cs[1..]);
      var m :| 0 <= m < |rest| && rest[m] == cs[k];
      var shift := if At(b, cs[0]) == 0 then 1 else 0;
      assert r[m + shift] == rest[m];
    }
  }

  /** Filtering keeps only cells of `cs`, so a bound on their indices carries over. */
  lemma {:induction false} ZeroCellsAbove(b: Grid, cs: seq<Cell>, x: int, m: int)
    requires IsBoard(b) && AllInRange(cs) && 0 <= m < |ZeroCells(b, cs)|
    requires forall k :: 0 <= k < |cs| ==> x < Index(cs[k])
    ensures x < Index(ZeroCells(b, cs)[m])
    decreases |cs|
  {
    var rest := ZeroCells(b, cs[1..]);
    if At(b, cs[0]) == 0 && m == 0 {
    } else {
      var m' := if At(b, cs[0]) == 0 then m - 1 else m;
      assert ZeroCells(b, cs)[m] == rest[m'];
      ZeroCellsAbove(b, cs[1..], x, m');
    }
  }

  /** Filtering a list in strictly increasing row-major order keeps that order. */
  lemma {:induction false} ZeroCellsSorted(b: Grid, cs: seq<Cell>, m: int, m': int)
    requires IsBoard(b) && AllInRange(cs) && 0 <= m < m' < |ZeroCells(b, cs)|
    requires IndexSorted(cs)
    ensures Index(ZeroCells(b, cs)[m]) < Index(ZeroCells(b, cs)[m'])
    decreases |cs|
  {
    var r, rest := ZeroCells(b, cs), ZeroCells(b, cs[1..]);
    if At(b, cs[0]) == 0 {
      assert r[m'] == rest[m' - 1];
      if m == 0 {
        ZeroCellsAbove(b, cs[1..], Index(cs[0]), m' - 1);
      } else {
        assert r[m] == rest[m - 1];
        ZeroCellsSorted(b, cs[1..], m - 1, m' - 1);
      }
    } else {
      assert r[m] == rest[m] && r[m'] == rest[m'];
      ZeroCellsSorted(b, cs[1..], m, m');
    }
  }

  /** With no listed cell holding 0, nothing is kept. */
  lemma {:induction false} ZeroCellsNone(b: Grid, cs: seq<Cell>)
    requires IsBoard(b) && AllInRange(cs)
    requires forall k :: 0 <= k < |cs| ==> At(b, cs[k]) != 0
    ensures ZeroCells(b, cs) == []
    decreases |cs|
  {
    if cs != [] {
      ZeroCellsNone(b, cs[1..]);
    }
  }

  /** The list of empty cells computed once at solve start: the cells holding
      0, in row-major order (the list comprehension over i, then j). */
  function EmptyCells(b: Grid): (r: seq<Cell>)
    requires IsBoard(b)
    ensures forall m :: 0 <= m < |r| ==> InRange(r[m]) && At(b, r[m]) == 0
  {
    ZeroCells(b, AllCells())
  }

  /** The empty-cell list is in strictly increasing row-major order. */
  lemma EmptyCellsSorted(b: Grid, m: int, m': int)
    requires IsBoard(b) && 0 <= m < m' < |EmptyCells(b)|
    ensures Index(EmptyCells(b)[m]) < Index(EmptyCells(b)[m'])
  {
    AllCellsSorted();
    ZeroCellsSorted(b, AllCells(), m, m');
  }

  /** A board without a 0 has an empty list. */
  lemma EmptyCellsOfFullBoard(b: Grid)
    requires IsBoard(b) && forall i, j :: 0 <= i < 9 && 0 <= j < 9 ==> b[i][j] != 0
    ensures EmptyCells(b) == []
  {
    ZeroCellsNone(b, AllCells());
  }

  /** `e` lists exactly the empty cells of `b`, in strictly increasing
      row-major order. */
  predicate Lists(b: Grid, e: seq<Cell>)
    requires IsBoard(b)
  {
    && AllInRange(e)
    && (forall k :: 0 <= k < |e| ==> At(b, e[k]) == 0)
    && IndexSorted(e)
    && (forall i, j :: 0 <= i < 9 && 0 <= j < 9 && b[i][j] == 0 ==> Cell(i, j) in e)
  }

  /** A list in strictly increasing row-major order holds no cell twice. */
  lemma SortedDistinct(e: seq<Cell>, m: int, m': int)
    requires IndexSorted(e) && 0 <= m < |e| && 0 <= m' < |e| && m != m'
    ensures e[m] != e[m']
  {
    if m < m' {
      assert Index(e[m]) < Index(e[m']);
    } else {
      assert Index(e[m']) < Index(e[m]);
    }
  }

  /** The empty-cell list holds no cell twice. */
  lemma EmptyCellsDistinct(b: Grid, m: int, m': int)
    requires IsBoard(b) && 0 <= m < |EmptyCells(b)| && 0 <= m' < |EmptyCells(b)| && m != m'
    ensures EmptyCells(b)[m] != EmptyCells(b)[m']
  {
    if m < m' {
      EmptyCellsSorted(b, m, m');
    } else {
      EmptyCellsSorted(b, m', m);
    }
  }

  /** Every cell either is a given (non-zero) or appears in the empty-cell list. */
  lemma ZeroCellListed(b: Grid, i: int, j: int)
    requires IsBoard(b) && 0 <= i < 9 && 0 <= j < 9 && b[i][j] == 0
    ensures exists m :: 0 <= m < |EmptyCells(b)| && EmptyCells(b)[m] == Cell(i, j)
  {
    var k := 9 * i + j;
    AllCellAt(i, j);
    ZeroCellsComplete(b, AllCells(), k);
    var r := ZeroCells(b, AllCells());
    var m :| 0 <= m < |r| && r[m] == AllCells()[k];
    assert EmptyCells(b)[m] == Cell(i, j);
  }

  /** The empty-cell list lists exactly the empty cells, in row-major order. */
  lemma EmptyCellsLists(b: Grid)
    requires IsBoard(b)
    ensures Lists(b, EmptyCells(b))
  {
    var e := EmptyCells(b);
    forall m, m' | 0 <= m < m' < |e|
      ensures Index(e[m]) < Index(e[m'])
    {
      EmptyCellsSorted(b, m, m');
    }
    forall i, j | 0 <= i < 9 && 0 <= j < 9 && b[i][j] == 0
      ensures Cell(i, j) in e
    {
      ZeroCellListed(b, i, j);
    }
  }

  /** Filtering depends only on the entries at the listed cells. */
  lemma {:induction false} ZeroCellsAgree(b: Grid, c: Grid, cs: seq<Cell>)
    requires IsBoard(b) && IsBoard(c) && AllInRange(cs)
    requires forall k :: 0 <= k < |cs| ==> At(b, cs[k]) == At(c, cs[k])
    ensures ZeroCells(b, cs) == ZeroCells(c, cs)
    decreases |cs|
  {
    if cs != [] {
      ZeroCellsAgree(b, c, cs[1..]);
    }
  }

  /** Filling the first listed empty cell removes exactly that cell from the
      front of the list. */
  lemma {:induction false} ZeroCellsFillHead(b: Grid, cs: seq<Cell>, v: int)
    requires IsBoard(b) && AllInRange(cs) && IndexSorted(cs) && ZeroCells(b, cs) != [] && 1 <= v <= 9
    ensures var p := ZeroCells(b, cs)[0];
      ZeroCells(b, cs) == [p] + ZeroCells(Put(b, p, v), cs)
    decreases |cs|
  {
    var p := ZeroCells(b, cs)[0];
    var c := Put(b, p, v);
    if At(b, cs[0]) == 0 {
      forall k | 0 <= k < |cs[1..]|
        ensures At(b, cs[1..][k]) == At(c, cs[1..][k])
      {
        assert Index(cs[0]) < Index(cs[k + 1]);
      }
      ZeroCellsAgree(b, c, cs[1..]);
    } else {
      assert ZeroCells(b, cs) == ZeroCells(b, cs[1..]);
      ZeroCellsFillHead(b, cs[1..], v);
    }
  }

  /** Filling the first empty cell of the board with a digit shortens the
      empty-cell list by exactly that cell. */
  lemma EmptyCellsFillFirst(b: Grid, v: int)
    requires IsBoard(b) && EmptyCells(b) != [] && 1 <= v <= 9
    ensures var p := EmptyCells(b)[0];
      EmptyCells(b) == [p] + EmptyCells(Put(b, p, v))
  {
    AllCellsSorted();
    ZeroCellsFillHead(b, AllCells(), v);
  }

  // ---------------------------------------------------------------------
  // The first empty cell, and the set of empty cells
  // ---------------------------------------------------------------------

  /** Every cell before `k` in row-major order holds a digit. */
  predicate FilledBefore(b: Grid, k: int)
    requires IsBoard(b)
  {
    forall i, j :: 0 <= i < 9 && 0 <= j < 9 && 9 * i + j < k ==> b[i][j] != 0
  }

  /** A zero cell with no zero before it heads any row-major list of the
      empty cells. */
  lemma FirstZeroHeads(b: Grid, e: seq<Cell>, p: Cell)
    requires IsBoard(b) && Lists(b, e) && InRange(p) && At(b, p) == 0 && FilledBefore(b, Index(p))
    ensures e != [] && e[0] == p
  {
    assert Cell(p.row, p.col) in e;
    var m :| 0 <= m < |e| && e[m] == p;
    assert Index(e[0]) >= Index(p);
    assert m == 0;
  }

  /** A zero cell with no zero before it heads the empty-cell list. */
  lemma FirstZeroIsHead(b: Grid, p: Cell)
    requires IsBoard(b) && InRange(p) && At(b, p) == 0 && FilledBefore(b, Index(p))
    ensures EmptyCells(b) != [] && EmptyCells(b)[0] == p
  {
    EmptyCellsLists(b);
    FirstZeroHeads(b, EmptyCells(b), p);
  }

  /** The empty cells of the board, the measure of the recursion. */
  function ZeroSet(b: Grid): set<Cell>
    requires IsBoard(b)
  {
    set i, j | 0 <= i < 9 && 0 <= j < 9 && b[i][j] == 0 :: Cell(i, j)
  }

  /** Filling an empty cell leaves strictly fewer empty cells. */
  lemma FillShrinks(b: Grid, p: Cell, n: int)
    requires IsBoard(b) && InRange(p) && At(b, p) == 0 && 1 <= n <= 9
    ensures ZeroSet(Put(b, p, n)) < ZeroSet(b)
  {
    assert p in ZeroSet(b);
  }

  /** A row-major list of the empty cells is empty exactly when the board
      holds no 0. */
  lemma ListsEmptyIff(b: Grid, e: seq<Cell>)
    requires IsBoard(b) && Lists(b, e)
    ensures e == [] <==> FilledBefore(b, 81)
  {
    if e != [] {
      assert b[e[0].row][e[0].col] == 0;
    } else {
      assert forall i, j :: 0 <= i < 9 && 0 <= j < 9 ==> Cell(i, j) !in e;
    }
  }
}
