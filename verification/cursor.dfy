/** The iterative backtracking solver shared by sudoku_solver.py (both
    copies), sudoku.py and the two matrix.py scripts. The empty cells are
    listed once in row-major order; a cursor walks that list. At the cursor
    the digits above the cell's current entry are tried in ascending order
    without clearing the cell first; the first valid one is written and the
    cursor advances, otherwise the cell is reset to 0 and the cursor steps
    back. */
module Cursor {
  import opened Board
  import opened Lex
  import opened Solutions

  // ---------------------------------------------------------------------
  // The candidate scan
  // ---------------------------------------------------------------------

  /** The scan `number = board[row][col] + 1; while number <= 9: ...`: the
      smallest digit above the current entry of `p` that the rule accepts,
      or `found == false` when there is none. */
  method NextCandidate(b: Grid, p: Cell) returns (found: bool, n: int)
    requires IsBoard(b) && InRange(p)
    ensures found ==> At(b, p) < n <= 9 && IsValid(b, n, p)
    ensures found ==> forall m :: At(b, p) < m < n ==> !IsValid(b, m, p)
    ensures !found ==> forall m :: At(b, p) < m <= 9 ==> !IsValid(b, m, p)
  {
    n := At(b, p) + 1;
    while n <= 9
      invariant At(b, p) < n <= 10
      invariant forall m :: At(b, p) < m < n ==> !IsValid(b, m, p)
      decreases 10 - n
    {
      if IsValid(b, n, p) {
        return true, n;
      }
      n := n + 1;
    }
    return false, n;
  }

  // ---------------------------------------------------------------------
  // The loop invariant
  // ---------------------------------------------------------------------

  /** The givens of `b0` stand unchanged in `b`. */
  predicate KeepsGivens(b0: Grid, b: Grid)
    requires IsBoard(b0) && IsBoard(b)
  {
    forall i, j :: 0 <= i < 9 && 0 <= j < 9 && b0[i][j] != 0 ==> b[i][j] == b0[i][j]
  }

  /** The shape of the board with the cursor at `idx` (-1 once it has stepped
      back past the first empty cell): the givens are untouched, the listed
      cells before the cursor are filled and clash with nothing, and the
      listed cells after the cursor are empty. */
  predicate Frame(b0: Grid, e: seq<Cell>, b: Grid, idx: int)
    requires IsBoard(b0) && AllInRange(e)
  {
    && IsBoard(b)
    && -1 <= idx <= |e|
    && KeepsGivens(b0, b)
    && (forall k :: 0 <= k < idx ==> At(b, e[k]) != 0 && ClashFree(b, e[k]))
    && (forall k :: idx < k < |e| ==> At(b, e[k]) == 0)
  }

  /** No solution has been passed over. While the cursor is inside the list,
      every solution's digits on the first `idx + 1` listed cells come strictly
      after the current ones (the cursor cell's current entry has been
      tried); once the cursor is at the end, every solution comes at or after
      the board. With the cursor at -1 this says there is no solution. */
  ghost predicate NothingMissed(b0: Grid, e: seq<Cell>, b: Grid, idx: int)
    requires IsBoard(b0) && AllInRange(e) && Frame(b0, e, b, idx)
  {
    forall t :: IsSolution(b0, t) ==>
      if idx < |e| then !LexLe(Digits(t, e)[..idx + 1], Digits(b, e)[..idx + 1])
      else LexLe(Digits(b, e), Digits(t, e))
  }

  /** The entries of `b` at the cells `e`, with the cells after the cursor
      counted as 10. Every step makes this vector lexicographically larger. */
  function Progress(b: Grid, e: seq<Cell>, idx: int): (r: seq<int>)
    requires IsBoard(b) && AllInRange(e)
    ensures |r| == |e| && Digits11(r)
    ensures forall k :: 0 <= k < |e| ==> r[k] == if k <= idx then At(b, e[k]) else 10
  {
    seq(|e|, k requires 0 <= k < |e| => if k <= idx then At(b, e[k]) else 10)
  }

  /** The termination measure of the cursor loop. */
  function Measure(b: Grid, e: seq<Cell>, idx: int): int
    requires IsBoard(b) && AllInRange(e)
  {
    Pow(11, |e|) - Horner(Progress(b, e, idx))
  }

  lemma MeasureBounded(b: Grid, e: seq<Cell>, idx: int)
    requires IsBoard(b) && AllInRange(e)
    ensures Measure(b, e, idx) > 0
  {
    HornerBounds(Progress(b, e, idx));
  }

  /** Writing into listed cell `e[idx]` changes the listed digits at `idx`
      only. */
  lemma PutDigits(b: Grid, e: seq<Cell>, idx: int, v: int)
    requires IsBoard(b) && AllInRange(e) && IndexSorted(e) && 0 <= idx < |e| && 0 <= v <= 9
    ensures var d, d' := Digits(b, e), Digits(Put(b, e[idx], v), e);
      d'[..idx] == d[..idx] && d'[idx] == v
      && forall k :: 0 <= k < |e| && k != idx ==> d'[k] == d[k]
  {
    forall k | 0 <= k < |e| && k != idx
      ensures e[k] != e[idx]
    {
      SortedDistinct(e, k, idx);
    }
  }

  /** The heart of the search-order argument. A solution that agrees with the
      board before the cursor and has a larger digit at the cursor cell would
      be accepted there by the rule: the board without the cursor entry is
      solved by it, so its digit is free, and the stale entry below it does
      not matter. So the scan, which rejects every digit it passes, skips no
      solution. */
  lemma NoSkip(b0: Grid, e: seq<Cell>, b: Grid, idx: int, t: Grid)
    requires IsBoard(b0) && Lists(b0, e) && IsBoard(b) && 0 <= idx < |e|
    requires KeepsGivens(b0, b) && forall k :: idx < k < |e| ==> At(b, e[k]) == 0
    requires IsSolution(b0, t)
    ensures Digits(t, e)[..idx] == Digits(b, e)[..idx] && At(b, e[idx]) < At(t, e[idx])
      ==> IsValid(b, At(t, e[idx]), e[idx])
  {
    var p := e[idx];
    if Digits(t, e)[..idx] == Digits(b, e)[..idx] && At(b, p) < At(t, p) {
      var c := Put(b, p, 0);
      forall i, j | 0 <= i < 9 && 0 <= j < 9 && c[i][j] != 0
        ensures t[i][j] == c[i][j]
      {
        if b0[i][j] == 0 {
          assert Cell(i, j) in e;
          var m :| 0 <= m < |e| && e[m] == Cell(i, j);
          assert m < idx || m > idx;
          assert m < idx;
          assert Digits(t, e)[..idx][m] == Digits(b, e)[..idx][m];
        }
      }
      assert IsSolution(c, t);
      SolutionEntryIsFree(c, t, p);
      IsValidIffFree(c, At(t, p), p);
      NoClearNeeded(b, At(t, p), p);
    }
  }

  lemma {:induction false} StartState(b0: Grid, e: seq<Cell>)
    requires IsBoard(b0) && Lists(b0, e)
    ensures Frame(b0, e, b0, 0) && NothingMissed(b0, e, b0, 0)
  {
    forall t | IsSolution(b0, t)
      ensures if 0 < |e| then !LexLe(Digits(t, e)[..1], Digits(b0, e)[..1])
              else LexLe(Digits(b0, e), Digits(t, e))
    {
      if 0 < |e| {
        assert At(t, e[0]) != 0;
      } else {
        assert Digits(b0, e) == [] && Digits(t, e) == [];
      }
    }
  }

  /** The advance step keeps the frame: the written digit was free, so no
      clash appears. */
  lemma AdvanceFrame(b0: Grid, e: seq<Cell>, b: Grid, idx: int, n: int)
    requires IsBoard(b0) && Lists(b0, e) && Frame(b0, e, b, idx) && 0 <= idx < |e|
    requires 1 <= n <= 9 && IsValid(b, n, e[idx])
    ensures Frame(b0, e, Put(b, e[idx], n), idx + 1)
  {
    var p := e[idx];
    var b' := Put(b, p, n);
    IsValidIffFree(b, n, p);
    forall k | 0 <= k < idx + 1
      ensures At(b', e[k]) != 0 && ClashFree(b', e[k])
    {
      if k < idx {
        SortedDistinct(e, k, idx);
      }
      PutFreeKeepsClashFree(b, n, p, e[k]);
    }
    forall k | idx + 1 < k < |e|
      ensures At(b', e[k]) == 0
    {
      SortedDistinct(e, k, idx);
    }
  }

  /** The advance step passes over no solution. */
  lemma {:induction false} AdvanceOrder(b0: Grid, e: seq<Cell>, b: Grid, idx: int, n: int)
    requires IsBoard(b0) && Lists(b0, e) && Frame(b0, e, b, idx) && 0 <= idx < |e|
    requires NothingMissed(b0, e, b, idx)
    requires At(b, e[idx]) < n <= 9
    requires forall m :: At(b, e[idx]) < m < n ==> !IsValid(b, m, e[idx])
    requires Frame(b0, e, Put(b, e[idx], n), idx + 1)
    ensures NothingMissed(b0, e, Put(b, e[idx], n), idx + 1)
  {
    var p := e[idx];
    var b' := Put(b, p, n);
    var d, d' := Digits(b, e), Digits(b', e);
    PutDigits(b, e, idx, n);
    assert d'[..idx + 1] == d[..idx] + [n];
    assert d[..idx + 1] == d[..idx] + [At(b, p)];
    forall t | IsSolution(b0, t)
      ensures if idx + 1 < |e| then !LexLe(Digits(t, e)[..idx + 2], d'[..idx + 2])
              else LexLe(d', Digits(t, e))
    {
      AdvanceOrderFor(b0, e, b, idx, n, t);
    }
  }

  lemma AdvanceOrderFor(b0: Grid, e: seq<Cell>, b: Grid, idx: int, n: int, t: Grid)
    requires IsBoard(b0) && Lists(b0, e) && IsBoard(b) && 0 <= idx < |e|
    requires KeepsGivens(b0, b) && forall k :: idx < k < |e| ==> At(b, e[k]) == 0
    requires IsSolution(b0, t)
    requires !LexLe(Digits(t, e)[..idx + 1], Digits(b, e)[..idx + 1])
    requires At(b, e[idx]) < n <= 9
    requires forall m :: At(b, e[idx]) < m < n ==> !IsValid(b, m, e[idx])
    ensures var d' := Digits(Put(b, e[idx], n), e);
      if idx + 1 < |e| then !LexLe(Digits(t, e)[..idx + 2], d'[..idx + 2])
      else LexLe(d', Digits(t, e))
  {
    var d', dt := Digits(Put(b, e[idx], n), e), Digits(t, e);
    AdvanceStepFor(b0, e, b, idx, n, t);
    if idx + 1 < |e| {
      PutDigits(b, e, idx, n);
      SortedDistinct(e, idx + 1, idx);
      assert d'[idx + 1] == 0;
      assert dt[idx + 1] >= 1;
      PastStep(dt, d', idx);
    } else {
      PastEnd(dt, d', idx);
    }
  }

  /** The digit vector with `n` written at the cursor is not strictly after
      the solution's on the prefix up to the cursor. */
  lemma AdvanceStepFor(b0: Grid, e: seq<Cell>, b: Grid, idx: int, n: int, t: Grid)
    requires IsBoard(b0) && Lists(b0, e) && IsBoard(b) && 0 <= idx < |e|
    requires KeepsGivens(b0, b) && forall k :: idx < k < |e| ==> At(b, e[k]) == 0
    requires IsSolution(b0, t)
    requires !LexLe(Digits(t, e)[..idx + 1], Digits(b, e)[..idx + 1])
    requires At(b, e[idx]) < n <= 9
    requires forall m :: At(b, e[idx]) < m < n ==> !IsValid(b, m, e[idx])
    ensures var d', dt := Digits(Put(b, e[idx], n), e), Digits(t, e);
      LexLe(dt[..idx + 1], d'[..idx + 1]) ==> dt[..idx + 1] == d'[..idx + 1]
  {
    var p := e[idx];
    var d, d', dt := Digits(b, e), Digits(Put(b, p, n), e), Digits(t, e);
    PutDigits(b, e, idx, n);
    assert d'[..idx + 1] == d[..idx] + [n];
    assert d[..idx + 1] == d[..idx] + [At(b, p)];
    assert dt[..idx + 1] == dt[..idx] + [At(t, p)];
    NoSkip(b0, e, b, idx, t);
    LexStepPast(dt[..idx], d[..idx], At(t, p), At(b, p), n);
  }

  /** Extending the comparison past the cursor: a zero after it in the board's
      vector and a digit in the solution's keep the solution strictly after. */
  lemma PastStep(dt: seq<int>, d: seq<int>, idx: int)
    requires |dt| == |d| && 0 <= idx && idx + 1 < |d|
    requires LexLe(dt[..idx + 1], d[..idx + 1]) ==> dt[..idx + 1] == d[..idx + 1]
    requires d[idx + 1] == 0 && dt[idx + 1] >= 1
    ensures !LexLe(dt[..idx + 2], d[..idx + 2])
  {
    assert dt[..idx + 2] == dt[..idx + 1] + [dt[idx + 1]];
    assert d[..idx + 2] == d[..idx + 1] + [0];
    LexPastZero(dt[..idx + 1], d[..idx + 1], dt[idx + 1]);
  }

  /** At the end of the vector, the solution is at or after the board. */
  lemma PastEnd(dt: seq<int>, d: seq<int>, idx: int)
    requires |dt| == |d| && idx + 1 == |d|
    requires LexLe(dt[..idx + 1], d[..idx + 1]) ==> dt[..idx + 1] == d[..idx + 1]
    ensures LexLe(d, dt)
  {
    assert dt == dt[..idx + 1] && d == d[..idx + 1];
    LexAtLeast(dt, d);
  }

  /** The advance step raises the progress vector at the cursor. */
  lemma AdvanceMeasure(b: Grid, e: seq<Cell>, idx: int, n: int)
    requires IsBoard(b) && AllInRange(e) && IndexSorted(e) && 0 <= idx < |e|
    requires At(b, e[idx]) < n <= 9
    ensures Measure(Put(b, e[idx], n), e, idx + 1) < Measure(b, e, idx)
  {
    var b' := Put(b, e[idx], n);
    PutDigits(b, e, idx, n);
    var pr, pr' := Progress(b, e, idx), Progress(b', e, idx + 1);
    assert pr[..idx] == pr'[..idx];
    HornerMonotone(pr, pr', idx);
  }

  /** The advance step keeps the invariant and raises the progress vector at
      the cursor. */
  lemma Advance(b0: Grid, e: seq<Cell>, b: Grid, idx: int, n: int)
    requires IsBoard(b0) && Lists(b0, e) && Frame(b0, e, b, idx) && 0 <= idx < |e|
    requires NothingMissed(b0, e, b, idx)
    requires At(b, e[idx]) < n <= 9 && IsValid(b, n, e[idx])
    requires forall m :: At(b, e[idx]) < m < n ==> !IsValid(b, m, e[idx])
    ensures var b' := Put(b, e[idx], n);
      && Frame(b0, e, b', idx + 1) && NothingMissed(b0, e, b', idx + 1)
      && Measure(b', e, idx + 1) < Measure(b, e, idx)
  {
    AdvanceFrame(b0, e, b, idx, n);
    AdvanceOrder(b0, e, b, idx, n);
    AdvanceMeasure(b, e, idx, n);
  }

  /** The retreat step keeps the invariant and raises the progress vector at
      the cursor (its entry becomes 10). */
  lemma {:induction false} Retreat(b0: Grid, e: seq<Cell>, b: Grid, idx: int)
    requires IsBoard(b0) && Lists(b0, e) && Frame(b0, e, b, idx) && 0 <= idx < |e|
    requires NothingMissed(b0, e, b, idx)
    requires forall m :: At(b, e[idx]) < m <= 9 ==> !IsValid(b, m, e[idx])
    ensures var b' := Put(b, e[idx], 0);
      && Frame(b0, e, b', idx - 1) && NothingMissed(b0, e, b', idx - 1)
      && Measure(b', e, idx - 1) < Measure(b, e, idx)
  {
    var p := e[idx];
    var b' := Put(b, p, 0);
    var d, d' := Digits(b, e), Digits(b', e);
    PutDigits(b, e, idx, 0);
    forall k | 0 <= k < idx - 1
      ensures At(b', e[k]) != 0 && ClashFree(b', e[k])
    {
      SortedDistinct(e, k, idx);
      ClearKeepsClashFree(b, p, e[k]);
    }
    assert Frame(b0, e, b', idx - 1);
    assert d[..idx + 1] == d[..idx] + [At(b, p)];
    assert d'[..idx] == d[..idx];
    forall t | IsSolution(b0, t)
      ensures !LexLe(Digits(t, e)[..idx], d'[..idx])
    {
      var dt := Digits(t, e);
      var tp := At(t, p);
      assert dt[..idx + 1] == dt[..idx] + [tp];
      assert 1 <= tp <= 9;
      LexLeSnoc(dt[..idx], d[..idx], tp, At(b, p));
      NoSkip(b0, e, b, idx, t);
    }
    var pr, pr' := Progress(b, e, idx), Progress(b', e, idx - 1);
    assert pr[..idx] == pr'[..idx];
    HornerMonotone(pr, pr', idx);
  }

  /** With the cursor past the end, the board is the first solution. */
  lemma {:induction false} Finished(b0: Grid, b: Grid)
    requires IsBoard(b0)
    requires Frame(b0, EmptyCells(b0), b, |EmptyCells(b0)|)
    requires NothingMissed(b0, EmptyCells(b0), b, |EmptyCells(b0)|)
    ensures IsFirstSolution(b0, b)
  {
    var e := EmptyCells(b0);
    EmptyCellsLists(b0);
    forall i, j | 0 <= i < 9 && 0 <= j < 9 && b0[i][j] == 0
      ensures b[i][j] != 0 && ClashFree(b, Cell(i, j))
    {
      assert Cell(i, j) in e;
    }
  }

  /** With the cursor before the start, every listed cell is empty again, so
      the board is the input; and no solution exists. */
  lemma {:induction false} Exhausted(b0: Grid, e: seq<Cell>, b: Grid)
    requires IsBoard(b0) && Lists(b0, e) && Frame(b0, e, b, -1) && NothingMissed(b0, e, b, -1)
    ensures b == b0 && NoSolution(b0)
  {
    forall i, j | 0 <= i < 9 && 0 <= j < 9
      ensures b[i][j] == b0[i][j]
    {
      if b0[i][j] == 0 {
        assert Cell(i, j) in e;
      }
    }
    BoardExt(b, b0);
    forall t | IsBoard(t)
      ensures LexLe(Digits(t, e)[..0], Digits(b, e)[..0])
    {
      LexLeReflexive([]);
      assert Digits(t, e)[..0] == [] == Digits(b, e)[..0];
    }
  }

  // ---------------------------------------------------------------------
  // The loop
  // ---------------------------------------------------------------------

  /** The cursor loop over a given empty-cell list. It works on its own copy
      of the board (boards are values here). It reports whether the cursor
      reached the end of the list; on failure the board is the input again
      and no solution exists. */
  method Search(b0: Grid, e: seq<Cell>) returns (solved: bool, b: Grid)
    requires IsBoard(b0) && Lists(b0, e)
    ensures solved ==> Frame(b0, e, b, |e|) && NothingMissed(b0, e, b, |e|)
    ensures !solved ==> b == b0 && NoSolution(b0)
  {
    b := b0;
    var idx := 0;
    StartState(b0, e);
    while idx < |e|
      invariant 0 <= idx && Frame(b0, e, b, idx) && NothingMissed(b0, e, b, idx)
      decreases Measure(b, e, idx)
    {
      MeasureBounded(b, e, idx);
      var p := e[idx];
      var found, n := NextCandidate(b, p);
      if found {
        Advance(b0, e, b, idx, n);
        b := Put(b, p, n);
        idx := idx + 1;
      } else {
        Retreat(b0, e, b, idx);
        b := Put(b, p, 0);
        idx := idx - 1;
        if idx < 0 {
          Exhausted(b0, e, b);
          return false, b;
        }
      }
    }
    return true, b;
  }

  /** The solver: list the empty cells once, in row-major order, then run the
      cursor loop. On success the board is the first solution in row-major,
      ascending order; on failure it is the input again and no solution
      exists. */
  method Backtrack(b0: Grid) returns (solved: bool, b: Grid)
    requires IsBoard(b0)
    ensures SolverOutcome(b0, solved, b)
  {
    var e := EmptyCells(b0);
    EmptyCellsLists(b0);
    solved, b := Search(b0, e);
    if solved {
      Finished(b0, b);
    }
  }
}
