/** The cursor loop as the two refactoring scripts write it at module level
    (basics/8_refactoring/matrix.py and basics/6_scripts/refactoring/matrix.py,
    which agree line for line): the rule check is inlined as three `in` tests,
    and the only result is the variable `found` left behind by the last pass
    through the loop. When the board has no empty cell the loop body never
    runs, `found` is never bound, and reading it raises `NameError`. */
module Matrix {
  import opened Wrappers
  import opened Board
  import opened Solutions
  import opened Cursor

  /** The inner `while x <= 9` loop with the three `in` tests: `continue`
      to the next digit on a hit, `break` with `found = True` on the first
      digit that none of the row, column and block holds. */
  method Probe(b: Grid, p: Cell) returns (found: bool, x: int)
    requires IsBoard(b) && InRange(p)
    ensures found ==> At(b, p) < x <= 9 && IsValid(b, x, p)
    ensures forall m :: At(b, p) < m < x ==> !IsValid(b, m, p)
    ensures !found ==> x == 10
  {
    x := At(b, p) + 1;
    found := false;
    while x <= 9
      invariant At(b, p) < x <= 10
      invariant forall m :: At(b, p) < m < x ==> !IsValid(b, m, p)
      decreases 10 - x
    {
      if x in b[p.row] || x in Column(b, p.col) || x in Block(b, p) {
        x := x + 1;
        continue;
      } else {
        found := true;
        break;
      }
    }
  }

  /** One pass of the outer loop body: the digit `Probe` finds is written
      and the cursor moves on, or the cell is cleared and the cursor moves
      back. The pass keeps the cursor invariant, or exhausts the search when
      the cursor falls off the front. */
  method Pass(b0: Grid, e: seq<Cell>, b: Grid, i: int) returns (found: bool, b': Grid, i': int)
    requires IsBoard(b0) && Lists(b0, e) && 0 <= i < |e|
    requires Frame(b0, e, b, i) && NothingMissed(b0, e, b, i)
    ensures i' == if found then i + 1 else i - 1
    ensures i' >= 0 ==> Frame(b0, e, b', i') && NothingMissed(b0, e, b', i')
    ensures i' >= 0 ==> Measure(b', e, i') < Measure(b, e, i)
    ensures i' < 0 ==> b' == b0 && NoSolution(b0)
  {
    var p := e[i];
    var x;
    found, x := Probe(b, p);
    if found {
      Advance(b0, e, b, i, x);
      b' := Put(b, p, x);
      i' := i + 1;
    } else {
      Retreat(b0, e, b, i);
      b' := Put(b, p, 0);
      i' := i - 1;
      if i' < 0 {
        Exhausted(b0, e, b');
      }
    }
  }

  /** The outer loop over a given empty-cell list, leaving it when the
      cursor falls off the front. `found` is `None` while the Python variable
      is unbound. */
  method Loop(b0: Grid, e: seq<Cell>) returns (found: Option<bool>, b: Grid)
    requires IsBoard(b0) && Lists(b0, e)
    ensures found.None? <==> e == []
    ensures found.None? ==> b == b0
    ensures found == Some(true) ==> Frame(b0, e, b, |e|) && NothingMissed(b0, e, b, |e|)
    ensures found == Some(false) ==> b == b0 && NoSolution(b0)
  {
    b := b0;
    found := None;
    var i := 0;
    StartState(b0, e);
    while i < |e|
      invariant 0 <= i && Frame(b0, e, b, i) && NothingMissed(b0, e, b, i)
      invariant found.None? ==> i == 0 && b == b0
      invariant found.Some? ==> e != []
      invariant found == Some(false) ==> i < |e|
      decreases Measure(b, e, i)
    {
      MeasureBounded(b, e, i);
      var ok;
      ok, b, i := Pass(b0, e, b, i);
      found := Some(ok);
      if i < 0 {
        break;
      }
    }
  }

  /** The whole script from the listing of the empty cells to `print(found)`:
      `Err(NameError)` when no cell was empty, otherwise the solver outcome
      with `found` as the success flag. */
  method Script(b0: Grid) returns (found: Result<bool>, b: Grid)
    requires IsBoard(b0)
    ensures found.Err? <==> FilledBefore(b0, 81)
    ensures found.Err? ==> b == b0 && found.error == NameError("name 'found' is not defined")
    ensures found.Ok? ==> SolverOutcome(b0, found.value, b)
  {
    var cells := EmptyCells(b0);
    EmptyCellsLists(b0);
    ListsEmptyIff(b0, cells);
    var last;
    last, b := Loop(b0, cells);
    if last.None? {
      return Err(NameError("name 'found' is not defined")), b;
    }
    if last.value {
      Finished(b0, b);
    }
    found := Ok(last.value);
  }
}
