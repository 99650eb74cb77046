# Python course repository: Sudoku solvers, fractions and small algorithms

This project models the executable core of a Python teaching repository and
proves what that code does.

**Sudoku.** A board is a 9x9 grid of integers. 0 marks an empty cell.

The course writes the same backtracking search several times:

- **Cursor solvers.** These walk a list of the empty cells with an index.
  They raise a cell's digit to the next allowed value, or clear it and step
  back. The forms are:
  - `solve_sudoku` in `sudoku_solver.py` and in
    `basics/8_refactoring/sudoku_solver.py`;
  - `solve` in `sudoku.py`;
  - the two top-level `matrix.py` scripts.
- **Recursive solvers.** `solve` in `sudoku_after.py` and `sudoku` in
  `sudoku_before.py`.

All of them share one rule, `is_valid`, written four ways: numpy membership,
set union, early-return loops, and an `ok` flag.

The model proves these properties:

- Every way of writing `is_valid` is the same rule.
- Every solver keeps the givens.
- Every solver terminates.
- Every solver returns the *first* solution in search order, or fails and
  leaves the board unchanged. Search order is the lexicographic order of the
  digits placed in the empty cells, taken in row-major order.
- A failed solve means no solution exists.
- The solvers therefore agree with one another.
- When the givens do not clash, a solution is a valid Sudoku: every row,
  column and block holds exactly the digits 1 to 9.
- `get_sudoku_string` renders a board as 11 lines of 21 characters.
  Reading those lines back gives the board.

**Fractions.**

- `fraction/fraction.py`: a `Fraction` class whose operators simplify with
  `math.gcd`, and which parses `"n/d"`, decimal and integer strings.
- `archive/fraction/live.py`: an earlier class whose operators return
  unsimplified cross products. Its `simplify` uses a local Euclid loop with
  Python's `%`.

**Algorithms and examples.**

- From `basics/6_algorithms/algorithmen.py`:
  - the three `gcd` functions: loop, recursion, and variadic;
  - `quicksort` and `binary_search`.
- From `basics/7_generators/generators.py`:
  - the counting and square generators;
  - hand-written `zip`, `map` and `enumerate`;
  - the endless Fibonacci generator.
- From `Python_und_andere_Sprachen/example.py`: `format_hex_sequence` and
  the two sums.
- From `advanced/decorators/decorators.py`: the timing decorator and the two
  Fibonacci functions.

**How Python is modelled.**

- Integers are unbounded, as in Python.
- `//` and `%` are floor division and floor modulo (module `PyInt`).
- `range`, `functools.reduce` and `int()` are modelled with their error
  cases.
- A mutated board is a value: a solver method returns the final board.
  This also covers `solve_sudoku`'s `copy()`, because the caller's board is
  never changed.
- A generator is modelled as the list of the items a consumer takes from it.
  An endless generator becomes its first `limit` items.

**Behaviour of the code that the model keeps.**

- The cursor solvers never clear a cell before probing larger digits.
  `Board.NoClearNeeded` proves that this is harmless.
- A full board is returned unchanged and reported solved, even if its
  digits clash.
- `live.py`'s `add` simplifies by default (`simplify=True`).

## Model

| member | source | states |
|---|---|---|
| Board.IsValid | sudoku_solver.py:33-43 | a number allowed at a cell is never the cell's own entry, since the row, column and block tests all see the cell itself |
| Board.IsValidIffFree | sudoku_solver.py:23-43 | a number is allowed at a cell exactly when no cell of its row, its column or its 3x3 block, the cell itself included, holds it |
| Board.OwnValueIsInvalid | sudoku_solver.py:36-37 | a filled cell's own digit is always rejected at that cell, because the row check sees the cell itself |
| Board.NoClearNeeded | sudoku_solver.py:64-74 | for every candidate above the cell's current digit, the verdict does not depend on whether the cell is cleared first |
| Board.EmptyCells | sudoku_solver.py:58 | every listed cell is on the board and holds 0 |
| Board.EmptyCellsLists | sudoku_solver.py:58 | the list holds every zero cell, each exactly once |
| Board.EmptyCellsSorted | basics/8_refactoring/sudoku_solver.py:68-69 | the empty cells are listed in row-major order |
| Board.FillShrinks | basics/7_refactoring/sudoku_after.py:24-35 | writing a digit into an empty cell strictly shrinks the set of empty cells, so the recursion ends |
| Solutions.FirstSolutionUnique | sudoku_solver.py:46-82 | at most one board is the first solution in search order |
| Solutions.OutcomeDeterministic | sudoku.py:30-50 | any two results that meet the solver outcome have the same flag and the same board |
| Solutions.FullBoardIsFirstSolution | basics/7_refactoring/test_sudoku.py:55-59 | a board without empty cells has no cells to fill and is its own first solution |
| Solutions.SolutionIsValidSudoku | basics/7_refactoring/test.py:91-130 | a solution of a board whose givens do not clash has the digits 1 to 9 in every row, column and block, and keeps the givens |
| Cursor.NextCandidate | sudoku_solver.py:64-74 | finds the smallest allowed digit above the cell's current value, or reports that no digit up to 9 is allowed |
| Cursor.Advance | sudoku.py:38-43 | writing the smallest allowed candidate and moving on keeps the givens and the placed cells consistent, skips no solution, and lowers the termination measure |
| Cursor.Retreat | sudoku.py:45-47 | clearing a cell that has no allowed candidate left and stepping back keeps the invariant and lowers the measure |
| Cursor.Finished | sudoku.py:50 | when the index passes the last empty cell, the board is the first solution |
| Cursor.Exhausted | sudoku.py:48-49 | when the index drops below 0, the board equals the input again and no solution exists |
| Cursor.Search | sudoku.py:33-49 | the loop terminates; on success the invariant holds past the last cell; on failure the board is the input and no solution exists |
| Cursor.Backtrack | sudoku.py:30-50 | returns True with the first solution, or False with the unchanged board exactly when there is no solution |
| After.FindEmpty | basics/7_refactoring/sudoku_after.py:3-9 | returns the first zero cell in row-major order, and None exactly when no cell is 0 |
| After.CornerIsBlockStart | basics/7_refactoring/sudoku_after.py:16-17 | `row - row % 3` is the first row of the row's block, the same as `3 * (row // 3)` |
| After.IsValidScan | basics/7_refactoring/sudoku_after.py:11-22 | the early-return scan of line and block accepts exactly the digits the rule allows |
| After.Solve | basics/7_refactoring/sudoku_after.py:24-35 | the recursion returns True with the first solution, or False exactly when there is none, with the board unchanged |
| Before.LineClearIsRule | basics/7_refactoring/sudoku_before.py:9-11 | the single `k` loop over row and column finds the digit exactly when it is in the row or in the column |
| Before.LineScan | basics/7_refactoring/sudoku_before.py:8-11 | the flag stays 1 exactly when the digit is in neither the row nor the column |
| Before.BlockScan | basics/7_refactoring/sudoku_before.py:12-16 | after the block loops the flag is the earlier flag combined with the digit being absent from the block |
| Before.OkFlag | basics/7_refactoring/sudoku_before.py:8-17 | the `ok` flag equals the rule |
| Before.Sudoku | basics/7_refactoring/sudoku_before.py:3-22 | the unrefactored recursion has the same outcome as every other solver |
| Matrix.Probe | basics/8_refactoring/matrix.py:36-50 | `x` stops at the smallest allowed digit above the value, or at 10 when none is allowed |
| Matrix.Pass | basics/8_refactoring/matrix.py:35-56 | one pass moves forward after a placement and back otherwise, keeps the invariant and lowers the measure; an index below 0 means the board is the input and has no solution |
| Matrix.Loop | basics/8_refactoring/matrix.py:32-56 | `found` is never bound exactly when there are no empty cells; True means the board is the first solution; False means no solution and the board unchanged |
| Matrix.Script | basics/8_refactoring/matrix.py:32-58 | `print(found)` fails with NameError exactly when the board has no empty cell; otherwise it prints the solver outcome |
| Solvers.SolveSudoku | sudoku_solver.py:46-82 | the result is the first solution; ValueError "No solution found" is raised exactly when no solution exists; a full board comes back unchanged; the result is a valid Sudoku when the givens do not clash |
| Solvers.FullBoardSolvedUnchanged | basics/7_refactoring/test.py:150-167 | every solver reports success on a full board and returns it unchanged |
| Solvers.IsValidSetsIff | basics/8_refactoring/sudoku_solver.py:44-52 | `number not in row_numbers \| col_numbers \| tile_numbers` is the same rule as the three membership checks |
| Solvers.EmptyBoardAcceptsAll | basics/7_refactoring/test.py:32-37 | on the empty board every digit is allowed at every cell |
| Solvers.LoneFive | basics/7_refactoring/test.py:39-68 | with a single 5 at (0, 0), the 5 is refused exactly in row 0, column 0 and the top-left block; every other digit is allowed everywhere |
| Solvers.CompareSolvers | basics/7_refactoring/sudoku_before.py:3-22 | the cursor solver and both recursive solvers return the same flag and the same board |
| SudokuText.GetSudokuString | basics/8_refactoring/sudoku_solver.py:13-14 | ValueError "Input must be a 9x9 array." is raised exactly when the shape is not 9x9 |
| SudokuText.LinesShape | basics/8_refactoring/sudoku_solver.py:16-27 | row `i` becomes line `i + i // 3`, and the separator lines sit at positions 3 and 7 |
| SudokuText.RowLineLayout | basics/8_refactoring/sudoku_solver.py:21-26 | a row line is 21 characters long, shows cell `k` as its digit or `.` at a fixed column, and has " \| " between the blocks |
| SudokuText.LinesWidth | basics/8_refactoring/sudoku_solver.py:16-27 | there are 11 lines, each 21 characters wide |
| SudokuText.NoNewline | basics/8_refactoring/sudoku_solver.py:16-27 | no line contains a newline |
| SudokuText.SplitRendering | basics/8_refactoring/sudoku_solver.py:29 | splitting the result at newlines gives back exactly the lines that were joined |
| SudokuText.ElevenLines | basics/7_refactoring/test.py:5-20 | a 9x9 board renders to 11 lines |
| SudokuText.ReadBackRendering | basics/8_refactoring/sudoku_solver.py:4-29 | the board can be read back from the rendering: 11 lines of width 21 whose cell characters spell the board again |
| Text.ParseInt | fraction/fraction.py:44 | `int(s)` succeeds exactly on an optional sign followed by decimal digits, and its value is the digits' decimal value, negated after a `-` (leading zeros allowed) |
| Text.ParseIntExamples | fraction/fraction.py:44 | "007" is 7, "+5" is 5, "-0" is 0; "-", "" and "1.5" raise ValueError |
| Text.ParseIntToString | fraction/fraction.py:103-104 | `int(str(n)) == n` for every integer |
| Text.SplitJoin | fraction/fraction.py:44 | splitting a joined text at a separator that no part contains gives back the parts |
| Fractions.New | fraction/fraction.py:18-29 | ValueError exactly when the denominator is 0; otherwise the fields are stored unchanged |
| Fractions.Simplify | fraction/fraction.py:54-58 | keeps the value, leaves the fields coprime, keeps the sign of the denominator, and returns an already reduced fraction unchanged |
| Fractions.SimplifyIdempotent | fraction/fraction.py:54-58 | simplifying twice gives the same fraction as simplifying once |
| Fractions.SimplifyCanonical | fraction/fraction.py:54-58 | fractions of equal value whose denominators have the same sign simplify to the same fields |
| Fractions.Equal | fraction/fraction.py:61-68 | fractions that compare equal have the same value and denominators of the same sign |
| Fractions.EqualIff | fraction/fraction.py:61-68 | `==` holds exactly when the values agree and the denominators have the same sign; for positive denominators it is equality of value |
| Fractions.SignMatters | fraction/fraction.py:61-68 | `1/2` and `-1/-2` have the same value but are not `==` |
| Fractions.Add | fraction/fraction.py:71-76 | the result has the sum's value and coprime fields; its denominator is positive exactly when both signs agree |
| Fractions.Sub | fraction/fraction.py:79-84 | the result has the difference's value and coprime fields, with the same sign rule |
| Fractions.Mul | fraction/fraction.py:87-92 | the result has the product's value and coprime fields, with the same sign rule |
| Fractions.Div | fraction/fraction.py:95-100 | ValueError exactly when the divisor's numerator is 0 (the constructor refuses the zero denominator); otherwise the quotient's value, coprime |
| Fractions.Int | fraction/fraction.py:115-116 | `int(f)` is the floor of the value |
| Fractions.UnpackTwoInts | fraction/fraction.py:44 | unpacking succeeds exactly for two integer literals, and gives their values |
| Fractions.FromString | fraction/fraction.py:33-51 | "n/d" parses exactly when there are two integer literals and `d != 0`, to `n/d` unsimplified; "x.y" parses exactly when `x + y` is a literal, to a reduced fraction with a positive denominator whose value is `int(x + y) / 10 ** len(y)`; any other text parses exactly when it is a literal `n`, to `n/1` |
| Fractions.FromStringStr | fraction/fraction.py:103-104 | `from_string(str(f))` gives back `f` |
| Fractions.FromStringExamples | fraction/fraction.py:136-139 | "1/2", "1" and "2/3" parse to 1/2, 1/1 and 2/3 |
| Fractions.FromStringDecimalExample | fraction/fraction.py:46-50 | "0.5" parses to 1/2 |
| Fractions.SimplifyFiveTenths | fraction/fraction.py:54-58 | 5/10 simplifies to 1/2 |
| FractionCore.Str | fraction/fraction.py:103-104 | `str(f)` holds exactly one "/", with the numerator's text before it and the denominator's after it |
| LiveFractions.New | archive/fraction/live.py:5-10 | ValueError "Denominator cannot be zero." exactly when the denominator is 0 |
| LiveFractions.AddOp | archive/fraction/live.py:13-19 | the unsimplified sum: product denominator, value of the sum |
| LiveFractions.Add | archive/fraction/live.py:21-29 | the sum's value; with `simplify` it is the simplified, coprime sum; without it, `__add__`'s fields |
| LiveFractions.SubOp | archive/fraction/live.py:31-37 | the unsimplified difference: product denominator, value of the difference |
| LiveFractions.MulOp | archive/fraction/live.py:39-45 | the products of the fields, with the value of the product |
| LiveFractions.DivOp | archive/fraction/live.py:47-55 | ValueError "Cannot divide by zero." exactly when the divisor's numerator is 0; otherwise the unsimplified quotient |
| LiveFractions.Simplify | archive/fraction/live.py:57-65 | keeps the value and leaves the fields coprime; the denominator ends positive exactly when its sign and the sign of the loop's gcd agree |
| LiveFractions.SimplifyNegativeDenominator | archive/fraction/live.py:60-65 | 1/-2 becomes -1/2, because the loop's gcd ends at -1 |
| LiveFractions.SimplifyAgrees | archive/fraction/live.py:57-65 | the two `simplify` methods agree on non-negative numerators with positive denominators; otherwise they differ at most by the sign of both fields |
| PyInt.FloorMod | basics/6_algorithms/algorithmen.py:92 | Python's `%` takes the sign of the divisor and is smaller than the divisor in magnitude |
| PyInt.FloorDivMod | fraction/fraction.py:58 | `a == b * (a // b) + a % b` |
| PyInt.EuclidIsGcd | basics/6_algorithms/algorithmen.py:127-130 | the recursive gcd divides both arguments, and every common divisor divides it |
| PyInt.Euclid | basics/6_algorithms/algorithmen.py:127-130 | the recursive gcd is 0 exactly when both arguments are 0, and never negative for non-negative arguments |
| PyInt.MathGcdIsGcd | fraction/fraction.py:1 | `math.gcd` is a non-negative gcd, and is 0 only for two zeros |
| Algorithms.GcdLoop | basics/6_algorithms/algorithmen.py:90-95 | the loop returns what the recursion returns; it is a gcd, and for non-negative arguments not both 0 it is the largest common divisor |
| Algorithms.EuclidIsLargest | basics/6_algorithms/algorithmen.py:127-130 | for non-negative arguments not both 0 no common divisor exceeds the gcd |
| Algorithms.GcdZeroFive | basics/6_algorithms/algorithmen.py:103 | gcd(0, 5) is 5 |
| Algorithms.GcdArgs | basics/6_algorithms/algorithmen.py:140-146 | as written, the variadic gcd is the two-argument gcd when there are no extra arguments, and also whenever the second argument is nonzero, so the extra arguments vanish from the result |
| Algorithms.GcdArgsCounterexample | basics/6_algorithms/algorithmen.py:140-149 | as written gcd(4, 6, 3) is 2, which does not divide 3; gcd(12, 18, 24) is 6 only by chance |
| Algorithms.GcdAllIsGcd | basics/6_algorithms/algorithmen.py:140-146 | the corrected variadic gcd is a gcd of all its arguments |
| Algorithms.GcdAll | basics/6_algorithms/algorithmen.py:140-146 | the corrected variadic gcd is the two-argument gcd when there are no extra arguments, so it agrees there with the form as written |
| Algorithms.Partition | basics/6_algorithms/algorithmen.py:178-186 | left holds the smaller items, middle the items equal to the pivot, right the larger ones, and together they are a permutation of the input |
| Algorithms.Quicksort | basics/6_algorithms/algorithmen.py:174-188 | the result is sorted and a permutation of the input |
| Algorithms.SortedPermutationUnique | basics/6_algorithms/algorithmen.py:174-188 | two sorted permutations of the same items are equal, so quicksort's result is the sorted list |
| Algorithms.BinarySearch | basics/6_algorithms/algorithmen.py:216-232 | a returned index holds the target; on a sorted list -1 is returned exactly when the target is absent |
| Builtins.Range | basics/7_generators/generators.py:266 | `range(start, stop)` holds `stop - start` integers (none when `stop <= start`), item `k` being `start + k` |
| Builtins.Reduce | Python_und_andere_Sprachen/example.py:52 | `reduce` without a start value raises TypeError exactly for an empty iterable |
| Generators.MyGenerator | basics/7_generators/generators.py:155-159 | yields exactly `range(n)` |
| Generators.SquaresGenerator | basics/7_generators/generators.py:194-196 | yields `n` items (none for `n <= 0`), item `k` being `k * k` |
| Generators.SquaresList | basics/7_generators/generators.py:180-184 | the list built by appending equals the generator's items |
| Generators.MyZip | basics/7_generators/generators.py:218-225 | the `k`-th tuple holds the `k`-th item of every iterable; the zip stops at the length of some iterable; with no iterables it never stops |
| Generators.Zip2 | basics/7_generators/generators.py:218-225 | zipping two iterables gives as many pairs as the shorter has items, pair `k` holding both `k`-th items |
| Generators.ZipTwoLength | basics/7_generators/generators.py:218-225 | the general zip of two iterables stops at the shorter length |
| Generators.Zip2AgreesMyZip | basics/7_generators/generators.py:218-225 | the pairs are the general zip's tuples of two items |
| Generators.MyMap | basics/7_generators/generators.py:243-245 | item `k` is `f` applied to the `k`-th items of all iterables, ending with the shortest |
| Generators.MyMapAdd | basics/7_generators/generators.py:252-261 | mapping `add` over two lists of equal length adds them item by item |
| Generators.MyEnumerate | basics/7_generators/generators.py:265-267 | item `k` pairs `start + k` with the `k`-th item, one pair per item |
| Generators.Fibonacci | basics/7_generators/generators.py:325-329 | the first `limit` numbers yielded, starting 0, 1 |
| Generators.FibFromRecurrence | basics/7_generators/generators.py:325-329 | every yielded number after the first two is the sum of the two before it |
| Generators.FibonacciAt | basics/7_generators/generators.py:325-329 | the `k`-th number yielded is `fib_rec(k)` |
| Generators.FibonacciIsFibRec | basics/7_generators/generators.py:325-329 | the first `limit` numbers of the endless generator are `fib_rec(0) .. fib_rec(limit - 1)` |
| Decorators.FibRec | advanced/decorators/decorators.py:23-27 | `fib_rec(n)` is positive for `n >= 1` and never below `n - 1` |
| Decorators.TimeTracker | advanced/decorators/decorators.py:7-20 | the wrapped function returns exactly what the original returns, for every argument |
| Decorators.Fib2 | advanced/decorators/decorators.py:23-32 | the decorated `fib_2` returns `fib_rec(n)` |
| Decorators.Fib1 | advanced/decorators/decorators.py:34-43 | the loop returns `fib_rec(n)` for every `n >= 0`, and 1 for a negative `n` |
| Example.Chunks | Python_und_andere_Sprachen/example.py:25 | the slices are non-empty, hold at most `size` items each, are as few as cover the text, and hold only items of the text |
| Example.ChunksAt | Python_und_andere_Sprachen/example.py:25 | slice `k` is `s[k*size : (k+1)*size]`, cut off at the end of the text |
| Example.FlattenChunks | Python_und_andere_Sprachen/example.py:25 | the slices concatenate back to the text |
| Example.Slices | Python_und_andere_Sprachen/example.py:25-26 | a step of 0 raises ValueError; a negative step gives no slices; a positive step gives the chunks |
| Example.FormatHexSequence | Python_und_andere_Sprachen/example.py:24-27 | ValueError exactly when a size is 0; an empty text or a negative size gives the empty string |
| Example.FormatHexSequenceSplits | Python_und_andere_Sprachen/example.py:24-27 | for positive sizes the output splits at newlines into one line per chunk of groups; each line splits at blanks into its groups; the groups spell the input again |
| Example.SumImperative | Python_und_andere_Sprachen/example.py:37-41 | the loop returns n(n+1)/2, and 0 for negative `n` |
| Example.SumFunctional | Python_und_andere_Sprachen/example.py:51-52 | raises TypeError exactly when `range(1, n + 1)` is empty |
| Example.FoldPlusRange | Python_und_andere_Sprachen/example.py:52 | folding `+` over `range(a, b)` adds the arithmetic sum of the range to the start value |
| Example.SumFunctionalValue | Python_und_andere_Sprachen/example.py:37-52 | for `n >= 1` the two sums agree: both are n(n+1)/2 |

The copy of the cursor loop in basics/6_scripts/refactoring/matrix.py
(lines 25-53) differs from basics/8_refactoring/matrix.py only in its
printing, so `Matrix.Script` models both.

## Left out

- Printing, board display in the scripts, and demo code under `__main__`. These are I/O only.
- The `TypeError` that `get_sudoku_string` raises for a non-ndarray (basics/8_refactoring/sudoku_solver.py:11-12). A board here is always a grid of integers.
- Boards whose shape is not 9x9, and digits outside 0-9, given to the solvers. The solvers index a 9x9 numpy array, so the model requires a 9x9 board of digits.
- The timing in `time_tracker` and the `lru_cache` on `fib_rec`. Clocks and caching change only cost, not results.
- Decorators.FibRec: defined only for `n >= 0`. Python's `fib_rec` never reaches a base case for a negative `n` and ends in a RecursionError.
- `generate_random_hex_sequence` in example.py. It depends on randomness, and `format_hex_sequence` is modelled for every text.
- The float and string paths of `Fraction.__init__` (fraction/fraction.py:21-26), `__float__` and `__repr__`. Floating point is not modelled; the string path is `from_string`, which is modelled.
- Text.ParseInt: surrounding whitespace, digit-group underscores and non-ASCII Unicode decimal digits (`int("٥") == 5`), which Python's `int()` accepts, are not accepted; only the ASCII digits 0-9 count as digits.
- Fraction operations require non-zero denominators. The constructors reject 0, so every constructed fraction has one.
- The memory-size (`getsizeof`) and generator-expression demos in generators.py. They print only.
- Tuples are modelled as sequences of one item type, and endless generators as their first `limit` items.
- SudokuText.RowLineLayout: states the characters of the cells and the " | " block separators, not the single blanks between cells in a block.
- Example.FormatHexSequenceSplits: states the number of lines through the chunk lengths, not as a closed formula.

## Findings

| source | as written | input that shows it | evidently intended | confidence | as-written member | corrected member |
|---|---|---|---|---|---|---|
| basics/6_algorithms/algorithmen.py:140-146 | when `b != 0` the recursion `gcd(b, a % b)` drops `*args` | `gcd(4, 6, 3)` returns 2, which does not divide 3 | the gcd of all arguments: `gcd(4, 6, 3) == 1` | not executed | Algorithms.GcdArgsCounterexample | Algorithms.GcdAllIsGcd |
