/** advanced/decorators/decorators.py: a timing decorator that hands back
    the wrapped function's result, and the recursive and the iterative
    Fibonacci functions it decorates. */
module Decorators {
  /** `fib_rec(n)` for `n >= 0`: 0 and 1 (the naturals below 2) are their
      own numbers, every other is the sum of the two before. The
      `lru_cache` only changes the cost. Every number from the first on is
      positive, and none falls more than one below its index. */
  function FibRec(n: nat): (r: nat)
    ensures n >= 1 ==> r >= 1
    ensures r + 1 >= n
  {
    if n < 2 then n else FibRec(n - 1) + FibRec(n - 2)
  }

  /** `time_tracker(func)`: the wrapper measures the call and prints the
      elapsed time, but returns exactly what `func` returns. */
  function TimeTracker<A(!new), B>(f: A -> B): (r: A -> B)
    ensures forall x :: r(x) == f(x)
  {
    x => f(x)
  }

  /** `fib_2`: `fib_rec` behind the timing wrapper. */
  function Fib2(n: nat): (r: nat)
    ensures r == FibRec(n)
  {
    TimeTracker(FibRec)(n)
  }

  /** `fib_1(n)`: the iterative version. `n` steps of `a, b = b, a + b`
      from `0, 1` leave `b` at the `n`-th number; for a negative `n` the
      loop over `range(0, n - 1)` never runs and the result is 1. */
  method Fib1(n: int) returns (r: int)
    ensures n >= 0 ==> r == FibRec(n)
    ensures n < 0 ==> r == 1
  {
    if n == 0 || n == 1 {
      return n;
    }
    var a, b := 0, 1;
    var i := 0;
    while i < n - 1
      invariant n >= 2 ==> 0 <= i <= n - 1
      invariant n < 0 ==> i == 0
      invariant a == FibRec(i) && b == FibRec(i + 1)
    {
      a, b := b, a + b;
      i := i + 1;
    }
    r := b;
  }
}
