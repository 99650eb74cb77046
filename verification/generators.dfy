/** basics/7_generators/generators.py: counting and square generators,
    hand-written `zip`, `map` and `enumerate`, and the endless Fibonacci
    generator. A generator is modelled by the list of the items a consumer
    takes from it; a generator that never finishes by the first `limit`
    items. Tuples are sequences of one item type. */
module Generators {
  import opened Builtins
  import Decorators

  /** `list(my_generator(n))`: `i` counts from 0 while it is below `n`. */
  method MyGenerator(n: int) returns (r: seq<int>)
    ensures r == Range(0, n)
  {
    r := [];
    var i := 0;
    while i < n
      invariant n >= 0 ==> 0 <= i <= n
      invariant n < 0 ==> i == 0
      invariant |r| == i && forall k :: 0 <= k < i ==> r[k] == k
    {
      r := r + [i];
      i := i + 1;
    }
  }

  /** `list(squares_generator(n))`: `i ** 2` for `i` in `range(n)`. */
  function SquaresGenerator(n: int): (r: seq<int>)
    ensures |r| == (if n > 0 then n else 0)
    ensures forall k :: 0 <= k < |r| ==> r[k] == k * k
  {
    var xs := Range(0, n);
    seq(|xs|, k requires 0 <= k < |xs| => xs[k] * xs[k])
  }

  /** `squares_list(n)`: the list built by appending gives the same items as
      the generator. */
  method SquaresList(n: int) returns (r: seq<int>)
    ensures r == SquaresGenerator(n)
  {
    r := [];
    var i := 0;
    while i < n
      invariant n >= 0 ==> 0 <= i <= n
      invariant n < 0 ==> i == 0
      invariant |r| == i && forall k :: 0 <= k < i ==> r[k] == k * k
    {
      r := r + [i * i];
      i := i + 1;
    }
  }

  // ---------------------------------------------------------------------
  // my_zip, my_map, my_enumerate
  // ---------------------------------------------------------------------

  /** Every iterable still has an item at position `j`. */
  predicate HasColumn<T>(its: seq<seq<T>>, j: nat) {
    forall i :: 0 <= i < |its| ==> j < |its[i]|
  }

  /** `[next(i) for i in iterators]` at position `j`. */
  function Column<T>(its: seq<seq<T>>, j: nat): (r: seq<T>)
    requires HasColumn(its, j)
    ensures |r| == |its| && forall i :: 0 <= i < |its| ==> r[i] == its[i][j]
  {
    seq(|its|, i requires 0 <= i < |its| => its[i][j])
  }

  /** The tuples `my_zip` yields from position `j` on, at most `limit` of
      them: one column per step until some iterator raises
      `StopIteration`. */
  function ZipFrom<T>(its: seq<seq<T>>, j: nat, limit: nat): (r: seq<seq<T>>)
    ensures |r| <= limit
    ensures forall p :: j <= p < j + |r| ==> HasColumn(its, p) && r[p - j] == Column(its, p)
    ensures |r| < limit ==> !HasColumn(its, j + |r|)
    decreases limit
  {
    if limit == 0 || !HasColumn(its, j) then []
    else
      var rest := ZipFrom(its, j + 1, limit - 1);
      [Column(its, j)] + rest
  }

  /** A zip that stops early stops at the length of an iterable. */
  lemma ZipFromStops<T>(its: seq<seq<T>>, limit: nat)
    ensures |ZipFrom(its, 0, limit)| < limit ==> exists i :: 0 <= i < |its| && |its[i]| == |ZipFrom(its, 0, limit)|
  {
    var r := ZipFrom(its, 0, limit);
    if |r| < limit {
      assert !HasColumn(its, |r|);
      var i :| 0 <= i < |its| && |r| >= |its[i]|;
      if |r| > 0 {
        assert HasColumn(its, |r| - 1);
      }
    }
  }

  /** The first `limit` tuples of `my_zip(*its)`: the `k`-th holds the
      `k`-th item of every iterable, and the zip ends as soon as one
      iterable is exhausted. With no iterables it never ends and yields
      empty tuples. */
  function MyZip<T>(its: seq<seq<T>>, limit: nat): (r: seq<seq<T>>)
    ensures |r| <= limit
    ensures forall k :: 0 <= k < |r| ==> HasColumn(its, k) && r[k] == Column(its, k)
    ensures |r| < limit ==> exists i :: 0 <= i < |its| && |its[i]| == |r|
    ensures |its| == 0 ==> |r| == limit
  {
    ZipFromStops(its, limit);
    ZipFrom(its, 0, limit)
  }

  /** `my_zip(xs, ys)` over two iterables, as pairs. */
  function Zip2<A, B>(xs: seq<A>, ys: seq<B>): (r: seq<(A, B)>)
    ensures |r| == Min(|xs|, |ys|)
    ensures forall k :: 0 <= k < |r| ==> r[k] == (xs[k], ys[k])
    decreases |xs|
  {
    if |xs| == 0 || |ys| == 0 then []
    else
      var rest := Zip2(xs[1..], ys[1..]);
      assert forall k :: 0 < k < |rest| + 1 ==> ([(xs[0], ys[0])] + rest)[k] == rest[k - 1];
      [(xs[0], ys[0])] + rest
  }

  /** Zipping two iterables yields as many tuples as the shorter one has
      items once the consumer takes that many. */
  lemma ZipTwoLength<T>(xs: seq<T>, ys: seq<T>, limit: nat)
    requires limit >= Min(|xs|, |ys|)
    ensures |MyZip([xs, ys], limit)| == Min(|xs|, |ys|)
  {
    var its := [xs, ys];
    assert its[0] == xs && its[1] == ys;
    var r := MyZip(its, limit);
    if |r| < limit {
      var i :| 0 <= i < |its| && |its[i]| == |r|;
      assert |r| == |xs| || |r| == |ys|;
    }
    if |r| > 0 {
      assert HasColumn(its, |r| - 1);
      assert |r| - 1 < |xs| && |r| - 1 < |ys|;
    }
  }

  /** The pairs agree with the general zip of the two iterables once the
      consumer takes as many items as the shorter one holds. */
  lemma Zip2AgreesMyZip<T>(xs: seq<T>, ys: seq<T>, limit: nat)
    requires limit >= Min(|xs|, |ys|)
    ensures |MyZip([xs, ys], limit)| == |Zip2(xs, ys)|
    ensures forall k :: 0 <= k < |Zip2(xs, ys)| ==>
      |MyZip([xs, ys], limit)[k]| == 2 && MyZip([xs, ys], limit)[k][0] == Zip2(xs, ys)[k].0
      && MyZip([xs, ys], limit)[k][1] == Zip2(xs, ys)[k].1
  {
    ZipTwoLength(xs, ys, limit);
    var its := [xs, ys];
    assert its[0] == xs && its[1] == ys;
  }

  /** `f(*args)` for every tuple of a zip. */
  function MapEach<T, U>(f: seq<T> -> U, zs: seq<seq<T>>): seq<U> {
    seq(|zs|, k requires 0 <= k < |zs| => f(zs[k]))
  }

  /** The first `limit` items of `my_map(f, *its)`: `f` applied to the
      `k`-th item of every iterable, ending with the shortest. */
  function MyMap<T, U>(f: seq<T> -> U, its: seq<seq<T>>, limit: nat): (r: seq<U>)
    ensures |r| <= limit
    ensures forall k :: 0 <= k < |r| ==> HasColumn(its, k) && r[k] == f(Column(its, k))
    ensures |r| < limit ==> exists i :: 0 <= i < |its| && |its[i]| == |r|
  {
    var zs := MyZip(its, limit);
    forall k | 0 <= k < |zs|
      ensures HasColumn(its, k) && zs[k] == Column(its, k)
    {
      assert forall i :: 0 <= i < |its| ==> zs[k][i] == its[i][k];
    }
    MapEach(f, zs)
  }

  const AddPair: seq<int> -> int := args => if |args| >= 2 then args[0] + args[1] else 0

  /** `my_map(add, list1, list2)` on lists of equal length adds them item by
      item. */
  lemma MyMapAdd(xs: seq<int>, ys: seq<int>, limit: nat)
    requires |xs| == |ys| <= limit
    ensures |MyMap(AddPair, [xs, ys], limit)| == |xs|
    ensures forall k :: 0 <= k < |xs| ==> MyMap(AddPair, [xs, ys], limit)[k] == xs[k] + ys[k]
  {
    var its := [xs, ys];
    var r := MyMap(AddPair, its, limit);
    if |r| < limit {
      var i :| 0 <= i < |its| && |its[i]| == |r|;
    }
    if |r| > 0 {
      assert HasColumn(its, |r| - 1);
      assert |r| - 1 < |its[0]|;
    }
    forall k | 0 <= k < |xs|
      ensures r[k] == xs[k] + ys[k]
    {
      var c := Column(its, k);
      assert c[0] == xs[k] && c[1] == ys[k];
    }
  }

  /** `list(my_enumerate(xs, start))`: each item paired with its position
      counted from `start`. */
  function MyEnumerate<T>(xs: seq<T>, start: int): (r: seq<(int, T)>)
    ensures |r| == |xs|
    ensures forall k :: 0 <= k < |r| ==> r[k] == (start + k, xs[k])
  {
    Zip2(Range(start, |xs| + start), xs)
  }

  // ---------------------------------------------------------------------
  // fibonacci
  // ---------------------------------------------------------------------

  /** `limit` items of the Fibonacci loop started at `a, b`. */
  function FibFrom(a: nat, b: nat, limit: nat): (r: seq<nat>)
    ensures |r| == limit
    decreases limit
  {
    if limit == 0 then [] else [a] + FibFrom(b, a + b, limit - 1)
  }

  /** The first `limit` items of `fibonacci()`: it yields 0, then 1. */
  function Fibonacci(limit: nat): (r: seq<nat>)
    ensures |r| == limit
    ensures limit > 0 ==> r[0] == 0
    ensures limit > 1 ==> r[1] == 1
  {
    var r := FibFrom(0, 1, limit);
    assert limit > 1 ==> r[1] == FibFrom(1, 1, limit - 1)[0];
    r
  }

  /** Each item of the loop after the first two is the sum of the two
      before it. */
  lemma {:induction false} FibFromRecurrence(a: nat, b: nat, limit: nat, k: nat)
    requires k + 2 < limit
    ensures FibFrom(a, b, limit)[k + 2] == FibFrom(a, b, limit)[k] + FibFrom(a, b, limit)[k + 1]
    decreases k
  {
    var r, rest := FibFrom(a, b, limit), FibFrom(b, a + b, limit - 1);
    assert r == [a] + rest;
    if k == 0 {
      assert rest == [b] + FibFrom(a + b, b + (a + b), limit - 2);
    } else {
      FibFromRecurrence(b, a + b, limit - 1, k - 1);
    }
  }

  /** The `k`-th item a consumer takes from `fibonacci()` is `fib_rec(k)`. */
  lemma {:induction false} FibonacciAt(limit: nat, k: nat)
    requires k < limit
    ensures Fibonacci(limit)[k] == Decorators.FibRec(k)
    decreases k
  {
    var r := Fibonacci(limit);
    if k == 1 {
      assert r == [0] + FibFrom(1, 1, limit - 1);
    } else if k >= 2 {
      FibonacciAt(limit, k - 1);
      FibonacciAt(limit, k - 2);
      FibFromRecurrence(0, 1, limit, k - 2);
    }
  }

  /** The endless generator yields the same numbers as `fib_rec`. */
  lemma FibonacciIsFibRec(limit: nat)
    ensures |Fibonacci(limit)| == limit
    ensures forall k :: 0 <= k < limit ==> Fibonacci(limit)[k] == Decorators.FibRec(k)
  {
    forall k | 0 <= k < limit
      ensures Fibonacci(limit)[k] == Decorators.FibRec(k)
    {
      FibonacciAt(limit, k);
    }
  }
}
