/** The Python built-ins the small sequence helpers are written with:
    `range` with step 1, `functools.reduce` without an initial value, and the
    concatenation of a list of lists. */
module Builtins {
  import opened Wrappers

  function Min(a: int, b: int): int {
    if a <= b then a else b
  }

  /** `list(range(start, stop))`: the integers from `start` up to, not
      including, `stop`; empty when `stop <= start`. */
  function Range(start: int, stop: int): (r: seq<int>)
    ensures |r| == if stop > start then stop - start else 0
    ensures forall k :: 0 <= k < |r| ==> r[k] == start + k
    decreases stop - start
  {
    if stop <= start then [] else [start] + Range(start + 1, stop)
  }

  /** `functools.reduce(f, xs, acc)`: `f` applied from the left. */
  function FoldLeft<T>(f: (T, T) -> T, acc: T, xs: seq<T>): T
    decreases |xs|
  {
    if |xs| == 0 then acc else FoldLeft(f, f(acc, xs[0]), xs[1..])
  }

  const EmptyReduce := TypeError("reduce() of empty iterable with no initial value")

  /** `functools.reduce(f, xs)`: the first item is the start value, and an
      empty iterable raises `TypeError`. */
  function Reduce<T>(f: (T, T) -> T, xs: seq<T>): (r: Result<T>)
    ensures r.Err? <==> |xs| == 0
    ensures r.Err? ==> r.error == EmptyReduce
  {
    if |xs| == 0 then Err(EmptyReduce) else Ok(FoldLeft(f, xs[0], xs[1..]))
  }

  /** The items of the inner lists in order. */
  function Flatten<T>(xs: seq<seq<T>>): seq<T>
    decreases |xs|
  {
    if |xs| == 0 then [] else xs[0] + Flatten(xs[1..])
  }

  lemma {:induction false} FlattenAppend<T>(a: seq<seq<T>>, b: seq<seq<T>>)
    ensures Flatten(a + b) == Flatten(a) + Flatten(b)
    decreases |a|
  {
    if |a| > 0 {
      assert (a + b)[0] == a[0] && (a + b)[1..] == a[1..] + b;
      FlattenAppend(a[1..], b);
      assert Flatten(a + b) == a[0] + Flatten(a[1..] + b);
    } else {
      assert a + b == b;
    }
  }
}
