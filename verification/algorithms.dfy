/** The classic algorithms of basics/6_algorithms/algorithmen.py: Euclid's
    gcd in its iterative, recursive and variadic forms, quicksort with a
    three-way partition on the last element, and binary search. */
module Algorithms {
  import opened PyInt

  // ---------------------------------------------------------------------
  // Greatest common divisor
  // ---------------------------------------------------------------------

  /** The textbook definition: the largest natural number dividing both. */
  ghost predicate IsLargestCommonDivisor(g: int, a: int, b: int) {
    && g >= 1 && Divides(g, a) && Divides(g, b)
    && forall d :: d >= 1 && Divides(d, a) && Divides(d, b) ==> d <= g
  }

  /** For natural numbers that are not both 0, Euclid's recursion computes
      the largest common divisor. */
  lemma EuclidIsLargest(a: int, b: int)
    requires a >= 0 && b >= 0 && !(a == 0 && b == 0)
    ensures IsLargestCommonDivisor(Euclid(a, b), a, b)
  {
    var g := Euclid(a, b);
    EuclidIsGcd(a, b);
    forall d | d >= 1 && Divides(d, a) && Divides(d, b)
      ensures d <= g
    {
      DividesBound(d, g);
    }
  }

  /** The iterative `gcd(a, b)`: `a, b = b, a % b` while `b != 0`. It
      computes what the recursive `gcd(a, b=0)` computes, for every pair of
      integers; on natural numbers not both 0 that is the largest common
      divisor. */
  method GcdLoop(a: int, b: int) returns (r: int)
    ensures r == Euclid(a, b)
    ensures IsGcd(r, a, b)
    ensures a >= 0 && b >= 0 && !(a == 0 && b == 0) ==> IsLargestCommonDivisor(r, a, b)
  {
    var x, y := a, b;
    while y != 0
      invariant Euclid(x, y) == Euclid(a, b)
      decreases Abs(y)
    {
      var rest := FloorMod(x, y);
      x := y;
      y := rest;
    }
    r := x;
    EuclidIsGcd(a, b);
    if a >= 0 && b >= 0 && !(a == 0 && b == 0) {
      EuclidIsLargest(a, b);
    }
  }

  /** The test case `(0, 5)` of the table. */
  lemma GcdZeroFive()
    ensures Euclid(0, 5) == 5
  {
    assert FloorMod(0, 5) == 0;
  }

  /** The variadic `gcd(a, b=0, *args)` as written: with `b == 0` it moves
      on to the next argument, but with `b != 0` it recurses on
      `gcd(b, a % b)` and the remaining arguments are lost. With no extra
      arguments, or as soon as `b != 0`, the result is `gcd(a, b)`. */
  function GcdArgs(a: int, b: int, args: seq<int>): (r: int)
    ensures args == [] || b != 0 ==> r == Euclid(a, b)
    decreases |args|, Abs(b)
  {
    if b == 0 then
      if |args| == 0 then a else GcdArgs(a, args[0], args[1..])
    else GcdArgs(b, FloorMod(a, b), [])
  }

  /** `gcd(4, 6, 3)` gives 2, which does not divide 3; `gcd(12, 18, 24)`
      gives 6 only because 6 happens to divide 24. */
  lemma GcdArgsCounterexample()
    ensures GcdArgs(4, 6, [3]) == 2 && !Divides(2, 3)
    ensures GcdArgs(12, 18, [24]) == 6
  {
    assert FloorMod(4, 6) == 4 && FloorMod(6, 4) == 2 && FloorMod(4, 2) == 0;
    assert FloorMod(12, 18) == 12 && FloorMod(18, 12) == 6 && FloorMod(12, 6) == 0;
  }

  /** `d` divides every number of `xs`. */
  ghost predicate CommonDivisor(d: int, xs: seq<int>) {
    forall i :: 0 <= i < |xs| ==> Divides(d, xs[i])
  }

  /** `g` is a greatest common divisor of all of `xs`. */
  ghost predicate IsGcdOf(g: int, xs: seq<int>) {
    CommonDivisor(g, xs) && forall d :: CommonDivisor(d, xs) ==> Divides(d, g)
  }

  /** The evidently intended variadic gcd: the Euclid step keeps the
      remaining arguments, `gcd(b, a % b, *args)`. On two arguments it is
      the two-argument gcd, so it agrees there with the form as written. */
  function GcdAll(a: int, b: int, args: seq<int>): (r: int)
    ensures args == [] ==> r == Euclid(a, b)
    decreases |args|, Abs(b)
  {
    if b == 0 then
      if |args| == 0 then a else GcdAll(a, args[0], args[1..])
    else GcdAll(b, FloorMod(a, b), args)
  }

  /** Two lists with the same common divisors have the same gcds. */
  lemma SameDivisorsSameGcd(g: int, xs: seq<int>, ys: seq<int>)
    requires IsGcdOf(g, xs)
    requires forall d :: CommonDivisor(d, xs) <==> CommonDivisor(d, ys)
    ensures IsGcdOf(g, ys)
  {
  }

  /** Dropping a 0 in second place keeps the common divisors. */
  lemma DropZeroDivisors(a: int, args: seq<int>, d: int)
    requires |args| >= 1
    ensures CommonDivisor(d, [a, 0] + args) <==> CommonDivisor(d, [a, args[0]] + args[1..])
  {
    DividesZero(d);
    var xs, ys := [a, 0] + args, [a, args[0]] + args[1..];
    assert xs[0] == ys[0] == a && xs[1] == 0;
    assert |xs| == |ys| + 1;
    assert forall i :: 1 <= i < |ys| ==> ys[i] == xs[i + 1];
    if CommonDivisor(d, xs) {
      forall i | 0 <= i < |ys|
        ensures Divides(d, ys[i])
      {
        if i >= 1 {
          assert Divides(d, xs[i + 1]);
        } else {
          assert Divides(d, xs[0]);
        }
      }
    }
    if CommonDivisor(d, ys) {
      forall i | 0 <= i < |xs|
        ensures Divides(d, xs[i])
      {
        if i >= 2 {
          assert Divides(d, ys[i - 1]);
        } else if i == 0 {
          assert Divides(d, ys[0]);
        }
      }
    }
  }

  /** The Euclid step on the first two numbers keeps the common divisors. */
  lemma StepDivisors(a: int, b: int, args: seq<int>, d: int)
    requires b != 0
    ensures CommonDivisor(d, [a, b] + args) <==> CommonDivisor(d, [b, FloorMod(a, b)] + args)
  {
    EuclidStep(a, b, d);
    var xs, ys := [a, b] + args, [b, FloorMod(a, b)] + args;
    assert forall i :: 2 <= i < |xs| ==> xs[i] == ys[i];
    if CommonDivisor(d, xs) {
      assert Divides(d, xs[0]) && Divides(d, xs[1]);
    }
    if CommonDivisor(d, ys) {
      assert Divides(d, ys[0]) && Divides(d, ys[1]);
    }
  }

  /** The corrected variadic gcd is a gcd of all its arguments. */
  lemma {:induction false} GcdAllIsGcd(a: int, b: int, args: seq<int>)
    ensures IsGcdOf(GcdAll(a, b, args), [a, b] + args)
    decreases |args|, Abs(b)
  {
    var g := GcdAll(a, b, args);
    if b == 0 {
      if |args| == 0 {
        DividesSelf(a);
        DividesZero(a);
        assert [a, b] + args == [a, 0];
        forall d | CommonDivisor(d, [a, 0])
          ensures Divides(d, a)
        {
          assert [a, 0][0] == a;
        }
      } else {
        GcdAllIsGcd(a, args[0], args[1..]);
        forall d
          ensures CommonDivisor(d, [a, args[0]] + args[1..]) <==> CommonDivisor(d, [a, b] + args)
        {
          DropZeroDivisors(a, args, d);
        }
        SameDivisorsSameGcd(g, [a, args[0]] + args[1..], [a, b] + args);
      }
    } else {
      GcdAllIsGcd(b, FloorMod(a, b), args);
      forall d
        ensures CommonDivisor(d, [b, FloorMod(a, b)] + args) <==> CommonDivisor(d, [a, b] + args)
      {
        StepDivisors(a, b, args, d);
      }
      SameDivisorsSameGcd(g, [b, FloorMod(a, b)] + args, [a, b] + args);
    }
  }

  // ---------------------------------------------------------------------
  // Quicksort
  // ---------------------------------------------------------------------

  predicate Sorted(s: seq<int>) {
    forall i, j :: 0 <= i < j < |s| ==> s[i] <= s[j]
  }

  /** The partition loop: each element goes to `left`, `right` or `middle`
      as it is smaller than, larger than or equal to the pivot, in the order
      of the input. */
  method Partition(arr: seq<int>, pivot: int) returns (left: seq<int>, middle: seq<int>, right: seq<int>)
    ensures forall x :: x in left ==> x < pivot
    ensures forall x :: x in right ==> x > pivot
    ensures forall x :: x in middle ==> x == pivot
    ensures multiset(left) + multiset(middle) + multiset(right) == multiset(arr)
  {
    left, middle, right := [], [], [];
    for i := 0 to |arr|
      invariant forall x :: x in left ==> x < pivot
      invariant forall x :: x in right ==> x > pivot
      invariant forall x :: x in middle ==> x == pivot
      invariant multiset(left) + multiset(middle) + multiset(right) == multiset(arr[..i])
    {
      assert arr[..i + 1] == arr[..i] + [arr[i]];
      if arr[i] < pivot {
        left := left + [arr[i]];
      } else if arr[i] > pivot {
        right := right + [arr[i]];
      } else {
        middle := middle + [arr[i]];
      }
    }
    assert arr[..|arr|] == arr;
  }

  /** Two sorted lists, each element of the first at most each of the
      second, concatenate to a sorted list. */
  lemma SortedAppend(a: seq<int>, b: seq<int>)
    requires Sorted(a) && Sorted(b)
    requires forall i, j :: 0 <= i < |a| && 0 <= j < |b| ==> a[i] <= b[j]
    ensures Sorted(a + b)
  {
    var s := a + b;
    forall i, j | 0 <= i < j < |s|
      ensures s[i] <= s[j]
    {
      if j < |a| {
        assert s[i] == a[i] && s[j] == a[j];
      } else if i >= |a| {
        assert s[i] == b[i - |a|] && s[j] == b[j - |a|];
      } else {
        assert s[i] == a[i] && s[j] == b[j - |a|];
      }
    }
  }

  /** Sorted blocks below, at and above a pivot concatenate to a sorted list. */
  lemma SortedAround(l: seq<int>, m: seq<int>, r: seq<int>, pivot: int)
    requires Sorted(l) && Sorted(r)
    requires forall x :: x in l ==> x < pivot
    requires forall x :: x in m ==> x == pivot
    requires forall x :: x in r ==> x > pivot
    ensures Sorted(l + m + r)
  {
    assert forall i :: 0 <= i < |l| ==> l[i] in l;
    assert forall i :: 0 <= i < |m| ==> m[i] in m;
    assert forall i :: 0 <= i < |r| ==> r[i] in r;
    SortedAppend(l, m);
    var lm := l + m;
    assert forall i :: 0 <= i < |lm| ==> lm[i] <= pivot by {
      forall i | 0 <= i < |lm| ensures lm[i] <= pivot {
        if i < |l| {
          assert lm[i] == l[i];
        } else {
          assert lm[i] == m[i - |l|];
        }
      }
    }
    SortedAppend(lm, r);
  }

  /** `quicksort(arr)`: a sorted permutation of `arr`. */
  method Quicksort(arr: seq<int>) returns (r: seq<int>)
    ensures Sorted(r) && multiset(r) == multiset(arr)
    decreases |arr|
  {
    if |arr| <= 1 {
      return arr;
    }
    var pivot := arr[|arr| - 1];
    var left, middle, right := Partition(arr, pivot);
    assert pivot in multiset(arr);
    assert pivot !in left && pivot !in right;
    assert multiset(middle)[pivot] >= 1;
    assert |middle| >= 1;
    assert |multiset(left)| + |multiset(middle)| + |multiset(right)| == |multiset(arr)|;
    var sl := Quicksort(left);
    var sr := Quicksort(right);
    assert forall x :: x in sl ==> x < pivot by {
      forall x | x in sl ensures x < pivot {
        assert x in multiset(sl);
        assert x in multiset(left);
        assert x in left;
      }
    }
    assert forall x :: x in sr ==> x > pivot by {
      forall x | x in sr ensures x > pivot {
        assert x in multiset(sr);
        assert x in multiset(right);
        assert x in right;
      }
    }
    SortedAround(sl, middle, sr, pivot);
    r := sl + middle + sr;
  }

  /** The head of a non-empty sorted list is its smallest element. */
  lemma SortedHeadIsMin(a: seq<int>, x: int)
    requires Sorted(a) && x in multiset(a)
    ensures |a| > 0 && a[0] <= x
  {
    var j :| 0 <= j < |a| && a[j] == x;
    if j > 0 {
      assert a[0] <= a[j];
    }
  }

  lemma SortedTail(a: seq<int>)
    requires Sorted(a) && |a| > 0
    ensures Sorted(a[1..])
  {
    assert forall i :: 0 <= i < |a| - 1 ==> a[1..][i] == a[i + 1];
  }

  /** Equal heads leave equal multisets of the tails. */
  lemma TailMultiset(a: seq<int>, b: seq<int>)
    requires |a| > 0 && |b| > 0 && a[0] == b[0] && multiset(a) == multiset(b)
    ensures multiset(a[1..]) == multiset(b[1..])
  {
    assert a == [a[0]] + a[1..] && b == [b[0]] + b[1..];
    assert multiset(a) == multiset{a[0]} + multiset(a[1..]);
    assert multiset(b) == multiset{b[0]} + multiset(b[1..]);
    assert multiset(a[1..]) == multiset(a) - multiset{a[0]};
    assert multiset(b[1..]) == multiset(b) - multiset{b[0]};
  }

  /** There is only one sorted permutation of a list, so quicksort agrees
      with every other correct sort. */
  lemma {:induction false} SortedPermutationUnique(a: seq<int>, b: seq<int>)
    requires Sorted(a) && Sorted(b) && multiset(a) == multiset(b)
    ensures a == b
    decreases |a|
  {
    assert |a| == |b| by {
      assert |multiset(a)| == |multiset(b)|;
    }
    if |a| > 0 {
      assert a[0] in multiset(b) && b[0] in multiset(a);
      SortedHeadIsMin(b, a[0]);
      SortedHeadIsMin(a, b[0]);
      TailMultiset(a, b);
      SortedTail(a);
      SortedTail(b);
      SortedPermutationUnique(a[1..], b[1..]);
      assert a == [a[0]] + a[1..] && b == [b[0]] + b[1..];
    }
  }

  // ---------------------------------------------------------------------
  // Binary search
  // ---------------------------------------------------------------------

  /** `binary_search(arr, target)`: an index holding `target`, or -1. On a
      sorted list -1 means that `target` does not occur. */
  method BinarySearch(arr: seq<int>, target: int) returns (r: int)
    ensures r == -1 || (0 <= r < |arr| && arr[r] == target)
    ensures Sorted(arr) ==> (r == -1 <==> target !in arr)
  {
    var left, right := 0, |arr| - 1;
    while left <= right
      invariant 0 <= left <= right + 1 <= |arr|
      invariant Sorted(arr) ==> forall k :: 0 <= k < |arr| && arr[k] == target ==> left <= k <= right
      decreases right - left
    {
      // left + right is not negative here, so `//` is `/`
      var mid := (left + right) / 2;
      var midVal := arr[mid];
      if midVal == target {
        return mid;
      } else if midVal < target {
        left := mid + 1;
      } else {
        right := mid - 1;
      }
    }
    return -1;
  }
}
