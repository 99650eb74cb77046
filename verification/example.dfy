/** Python_und_andere_Sprachen/example.py: the layout of a hexadecimal
    string in groups and lines, and the sum of the first `n` numbers written
    once with a loop and once with `functools.reduce`. */
module Example {
  import opened Wrappers
  import opened Text
  import opened Builtins

  // ---------------------------------------------------------------------
  // format_hex_sequence
  // ---------------------------------------------------------------------

  /** `[s[i:i+size] for i in range(0, len(s), size)]` for a positive size:
      the slices are never empty, hold at most `size` items, and there are
      as few of them as cover `s`. */
  function Chunks<T>(s: seq<T>, size: nat): (r: seq<seq<T>>)
    requires size > 0
    ensures forall k :: 0 <= k < |r| ==> 0 < |r[k]| <= size
    ensures (|r| - 1) * size < |s| <= |r| * size
    ensures forall k, x :: 0 <= k < |r| && x in r[k] ==> x in s
    decreases |s|
  {
    if |s| == 0 then []
    else if |s| <= size then [s]
    else
      var rest := Chunks(s[size..], size);
      assert forall k :: 0 < k < |rest| + 1 ==> ([s[..size]] + rest)[k] == rest[k - 1];
      assert forall x :: x in s[size..] ==> x in s;
      assert forall x :: x in s[..size] ==> x in s;
      [s[..size]] + rest
  }

  /** The `k`-th chunk is the slice `s[k*size : (k+1)*size]`, cut off at the
      end of `s`. */
  lemma {:induction false} ChunksAt<T>(s: seq<T>, size: nat, k: nat)
    requires size > 0 && k < |Chunks(s, size)|
    ensures k * size < |s|
    ensures Chunks(s, size)[k] == s[k * size .. Min((k + 1) * size, |s|)]
    decreases k
  {
    if k > 0 {
      var t := s[size..];
      ChunksAt(t, size, k - 1);
      assert (k - 1) * size + size == k * size;
      assert k * size + size == (k + 1) * size;
      assert t[(k - 1) * size .. Min(k * size, |t|)] == s[k * size .. Min((k + 1) * size, |s|)];
    }
  }

  /** Concatenating the chunks gives back `s`. */
  lemma {:induction false} FlattenChunks<T>(s: seq<T>, size: nat)
    requires size > 0
    ensures Flatten(Chunks(s, size)) == s
    decreases |s|
  {
    if |s| > size {
      FlattenChunks(s[size..], size);
      var r := Chunks(s, size);
      assert r[0] == s[..size] && r[1..] == Chunks(s[size..], size);
    } else if |s| > 0 {
      assert Chunks(s, size)[1..] == [];
    }
  }

  const ZeroStep := ValueError("range() arg 3 must not be zero")

  /** The comprehension `[s[i:i+step] for i in range(0, len(s), step)]` for
      any step: 0 is rejected by `range`, and a negative step gives an empty
      range because the start 0 is never above `len(s)`. */
  function Slices<T>(s: seq<T>, step: int): (r: Result<seq<seq<T>>>)
    ensures r.Err? <==> step == 0
    ensures r.Err? ==> r.error == ZeroStep
    ensures r.Ok? && step < 0 ==> r.value == []
    ensures r.Ok? && step > 0 ==> r.value == Chunks(s, step)
  {
    if step == 0 then Err(ZeroStep) else if step < 0 then Ok([]) else Ok(Chunks(s, step))
  }

  /** `[sep.join(c) for c in cs]`. */
  function JoinEach(sep: string, cs: seq<seq<string>>): seq<string> {
    seq(|cs|, k requires 0 <= k < |cs| => Join(sep, cs[k]))
  }

  /** `format_hex_sequence(s, group_size, line_length)` (the defaults are 2
      and 4): `s` cut into groups of `group_size` characters, groups joined
      by blanks `line_length` at a time, lines joined by newlines. */
  function FormatHexSequence(s: string, groupSize: int, lineLength: int): (r: Result<string>)
    ensures r.Err? <==> groupSize == 0 || lineLength == 0
    ensures r.Err? ==> r.error == ZeroStep
    ensures r.Ok? && (|s| == 0 || groupSize < 0 || lineLength < 0) ==> r.value == ""
  {
    match Slices(s, groupSize)
    case Err(e) => Err(e)
    case Ok(groups) =>
      match Slices(groups, lineLength)
      case Err(e) => Err(e)
      case Ok(lines) => Ok(Join("\n", JoinEach(" ", lines)))
  }

  /** A character that no part contains and the separator does not contain
      is not in the joined text. */
  lemma {:induction false} JoinNoChar(sep: string, parts: seq<string>, c: char)
    requires c !in sep && forall m :: 0 <= m < |parts| ==> c !in parts[m]
    ensures c !in Join(sep, parts)
    decreases |parts|
  {
    if |parts| > 1 {
      JoinNoChar(sep, parts[1..], c);
    }
  }

  /** For a non-empty text without blanks or newlines and positive sizes,
      splitting the result at newlines gives one line per chunk of groups,
      and splitting each line at blanks gives back that chunk's groups,
      which together spell the text again. */
  lemma FormatHexSequenceSplits(s: string, groupSize: int, lineLength: int)
    requires |s| > 0 && ' ' !in s && '\n' !in s && groupSize > 0 && lineLength > 0
    ensures FormatHexSequence(s, groupSize, lineLength).Ok?
    ensures var lines := Split(FormatHexSequence(s, groupSize, lineLength).value, '\n');
      var cs := Chunks(Chunks(s, groupSize), lineLength);
      |lines| == |cs| && forall k :: 0 <= k < |lines| ==> Split(lines[k], ' ') == cs[k]
    ensures Flatten(Flatten(Chunks(Chunks(s, groupSize), lineLength))) == s
  {
    var groups := Chunks(s, groupSize);
    var cs := Chunks(groups, lineLength);
    var lines := JoinEach(" ", cs);
    assert forall m :: 0 <= m < |groups| ==> ' ' !in groups[m] && '\n' !in groups[m];
    forall k | 0 <= k < |cs|
      ensures Split(lines[k], ' ') == cs[k] && '\n' !in lines[k]
    {
      assert forall m :: 0 <= m < |cs[k]| ==> cs[k][m] in groups;
      SplitJoin(cs[k], ' ');
      JoinNoChar(" ", cs[k], '\n');
    }
    SplitJoin(lines, '\n');
    FlattenChunks(groups, lineLength);
    FlattenChunks(s, groupSize);
  }

  // ---------------------------------------------------------------------
  // sum_imperative and sum_functional
  // ---------------------------------------------------------------------

  /** `sum_imperative(n)`: adding `1 .. n` in a loop gives `n(n+1)/2`, and 0
      when the range is empty. */
  method SumImperative(n: int) returns (r: int)
    ensures n >= 0 ==> r == n * (n + 1) / 2
    ensures n < 0 ==> r == 0
  {
    r := 0;
    var i := 1;
    while i < n + 1
      invariant n >= 0 ==> 1 <= i <= n + 1
      invariant n < 0 ==> i == 1
      invariant 2 * r == (i - 1) * i
    {
      r := r + i;
      i := i + 1;
    }
  }

  const Plus: (int, int) -> int := (x, y) => x + y

  /** `sum_functional(n)`: `reduce` of `+` over `range(1, n + 1)`. */
  function SumFunctional(n: int): (r: Result<int>)
    ensures r.Err? <==> n < 1
    ensures r.Err? ==> r.error == EmptyReduce
  {
    Reduce(Plus, Range(1, n + 1))
  }

  /** Folding `+` over `range(a, b)` adds the sum of the range. */
  lemma {:induction false} FoldPlusRange(acc: int, a: int, b: int)
    requires a <= b
    ensures 2 * FoldLeft(Plus, acc, Range(a, b)) == 2 * acc + (b - a) * (a + b - 1)
    decreases b - a
  {
    if a < b {
      var xs := Range(a, b);
      assert xs[0] == a && xs[1..] == Range(a + 1, b);
      FoldPlusRange(acc + a, a + 1, b);
      assert (b - a - 1) * (a + b) + 2 * a == (b - a) * (a + b - 1);
    }
  }

  /** Both sums agree: `n(n+1)/2` for `n >= 1`; `reduce` raises for the
      empty range where the loop gives 0. */
  lemma SumFunctionalValue(n: int)
    ensures n >= 1 ==> SumFunctional(n) == Ok(n * (n + 1) / 2)
  {
    if n >= 1 {
      var xs := Range(1, n + 1);
      assert xs[0] == 1 && xs[1..] == Range(2, n + 1);
      FoldPlusRange(1, 2, n + 1);
    }
  }
}
