/** Lexicographic order on digit vectors, and the base-11 reading of a
    vector used as the cursor solvers' termination measure. */
module Lex {

  /** `u` is lexicographically at most `v` (vectors of equal length). */
  predicate LexLe(u: seq<int>, v: seq<int>)
    requires |u| == |v|
    decreases |u|
  {
    |u| == 0 || u[0] < v[0] || (u[0] == v[0] && LexLe(u[1..], v[1..]))
  }

  lemma {:induction false} LexLeTotal(u: seq<int>, v: seq<int>)
    requires |u| == |v|
    ensures LexLe(u, v) || LexLe(v, u)
    decreases |u|
  {
    if |u| > 0 && u[0] == v[0] {
      LexLeTotal(u[1..], v[1..]);
    }
  }

  lemma {:induction false} LexLeAntisymmetric(u: seq<int>, v: seq<int>)
    requires |u| == |v| && LexLe(u, v) && LexLe(v, u)
    ensures u == v
    decreases |u|
  {
    if |u| > 0 {
      LexLeAntisymmetric(u[1..], v[1..]);
      assert u == [u[0]] + u[1..] && v == [v[0]] + v[1..];
    }
  }

  lemma {:induction false} LexLeReflexive(u: seq<int>)
    ensures LexLe(u, u)
    decreases |u|
  {
    if |u| > 0 {
      LexLeReflexive(u[1..]);
    }
  }

  /** Comparing after appending one element: the shorter vectors decide unless
      they are equal, in which case the appended elements do. */
  lemma {:induction false} LexLeSnoc(u: seq<int>, v: seq<int>, x: int, y: int)
    requires |u| == |v|
    ensures LexLe(u + [x], v + [y]) <==> (LexLe(u, v) && u != v) || (u == v && x <= y)
    decreases |u|
  {
    if |u| == 0 {
      assert u + [x] == [x] && v + [y] == [y];
      assert ([x])[1..] == [] && ([y])[1..] == [];
    } else {
      assert (u + [x])[0] == u[0] && (v + [y])[0] == v[0];
      assert (u + [x])[1..] == u[1..] + [x];
      assert (v + [y])[1..] == v[1..] + [y];
      LexLeSnoc(u[1..], v[1..], x, y);
      if u[0] == v[0] {
        assert u == v <==> u[1..] == v[1..] by {
          assert u == [u[0]] + u[1..] && v == [v[0]] + v[1..];
        }
      }
    }
  }

  /** One step of the search: the digit at the last position moves from `v`
      up to `n`. If `u + [x]` was strictly past `c + [v]`, and `x` is not
      strictly between `v` and `n` when the heads agree, then `u + [x]` is not
      strictly before `c + [n]`. */
  lemma LexStepPast(u: seq<int>, c: seq<int>, x: int, v: int, n: int)
    requires |u| == |c| && !LexLe(u + [x], c + [v])
    requires u == c && v < x ==> n <= x
    ensures LexLe(u + [x], c + [n]) ==> u + [x] == c + [n]
  {
    LexLeSnoc(u, c, x, v);
    LexLeSnoc(u, c, x, n);
  }

  /** A vector not strictly before `z` stays strictly after `z + [0]` when
      extended by a positive digit. */
  lemma LexPastZero(w: seq<int>, z: seq<int>, y: int)
    requires |w| == |z| && (LexLe(w, z) ==> w == z) && y >= 1
    ensures !LexLe(w + [y], z + [0])
  {
    LexLeSnoc(w, z, y, 0);
  }

  /** A vector not strictly before `z` is at or after it. */
  lemma LexAtLeast(w: seq<int>, z: seq<int>)
    requires |w| == |z| && (LexLe(w, z) ==> w == z)
    ensures LexLe(z, w)
  {
    LexLeTotal(w, z);
    LexLeReflexive(z);
  }

  // ---------------------------------------------------------------------
  // Base-11 value of a digit vector
  // ---------------------------------------------------------------------

  /** `base ** e`; positive for a positive base. */
  function Pow(base: nat, e: nat): (r: nat)
    ensures base >= 1 ==> r >= 1
    decreases e
  {
    if e == 0 then 1 else base * Pow(base, e - 1)
  }

  predicate Digits11(s: seq<int>) {
    forall k :: 0 <= k < |s| ==> 0 <= s[k] <= 10
  }

  /** The vector read as a base-11 numeral, most significant digit first. */
  function Horner(s: seq<int>): int
    decreases |s|
  {
    if |s| == 0 then 0 else Horner(s[..|s| - 1]) * 11 + s[|s| - 1]
  }

  lemma {:induction false} HornerBounds(s: seq<int>)
    requires Digits11(s)
    ensures 0 <= Horner(s) < Pow(11, |s|)
    decreases |s|
  {
    if |s| > 0 {
      var init := s[..|s| - 1];
      HornerBounds(init);
      assert Horner(s) <= (Pow(11, |init|) - 1) * 11 + 10;
    }
  }

  lemma {:induction false} HornerAppend(x: seq<int>, y: seq<int>)
    ensures Horner(x + y) == Horner(x) * Pow(11, |y|) + Horner(y)
    decreases |y|
  {
    if |y| == 0 {
      assert x + y == x;
    } else {
      var y' := y[..|y| - 1];
      assert (x + y)[..|x + y| - 1] == x + y';
      HornerAppend(x, y');
      calc {
        Horner(x + y);
        Horner(x + y') * 11 + y[|y| - 1];
        (Horner(x) * Pow(11, |y'|) + Horner(y')) * 11 + y[|y| - 1];
        Horner(x) * (Pow(11, |y'|) * 11) + (Horner(y') * 11 + y[|y| - 1]);
        Horner(x) * Pow(11, |y|) + Horner(y);
      }
    }
  }

  lemma PlaceValue(hu: int, hv: int, su: int, sv: int, p: int)
    requires hu + 1 <= hv && 0 <= su < p && 0 <= sv
    ensures hu * p + su < hv * p + sv
  {
    assert (hu + 1) * p <= hv * p;
  }

  /** A vector that first differs from another by a larger digit has the larger
      base-11 value. */
  lemma HornerMonotone(u: seq<int>, v: seq<int>, k: int)
    requires |u| == |v| && 0 <= k < |u| && Digits11(u) && Digits11(v)
    requires u[..k] == v[..k] && u[k] < v[k]
    ensures Horner(u) < Horner(v)
  {
    var hu, hv := u[..k + 1], v[..k + 1];
    var tu, tv := u[k + 1..], v[k + 1..];
    assert u == hu + tu && v == hv + tv;
    assert hu[..k] == u[..k] && hv[..k] == v[..k];
    assert Horner(hu) + 1 <= Horner(hv) by {
      assert Horner(hu) == Horner(u[..k]) * 11 + u[k];
      assert Horner(hv) == Horner(v[..k]) * 11 + v[k];
    }
    HornerAppend(hu, tu);
    HornerAppend(hv, tv);
    assert Digits11(tu) && Digits11(tv);
    HornerBounds(tu);
    HornerBounds(tv);
    PlaceValue(Horner(hu), Horner(hv), Horner(tu), Horner(tv), Pow(11, |tu|));
  }
}
