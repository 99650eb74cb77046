/** Python's integer operations the small numeric modules rely on: floor
    division `//`, the remainder `%` (which takes the sign of the divisor),
    `math.gcd`, and divisibility. Dafny's own `/` and `%` are Euclidean, so
    the Python operators are defined on top of them. */
module PyInt {

  function Abs(x: int): nat {
    if x < 0 then -x else x
  }

  // ---------------------------------------------------------------------
  // Floor division and remainder
  // ---------------------------------------------------------------------

  /** `a // b`: the quotient rounded toward minus infinity. */
  function FloorDiv(a: int, b: int): int
    requires b != 0
  {
    if b > 0 || a % b == 0 then a / b else a / b - 1
  }

  /** `a % b`: zero or of the sign of `b`, smaller than `b` in magnitude. */
  function FloorMod(a: int, b: int): (r: int)
    requires b != 0
    ensures b > 0 ==> 0 <= r < b
    ensures b < 0 ==> b < r <= 0
  {
    if b > 0 || a % b == 0 then a % b else a % b + b
  }

  /** The two operators fit together as Python promises:
      `a == b * (a // b) + a % b`. */
  lemma FloorDivMod(a: int, b: int)
    requires b != 0
    ensures a == b * FloorDiv(a, b) + FloorMod(a, b)
  {
    if !(b > 0 || a % b == 0) {
      assert b * (a / b - 1) == b * (a / b) - b;
    }
  }

  /** Any quotient and remainder that satisfy the identity with a remainder
      in Python's range are `a // b` and `a % b`. */
  lemma FloorDivModUnique(a: int, b: int, q: int, r: int)
    requires b != 0 && a == b * q + r
    requires b > 0 ==> 0 <= r < b
    requires b < 0 ==> b < r <= 0
    ensures q == FloorDiv(a, b) && r == FloorMod(a, b)
  {
    FloorDivMod(a, b);
    var q', r' := FloorDiv(a, b), FloorMod(a, b);
    assert b * (q - q') == r' - r;
    if q > q' {
      MulMagnitude(b, q - q');
    } else if q < q' {
      MulMagnitude(b, q' - q);
    }
  }

  /** A non-zero multiple of `b` is at least `b` in magnitude. */
  lemma MulMagnitude(b: int, m: int)
    requires b != 0 && m >= 1
    ensures Abs(b * m) >= Abs(b)
  {
    if b > 0 {
      assert b * m == b + b * (m - 1);
    } else {
      assert b * m == b + b * (m - 1);
      assert b * (m - 1) <= 0;
    }
  }

  /** Exact division: when `b` divides `a`, `a // b` is the cofactor. */
  lemma FloorDivExact(a: int, b: int, k: int)
    requires b != 0 && a == b * k
    ensures FloorDiv(a, b) == k && FloorMod(a, b) == 0
  {
    FloorDivModUnique(a, b, k, 0);
  }

  // ---------------------------------------------------------------------
  // Divisibility
  // ---------------------------------------------------------------------

  /** `d` divides `a`: `a` is `d` times some integer. */
  ghost predicate Divides(d: int, a: int) {
    exists k :: a == d * k
  }

  lemma DividesZero(d: int)
    ensures Divides(d, 0)
  {
    assert 0 == d * 0;
  }

  lemma DividesSelf(d: int)
    ensures Divides(d, d)
  {
    assert d == d * 1;
  }

  lemma DividesOne(a: int)
    ensures Divides(1, a) && Divides(-1, a)
  {
    assert a == 1 * a;
    assert a == -1 * -a;
  }

  /** Divisors of `x` and `y` divide `x + m * y`. */
  lemma DividesCombine(d: int, x: int, y: int, m: int)
    requires Divides(d, x) && Divides(d, y)
    ensures Divides(d, x + m * y)
  {
    var k1 :| x == d * k1;
    var k2 :| y == d * k2;
    assert x + m * y == d * (k1 + m * k2);
  }

  /** Divisors of `a` divide every multiple of `a`. */
  lemma DividesMultiple(d: int, a: int, m: int)
    requires Divides(d, a)
    ensures Divides(d, a * m)
  {
    var k :| a == d * k;
    assert a * m == d * (k * m);
  }

  /** Divisibility ignores the sign of the dividend. */
  lemma DividesNeg(d: int, a: int)
    ensures Divides(d, a) <==> Divides(d, -a)
  {
    if Divides(d, a) {
      var k :| a == d * k;
      assert -a == d * -k;
    }
    if Divides(d, -a) {
      var k :| -a == d * k;
      assert a == d * -k;
    }
  }

  /** Divisibility ignores the sign of the divisor. */
  lemma DividesNegDivisor(d: int, a: int)
    ensures Divides(d, a) <==> Divides(-d, a)
  {
    if Divides(d, a) {
      var k :| a == d * k;
      assert a == -d * -k;
    }
    if Divides(-d, a) {
      var k :| a == -d * k;
      assert a == d * -k;
    }
  }

  /** Divisibility ignores signs. */
  lemma DividesSigns(d: int, a: int)
    ensures Divides(d, a) <==> Divides(d, -a)
    ensures Divides(d, a) <==> Divides(-d, a)
    ensures Divides(d, a) <==> Divides(Abs(d), Abs(a))
  {
    DividesNeg(d, a);
    DividesNegDivisor(d, a);
    DividesNeg(-d, a);
  }

  /** A positive divisor of a positive number is not larger than it. */
  lemma DividesBound(d: int, a: int)
    requires d > 0 && a > 0 && Divides(d, a)
    ensures d <= a
  {
    var k :| a == d * k;
    if k >= 1 {
      MulMagnitude(d, k);
    }
  }

  /** Two non-negative numbers that divide each other are equal. */
  lemma DividesAntisymmetric(x: int, y: int)
    requires x >= 0 && y >= 0 && Divides(x, y) && Divides(y, x)
    ensures x == y
  {
    if x == 0 {
      var k :| y == x * k;
    } else if y == 0 {
      var k :| x == y * k;
    } else {
      DividesBound(x, y);
      DividesBound(y, x);
    }
  }

  // ---------------------------------------------------------------------
  // Greatest common divisor
  // ---------------------------------------------------------------------

  /** `g` is a greatest common divisor of `a` and `b`: a common divisor that
      every common divisor divides. */
  ghost predicate IsGcd(g: int, a: int, b: int) {
    && Divides(g, a) && Divides(g, b)
    && forall d :: Divides(d, a) && Divides(d, b) ==> Divides(d, g)
  }

  /** Two greatest common divisors agree up to sign. */
  lemma GcdUnique(g: int, h: int, a: int, b: int)
    requires IsGcd(g, a, b) && IsGcd(h, a, b)
    ensures Abs(g) == Abs(h)
  {
    assert Divides(g, h) && Divides(h, g);
    DividesSigns(g, h);
    DividesSigns(h, g);
    DividesAntisymmetric(Abs(g), Abs(h));
  }

  /** Euclid's recursion with Python's `%`: `gcd(b, a % b)` until `b` is 0.
      Each step makes `b` smaller in magnitude, so it stops for all integers;
      the result can be negative when an operand is, is never negative for
      natural operands, and is 0 only for two zero operands. */
  function Euclid(a: int, b: int): (r: int)
    ensures r == 0 <==> a == 0 && b == 0
    ensures a >= 0 && b >= 0 ==> r >= 0
    decreases Abs(b)
  {
    if b == 0 then a else Euclid(b, FloorMod(a, b))
  }

  /** The pair (b, a % b) has the same common divisors as (a, b). */
  lemma EuclidStep(a: int, b: int, d: int)
    requires b != 0
    ensures Divides(d, a) && Divides(d, b) <==> Divides(d, b) && Divides(d, FloorMod(a, b))
  {
    FloorDivMod(a, b);
    var q, r := FloorDiv(a, b), FloorMod(a, b);
    if Divides(d, a) && Divides(d, b) {
      StepForward(a, b, q, r, d);
    }
    if Divides(d, b) && Divides(d, r) {
      StepBackward(a, b, q, r, d);
    }
  }

  lemma StepForward(a: int, b: int, q: int, r: int, d: int)
    requires a == b * q + r && Divides(d, a) && Divides(d, b)
    ensures Divides(d, r)
  {
    DividesCombine(d, a, b, -q);
    assert a + -q * b == r;
  }

  lemma StepBackward(a: int, b: int, q: int, r: int, d: int)
    requires a == b * q + r && Divides(d, b) && Divides(d, r)
    ensures Divides(d, a)
  {
    DividesCombine(d, r, b, q);
    assert r + q * b == a;
  }

  lemma {:induction false} EuclidIsGcd(a: int, b: int)
    ensures IsGcd(Euclid(a, b), a, b)
    decreases Abs(b)
  {
    if b == 0 {
      DividesSelf(a);
      DividesZero(a);
    } else {
      var r := FloorMod(a, b);
      EuclidIsGcd(b, r);
      var g := Euclid(b, r);
      EuclidStep(a, b, g);
      forall d | Divides(d, a) && Divides(d, b)
        ensures Divides(d, g)
      {
        EuclidStep(a, b, d);
      }
    }
  }

  /** `math.gcd(a, b)`: the non-negative greatest common divisor, 0 for two
      zeros. */
  function MathGcd(a: int, b: int): (g: nat)
    ensures Abs(Euclid(a, b)) == g
  {
    EuclidIsGcd(a, b);
    EuclidIsGcd(Abs(a), Abs(b));
    forall d
      ensures Divides(d, a) && Divides(d, b) <==> Divides(d, Abs(a)) && Divides(d, Abs(b))
    {
      DividesSigns(d, a);
      DividesSigns(d, b);
      DividesSigns(d, Abs(a));
      DividesSigns(d, Abs(b));
    }
    GcdUnique(Euclid(a, b), Euclid(Abs(a), Abs(b)), a, b);
    Euclid(Abs(a), Abs(b))
  }

  /** `math.gcd` is a greatest common divisor, positive unless both operands
      are 0. */
  lemma MathGcdIsGcd(a: int, b: int)
    ensures IsGcd(MathGcd(a, b), a, b)
    ensures MathGcd(a, b) == 0 <==> a == 0 && b == 0
  {
    var e := Euclid(a, b);
    EuclidIsGcd(a, b);
    forall d | Divides(d, a) && Divides(d, b)
      ensures Divides(d, MathGcd(a, b))
    {
      DividesSigns(d, e);
    }
    DividesSigns(e, a);
    DividesSigns(e, b);
    DividesSigns(-e, a);
    DividesSigns(-e, b);
    assert MathGcd(a, b) == e || MathGcd(a, b) == -e;
  }

  /** `math.gcd` does not depend on the order of its operands. */
  lemma MathGcdSymmetric(a: int, b: int)
    ensures MathGcd(a, b) == MathGcd(b, a)
  {
    MathGcdIsGcd(a, b);
    MathGcdIsGcd(b, a);
    GcdUnique(MathGcd(a, b), MathGcd(b, a), a, b);
  }

  /** The arithmetic of one step of the extended Euclid recursion. */
  lemma BezoutStep(a: int, b: int, q: int, r: int, x: int, y: int)
    requires a == b * q + r
    ensures y * a + (x - y * q) * b == x * b + y * r
  {
    assert y * a == y * (b * q) + y * r;
    assert (x - y * q) * b == x * b - (y * q) * b;
    assert y * (b * q) == (y * q) * b;
  }

  /** Bezout coefficients along Euclid's recursion. */
  lemma {:induction false} Bezout(a: int, b: int) returns (x: int, y: int)
    ensures x * a + y * b == Euclid(a, b)
    decreases Abs(b)
  {
    if b == 0 {
      x, y := 1, 0;
    } else {
      var q, r := FloorDiv(a, b), FloorMod(a, b);
      FloorDivMod(a, b);
      var x', y' := Bezout(b, r);
      BezoutStep(a, b, q, r, x', y');
      x, y := y', x' - y' * q;
    }
  }

  /** The arithmetic of Euclid's lemma: from `x * d + y * n == e` with
      `e == 1` or `e == -1`, `m` is a multiple of `d` once `n * m` is. */
  lemma CoprimeArithmetic(d: int, n: int, m: int, x: int, y: int, e: int, k: int)
    requires x * d + y * n == e && (e == 1 || e == -1) && n * m == d * k
    ensures m == d * (e * (x * m + y * k))
  {
    assert e * m == x * d * m + y * (n * m) by {
      assert (x * d + y * n) * m == x * d * m + y * n * m;
    }
    assert e * m == d * (x * m + y * k);
    assert m == e * (e * m);
  }

  /** Euclid's lemma: a divisor of a product that shares no factor with one
      side divides the other. */
  lemma CoprimeDividesProduct(d: int, n: int, m: int)
    requires MathGcd(d, n) == 1 && Divides(d, n * m)
    ensures Divides(d, m)
  {
    var x, y := Bezout(d, n);
    var e := Euclid(d, n);
    var k :| n * m == d * k;
    CoprimeArithmetic(d, n, m, x, y, e, k);
  }

  lemma MulAbs(g: int, h: nat)
    ensures Abs(g * h) == Abs(g) * h
  {
    if g < 0 {
      assert g * h == -((-g) * h);
    }
  }

  /** A positive number times `h >= 1` stays below itself only for `h == 1`. */
  lemma FactorOne(a: int, h: int)
    requires a > 0 && h >= 1 && a * h <= a
    ensures h == 1
  {
    if h >= 2 {
      assert a * h == a + a * (h - 1);
      MulMagnitude(a, h - 1);
    }
  }

  /** Cancelling a non-zero factor. */
  lemma Cancel(a: int, b: int, c: int)
    requires c != 0 && a * c == b * c
    ensures a == b
  {
    assert c * (a - b) == a * c - b * c;
    if a > b {
      MulMagnitude(c, a - b);
    } else if a < b {
      MulMagnitude(c, b - a);
    }
  }

  /** Scaling a divisor and its multiple by the same factor. */
  lemma DividesScaled(g: int, h: int, k: int)
    requires Divides(h, k)
    ensures Divides(g * h, g * k)
  {
    var j :| k == h * j;
    assert g * k == (g * h) * j by {
      assert g * (h * j) == (g * h) * j;
    }
  }

  /** A common divisor `h` of the cofactors gives the common divisor `g * h`
      of the numbers, which must then divide their gcd `Abs(g)`. */
  lemma ScaledCommonDivisor(n: int, d: int, g: int, k1: int, k2: int, h: int)
    requires Abs(g) == MathGcd(n, d) && n == g * k1 && d == g * k2
    requires Divides(h, k1) && Divides(h, k2)
    ensures Divides(g * h, Abs(g))
  {
    DividesScaled(g, h, k1);
    DividesScaled(g, h, k2);
    MathGcdIsGcd(n, d);
  }

  /** Dividing two numbers by their gcd (taken with either sign) leaves
      cofactors whose gcd is 1. */
  lemma CofactorsCoprime(n: int, d: int, g: int, k1: int, k2: int)
    requires d != 0 && Abs(g) == MathGcd(n, d) && n == g * k1 && d == g * k2
    ensures MathGcd(k1, k2) == 1
  {
    var h := MathGcd(k1, k2);
    MathGcdIsGcd(k1, k2);
    assert k2 != 0;
    assert g != 0;
    ScaledCommonDivisor(n, d, g, k1, k2, h);
    DividesSigns(g * h, Abs(g));
    MulAbs(g, h);
    DividesBound(Abs(g) * h, Abs(g));
    FactorOne(Abs(g), h);
  }

  /** A number coprime to `n1` that divides `n1 * d2` divides `d2`; spelled
      out for cross-multiplied equality. */
  lemma CrossDivides(n1: int, d1: int, n2: int, d2: int)
    requires MathGcd(n1, d1) == 1 && n1 * d2 == n2 * d1
    ensures Divides(d1, d2)
  {
    MathGcdSymmetric(n1, d1);
    assert n1 * d2 == d1 * n2;
    CoprimeDividesProduct(d1, n1, d2);
  }

  /** Coprime pairs with equal cross products and denominators of the same
      sign are equal. */
  lemma CoprimeCrossEqual(n1: int, d1: int, n2: int, d2: int)
    requires d1 != 0 && d2 != 0 && MathGcd(n1, d1) == 1 && MathGcd(n2, d2) == 1
    requires n1 * d2 == n2 * d1 && (d1 > 0 <==> d2 > 0)
    ensures n1 == n2 && d1 == d2
  {
    CrossDivides(n1, d1, n2, d2);
    CrossDivides(n2, d2, n1, d1);
    DividesSigns(d1, d2);
    DividesSigns(d2, d1);
    DividesAntisymmetric(Abs(d1), Abs(d2));
    assert d1 == d2;
    Cancel(n1, n2, d1);
  }

  /** `math.gcd` ignores the signs of its operands. */
  lemma MathGcdNegate(a: int, b: int)
    ensures MathGcd(-a, -b) == MathGcd(a, b)
  {
    assert Abs(-a) == Abs(a) && Abs(-b) == Abs(b);
  }

  /** Negating one pair keeps the cross products equal. */
  lemma NegateCross(n1: int, d1: int, n2: int, d2: int)
    requires n1 * d2 == n2 * d1
    ensures n1 * -d2 == -n2 * d1
  {
    assert n1 * -d2 == -(n1 * d2);
    assert -n2 * d1 == -(n2 * d1);
  }
}
