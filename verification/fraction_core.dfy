/** What the two `Fraction` classes (fraction/fraction.py and
    archive/fraction/live.py) share: a pair of integer fields, the rational
    number it stands for, the cross-multiplication formulas, division of
    both fields by a common divisor, and the `"n/d"` rendering. */
module FractionCore {
  import opened PyInt
  import opened Text

  /** A fraction object: the two fields the constructor stores. Every object
      the constructors let through has a non-zero denominator. */
  datatype Fraction = Fraction(numerator: int, denominator: int)

  /** The rational number the fields stand for. */
  function Value(f: Fraction): real
    requires f.denominator != 0
  {
    f.numerator as real / f.denominator as real
  }

  /** Cross-multiplied equality of the fields. */
  predicate SameValue(f: Fraction, g: Fraction) {
    f.numerator * g.denominator == g.numerator * f.denominator
  }

  lemma SameValueIffValue(f: Fraction, g: Fraction)
    requires f.denominator != 0 && g.denominator != 0
    ensures SameValue(f, g) <==> Value(f) == Value(g)
  {
    var x1, y1 := f.numerator as real, f.denominator as real;
    var x2, y2 := g.numerator as real, g.denominator as real;
    assert (f.numerator * g.denominator) as real == x1 * y2;
    assert (g.numerator * f.denominator) as real == x2 * y1;
    assert x1 / y1 == x2 / y2 <==> x1 * y2 == x2 * y1 by {
      assert x1 / y1 * (y1 * y2) == x1 * y2;
      assert x2 / y2 * (y1 * y2) == x2 * y1;
    }
  }

  /** The fields have no common factor but 1 and -1. */
  predicate Coprime(f: Fraction) {
    MathGcd(f.numerator, f.denominator) == 1
  }

  // ---------------------------------------------------------------------
  // Cross multiplication
  // ---------------------------------------------------------------------

  /** `n1 * d2 + n2 * d1` over `d1 * d2`. */
  function Sum(a: Fraction, b: Fraction): (r: Fraction)
    requires a.denominator != 0 && b.denominator != 0
    ensures r.denominator != 0 && Value(r) == Value(a) + Value(b)
    ensures r.denominator > 0 <==> (a.denominator > 0 <==> b.denominator > 0)
  {
    ProductSign(a.denominator, b.denominator);
    var r := Fraction(a.numerator * b.denominator + b.numerator * a.denominator, a.denominator * b.denominator);
    var x1, y1 := a.numerator as real, a.denominator as real;
    var x2, y2 := b.numerator as real, b.denominator as real;
    assert r.numerator as real == x1 * y2 + x2 * y1;
    assert r.denominator as real == y1 * y2;
    assert (x1 * y2 + x2 * y1) / (y1 * y2) == x1 / y1 + x2 / y2;
    r
  }

  /** `n1 * d2 - n2 * d1` over `d1 * d2`. */
  function Difference(a: Fraction, b: Fraction): (r: Fraction)
    requires a.denominator != 0 && b.denominator != 0
    ensures r.denominator != 0 && Value(r) == Value(a) - Value(b)
    ensures r.denominator > 0 <==> (a.denominator > 0 <==> b.denominator > 0)
  {
    ProductSign(a.denominator, b.denominator);
    var r := Fraction(a.numerator * b.denominator - b.numerator * a.denominator, a.denominator * b.denominator);
    var x1, y1 := a.numerator as real, a.denominator as real;
    var x2, y2 := b.numerator as real, b.denominator as real;
    assert r.numerator as real == x1 * y2 - x2 * y1;
    assert r.denominator as real == y1 * y2;
    assert (x1 * y2 - x2 * y1) / (y1 * y2) == x1 / y1 - x2 / y2;
    r
  }

  /** `n1 * n2` over `d1 * d2`. */
  function Product(a: Fraction, b: Fraction): (r: Fraction)
    requires a.denominator != 0 && b.denominator != 0
    ensures r.denominator != 0 && Value(r) == Value(a) * Value(b)
    ensures r.denominator > 0 <==> (a.denominator > 0 <==> b.denominator > 0)
  {
    ProductSign(a.denominator, b.denominator);
    var r := Fraction(a.numerator * b.numerator, a.denominator * b.denominator);
    assert r.numerator as real == a.numerator as real * b.numerator as real;
    assert r.denominator as real == a.denominator as real * b.denominator as real;
    r
  }

  /** `n1 * d2` over `d1 * n2`; its denominator is 0 exactly when the
      divisor's numerator is. */
  function Quotient(a: Fraction, b: Fraction): (r: Fraction)
    requires a.denominator != 0 && b.denominator != 0
    ensures r.denominator == 0 <==> b.numerator == 0
    ensures r.denominator != 0 ==> Value(b) != 0.0 && Value(r) == Value(a) / Value(b)
  {
    var r := Fraction(a.numerator * b.denominator, a.denominator * b.numerator);
    assert r.numerator as real == a.numerator as real * b.denominator as real;
    assert r.denominator as real == a.denominator as real * b.numerator as real;
    r
  }

  // ---------------------------------------------------------------------
  // Dividing out a common divisor
  // ---------------------------------------------------------------------

  /** Both fields floor-divided by `g`. */
  function DivideFields(f: Fraction, g: int): Fraction
    requires g != 0
  {
    Fraction(FloorDiv(f.numerator, g), FloorDiv(f.denominator, g))
  }

  /** Sign of a product with a non-zero factor. */
  lemma ProductSign(g: int, k: int)
    requires g != 0 && g * k != 0
    ensures g * k > 0 <==> (g > 0 <==> k > 0)
  {
    if g > 0 && k < 0 {
      assert g * k == -(g * -k);
    } else if g < 0 && k > 0 {
      assert g * k == -(-g * k);
    } else if g < 0 && k < 0 {
      assert g * k == -g * -k;
    }
  }

  /** Dividing out a common divisor keeps the value; the denominator keeps
      its sign exactly when the divisor is positive. */
  lemma DivideByCommonDivisor(f: Fraction, g: int)
    requires f.denominator != 0 && g != 0 && Divides(g, f.numerator) && Divides(g, f.denominator)
    ensures DivideFields(f, g).denominator != 0
    ensures f.numerator == g * DivideFields(f, g).numerator
    ensures f.denominator == g * DivideFields(f, g).denominator
    ensures Value(DivideFields(f, g)) == Value(f)
    ensures DivideFields(f, g).denominator > 0 <==> (f.denominator > 0 <==> g > 0)
  {
    var k1 :| f.numerator == g * k1;
    var k2 :| f.denominator == g * k2;
    FloorDivExact(f.numerator, g, k1);
    FloorDivExact(f.denominator, g, k2);
    var r := DivideFields(f, g);
    assert r == Fraction(k1, k2);
    assert k1 * f.denominator == f.numerator * k2 by {
      assert k1 * (g * k2) == (g * k1) * k2;
    }
    SameValueIffValue(r, f);
    ProductSign(g, k2);
  }

  /** Dividing by a gcd (of either sign) leaves coprime fields. */
  lemma DivideByGcdCoprime(f: Fraction, g: int)
    requires f.denominator != 0 && Abs(g) == MathGcd(f.numerator, f.denominator)
    ensures g != 0 && Coprime(DivideFields(f, g))
  {
    var n, d := f.numerator, f.denominator;
    MathGcdIsGcd(n, d);
    DividesSigns(g, n);
    DividesSigns(g, d);
    DivideByCommonDivisor(f, g);
    var r := DivideFields(f, g);
    CofactorsCoprime(n, d, g, r.numerator, r.denominator);
  }

  /** Coprime fields with denominators of the same sign are determined by
      their value. */
  lemma ReducedUnique(f: Fraction, g: Fraction)
    requires f.denominator != 0 && g.denominator != 0 && Coprime(f) && Coprime(g)
    requires SameValue(f, g) && (f.denominator > 0 <==> g.denominator > 0)
    ensures f == g
  {
    CoprimeCrossEqual(f.numerator, f.denominator, g.numerator, g.denominator);
  }

  /** Coprime fields of the same value agree up to the sign of both. */
  lemma SameValueCoprime(r: Fraction, s: Fraction)
    requires r.denominator != 0 && s.denominator != 0 && Coprime(r) && Coprime(s)
    requires SameValue(r, s)
    ensures r == s || r == Fraction(-s.numerator, -s.denominator)
  {
    if (r.denominator > 0) == (s.denominator > 0) {
      CoprimeCrossEqual(r.numerator, r.denominator, s.numerator, s.denominator);
    } else {
      MathGcdNegate(s.numerator, s.denominator);
      NegateCross(r.numerator, r.denominator, s.numerator, s.denominator);
      CoprimeCrossEqual(r.numerator, r.denominator, -s.numerator, -s.denominator);
    }
  }

  /** Dividing coprime fields by 1 changes nothing. */
  lemma DivideByOne(f: Fraction)
    ensures DivideFields(f, 1) == f
  {
  }

  // ---------------------------------------------------------------------
  // Rendering
  // ---------------------------------------------------------------------

  /** `f"{self.numerator}/{self.denominator}"`. The rendering holds
      exactly one `/`: splitting at it gives back the two numbers' texts. */
  function Str(f: Fraction): (r: string)
    ensures Split(r, '/') == [IntToString(f.numerator), IntToString(f.denominator)]
  {
    var s1, s2 := IntToString(f.numerator), IntToString(f.denominator);
    IntToStringNoChar(f.numerator, '/');
    IntToStringNoChar(f.denominator, '/');
    SplitFirst(s1, s2, '/');
    s1 + ['/'] + s2
  }
}
