/** The `Fraction` class of archive/fraction/live.py: the operators return
    the cross-multiplied fields unsimplified, `add` simplifies on request,
    division checks the divisor's numerator itself, and `simplify` uses a
    local Euclid loop with Python's `%`, whose result takes the sign the
    remainders lead to. */
module LiveFractions {
  import opened Wrappers
  import opened PyInt
  import opened FractionCore
  import Fractions

  const ZeroDenominator := ValueError("Denominator cannot be zero.")
  const DivideByZero := ValueError("Cannot divide by zero.")

  /** `Fraction(numerator, denominator)`. */
  function New(numerator: int, denominator: int): (r: Result<Fraction>)
    ensures r.Err? <==> denominator == 0
    ensures r.Err? ==> r.error == ZeroDenominator
    ensures r.Ok? ==> r.value.numerator == numerator && r.value.denominator == denominator
  {
    if denominator == 0 then Err(ZeroDenominator) else Ok(Fraction(numerator, denominator))
  }

  /** `a + b`: the cross-multiplied sum, not simplified. */
  function AddOp(a: Fraction, b: Fraction): (r: Fraction)
    requires a.denominator != 0 && b.denominator != 0
    ensures r.denominator == a.denominator * b.denominator && r.denominator != 0
    ensures Value(r) == Value(a) + Value(b)
  {
    Sum(a, b)
  }

  /** `simplify`: both fields floor-divided by the local Euclid gcd. That
      divisor is never 0, so the value is kept and the fields become
      coprime; the denominator changes sign exactly when the divisor is
      negative. */
  function Simplify(f: Fraction): (r: Fraction)
    requires f.denominator != 0
    ensures r.denominator != 0 && Value(r) == Value(f) && Coprime(r)
    ensures r.denominator > 0 <==> (f.denominator > 0 <==> Euclid(f.numerator, f.denominator) > 0)
  {
    var g := Euclid(f.numerator, f.denominator);
    EuclidIsGcd(f.numerator, f.denominator);
    DivideByCommonDivisor(f, g);
    DivideByGcdCoprime(f, g);
    DivideFields(f, g)
  }

  /** `1/-2` simplifies to `-1/2`: the gcd loop ends at -1. */
  lemma SimplifyNegativeDenominator()
    ensures Simplify(Fraction(1, -2)) == Fraction(-1, 2)
  {
    assert FloorMod(1, -2) == -1 && FloorMod(-2, -1) == 0;
    assert Euclid(1, -2) == -1;
    assert FloorDiv(1, -1) == -1 && FloorDiv(-2, -1) == 2;
  }

  /** With a non-negative numerator and a positive denominator both
      `simplify` methods give the same fields; otherwise they agree up to
      the sign of both fields. */
  lemma SimplifyAgrees(f: Fraction)
    requires f.denominator != 0
    ensures f.numerator >= 0 && f.denominator > 0 ==> Simplify(f) == Fractions.Simplify(f)
    ensures Simplify(f) == Fractions.Simplify(f)
      || Simplify(f) == Fraction(-Fractions.Simplify(f).numerator, -Fractions.Simplify(f).denominator)
  {
    var r, s := Simplify(f), Fractions.Simplify(f);
    SameValueIffValue(r, s);
    SameValueCoprime(r, s);
    if f.numerator >= 0 && f.denominator > 0 {
      ReducedUnique(r, s);
    }
  }

  /** `add(fraction1, fraction2, simplify=True)`: the sum of `__add__`,
      simplified unless `simplify` is false. */
  function Add(a: Fraction, b: Fraction, simplify: bool): (r: Fraction)
    requires a.denominator != 0 && b.denominator != 0
    ensures r.denominator != 0 && Value(r) == Value(a) + Value(b)
    ensures !simplify ==> r == AddOp(a, b)
    ensures simplify ==> r == Simplify(AddOp(a, b)) && Coprime(r)
  {
    var sum := AddOp(a, b);
    if simplify then Simplify(sum) else sum
  }

  /** `a - b`: the cross-multiplied difference, not simplified. */
  function SubOp(a: Fraction, b: Fraction): (r: Fraction)
    requires a.denominator != 0 && b.denominator != 0
    ensures r.denominator == a.denominator * b.denominator && r.denominator != 0
    ensures Value(r) == Value(a) - Value(b)
  {
    Difference(a, b)
  }

  /** `a * b`: the products of the fields, not simplified. */
  function MulOp(a: Fraction, b: Fraction): (r: Fraction)
    requires a.denominator != 0 && b.denominator != 0
    ensures r.numerator == a.numerator * b.numerator && r.denominator == a.denominator * b.denominator
    ensures r.denominator != 0 && Value(r) == Value(a) * Value(b)
  {
    Product(a, b)
  }

  /** `a / b`: rejected when the divisor's numerator is 0, otherwise the
      cross-multiplied quotient, not simplified. */
  function DivOp(a: Fraction, b: Fraction): (r: Result<Fraction>)
    requires a.denominator != 0 && b.denominator != 0
    ensures r.Err? <==> b.numerator == 0
    ensures r.Err? ==> r.error == DivideByZero
    ensures r.Ok? ==> r.value.denominator == a.denominator * b.numerator && r.value.denominator != 0
    ensures r.Ok? ==> Value(b) != 0.0 && Value(r.value) == Value(a) / Value(b)
  {
    if b.numerator == 0 then Err(DivideByZero) else Ok(Quotient(a, b))
  }
}
