/** The `Fraction` class of fraction/fraction.py on its integer paths: the
    checking constructor, `from_string`, `simplify` by `math.gcd`, equality
    of simplified fields, the four arithmetic operators (each simplifying
    its result), `str` and `int`. */
module Fractions {
  import opened Wrappers
  import opened PyInt
  import opened Text
  import opened Lex
  import opened FractionCore

  const ZeroDenominator := ValueError("Denominator can't be 0")
  const TooManyValues := ValueError("too many values to unpack (expected 2)")

  /** `Fraction(numerator, denominator)` with an integer numerator: a zero
      denominator is rejected before anything else. */
  function New(numerator: int, denominator: int): (r: Result<Fraction>)
    ensures r.Err? <==> denominator == 0
    ensures r.Err? ==> r.error == ZeroDenominator
    ensures r.Ok? ==> r.value.numerator == numerator && r.value.denominator == denominator
  {
    if denominator == 0 then Err(ZeroDenominator) else Ok(Fraction(numerator, denominator))
  }

  /** `simplify`: both fields floor-divided by `math.gcd` of the two, which
      is positive since the denominator is not 0. The value stays, the fields
      become coprime, and the sign of the denominator is kept: no sign
      normalisation happens. */
  function Simplify(f: Fraction): (r: Fraction)
    requires f.denominator != 0
    ensures r.denominator != 0 && Value(r) == Value(f) && Coprime(r)
    ensures r.denominator > 0 <==> f.denominator > 0
    ensures Coprime(f) ==> r == f
  {
    var g := MathGcd(f.numerator, f.denominator);
    DivideByGcdCoprime(f, g);
    MathGcdIsGcd(f.numerator, f.denominator);
    DivideByCommonDivisor(f, g);
    if Coprime(f) then DivideByOne(f); DivideFields(f, g) else DivideFields(f, g)
  }

  lemma SimplifyIdempotent(f: Fraction)
    requires f.denominator != 0
    ensures Simplify(Simplify(f)) == Simplify(f)
  {
  }

  /** Two fractions of the same value and denominators of the same sign
      simplify to the same fields. */
  lemma SimplifyCanonical(a: Fraction, b: Fraction)
    requires a.denominator != 0 && b.denominator != 0
    requires Value(a) == Value(b) && (a.denominator > 0 <==> b.denominator > 0)
    ensures Simplify(a) == Simplify(b)
  {
    SameValueIffValue(Simplify(a), Simplify(b));
    ReducedUnique(Simplify(a), Simplify(b));
  }

  /** `a == b`: the simplified fields agree. Equal fractions have the same
      value and denominators of the same sign. */
  function Equal(a: Fraction, b: Fraction): (eq: bool)
    requires a.denominator != 0 && b.denominator != 0
    ensures eq ==> Value(a) == Value(b) && (a.denominator > 0 <==> b.denominator > 0)
  {
    var x, y := Simplify(a), Simplify(b);
    x.numerator == y.numerator && x.denominator == y.denominator
  }

  /** Equality holds exactly for equal values with denominators of the same
      sign; with positive denominators it is cross-multiplied equality. */
  lemma EqualIff(a: Fraction, b: Fraction)
    requires a.denominator != 0 && b.denominator != 0
    ensures Equal(a, b) <==> Value(a) == Value(b) && (a.denominator > 0 <==> b.denominator > 0)
    ensures a.denominator > 0 && b.denominator > 0 ==> (Equal(a, b) <==> SameValue(a, b))
  {
    SameValueIffValue(a, b);
    if Value(a) == Value(b) && (a.denominator > 0 <==> b.denominator > 0) {
      SimplifyCanonical(a, b);
    }
  }

  /** One half and minus one over minus two have the same value but are not
      equal. */
  lemma SignMatters()
    ensures SameValue(Fraction(1, 2), Fraction(-1, -2))
    ensures !Equal(Fraction(1, 2), Fraction(-1, -2))
  {
    EqualIff(Fraction(1, 2), Fraction(-1, -2));
  }

  /** `a + b`: cross-multiplied, then simplified. */
  function Add(a: Fraction, b: Fraction): (r: Fraction)
    requires a.denominator != 0 && b.denominator != 0
    ensures r.denominator != 0 && Value(r) == Value(a) + Value(b) && Coprime(r)
    ensures r.denominator > 0 <==> (a.denominator > 0 <==> b.denominator > 0)
  {
    Simplify(Sum(a, b))
  }

  /** `a - b`: cross-multiplied, then simplified. */
  function Sub(a: Fraction, b: Fraction): (r: Fraction)
    requires a.denominator != 0 && b.denominator != 0
    ensures r.denominator != 0 && Value(r) == Value(a) - Value(b) && Coprime(r)
    ensures r.denominator > 0 <==> (a.denominator > 0 <==> b.denominator > 0)
  {
    Simplify(Difference(a, b))
  }

  /** `a * b`: multiplied field by field, then simplified. */
  function Mul(a: Fraction, b: Fraction): (r: Fraction)
    requires a.denominator != 0 && b.denominator != 0
    ensures r.denominator != 0 && Value(r) == Value(a) * Value(b) && Coprime(r)
    ensures r.denominator > 0 <==> (a.denominator > 0 <==> b.denominator > 0)
  {
    Simplify(Product(a, b))
  }

  /** `a / b`: the cross-multiplied quotient goes through the constructor, so
      a divisor with numerator 0 raises the zero-denominator error. */
  function Div(a: Fraction, b: Fraction): (r: Result<Fraction>)
    requires a.denominator != 0 && b.denominator != 0
    ensures r.Err? <==> b.numerator == 0
    ensures r.Err? ==> r.error == ZeroDenominator
    ensures r.Ok? ==> r.value.denominator != 0 && Value(b) != 0.0
    ensures r.Ok? ==> Value(r.value) == Value(a) / Value(b) && Coprime(r.value)
  {
    var q := Quotient(a, b);
    match New(q.numerator, q.denominator)
    case Err(e) => Err(e)
    case Ok(f) => Ok(Simplify(f))
  }

  /** `int(f)`: `numerator // denominator`, the largest integer not above the
      value. */
  function Int(f: Fraction): (r: int)
    requires f.denominator != 0
    ensures r as real <= Value(f) < (r + 1) as real
  {
    var q, m := FloorDiv(f.numerator, f.denominator), FloorMod(f.numerator, f.denominator);
    FloorDivMod(f.numerator, f.denominator);
    FloorBounds(f.numerator, f.denominator, q, m);
    q
  }

  /** Real-valued reading of `n == d * q + m` with the remainder in Python's
      range. */
  lemma FloorBounds(n: int, d: int, q: int, m: int)
    requires d != 0 && n == d * q + m
    requires d > 0 ==> 0 <= m < d
    requires d < 0 ==> d < m <= 0
    ensures q as real <= n as real / d as real < (q + 1) as real
  {
    var x, y, qr, mr := n as real, d as real, q as real, m as real;
    assert x == y * qr + mr;
    assert x / y == qr + mr / y;
    if d > 0 {
      assert 0.0 <= mr / y < 1.0;
    } else {
      assert 0.0 <= mr / y < 1.0 by {
        assert mr / y == (-mr) / (-y);
      }
    }
  }

  // ---------------------------------------------------------------------
  // from_string
  // ---------------------------------------------------------------------

  /** `numerator, denominator = map(int, parts)`: the conversions run lazily
      in order, and a third part is converted before the unpacking
      complains that there are too many. */
  function UnpackTwoInts(parts: seq<string>): (r: Result<(int, int)>)
    requires |parts| >= 2
    ensures r.Ok? <==> |parts| == 2 && ValidIntLiteral(parts[0]) && ValidIntLiteral(parts[1])
    ensures r.Ok? ==> ParseInt(parts[0]) == Ok(r.value.0) && ParseInt(parts[1]) == Ok(r.value.1)
  {
    match ParseInt(parts[0])
    case Err(e) => Err(e)
    case Ok(n) =>
      match ParseInt(parts[1])
      case Err(e) => Err(e)
      case Ok(d) =>
        if |parts| == 2 then Ok((n, d))
        else
          match ParseInt(parts[2])
          case Err(e) => Err(e)
          case Ok(_) => Err(TooManyValues)
  }

  /** `Fraction.from_string(value)`: `"n/d"` gives the fraction unsimplified,
      `"x.y"` gives `int(x + y)` over `10 ** len(y)` simplified, and
      anything else `int(value)` over 1. */
  function FromString(value: string): (r: Result<Fraction>)
    ensures r.Ok? ==> r.value.denominator != 0
    ensures '/' in value ==>
      var parts := Split(value, '/');
      && (r.Ok? <==> |parts| == 2 && ValidIntLiteral(parts[0]) && ValidIntLiteral(parts[1])
                     && ParseInt(parts[1]).value != 0)
      && (r.Ok? ==> r.value == Fraction(ParseInt(parts[0]).value, ParseInt(parts[1]).value))
    ensures '/' !in value && '.' in value ==>
      var parts := Split(value, '.');
      && (r.Ok? <==> |parts| == 2 && ValidIntLiteral(parts[0] + parts[1]))
      && (r.Ok? ==> && Coprime(r.value) && r.value.denominator > 0
                    && Value(r.value) == Value(Fraction(ParseInt(parts[0] + parts[1]).value,
                                                        Pow(10, |parts[1]|))))
    ensures '/' !in value && '.' !in value ==>
      && (r.Ok? <==> ValidIntLiteral(value))
      && (r.Ok? ==> r.value == Fraction(ParseInt(value).value, 1))
  {
    if '/' in value then
      match UnpackTwoInts(Split(value, '/'))
      case Err(e) => Err(e)
      case Ok(nd) => New(nd.0, nd.1)
    else if '.' in value then
      var parts := Split(value, '.');
      if |parts| != 2 then Err(TooManyValues)
      else
        var denominator := Pow(10, |parts[1]|);
        match ParseInt(parts[0] + parts[1])
        case Err(e) => Err(e)
        case Ok(n) => Ok(Simplify(Fraction(n, denominator)))
    else
      match ParseInt(value)
      case Err(e) => Err(e)
      case Ok(n) => New(n, 1)
  }

  /** Parsing the rendering gives back the same fields. */
  lemma FromStringStr(f: Fraction)
    requires f.denominator != 0
    ensures FromString(Str(f)) == Ok(f)
  {
    var s := Str(f);
    assert s[|IntToString(f.numerator)|] == '/';
    ParseIntToString(f.numerator);
    ParseIntToString(f.denominator);
  }

  /** The demonstration inputs `"1/2"`, `"1"` and `"2/3"`. */
  lemma FromStringExamples()
    ensures FromString("1/2") == Ok(Fraction(1, 2))
    ensures FromString("1") == Ok(Fraction(1, 1))
    ensures FromString("2/3") == Ok(Fraction(2, 3))
  {
    FromStringStr(Fraction(1, 2));
    FromStringStr(Fraction(2, 3));
    assert Str(Fraction(1, 2)) == "1/2";
    assert Str(Fraction(2, 3)) == "2/3";
    assert ParseInt("1") == Ok(1);
  }

  /** Five tenths simplify to one half. */
  lemma SimplifyFiveTenths()
    ensures Simplify(Fraction(5, 10)) == Fraction(1, 2)
  {
    assert MathGcd(5, 10) == 5 by {
      assert FloorMod(5, 10) == 5 && FloorMod(10, 5) == 0;
      assert Euclid(5, 10) == 5;
    }
    assert FloorDiv(5, 5) == 1 && FloorDiv(10, 5) == 2;
  }

  /** The demonstration input `"0.5"` gives one half. */
  lemma FromStringDecimalExample()
    ensures FromString("0.5") == Ok(Fraction(1, 2))
  {
    assert "0.5" == "0" + ['.'] + "5";
    SplitFirst("0", "5", '.');
    assert Split("0.5", '.') == ["0", "5"];
    assert "0" + "5" == "05";
    assert ParseInt("05") == Ok(5) by {
      assert "05"[..1] == "0";
    }
    assert Pow(10, 1) == 10;
    SimplifyFiveTenths();
  }
}
