/** The pieces of Python's string handling the model needs: `str(int)`,
    `int(str)` for decimal literals, `sep.join(parts)`, `s.split(c)` and
    `c * n`. */
module Text {
  import opened Wrappers

  predicate IsDigitChar(c: char) {
    '0' <= c <= '9'
  }

  predicate AllDigitChars(s: string) {
    forall k :: 0 <= k < |s| ==> IsDigitChar(s[k])
  }

  function DigitChar(d: int): (c: char)
    requires 0 <= d <= 9
    ensures IsDigitChar(c)
  {
    ('0' as int + d) as char
  }

  function DigitValue(c: char): (d: int)
    requires IsDigitChar(c)
    ensures 0 <= d <= 9
  {
    c as int - '0' as int
  }

  lemma DigitRoundTrip(d: int, c: char)
    requires 0 <= d <= 9 && IsDigitChar(c)
    ensures DigitValue(DigitChar(d)) == d && DigitChar(DigitValue(c)) == c
  {
  }

  // ---------------------------------------------------------------------
  // str(int) and int(str)
  // ---------------------------------------------------------------------

  /** Decimal digits of `n`, most significant first, without leading zeros. */
  function NatToString(n: nat): (s: string)
    ensures |s| >= 1 && AllDigitChars(s)
    ensures s[0] == '0' ==> n == 0
    decreases n
  {
    if n < 10 then [DigitChar(n)] else NatToString(n / 10) + [DigitChar(n % 10)]
  }

  /** `str(n)`: a minus sign for negative numbers, then the digits. */
  function IntToString(n: int): string {
    if n < 0 then "-" + NatToString(-n) else NatToString(n)
  }

  /** The value of a string of decimal digits. */
  function DigitsValue(s: string): nat
    requires AllDigitChars(s)
    decreases |s|
  {
    if |s| == 0 then 0 else DigitsValue(s[..|s| - 1]) * 10 + DigitValue(s[|s| - 1])
  }

  lemma {:induction false} NatToStringValue(n: nat)
    ensures DigitsValue(NatToString(n)) == n
    decreases n
  {
    if n >= 10 {
      var s := NatToString(n);
      NatToStringValue(n / 10);
      assert s[..|s| - 1] == NatToString(n / 10);
    }
  }

  /** `int(s)` for a decimal literal: an optional `+` or `-`, then at least
      one digit. Anything else raises `ValueError`. The value is the
      digits' decimal value, negated after a `-`; leading zeros are
      allowed, so `"007"` is 7 and `"-0"` is 0. */
  function ParseInt(s: string): (r: Result<int>)
    ensures r.Ok? <==> ValidIntLiteral(s)
    ensures r.Ok? ==> r.value == LiteralSign(s) * DigitsValue(LiteralBody(s))
  {
    if |s| > 0 && (s[0] == '-' || s[0] == '+') && |s| > 1 && AllDigitChars(s[1..]) then
      Ok(if s[0] == '-' then -(DigitsValue(s[1..]) as int) else DigitsValue(s[1..]))
    else if |s| > 0 && AllDigitChars(s) then
      Ok(DigitsValue(s))
    else
      Err(ValueError("invalid literal for int() with base 10: '" + s + "'"))
  }

  /** The text after an optional leading sign. */
  function LiteralBody(s: string): string {
    if |s| > 0 && (s[0] == '-' || s[0] == '+') then s[1..] else s
  }

  /** -1 after a leading `-`, 1 otherwise. */
  function LiteralSign(s: string): int {
    if |s| > 0 && s[0] == '-' then -1 else 1
  }

  predicate ValidIntLiteral(s: string) {
    |LiteralBody(s)| > 0 && AllDigitChars(LiteralBody(s))
  }

  /** Leading zeros and an explicit sign are accepted. */
  lemma ParseIntExamples()
    ensures ParseInt("007") == Ok(7)
    ensures ParseInt("+5") == Ok(5)
    ensures ParseInt("-0") == Ok(0)
    ensures ParseInt("-").Err? && ParseInt("").Err? && ParseInt("1.5").Err?
  {
    assert "007"[..2] == "00" && "00"[..1] == "0" && "0"[..0] == "";
  }

  /** `int(str(n)) == n`. */
  lemma ParseIntToString(n: int)
    ensures ParseInt(IntToString(n)) == Ok(n)
  {
    if n < 0 {
      NatToStringValue(-n);
      assert IntToString(n)[1..] == NatToString(-n);
    } else {
      NatToStringValue(n);
    }
  }

  lemma IntToStringNoChar(n: int, c: char)
    requires c != '-' && !IsDigitChar(c)
    ensures c !in IntToString(n)
  {
    if n < 0 {
      assert IntToString(n) == "-" + NatToString(-n);
    }
  }

  lemma DigitToString(d: int)
    requires 0 <= d <= 9
    ensures IntToString(d) == [DigitChar(d)]
  {
  }

  // ---------------------------------------------------------------------
  // join, split, repetition
  // ---------------------------------------------------------------------

  /** `sep.join(parts)`. */
  function Join(sep: string, parts: seq<string>): (r: string)
    decreases |parts|
  {
    if |parts| == 0 then ""
    else if |parts| == 1 then parts[0]
    else parts[0] + sep + Join(sep, parts[1..])
  }

  lemma Join3(sep: string, a: string, b: string, c: string)
    ensures Join(sep, [a, b, c]) == a + sep + b + sep + c
  {
    assert [a, b, c][1..] == [b, c];
    assert [b, c][1..] == [c];
    assert Join(sep, [b, c]) == b + sep + c;
  }

  /** Position of the first `c` in `s`. */
  function IndexOf(s: string, c: char): (k: int)
    requires c in s
    ensures 0 <= k < |s| && s[k] == c && c !in s[..k]
    decreases |s|
  {
    if s[0] == c then 0
    else
      assert c in s[1..] by {
        var m :| 0 <= m < |s| && s[m] == c;
        assert s[1..][m - 1] == c;
      }
      var k := IndexOf(s[1..], c);
      assert s[..k + 1] == [s[0]] + s[1..][..k];
      1 + k
  }

  /** `s.split(c)`: the pieces between consecutive occurrences of `c`. */
  function Split(s: string, c: char): (r: seq<string>)
    ensures |r| >= 1
    decreases |s|
  {
    if c !in s then [s]
    else
      var k := IndexOf(s, c);
      [s[..k]] + Split(s[k + 1..], c)
  }

  /** A first piece without the separator is split off whole. */
  lemma SplitFirst(first: string, rest: string, c: char)
    requires c !in first
    ensures Split(first + [c] + rest, c) == [first] + Split(rest, c)
  {
    var s := first + [c] + rest;
    var n := |first|;
    assert s[n] == c;
    var k := IndexOf(s, c);
    assert forall i :: 0 <= i < k ==> s[i] != c by {
      assert forall i :: 0 <= i < k ==> s[..k][i] == s[i];
    }
    assert forall i :: 0 <= i < n ==> s[i] != c by {
      assert forall i :: 0 <= i < n ==> first[i] == s[i];
    }
    assert k == n;
    assert s[..k] == first;
    assert s[k + 1..] == rest;
  }

  /** Splitting at the separator undoes joining with it, provided no part
      contains the separator. */
  lemma {:induction false} SplitJoin(parts: seq<string>, c: char)
    requires |parts| >= 1 && forall m :: 0 <= m < |parts| ==> c !in parts[m]
    ensures Split(Join([c], parts), c) == parts
    decreases |parts|
  {
    if |parts| > 1 {
      assert Join([c], parts) == parts[0] + [c] + Join([c], parts[1..]);
      SplitFirst(parts[0], Join([c], parts[1..]), c);
      SplitJoin(parts[1..], c);
      assert parts == [parts[0]] + parts[1..];
    }
  }

  /** `c * n` for a one-character string `c`. */
  function Repeat(c: char, n: nat): (r: string)
    ensures |r| == n && forall k :: 0 <= k < n ==> r[k] == c
  {
    seq(n, k => c)
  }
}
