/** Java `int` arithmetic and decimal text as the argument parser and the
    seek handler rely on it:
    `Integer.parseInt`, the decimal rendering of an `int` used by string
    concatenation, and `/`, which truncates toward zero. */
module JavaInts {
  import opened Common

  /** Bounds of Java's 32-bit `int`. */
  const MinInt: int := -0x8000_0000
  const MaxInt: int := 0x7FFF_FFFF

  predicate InRange(n: int) {
    MinInt <= n <= MaxInt
  }

  predicate IsDigit(c: char) {
    '0' <= c <= '9'
  }

  predicate AllDigits(s: string) {
    forall i :: 0 <= i < |s| ==> IsDigit(s[i])
  }

  function DigitValue(c: char): (d: nat)
    requires IsDigit(c)
    ensures d < 10
  {
    c as int - '0' as int
  }

  function DigitChar(d: nat): (c: char)
    requires d < 10
    ensures IsDigit(c) && DigitValue(c) == d
  {
    ('0' as int + d) as char
  }

  /** The value of a string of decimal digits, most significant first. */
  function DigitsValue(s: string): nat
    requires AllDigits(s)
    decreases |s|
  {
    if |s| == 0 then 0 else DigitsValue(s[..|s| - 1]) * 10 + DigitValue(s[|s| - 1])
  }

  /** Decimal rendering of a natural number without leading zeros. */
  function NatToString(n: nat): (s: string)
    ensures 0 < |s| && AllDigits(s)
    ensures DigitsValue(s) == n
    ensures n < 10 <==> |s| == 1
    ensures s[0] == '0' ==> n == 0
    decreases n
  {
    if n < 10 then [DigitChar(n)]
    else
      var prefix := NatToString(n / 10);
      var s := prefix + [DigitChar(n % 10)];
      assert s[..|s| - 1] == prefix;
      s
  }

  /** Decimal rendering of an `int`, as `"" + n` produces it in Java. */
  function IntToString(n: int): (s: string)
    ensures 0 < |s|
    ensures s[0] == '-' <==> n < 0
    ensures n < 0 ==> |s| >= 2 && AllDigits(s[1..]) && DigitsValue(s[1..]) == -n
    ensures 0 <= n ==> AllDigits(s) && DigitsValue(s) == n
    ensures 0 < n ==> s[0] != '0'
    ensures n < 0 ==> s[1] != '0'
    ensures n == 0 ==> s == "0"
  {
    assert n < 0 ==> ("-" + NatToString(-n))[1..] == NatToString(-n);
    if n < 0 then "-" + NatToString(-n) else NatToString(n)
  }

  /** `Integer.parseInt(s)` (radix 10): an optional leading `-` or `+`,
      then at least one decimal digit and nothing else, with a value that
      fits in an `int`. Every other string makes Java throw
      `NumberFormatException`, modelled as `None`. */
  function ParseInt(s: string): (r: Option<int>)
    ensures r.Some? ==> InRange(r.value)
    ensures r.Some? ==> 0 < |s| && (s[0] == '-' || s[0] == '+' || IsDigit(s[0]))
    ensures r.Some? ==> AllDigits(s[1..]) && (IsDigit(s[0]) || 1 < |s|)
    ensures r.Some? && s[0] == '-' ==> r.value <= 0
    ensures r.Some? && s[0] != '-' ==> 0 <= r.value
  {
    if |s| == 0 then None
    else
      var signed := s[0] == '-' || s[0] == '+';
      var digits := if signed then s[1..] else s;
      if |digits| == 0 || !AllDigits(digits) then None
      else
        var magnitude: int := DigitsValue(digits);
        var n: int := if s[0] == '-' then -magnitude else magnitude;
        if InRange(n) then Some(n) else None
  }

  /** Parsing the decimal rendering of any `int` gives the `int` back. */
  lemma ParseIntToString(n: int)
    requires InRange(n)
    ensures ParseInt(IntToString(n)) == Some(n)
  {
    var s := IntToString(n);
    if n < 0 {
      assert s[1..] == NatToString(-n);
    }
  }

  /** Unsigned text of digits, leading zeros allowed, is accepted exactly
      when its value fits in an `int`, and yields that value. */
  lemma ParseIntUnsigned(d: string)
    requires 0 < |d| && AllDigits(d)
    ensures ParseInt(d) == (if DigitsValue(d) <= MaxInt then Some(DigitsValue(d) as int) else None)
  {
  }

  /** A leading `+` before digits changes nothing. */
  lemma ParseIntPlus(d: string)
    requires AllDigits(d)
    ensures ParseInt("+" + d) == ParseInt(d)
  {
    assert ("+" + d)[1..] == d;
    if |d| > 0 {
      ParseIntUnsigned(d);
    }
  }

  /** A leading `-` before digits negates their value, which may reach
      one further than the positive range. */
  lemma ParseIntMinus(d: string)
    requires 0 < |d| && AllDigits(d)
    ensures ParseInt("-" + d) == (if DigitsValue(d) <= -MinInt then Some(-(DigitsValue(d) as int)) else None)
  {
    assert ("-" + d)[1..] == d;
  }

  /** The rendering of a number outside the `int` range is well formed
      but still rejected: `parseInt` overflows rather than wrapping. */
  lemma ParseIntRejectsOutOfRange(n: int)
    requires !InRange(n)
    ensures ParseInt(IntToString(n)) == None
  {
    var s := IntToString(n);
    if n < 0 {
      assert s[1..] == NatToString(-n);
    }
  }

  /** Java's `a / b` for a positive divisor: the quotient truncated toward
      zero (Dafny's own `/` is Euclidean and differs for negative `a`). */
  function TruncDiv(a: int, b: int): (q: int)
    requires 0 < b
    ensures 0 <= a ==> q * b <= a < q * b + b
    ensures a < 0 ==> q * b - b < a <= q * b
  {
    if 0 <= a then a / b else -((-a) / b)
  }

  /** Truncating division by a positive constant never decreases as the
      dividend grows. */
  lemma TruncDivMonotone(a: int, c: int, b: int)
    requires 0 < b
    requires a <= c
    ensures TruncDiv(a, b) <= TruncDiv(c, b)
  {
    var qa, qc := TruncDiv(a, b), TruncDiv(c, b);
    if 0 <= a {
      // qa * b <= a <= c < qc * b + b == (qc + 1) * b
      assert (qc + 1) * b == qc * b + b;
      MulCancel(qa, qc + 1, b);
    } else if c < 0 {
      // (qa - 1) * b == qa * b - b < a <= c <= qc * b
      assert (qa - 1) * b == qa * b - b;
      MulCancel(qa - 1, qc, b);
    } else {
      // (qa - 1) * b < a < 0 <= c < (qc + 1) * b, so qa <= 0 <= qc
      assert (qa - 1) * b == qa * b - b;
      MulCancel(qa - 1, 0, b);
      assert (qc + 1) * b == qc * b + b;
      MulCancel(0, qc + 1, b);
    }
  }

  lemma MulCancel(x: int, y: int, b: int)
    requires 0 < b && x * b < y * b
    ensures x < y
  {
    if y <= x {
      MulMonotone(y, x, b);
    }
  }

  lemma MulMonotone(x: int, y: int, b: int)
    requires x <= y && 0 < b
    ensures x * b <= y * b
  {
  }
}
