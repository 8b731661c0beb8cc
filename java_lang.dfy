/**
 * The parts of Java's integer semantics the coordinators rely on: 32- and
 * 64-bit ranges, `Math.abs`, the truncating `/` and `%`, 32-bit wrap-around,
 * `Integer.toString` and `Integer.parseInt` / `Long.parseLong`.
 */
module JavaLang {

  datatype Option<+T> = None | Some(value: T)

  datatype Result<+R, +E> = Success(value: R) | Failure(error: E)

  const INT_MIN: int := -0x8000_0000
  const INT_MAX: int := 0x7fff_ffff
  const LONG_MIN: int := -0x8000_0000_0000_0000
  const LONG_MAX: int := 0x7fff_ffff_ffff_ffff

  /** A Java `int`. */
  type Int32 = x: int | -0x8000_0000 <= x <= 0x7fff_ffff

  /** `Math.abs(int)`: the absolute value, except that `abs(MIN_VALUE)` overflows back to `MIN_VALUE`. */
  function Abs(x: Int32): (r: Int32)
    ensures x != INT_MIN ==> r >= 0 && (r == x || r == -x)
    ensures x == INT_MIN ==> r == INT_MIN
  {
    if x == INT_MIN then x else if x < 0 then -x else x
  }

  /** Java's `a % b` for a positive divisor: the remainder takes the sign of the dividend. */
  function Rem(a: int, b: int): (r: int)
    requires b > 0
    ensures a >= 0 ==> 0 <= r < b
    ensures a < 0 ==> -b < r <= 0
  {
    if a >= 0 then a % b else -((-a) % b)
  }

  /**
   * Java's `a / b` for a positive divisor: the quotient is truncated toward
   * zero, so that `(a / b) * b + a % b == a` (section 15.17.3 of the Java
   * Language Specification) with the remainder `Rem`.
   */
  function Div(a: int, b: int): (q: int)
    requires b > 0
    ensures q * b + Rem(a, b) == a
    ensures a >= 0 ==> q >= 0
    ensures a < 0 ==> q <= 0
  {
    TruncatedDivision(a, b);
    if a >= 0 then a / b else -((-a) / b)
  }

  lemma TruncatedDivision(a: int, b: int)
    requires b > 0
    ensures var q := if a >= 0 then a / b else -((-a) / b);
      q * b + Rem(a, b) == a && (a >= 0 ==> q >= 0) && (a < 0 ==> q <= 0)
  {
    if a >= 0 {
      EuclideanDivision(a, b);
    } else {
      EuclideanDivision(-a, b);
      NegatedProduct((-a) / b, b);
    }
  }

  /** Euclidean division of a non-negative `x`: a non-negative quotient and the remainder below `b`. */
  lemma EuclideanDivision(x: int, b: int)
    requires x >= 0 && b > 0
    ensures (x / b) * b + x % b == x && x / b >= 0
  {
  }

  lemma NegatedProduct(q: int, b: int)
    ensures (-q) * b == -(q * b)
  {
  }

  /** The `int` that Java's 32-bit arithmetic leaves for the mathematical value `x`. */
  function Wrap32(x: int): (r: Int32)
    ensures INT_MIN <= x <= INT_MAX ==> r == x
    ensures (x - r) % 0x1_0000_0000 == 0
  {
    (x - INT_MIN) % 0x1_0000_0000 + INT_MIN
  }

  predicate IsDigit(c: char) {
    '0' <= c <= '9'
  }

  predicate AllDigits(s: string) {
    forall i :: 0 <= i < |s| ==> IsDigit(s[i])
  }

  function DigitChar(d: int): (c: char)
    requires 0 <= d < 10
    ensures IsDigit(c) && c as int - '0' as int == d
  {
    ('0' as int + d) as char
  }

  /** The value of a (possibly empty) string of decimal digits. */
  function DigitsValue(s: string): nat
    requires AllDigits(s)
  {
    if s == [] then 0 else DigitsValue(s[..|s| - 1]) * 10 + (s[|s| - 1] as int - '0' as int)
  }

  /** The decimal rendering of a natural number, without leading zeros. */
  function NatToString(n: nat): (s: string)
    ensures |s| >= 1 && AllDigits(s)
    decreases n
  {
    if n < 10 then [DigitChar(n)] else NatToString(n / 10) + [DigitChar(n % 10)]
  }

  /** `Integer.toString` / `Long.toString` (and `"" + n` in a string concatenation). */
  function IntToString(n: int): string {
    if n < 0 then "-" + NatToString(-n) else NatToString(n)
  }

  /** `toString` writes a minus sign exactly for negative numbers, then decimal digits only. */
  lemma IntToStringShape(n: int)
    ensures var s := IntToString(n);
      && |s| >= 1 && (s[0] == '-' <==> n < 0)
      && (n < 0 ==> AllDigits(s[1..]) && |s| >= 2)
      && (n >= 0 ==> AllDigits(s))
  {
    if n < 0 {
      assert IntToString(n)[1..] == NatToString(-n);
    }
  }

  predicate IsSign(c: char) {
    c == '-' || c == '+'
  }

  /** An optional sign followed by at least one decimal digit, and nothing else. */
  predicate IsDecimal(s: string) {
    |s| > 0 && (AllDigits(s) || (IsSign(s[0]) && |s| > 1 && AllDigits(s[1..])))
  }

  /** The integer a decimal string denotes. */
  function DecimalValue(s: string): int
    requires IsDecimal(s)
  {
    if !IsSign(s[0]) then DigitsValue(s)
    else if s[0] == '-' then -(DigitsValue(s[1..]) as int)
    else DigitsValue(s[1..])
  }

  /**
   * `Integer.parseInt(s)` when `lo, hi` are the `int` bounds and `Long.parseLong(s)`
   * when they are the `long` bounds: exactly the decimal strings whose value
   * lies in range are accepted, and read as that value. `None` is the
   * NumberFormatException.
   */
  function ParseDecimal(s: string, lo: int, hi: int): (r: Option<int>)
    ensures r.Some? <==> IsDecimal(s) && lo <= DecimalValue(s) <= hi
    ensures r.Some? ==> r.value == DecimalValue(s)
  {
    if |s| == 0 then None
    else
      var signed := s[0] == '-' || s[0] == '+';
      var digits := if signed then s[1..] else s;
      if |digits| == 0 || !AllDigits(digits) then None
      else
        var magnitude: int := DigitsValue(digits);
        var v: int := if s[0] == '-' then -magnitude else magnitude;
        if lo <= v <= hi then Some(v) else None
  }

  function ParseInt(s: string): (r: Option<int>)
    ensures r.Some? ==> INT_MIN <= r.value <= INT_MAX
  {
    ParseDecimal(s, INT_MIN, INT_MAX)
  }

  function ParseLong(s: string): (r: Option<int>)
    ensures r.Some? ==> LONG_MIN <= r.value <= LONG_MAX
  {
    ParseDecimal(s, LONG_MIN, LONG_MAX)
  }

  lemma {:induction false} NatToStringValue(n: nat)
    ensures DigitsValue(NatToString(n)) == n
    decreases n
  {
    var s := NatToString(n);
    if n >= 10 {
      NatToStringValue(n / 10);
      assert s[..|s| - 1] == NatToString(n / 10);
    }
  }

  /** What `Integer.toString` / `Long.toString` writes, `parseInt` / `parseLong` reads back unchanged. */
  lemma ParseIntToString(n: int, lo: int, hi: int)
    requires lo <= n <= hi
    ensures ParseDecimal(IntToString(n), lo, hi) == Some(n)
  {
    var s := IntToString(n);
    if n < 0 {
      NatToStringValue(-n);
      assert s[1..] == NatToString(-n);
    } else {
      NatToStringValue(n);
      assert s[0] != '-' && s[0] != '+';
    }
  }

  /** A string with any character that is neither a digit nor a leading sign, the empty string and a lone sign are all rejected. */
  lemma ParseRejectsMalformed(s: string, lo: int, hi: int)
    requires s == [] || s == "-" || s == "+" || exists i :: 0 <= i < |s| && !IsDigit(s[i]) && !(i == 0 && IsSign(s[0]))
    ensures ParseDecimal(s, lo, hi) == None
  {
    if s != [] && s != "-" && s != "+" {
      var i :| 0 <= i < |s| && !IsDigit(s[i]) && !(i == 0 && IsSign(s[0]));
      if IsSign(s[0]) {
        assert s[1..][i - 1] == s[i];
      }
    }
  }

  /** A well-formed number outside the range is rejected too. */
  lemma ParseRejectsOutOfRange(s: string, lo: int, hi: int)
    requires IsDecimal(s) && !(lo <= DecimalValue(s) <= hi)
    ensures ParseDecimal(s, lo, hi) == None
  {
  }

  /** A leading '+', leading zeros and a negative zero are all accepted. */
  lemma ParseIntExamples()
    ensures ParseInt("+7") == Some(7) && ParseInt("007") == Some(7) && ParseInt("-0") == Some(0)
  {
    assert IsDecimal("+7") && DecimalValue("+7") == 7;
    assert IsDecimal("007") && "007"[..2] == "00" && "00"[..1] == "0" && DecimalValue("007") == 7;
    assert IsDecimal("-0") && DecimalValue("-0") == 0;
  }
}
