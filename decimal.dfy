/**
  Decimal text for natural numbers: what `std::to_string` writes for a
  non-negative `int`, and the value of a run of decimal digits, which is what
  `std::stoi` reads. The two are inverse to each other, so names built from
  `to_string` are distinct for distinct numbers.
 */
module Decimal {
  import opened Wrappers

  /** Range of a 32-bit C++ `int`. */
  const INT_MIN: int := -0x8000_0000
  const INT_MAX: int := 0x7fff_ffff

  /** The two exceptions `std::stoi` throws. */
  datatype StoiError = InvalidArgument | OutOfRange

  predicate IsDigit(c: char) {
    '0' <= c <= '9'
  }

  predicate AllDigits(s: string) {
    forall i :: 0 <= i < |s| ==> IsDigit(s[i])
  }

  function DigitChar(d: nat): (c: char)
    requires d < 10
    ensures IsDigit(c) && DigitValue(c) == d
  {
    (('0' as int) + d) as char
  }

  function DigitValue(c: char): nat
    requires IsDigit(c)
  {
    (c as int) - ('0' as int)
  }

  /** The decimal text of `n`, most significant digit first, without leading zeros. */
  function NatToString(n: nat): (s: string)
    ensures |s| >= 1 && AllDigits(s)
    decreases n
  {
    if n < 10 then [DigitChar(n)] else NatToString(n / 10) + [DigitChar(n % 10)]
  }

  /** The number a run of decimal digits denotes. */
  function DigitsValue(s: string): nat
    requires AllDigits(s)
  {
    if s == [] then 0 else DigitsValue(s[..|s| - 1]) * 10 + DigitValue(s[|s| - 1])
  }

  lemma {:induction false} DigitsValueOfNatToString(n: nat)
    ensures DigitsValue(NatToString(n)) == n
    decreases n
  {
    var s := NatToString(n);
    if n >= 10 {
      DigitsValueOfNatToString(n / 10);
      assert s[..|s| - 1] == NatToString(n / 10);
    }
  }

  lemma NatToStringInjective(a: nat, b: nat)
    requires NatToString(a) == NatToString(b)
    ensures a == b
  {
    DigitsValueOfNatToString(a);
    DigitsValueOfNatToString(b);
  }

  /** The decimal text of any integer, with a leading '-' for negatives. */
  function IntToString(n: int): string {
    if n < 0 then "-" + NatToString(-n) else NatToString(n)
  }

  /** White space as `isspace` sees it in the "C" locale. */
  predicate IsSpace(c: char) {
    c == ' ' || c == '\t' || c == '\n' || c == '\r' || c as int == 11 || c as int == 12
  }

  function SkipSpaces(s: string): (t: string)
    ensures |t| <= |s| && t == s[|s| - |t|..]
    ensures t == [] || !IsSpace(t[0])
  {
    if s != [] && IsSpace(s[0]) then SkipSpaces(s[1..]) else s
  }

  /** Length of the longest run of digits at the start of `s`. */
  function DigitRun(s: string): (k: nat)
    ensures k <= |s| && AllDigits(s[..k])
    ensures k < |s| ==> !IsDigit(s[k])
  {
    if s != [] && IsDigit(s[0]) then 1 + DigitRun(s[1..]) else 0
  }

  /**
    `std::stoi(s)` in base 10: leading white space is skipped, one optional
    sign is read, then the longest run of digits; characters after it are
    ignored. No digits at all is `InvalidArgument`; a value outside the range
    of `int` is `OutOfRange`.
   */
  function Stoi(s: string): (r: Result<int, StoiError>)
    ensures r.Success? ==> INT_MIN <= r.value <= INT_MAX
  {
    var t := SkipSpaces(s);
    if t != [] && t[0] == '-' then Convert(t[1..], true)
    else if t != [] && t[0] == '+' then Convert(t[1..], false)
    else Convert(t, false)
  }

  /** The conversion after the sign: the leading digits of `u`, negated if `negative`. */
  function Convert(u: string, negative: bool): Result<int, StoiError> {
    var k := DigitRun(u);
    if k == 0 then Failure(InvalidArgument)
    else
      var v := if negative then -(DigitsValue(u[..k]) as int) else DigitsValue(u[..k]) as int;
      if INT_MIN <= v <= INT_MAX then Success(v) else Failure(OutOfRange)
  }

  /**
    Reading back the decimal text of `n`, followed by anything that does not
    start with a digit, gives `n` when it fits in an `int` and `OutOfRange`
    otherwise.
   */
  lemma StoiOfDecimal(n: int, rest: string)
    requires rest == [] || !IsDigit(rest[0])
    ensures Stoi(IntToString(n) + rest) ==
      if INT_MIN <= n <= INT_MAX then Success(n) else Failure(OutOfRange)
  {
    var m: nat := if n < 0 then -n else n;
    var u := NatToString(m) + rest;
    ConvertDecimal(m, rest, n < 0);
    assert IsDigit(u[0]);
    if n < 0 {
      assert IntToString(n) + rest == ['-'] + u;
      StoiNegative(u);
    } else {
      StoiUnsigned(u);
    }
  }

  lemma StoiUnsigned(u: string)
    requires u != [] && IsDigit(u[0])
    ensures Stoi(u) == Convert(u, false)
  {
    assert SkipSpaces(u) == u;
  }

  lemma StoiNegative(u: string)
    requires u != [] && IsDigit(u[0])
    ensures Stoi(['-'] + u) == Convert(u, true)
  {
    var s := ['-'] + u;
    assert SkipSpaces(s) == s;
    assert s[1..] == u;
  }

  lemma ConvertDecimal(m: nat, rest: string, negative: bool)
    requires rest == [] || !IsDigit(rest[0])
    ensures Convert(NatToString(m) + rest, negative) ==
      var v := if negative then -(m as int) else m as int;
      if INT_MIN <= v <= INT_MAX then Success(v) else Failure(OutOfRange)
  {
    var digits := NatToString(m);
    var u := digits + rest;
    DigitsValueOfNatToString(m);
    DigitRunStopsAtNonDigit(digits, rest);
    assert u[..|digits|] == digits;
  }

  lemma {:induction false} DigitRunStopsAtNonDigit(digits: string, rest: string)
    requires AllDigits(digits)
    requires rest == [] || !IsDigit(rest[0])
    ensures DigitRun(digits + rest) == |digits|
    decreases |digits|
  {
    if digits != [] {
      assert (digits + rest)[1..] == digits[1..] + rest;
      DigitRunStopsAtNonDigit(digits[1..], rest);
    } else {
      assert digits + rest == rest;
    }
  }

  /** What `stoi` reads its digits from: `s` after white space and one optional sign. */
  function Unsigned(s: string): (u: string)
    ensures |u| <= |s| && u == s[|s| - |u|..]
  {
    var t := SkipSpaces(s);
    if t != [] && (t[0] == '-' || t[0] == '+') then t[1..] else t
  }

  /**
    `stoi` throws `invalid_argument` exactly when no digit follows the white
    space and the optional sign: "x5", "+-3" and "- 5" are refused even though
    they hold a digit, and a leading digit is never refused as invalid.
   */
  lemma StoiInvalidArgument(s: string)
    ensures Stoi(s) == Failure(InvalidArgument) <==> Unsigned(s) == [] || !IsDigit(Unsigned(s)[0])
  {
    var u := Unsigned(s);
    var k := DigitRun(u);
    if u != [] && IsDigit(u[0]) {
      assert k > 0;
    }
  }

  /** Text without a digit in it is never a number. */
  lemma StoiWithoutDigits(s: string)
    requires forall i :: 0 <= i < |s| ==> !IsDigit(s[i])
    ensures Stoi(s) == Failure(InvalidArgument)
  {
    StoiInvalidArgument(s);
    var u := Unsigned(s);
    if u != [] {
      assert u[0] == s[|s| - |u|];
    }
  }
}
