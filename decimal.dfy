/**
 * `strconv.FormatInt(n, 10)`: the decimal form of an integer, with a `-`
 * before a negative one, no leading zeros, and `0` for zero. Go's `int64`
 * range is not enforced; every integer has a decimal form.
 */
module Decimal {
  import opened GoStrings

  predicate IsDigit(c: Byte) {
    '0' <= c <= '9'
  }

  function DigitChar(d: int): (c: Byte)
    requires 0 <= d < 10
    ensures IsDigit(c)
  {
    ('0' as int + d) as char
  }

  /** The decimal digits of `n`, most significant first. */
  function FormatNat(n: nat): (s: GoString)
    ensures |s| >= 1
    ensures forall i :: 0 <= i < |s| ==> IsDigit(s[i])
    ensures |s| > 1 ==> s[0] != '0'
  {
    if n < 10 then [DigitChar(n)] else FormatNat(n / 10) + [DigitChar(n % 10)]
  }

  function FormatInt(n: int): (s: GoString)
    ensures n < 0 <==> (|s| > 0 && s[0] == '-')
  {
    if n < 0 then "-" + FormatNat(-n) else FormatNat(n)
  }

  /** The value of a string of decimal digits. */
  function ParseNat(s: GoString): nat
    requires forall i :: 0 <= i < |s| ==> IsDigit(s[i])
  {
    if s == [] then 0
    else
      var last := s[|s| - 1];
      assert IsDigit(last);
      ParseNat(s[..|s| - 1]) * 10 + (last as int - '0' as int)
  }

  /** The value of an optional `-` followed by decimal digits. */
  function ParseInt(s: GoString): int
    requires |s| > 0
    requires s[0] == '-' || IsDigit(s[0])
    requires forall i :: 1 <= i < |s| ==> IsDigit(s[i])
  {
    if s[0] == '-' then -(ParseNat(s[1..]) as int) else ParseNat(s)
  }

  lemma {:induction false} ParseFormatNat(n: nat)
    ensures ParseNat(FormatNat(n)) == n
  {
    if n >= 10 {
      var s := FormatNat(n);
      ParseFormatNat(n / 10);
      assert s[..|s| - 1] == FormatNat(n / 10);
    }
  }

  /** Reading the decimal form back gives the integer. */
  lemma FormatIntRoundTrip(n: int)
    ensures var s := FormatInt(n);
      && |s| > 0 && (s[0] == '-' || IsDigit(s[0]))
      && (forall i :: 1 <= i < |s| ==> IsDigit(s[i]))
      && ParseInt(s) == n
  {
    if n < 0 {
      ParseFormatNat(-n);
      assert FormatInt(n)[1..] == FormatNat(-n);
    } else {
      ParseFormatNat(n);
    }
  }

  /** Different integers have different decimal forms. */
  lemma FormatIntInjective(m: int, n: int)
    requires FormatInt(m) == FormatInt(n)
    ensures m == n
  {
    FormatIntRoundTrip(m);
    FormatIntRoundTrip(n);
  }
}
