/** Decimal rendering of integers, as `fmt.Sprintf("%d", n)` writes them. It is
    used for listen addresses (":" + port) and for the user ids produced by
    `LastInsertId`. */
module Decimal {

  predicate IsDigit(c: char) {
    '0' <= c <= '9'
  }

  function DigitChar(d: nat): (c: char)
    requires d < 10
    ensures IsDigit(c) && (c as int) - ('0' as int) == d
  {
    ('0' as int + d) as char
  }

  function DigitValue(c: char): nat
    requires IsDigit(c)
  {
    (c as int) - ('0' as int)
  }

  /** The decimal digits of `n`, most significant first, with no leading zero. */
  function NatDigits(n: nat): (s: string)
    decreases n
  {
    if n < 10 then [DigitChar(n)] else NatDigits(n / 10) + [DigitChar(n % 10)]
  }

  /** `%d` of a Go int: a minus sign for negative values, then the digits. */
  function Format(i: int): (s: string)
  {
    if i < 0 then "-" + NatDigits(-i) else NatDigits(i)
  }

  predicate AllDigits(s: string) {
    forall k :: 0 <= k < |s| ==> IsDigit(s[k])
  }

  /** Reads back a string of digits. */
  function ParseDigits(s: string): nat
    requires AllDigits(s)
    decreases |s|
  {
    if |s| == 0 then 0 else 10 * ParseDigits(s[..|s| - 1]) + DigitValue(s[|s| - 1])
  }

  /** Reads back what `Format` writes; the inverse used to show that a
      rendered number determines the number. */
  function Parse(s: string): int
  {
    if |s| > 0 && s[0] == '-' && AllDigits(s[1..]) then -(ParseDigits(s[1..]) as int)
    else if AllDigits(s) then ParseDigits(s)
    else 0
  }

  lemma {:induction false} NatDigitsShape(n: nat)
    ensures |NatDigits(n)| > 0 && AllDigits(NatDigits(n))
    ensures ParseDigits(NatDigits(n)) == n
    decreases n
  {
    if n >= 10 {
      NatDigitsShape(n / 10);
      var s := NatDigits(n / 10) + [DigitChar(n % 10)];
      assert s[..|s| - 1] == NatDigits(n / 10);
    }
  }

  lemma FormatRoundTrip(i: int)
    ensures Parse(Format(i)) == i
  {
    if i < 0 {
      NatDigitsShape(-i);
      var s := "-" + NatDigits(-i);
      assert s[1..] == NatDigits(-i);
    } else {
      NatDigitsShape(i);
      assert Format(i)[0] != '-';
    }
  }

  /** Different numbers are rendered differently. */
  lemma FormatInjective(i: int, j: int)
    ensures Format(i) == Format(j) ==> i == j
  {
    FormatRoundTrip(i);
    FormatRoundTrip(j);
  }

  /** A rendered non-negative number is never empty and never starts with a
      minus sign. */
  lemma FormatNonNegative(n: nat)
    ensures |Format(n)| > 0 && AllDigits(Format(n))
  {
    NatDigitsShape(n);
  }
}
