/**
 * Decimal text for page numbers: how the userscript prints a page index into a
 * file name, and how the baler reads it back with `int(...)`.  Only the ASCII
 * digits 0-9 are modelled.
 */
module Decimal {

  predicate IsDigit(c: char) {
    '0' <= c <= '9'
  }

  predicate AllDigits(s: string) {
    forall i :: 0 <= i < |s| ==> IsDigit(s[i])
  }

  /** Python's `str.isdigit()` on ASCII text: non-empty and every character a digit. */
  predicate IsDigitString(s: string) {
    |s| > 0 && AllDigits(s)
  }

  function DigitValue(c: char): nat
    requires IsDigit(c)
  {
    (c as int - '0' as int) as nat
  }

  function DigitChar(d: nat): (c: char)
    requires d < 10
    ensures IsDigit(c) && DigitValue(c) == d
  {
    ('0' as int + d) as char
  }

  /** The number a digit string denotes, as `int(s)` reads it (leading zeros allowed). */
  function Value(s: string): nat
    requires AllDigits(s)
  {
    if s == [] then 0 else Value(s[..|s| - 1]) * 10 + DigitValue(s[|s| - 1])
  }

  /** The shortest decimal text of `n`, as JavaScript prints a non-negative integer. */
  function Dec(n: nat): (r: string)
    ensures IsDigitString(r)
  {
    if n < 10 then [DigitChar(n)] else Dec(n / 10) + [DigitChar(n % 10)]
  }

  /** JavaScript's conversion of an integer to text: a minus sign, then the digits. */
  function IntString(i: int): (r: string)
    ensures |r| > 0
    ensures i >= 0 <==> IsDigitString(r)
  {
    if i < 0 then
      var r := "-" + Dec(-i);
      assert !IsDigit(r[0]);
      r
    else Dec(i)
  }

  /** Reading back what `Dec` wrote gives the number again. */
  lemma {:induction false} ValueOfDec(n: nat)
    ensures Value(Dec(n)) == n
  {
    if n >= 10 {
      ValueOfDec(n / 10);
      var s := Dec(n);
      assert s[..|s| - 1] == Dec(n / 10);
    }
  }

  /** Distinct page indices give distinct texts. */
  lemma IntStringInjective(i: int, j: int)
    requires IntString(i) == IntString(j)
    ensures i == j
  {
    if i < 0 && j < 0 {
      var a := Dec(-i);
      var b := Dec(-j);
      assert IntString(i) == "-" + a && IntString(j) == "-" + b;
      assert a == ("-" + a)[1..] && b == ("-" + b)[1..];
      ValueOfDec(-i);
      ValueOfDec(-j);
    } else if i >= 0 && j >= 0 {
      assert Dec(i) == Dec(j);
      ValueOfDec(i);
      ValueOfDec(j);
    }
  }
}
