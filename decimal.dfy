/** Decimal rendering of a non-negative integer, as Go's `fmt.Sprintf("%d", i)`
    produces it, and the parse that inverts it. */
module Decimal {

  predicate IsDigit(c: char) {
    '0' <= c <= '9'
  }

  predicate AllDigits(s: string) {
    forall k :: 0 <= k < |s| ==> IsDigit(s[k])
  }

  function DigitChar(d: nat): (c: char)
    requires d < 10
    ensures IsDigit(c) && (c as int) - ('0' as int) == d
  {
    (('0' as int) + d) as char
  }

  function DigitValue(c: char): (d: nat)
    requires IsDigit(c)
  {
    (c as int) - ('0' as int)
  }

  /** `%d` of a non-negative integer: at least one digit, no leading zero. */
  function Dec(n: nat): (s: string)
    ensures |s| >= 1 && AllDigits(s)
    ensures |s| > 1 ==> s[0] != '0'
    ensures n < 10 <==> |s| == 1
    decreases n
  {
    if n < 10 then [DigitChar(n)] else Dec(n / 10) + [DigitChar(n % 10)]
  }

  /** The value a string of decimal digits denotes (what `strconv.Atoi` computes). */
  function Value(s: string): (n: nat)
    requires AllDigits(s)
  {
    if s == [] then 0 else 10 * Value(s[..|s| - 1]) + DigitValue(s[|s| - 1])
  }

  /** Parsing the rendered digits gives the number back. */
  lemma {:induction false} ValueOfDec(n: nat)
    ensures Value(Dec(n)) == n
    decreases n
  {
    if n >= 10 {
      var s := Dec(n);
      assert s[..|s| - 1] == Dec(n / 10);
      ValueOfDec(n / 10);
    }
  }

  /** Distinct numbers render as distinct strings. */
  lemma DecInjective(m: nat, n: nat)
    requires Dec(m) == Dec(n)
    ensures m == n
  {
    ValueOfDec(m);
    ValueOfDec(n);
  }
}
