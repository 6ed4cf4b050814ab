/** Unsigned decimal numerals: strconv.FormatUint and ParseUint in base 10, without the
    64-bit bound. */
module Decimal {
  import opened Wrappers

  predicate IsDigit(c: char) {
    '0' <= c <= '9'
  }

  function Digit(d: nat): (c: char)
    requires d < 10
    ensures IsDigit(c) && DigitValue(c) == d
  {
    '0' + d as char
  }

  function DigitValue(c: char): (d: nat)
    requires IsDigit(c)
    ensures d < 10
  {
    (c - '0') as nat
  }

  function Format(n: nat): (s: string)
    ensures s != "" && forall c :: c in s ==> IsDigit(c)
  {
    if n < 10 then [Digit(n)] else Format(n / 10) + [Digit(n % 10)]
  }

  function Parse(s: string): Option<nat> {
    if s == "" || exists c :: c in s && !IsDigit(c) then None else Some(Value(s))
  }

  function Value(s: string): nat
    requires forall c :: c in s ==> IsDigit(c)
  {
    if s == "" then 0 else 10 * Value(s[..|s| - 1]) + DigitValue(s[|s| - 1])
  }

  lemma {:induction false} ParseFormat(n: nat)
    ensures Parse(Format(n)) == Some(n)
  {
    var s := Format(n);
    if n >= 10 {
      ParseFormat(n / 10);
      assert s[..|s| - 1] == Format(n / 10) && s[|s| - 1] == Digit(n % 10);
      assert Value(s) == 10 * Value(Format(n / 10)) + n % 10;
    }
  }

  lemma FormatIsInjective(m: nat, n: nat)
    requires Format(m) == Format(n)
    ensures m == n
  {
    ParseFormat(m);
    ParseFormat(n);
  }

  /** Numerals have no leading zero. */
  lemma {:induction false} NoLeadingZero(n: nat)
    ensures Format(0) == "0" && (n > 0 ==> Format(n)[0] != '0')
  {
    if n >= 10 {
      NoLeadingZero(n / 10);
      assert Format(n)[0] == Format(n / 10)[0];
    }
  }
}
