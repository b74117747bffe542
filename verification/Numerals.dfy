/** Numbers written in a base. */
module Numerals {
  function Digit(d: nat): char
    requires d < 16
  {
    if d < 10 then ('0' as int + d) as char else ('a' as int + d - 10) as char
  }

  function Digits(n: nat, b: nat): (s: string)
    requires 2 <= b <= 16
    ensures s != ""
  {
    if n < b then [Digit(n)] else Digits(n / b, b) + [Digit(n % b)]
  }

  lemma DigitSplit(n: nat, b: nat)
    requires 2 <= b <= n
    ensures 0 < n / b < n && 0 <= n % b < b && n == n / b * b + n % b
  {
  }
}
