/** Decimal rendering of a non-negative integer, as Swift's string
    interpolation `\(n)` writes it inside the active-speaker label. */
module Decimal {

  /** The character of one decimal digit. */
  function Digit(d: nat): (c: char)
    requires d < 10
    ensures '0' <= c <= '9' && c as int - '0' as int == d
  {
    ('0' as int + d) as char
  }

  /** `n` written in base ten, most significant digit first, without
      leading zeros. */
  function Show(n: nat): (s: string)
    ensures |s| >= 1
    decreases n
  {
    if n < 10 then [Digit(n)] else Show(n / 10) + [Digit(n % 10)]
  }

  /** `Show` writes at least one character, only decimal digits, and no
      leading zero. */
  lemma {:induction false} ShowIsCanonical(n: nat)
    ensures |Show(n)| >= 1
    ensures forall i :: 0 <= i < |Show(n)| ==> '0' <= Show(n)[i] <= '9'
    ensures n > 0 ==> Show(n)[0] != '0'
  {
    if n >= 10 {
      ShowIsCanonical(n / 10);
    }
  }

  /** The number a string of decimal digits denotes; the reading that
      `Show` is checked against. */
  function Value(s: string): int
  {
    if s == [] then 0 else Value(s[..|s| - 1]) * 10 + (s[|s| - 1] as int - '0' as int)
  }

  /** Reading back what `Show` writes gives the original number. */
  lemma {:induction false} ValueOfShow(n: nat)
    ensures Value(Show(n)) == n
  {
    if n >= 10 {
      ValueOfShow(n / 10);
      var s := Show(n);
      assert s[..|s| - 1] == Show(n / 10);
    }
  }
}
