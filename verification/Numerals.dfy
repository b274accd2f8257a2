/** Numbers as they are written down: decimal and hexadecimal, by division and remainder over the list of digits. */
module Numerals {
  const DIGITS: string := "0123456789"
  const LOWER: string := "0123456789abcdef"
  const UPPER: string := "0123456789ABCDEF"

  function Decimal(n: nat): (s: string)
    ensures s != ""
  {
    if n < 10 then [DIGITS[n]] else Decimal(n / 10) + [DIGITS[n % 10]]
  }

  function HexDigit(d: nat, upper: bool): char
    requires d < 16
  {
    if upper then UPPER[d] else LOWER[d]
  }

  function Hexadecimal(n: nat, upper: bool): (s: string)
    ensures s != ""
    decreases n
  {
    if n < 16 then [HexDigit(n, upper)] else Hexadecimal(n / 16, upper) + [HexDigit(n % 16, upper)]
  }

  function Zeros(k: nat): (s: string)
    ensures |s| == k && forall i :: 0 <= i < k ==> s[i] == '0'
  {
    seq(k, _ => '0')
  }

  lemma DigitAt(d: nat)
    requires d < 10
    ensures DIGITS[d] as int == '0' as int + d
  {
  }

  lemma HexDigitAt(d: nat)
    requires d < 16
    ensures LOWER[d] as int == if d < 10 then '0' as int + d else 'a' as int + (d - 10)
    ensures UPPER[d] as int == if d < 10 then '0' as int + d else 'A' as int + (d - 10)
  {
  }

  lemma {:induction false} DecimalMore(m: nat, d: nat)
    requires m > 0 && d < 10
    ensures Decimal(10 * m + d) == Decimal(m) + [DIGITS[d]]
  {
    assert (10 * m + d) / 10 == m && (10 * m + d) % 10 == d;
  }

  lemma DecimalOne(d: nat)
    requires d < 10
    ensures Decimal(d) == [DIGITS[d]]
  {
  }

  lemma {:induction false} DecimalParts(n: nat) returns (d: nat, init: string)
    ensures d == n % 10 && DIGITS[d] as int == '0' as int + d
    ensures init == (if n < 10 then "" else Decimal(n / 10)) && Decimal(n) == init + [DIGITS[d]]
  {
    d := n % 10;
    DigitAt(d);
    init := if n < 10 then "" else Decimal(n / 10);
  }
}
