/** Numbers as digit strings, in the bases the text formats use. */
module Digits {

  predicate IsDigit(c: char)
  {
    '0' <= c <= '9'
  }

  function DigitValue(c: char): (d: nat)
    requires IsDigit(c)
    ensures d < 10
  {
    c as int - '0' as int
  }

  function DigitChar(d: nat): (c: char)
    requires d < 10
    ensures IsDigit(c) && DigitValue(c) == d
  {
    (d + '0' as int) as char
  }

  predicate AllDigits(s: string)
  {
    forall i :: 0 <= i < |s| ==> IsDigit(s[i])
  }

  /** The number of leading digits. */
  function DigitRun(s: string): (n: nat)
    ensures n <= |s| && AllDigits(s[..n])
    ensures n < |s| ==> !IsDigit(s[n])
  {
    if s == [] || !IsDigit(s[0]) then 0 else 1 + DigitRun(s[1..])
  }

  function NatOfDigits(s: string): nat
    requires AllDigits(s)
  {
    if s == [] then 0 else 10 * NatOfDigits(s[..|s| - 1]) + DigitValue(s[|s| - 1])
  }

  /** How a stream prints an unsigned number in decimal. */
  function DigitsOfNat(n: nat): (s: string)
    ensures |s| >= 1 && AllDigits(s)
  {
    if n < 10 then [DigitChar(n)] else DigitsOfNat(n / 10) + [DigitChar(n % 10)]
  }

  /** Decimal notation: one digit for each number below ten, and one more digit for each further place. */
  lemma DecimalNotation(a: nat, d: nat)
    requires d < 10
    ensures DigitsOfNat(d) == ["0123456789"[d]]
    ensures a > 0 ==> DigitsOfNat(10 * a + d) == DigitsOfNat(a) + ["0123456789"[d]]
  {
    assert (10 * a + d) / 10 == a && (10 * a + d) % 10 == d;
  }

  lemma {:induction false} PrintThenParse(n: nat)
    ensures NatOfDigits(DigitsOfNat(n)) == n
  {
    var s := DigitsOfNat(n);
    if n < 10 {
      assert s[..0] == [];
    } else {
      PrintThenParse(n / 10);
      assert s[..|s| - 1] == DigitsOfNat(n / 10);
    }
  }

  lemma {:induction false} DigitRunOfPrefix(digits: string, rest: string)
    requires AllDigits(digits) && (rest == [] || !IsDigit(rest[0]))
    ensures DigitRun(digits + rest) == |digits|
  {
    if digits == [] {
      assert digits + rest == rest;
    } else {
      DigitRunOfPrefix(digits[1..], rest);
      assert (digits + rest)[1..] == digits[1..] + rest;
    }
  }
}
