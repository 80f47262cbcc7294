/** Rows of decimal digits as numbers. */
module Numerals {
  predicate IsDigit(c: char) {
    '0' <= c <= '9'
  }

  function DigitOf(c: char): nat {
    match c
    case '1' => 1
    case '2' => 2
    case '3' => 3
    case '4' => 4
    case '5' => 5
    case '6' => 6
    case '7' => 7
    case '8' => 8
    case '9' => 9
    case _ => 0
  }

  /** The natural number a row of digits spells. */
  function Natural(s: string): nat {
    if s == "" then 0 else 10 * Natural(s[..|s| - 1]) + DigitOf(s[|s| - 1])
  }

  lemma DigitsAgree(c: char)
    requires IsDigit(c)
    ensures c as int - '0' as int == DigitOf(c)
  {
    assert '0' as int == 48;
    assert c == '0' || c == '1' || c == '2' || c == '3' || c == '4' || c == '5' || c == '6' || c == '7' || c == '8' || c == '9';
  }
}
