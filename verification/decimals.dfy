/** Decimal digits. */
module Decimals {
  import opened Bytes

  const DIGITS: Str := "0123456789"

  /** The decimal digits of a number, with any zeros in front. */
  predicate Spells(digits: Str, v: nat) {
    if digits == [] then v == 0
    else Spells(digits[..|digits| - 1], v / 10) && digits[|digits| - 1] == DIGITS[v % 10]
  }

  lemma DigitIs(c: Byte, v: nat)
    requires v < 10
    ensures c == DIGITS[v] <==> IsDigit(c) && c as int - '0' as int == v
  {
  }
}
