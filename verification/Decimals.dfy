/** Decimal numerals: writing a number, and reading one. */
module Decimals {

  predicate IsDigit(c: char) {
    '0' <= c <= '9'
  }

  function DigitChar(d: nat): char
    requires d < 10
  {
    '0' + d as char
  }

  function Decimal(n: nat): (r: string)
    ensures r != "" && forall i :: 0 <= i < |r| ==> IsDigit(r[i])
  {
    (if n < 10 then "" else Decimal(n / 10)) + [DigitChar(n % 10)]
  }

  function DigitValue(c: char): int {
    c as int - '0' as int
  }

  function DecimalValue(s: string): int {
    if s == "" then 0 else 10 * DecimalValue(s[..|s| - 1]) + DigitValue(s[|s| - 1])
  }

  lemma {:induction false} ValueOfDecimal(n: nat)
    ensures DecimalValue(Decimal(n)) == n
  {
    var before := if n < 10 then "" else Decimal(n / 10);
    assert (before + [DigitChar(n % 10)])[..|before|] == before;
    if n >= 10 {
      ValueOfDecimal(n / 10);
    }
  }

  /** The number that digits write, the greatest first. */
  function Tens(digits: seq<nat>): nat {
    if digits == [] then 0 else 10 * Tens(digits[..|digits| - 1]) + digits[|digits| - 1]
  }

  /** Each character is the numeral of its digit, and a number of more than one digit starts with none. */
  predicate Writes(s: string, digits: seq<nat>) {
    && |s| == |digits| > 0
    && (forall i :: 0 <= i < |s| ==> digits[i] < 10 && s[i] == "0123456789"[digits[i]])
    && (|digits| > 1 ==> digits[0] != 0)
  }

  /** What is written is the number's digits in base ten. */
  lemma {:induction false} DecimalWrites(n: nat) returns (digits: seq<nat>)
    ensures Writes(Decimal(n), digits) && Tens(digits) == n
    ensures n > 0 ==> digits[0] != 0
  {
    var last := n % 10;
    assert DigitChar(last) == "0123456789"[last];
    if n < 10 {
      digits := [last];
      assert digits[..0] == [];
    } else {
      var before := DecimalWrites(n / 10);
      digits := before + [last];
      assert digits[..|before|] == before;
    }
  }
}
