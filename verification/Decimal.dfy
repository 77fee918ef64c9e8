// Decimal digits.
module Decimal {
  import opened Bytes

  predicate IsDigit(b: byte) {
    48 <= b <= 57
  }

  predicate AllDigits(s: seq<byte>) {
    forall i :: 0 <= i < |s| ==> IsDigit(s[i])
  }

  function DigitsValue(s: seq<byte>): nat
    requires AllDigits(s)
  {
    if s == [] then 0
    else
      assert IsDigit(s[|s| - 1]);
      var last: nat := s[|s| - 1] - 48;
      10 * DigitsValue(s[..|s| - 1]) + last
  }

  /** The decimal digits of a number, as std::to_string and %.14g print them. */
  function ToDecimal(n: nat): (s: seq<byte>)
    ensures s != [] && AllDigits(s) && DigitsValue(s) == n
  {
    if n < 10 then [48 + n]
    else
      var s := ToDecimal(n / 10) + [48 + n % 10];
      assert s[..|s| - 1] == ToDecimal(n / 10);
      s
  }
}
