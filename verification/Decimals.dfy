/** Decimal numerals in ASCII. */
module Decimals {
  import opened Bytes

  const ZERO: Byte := 48

  predicate IsDigit(c: Byte) { ZERO <= c <= 57 }

  predicate Digits(s: seq<Byte>) { forall i | 0 <= i < |s| :: IsDigit(s[i]) }

  function DigitsValue(s: seq<Byte>): int {
    if s == [] then 0 else DigitsValue(s[..|s| - 1]) * 10 + s[|s| - 1] - ZERO
  }

  lemma PushDigit(s: seq<Byte>, c: Byte)
    ensures DigitsValue(s + [c]) == DigitsValue(s) * 10 + c - ZERO
  {
    assert (s + [c])[..|s|] == s;
  }

  lemma {:induction false} DigitsNonNegative(s: seq<Byte>)
    requires Digits(s)
    ensures DigitsValue(s) >= 0
    decreases |s|
  {
    if s != [] {
      DigitsNonNegative(s[..|s| - 1]);
    }
  }

  /** The numeral without leading zeros. */
  function Decimal(n: nat): (s: seq<Byte>)
    ensures s != [] && Digits(s) && (n > 0 ==> s[0] != ZERO)
  {
    if n < 10 then [ZERO + n] else Decimal(n / 10) + [ZERO + n % 10]
  }

  lemma {:induction false} DecimalValue(n: nat)
    ensures DigitsValue(Decimal(n)) == n
    decreases n
  {
    if n < 10 {
      assert [ZERO + n][..0] == [];
    } else {
      DecimalValue(n / 10);
      PushDigit(Decimal(n / 10), ZERO + n % 10);
    }
  }

  function Pow10(n: nat): (p: nat)
    ensures p > 0
  {
    if n == 0 then 1 else 10 * Pow10(n - 1)
  }
}
