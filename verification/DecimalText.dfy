/** Decimal numerals as text (`std::to_string` of an unsigned), and that they determine their number. */
module DecimalText {
  predicate Digit(c: char) {
    '0' <= c <= '9'
  }

  function DigitChar(d: nat): char
    requires d < 10
  {
    '0' + d as char
  }

  /** `std::to_string` of an unsigned. */
  function ToString(n: nat): (s: string)
    ensures s != "" && forall c | c in s :: Digit(c)
  {
    if n < 10 then [DigitChar(n)] else ToString(n / 10) + [DigitChar(n % 10)]
  }

  function FromDigits(s: string): int {
    if s == "" then 0 else 10 * FromDigits(s[..|s| - 1]) + (s[|s| - 1] as int - '0' as int)
  }

  lemma {:induction false} ToStringReads(n: nat)
    ensures FromDigits(ToString(n)) == n
  {
    if n >= 10 {
      ToStringReads(n / 10);
      assert ToString(n)[..|ToString(n)| - 1] == ToString(n / 10);
    } else {
      assert ToString(n)[..0] == "";
    }
  }

  lemma ToStringInjective(a: nat, b: nat)
    requires ToString(a) == ToString(b)
    ensures a == b
  {
    ToStringReads(a);
    ToStringReads(b);
  }
}
