/** Numerals in any base, with digits taken by their place in a list of characters. */
module Numerals {
  const LOWER := "0123456789" + "abcdefghijklm" + "nopqrstuvwxyz"
  const UPPER := "0123456789" + "ABCDEFGHIJKLM" + "NOPQRSTUVWXYZ"

  predicate Digitary(digits: string) {
    digits == LOWER || digits == UPPER
  }

  function Numeral(n: nat, base: nat, digits: string): (s: string)
    requires 2 <= base <= |digits|
    ensures s != [] && forall c | c in s :: c in digits[..base]
  {
    var (rest, digit) := LastDigit(n, base);
    assert digits[..base][digit] == digits[digit];
    if n < base then [digits[digit]] else Numeral(rest, base, digits) + [digits[digit]]
  }

  // A number without its last digit, and that digit.
  function LastDigit(n: nat, base: nat): (r: (nat, nat))
    requires base >= 2
    ensures n == r.0 * base + r.1 && r.1 < base && (n >= base ==> r.0 < n)
  {
    QuotientIsLess(n, base);
    (n / base, n % base)
  }

  lemma QuotientIsLess(n: nat, base: nat)
    requires base >= 2
    ensures n == (n / base) * base + n % base && (n > 0 ==> n / base < n)
  {
    var q := n / base;
    assert q * base == q * 2 + q * (base - 2);
  }

  // The characters a reader of numerals of this base takes for digits.
  predicate DigitOf(base: nat, c: char)
    requires base <= |LOWER|
  {
    c in LOWER[..base] || c in UPPER[..base]
  }

  // Text that does not go on with a digit.
  predicate EndsDigits(base: nat, rest: string)
    requires base <= |LOWER|
  {
    rest == "" || !DigitOf(base, rest[0])
  }

  // A numeral has a leading zero for no number but 0.
  lemma {:induction false} LeadingDigit(n: nat, base: nat, digits: string)
    requires 2 <= base <= |digits| && forall i | 0 < i < |digits| :: digits[i] != digits[0]
    ensures Numeral(n, base, digits)[0] == digits[0] <==> n == 0
    ensures n == 0 ==> Numeral(n, base, digits) == [digits[0]]
  {
    if n >= base {
      LeadingDigit(LastDigit(n, base).0, base, digits);
    }
  }

  function Power16(k: nat): nat {
    if k == 0 then 1 else 16 * Power16(k - 1)
  }

  // A number below 16^k has at most k hexadecimal digits.
  lemma {:induction false} HexNumeralLength(n: nat, digits: string, k: nat)
    requires 16 <= |digits| && k > 0 && n < Power16(k)
    ensures |Numeral(n, 16, digits)| <= k
  {
    if n >= 16 {
      HexNumeralLength(n / 16, digits, k - 1);
    }
  }
}
