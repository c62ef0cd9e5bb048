/**
  Numbers as digits: the printf() conversions the source uses, read back.
  */
module Numerals {

  const TWO_32: int := 0x1_0000_0000

  /** A uint32_t. */
  type U32 = n: int | 0 <= n < 0x1_0000_0000

  const DIGITS: string := "0123456789ABCDEF"

  type Base = b: nat | 2 <= b <= 16 witness 10

  predicate IsDigit(c: char, base: Base) {
    exists d: nat | d < base :: DIGITS[d] == c
  }

  function DigitValue(c: char): (d: nat) {
    if '0' <= c <= '9' then (c - '0') as nat
    else if 'A' <= c <= 'F' then (c - 'A') as nat + 10
    else 0
  }

  lemma DigitRoundTrip(d: nat)
    requires d < 16
    ensures DigitValue(DIGITS[d]) == d
    ensures '0' <= DIGITS[d] <= '9' || 'A' <= DIGITS[d] <= 'F'
  {
    assert DIGITS == ['0', '1', '2', '3', '4', '5', '6', '7', '8', '9', 'A', 'B', 'C', 'D', 'E', 'F'];
  }

  predicate IsNumeral(s: string, base: Base) {
    s != "" && forall i | 0 <= i < |s| :: IsDigit(s[i], base)
  }

  /** %u, %lX: the digits of n without leading zeros. */
  function Print(n: nat, base: Base): (s: string)
    ensures s != ""
  {
    if n < base then [DIGITS[n]] else Print(n / base, base) + [DIGITS[n % base]]
  }

  function Value(s: string, base: Base): nat {
    if s == "" then 0 else Value(s[..|s| - 1], base) * base + DigitValue(s[|s| - 1])
  }

  lemma OneMoreDigit(s: string, d: nat, base: Base)
    requires IsNumeral(s, base) && d < base
    ensures IsNumeral(s + [DIGITS[d]], base)
    ensures Value(s + [DIGITS[d]], base) == Value(s, base) * base + d
  {
    var t := s + [DIGITS[d]];
    assert t[..|t| - 1] == s;
    DigitRoundTrip(d);
  }

  lemma DivMod(n: nat, b: nat)
    requires b >= 2
    ensures (n / b) * b + n % b == n && 0 <= n % b < b
    ensures n >= b ==> n / b < n
  {
  }

  lemma {:induction false} PrintRoundTrip(n: nat, base: Base)
    ensures IsNumeral(Print(n, base), base)
    ensures Value(Print(n, base), base) == n
  {
    if n < base {
      DigitRoundTrip(n);
      assert [DIGITS[n]][..0] == "";
    } else {
      DivMod(n, base);
      PrintRoundTrip(n / base, base);
      OneMoreDigit(Print(n / base, base), n % base, base);
    }
  }

  function TenTo(k: nat): nat {
    if k == 0 then 1 else 10 * TenTo(k - 1)
  }

  /** A number below 10^k has at most k decimal digits. */
  lemma {:induction false} DecimalLength(n: nat, k: nat)
    requires k >= 1 && n < TenTo(k)
    ensures |Print(n, 10)| <= k
  {
    if n >= 10 {
      DecimalLength(n / 10, k - 1);
    }
  }

  /** The characters of a numeral. */
  lemma NumeralChars(s: string, base: Base, c: char)
    requires IsNumeral(s, base) && c in s
    ensures '0' <= c <= '9' || 'A' <= c <= 'F'
  {
    var i :| 0 <= i < |s| && s[i] == c;
    var d: nat :| d < base && DIGITS[d] == c;
    DigitRoundTrip(d);
  }
}
