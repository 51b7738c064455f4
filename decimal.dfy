/**
 * Decimal text as Foundation and the Swift standard library produce and read it:
 * `String(format: "%u", n)` for comic numbers in URLs, and the failable
 * initialisers `Int(_:)` and `Int32(_:)` that turn the wire's year, month and
 * day strings into integers.
 */
module Decimal {
  import opened Wrappers

  const Int32Min: int := -0x8000_0000
  const Int32Max: int := 0x7FFF_FFFF
  const Int64Min: int := -0x8000_0000_0000_0000
  const Int64Max: int := 0x7FFF_FFFF_FFFF_FFFF
  const UInt64Max: int := 0xFFFF_FFFF_FFFF_FFFF

  predicate IsDigit(c: char) {
    '0' <= c <= '9'
  }

  predicate AllDigits(s: string) {
    forall i :: 0 <= i < |s| ==> IsDigit(s[i])
  }

  function DigitChar(d: nat): (c: char)
    requires d < 10
    ensures IsDigit(c)
  {
    ('0' as int + d) as char
  }

  function DigitValue(c: char): (d: nat)
    requires IsDigit(c)
    ensures d < 10
  {
    c as int - '0' as int
  }

  /** `String(format: "%u", n)`: the decimal digits of `n`, most significant first. */
  function DecimalString(n: nat): (s: string)
    ensures 1 <= |s| && AllDigits(s)
    ensures s[0] == '0' ==> n == 0
    ensures n < 10 <==> |s| == 1
  {
    if n < 10 then [DigitChar(n)] else DecimalString(n / 10) + [DigitChar(n % 10)]
  }

  /** The value a string of decimal digits denotes (the empty string denotes 0). */
  function DigitsValue(s: string): nat
    requires AllDigits(s)
  {
    if s == [] then 0 else DigitsValue(s[..|s| - 1]) * 10 + DigitValue(s[|s| - 1])
  }

  /** Reading back what `DecimalString` wrote gives the number again. */
  lemma {:induction false} DecimalStringValue(n: nat)
    ensures DigitsValue(DecimalString(n)) == n
  {
    if n >= 10 {
      DecimalStringValue(n / 10);
      var s := DecimalString(n);
      assert s[..|s| - 1] == DecimalString(n / 10);
    }
  }

  /** Formatting is injective: two numbers never share a decimal spelling. */
  lemma DecimalStringInjective(m: nat, n: nat)
    requires DecimalString(m) == DecimalString(n)
    ensures m == n
  {
    DecimalStringValue(m);
    DecimalStringValue(n);
  }

  /**
   * Swift's `FixedWidthInteger.init?(_ text: String)` in base 10 for a type whose
   * range is `lo ... hi`: an optional `+` or `-`, then one or more ASCII digits and
   * nothing else, denoting a value inside the range; anything else is nil.
   */
  function ParseInteger(text: string, lo: int, hi: int): (r: Option<int>)
    ensures r.Some? ==> lo <= r.value <= hi
    ensures r.Some? ==> text != [] && (IsDigit(text[0]) || text[0] == '+' || text[0] == '-')
  {
    var signed := |text| > 0 && (text[0] == '+' || text[0] == '-');
    var digits := if signed then text[1..] else text;
    if digits == [] || !AllDigits(digits) then None
    else
      var magnitude: int := DigitsValue(digits);
      var value := if signed && text[0] == '-' then -magnitude else magnitude;
      if lo <= value <= hi then Some(value) else None
  }

  /** Every in-range number, written in decimal, parses back to itself. */
  lemma ParseDecimalString(n: nat, lo: int, hi: int)
    requires lo <= n <= hi
    ensures ParseInteger(DecimalString(n), lo, hi) == Some(n)
  {
    DecimalStringValue(n);
  }

  /**
   * Text with a non-digit after its first character, such as "2018a", never
   * parses. `ParseInteger`'s own contract covers the empty text and a bad
   * first character.
   */
  lemma ParseRejectsNonDigit(text: string, lo: int, hi: int, i: nat)
    requires 0 < i < |text| && !IsDigit(text[i])
    ensures ParseInteger(text, lo, hi) == None
  {
    var signed := |text| > 0 && (text[0] == '+' || text[0] == '-');
    var digits := if signed then text[1..] else text;
    if signed {
      assert digits[i - 1] == text[i];
    }
  }
}
