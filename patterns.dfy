/** The token patterns of tools/ndiff.py: `^\d+$` (integer) and `^\d*\.\d+$` (decimal),
    and the count of fractional digits taken from a decimal token. */
module Patterns {

  /** `\d` on the ASCII range. */
  predicate IsDigit(c: char) {
    '0' <= c <= '9'
  }

  predicate AllDigits(s: string) {
    forall i :: 0 <= i < |s| ==> IsDigit(s[i])
  }

  /** `^\d+$`: one or more digits and nothing else. */
  predicate IsInteger(s: string) {
    |s| > 0 && AllDigits(s)
  }

  /** `^\d*\.\d+$`: some digits, one '.', then at least one digit. */
  predicate IsDecimal(s: string) {
    exists k :: 0 <= k < |s| - 1 && s[k] == '.' && AllDigits(s[..k]) && AllDigits(s[k + 1..])
  }

  /** No token matches both patterns, so at most one numeric branch applies. */
  lemma IntegerNotDecimal(s: string)
    ensures !(IsInteger(s) && IsDecimal(s))
  {
    if IsDecimal(s) {
      var k :| 0 <= k < |s| - 1 && s[k] == '.' && AllDigits(s[..k]) && AllDigits(s[k + 1..]);
      assert !IsDigit(s[k]);
    }
  }

  /** `s.index(c)`: the position of the first occurrence of `c`. */
  function IndexOf(s: string, c: char): (k: nat)
    requires c in s
    ensures k < |s| && s[k] == c
    ensures forall i :: 0 <= i < k ==> s[i] != c
  {
    if s[0] == c then 0 else IndexOf(s[1..], c) + 1
  }

  lemma DecimalHasDot(s: string)
    requires IsDecimal(s)
    ensures '.' in s
  {
    var k :| 0 <= k < |s| - 1 && s[k] == '.' && AllDigits(s[..k]) && AllDigits(s[k + 1..]);
    assert s[k] in s;
  }

  /** `len(s) - s.index('.') - 1`: the `digits` of a decimal token. */
  function FractionDigits(s: string): (n: nat)
    requires IsDecimal(s)
  {
    DecimalHasDot(s);
    |s| - IndexOf(s, '.') - 1
  }

  /** `digits` is the number of characters after the token's only '.', those
      characters are all digits, and there is at least one of them. */
  lemma FractionDigitsCountsAfterDot(s: string)
    requires IsDecimal(s)
    ensures var d := FractionDigits(s);
      && 1 <= d
      && s[|s| - d - 1] == '.'
      && IsInteger(s[|s| - d..])
      && AllDigits(s[..|s| - d - 1])
  {
    var k :| 0 <= k < |s| - 1 && s[k] == '.' && AllDigits(s[..k]) && AllDigits(s[k + 1..]);
    DecimalHasDot(s);
    var j := IndexOf(s, '.');
    assert j == k by {
      assert j <= k;
      assert forall i :: 0 <= i < k ==> s[..k][i] == s[i];
    }
  }
}
