/** The integer conversions and the padding used by tools/ndiff.py: `int(...)` of a
    digit string, `str(...)` of the difference, and the loop that left-pads the
    result with spaces. */
module Numbers {
  import opened Patterns

  function DigitValue(c: char): (d: nat)
    requires IsDigit(c)
  {
    c as int - '0' as int
  }

  function DigitChar(d: nat): (c: char)
    requires d < 10
    ensures IsDigit(c) && DigitValue(c) == d
  {
    (d + '0' as int) as char
  }

  /** `int(s)` of a string of digits; leading zeros are allowed. */
  function ParseDigits(s: string): (n: nat)
    requires AllDigits(s)
    decreases |s|
  {
    if s == [] then 0
    else
      assert forall i :: 0 <= i < |s| - 1 ==> s[..|s| - 1][i] == s[i];
      ParseDigits(s[..|s| - 1]) * 10 + DigitValue(s[|s| - 1])
  }

  /** `str(n)` of a natural number: its decimal digits without leading zeros. */
  function NatToDigits(n: nat): (s: string)
    ensures IsInteger(s)
    ensures s[0] == '0' ==> n == 0 && |s| == 1
    decreases n
  {
    if n < 10 then [DigitChar(n)] else NatToDigits(n / 10) + [DigitChar(n % 10)]
  }

  /** `str(x)` of an integer: a '-' for negative values, then the digits of its
      magnitude. */
  function IntToString(x: int): (s: string) {
    if x < 0 then "-" + NatToDigits(-x) else NatToDigits(x)
  }

  /** The strings `str` produces for integers: digits, optionally after a '-'. */
  predicate IsSigned(s: string) {
    IsInteger(s) || (|s| >= 2 && s[0] == '-' && IsInteger(s[1..]))
  }

  /** `int(s)` of a signed decimal string. */
  function ParseInt(s: string): (x: int)
    requires IsSigned(s)
  {
    if s[0] == '-' then -(ParseDigits(s[1..]) as int) else ParseDigits(s)
  }

  lemma {:induction false} NatRoundTrip(n: nat)
    ensures ParseDigits(NatToDigits(n)) == n
    decreases n
  {
    if n >= 10 {
      var s := NatToDigits(n);
      assert s[..|s| - 1] == NatToDigits(n / 10);
      NatRoundTrip(n / 10);
    }
  }

  /** `int(str(x)) == x`: the decimal string of the difference loses nothing. */
  lemma IntRoundTrip(x: int)
    ensures IsSigned(IntToString(x))
    ensures ParseInt(IntToString(x)) == x
  {
    if x < 0 {
      var s := IntToString(x);
      assert s[0] == '-' && s[1..] == NatToDigits(-x);
      NatRoundTrip(-x);
    } else {
      NatRoundTrip(x);
    }
  }

  /** `str(int(s)) == s` for a digit string without superfluous leading zeros. */
  lemma {:induction false} DigitsRoundTrip(s: string)
    requires IsInteger(s) && (s[0] != '0' || |s| == 1)
    ensures NatToDigits(ParseDigits(s)) == s
    decreases |s|
  {
    var n := ParseDigits(s);
    var init := s[..|s| - 1];
    var d := DigitValue(s[|s| - 1]);
    if |s| == 1 {
      assert DigitChar(d) == s[0];
    } else {
      assert init[0] == s[0];
      DigitsRoundTrip(init);
      LeadingDigitBound(init);
      assert n == ParseDigits(init) * 10 + d;
      assert n / 10 == ParseDigits(init) && n % 10 == d;
      assert DigitChar(d) == s[|s| - 1];
      assert s == init + [s[|s| - 1]];
    }
  }

  /** A digit string whose first digit is not 0 has a positive value. */
  lemma {:induction false} LeadingDigitBound(s: string)
    requires IsInteger(s) && s[0] != '0'
    ensures ParseDigits(s) >= 1
    decreases |s|
  {
    if |s| > 1 {
      var init := s[..|s| - 1];
      assert init[0] == s[0];
      LeadingDigitBound(init);
    }
  }

  /** `n` spaces. */
  function Spaces(n: nat): (r: string)
    ensures |r| == n
    ensures forall i :: 0 <= i < n ==> r[i] == ' '
  {
    if n == 0 then "" else " " + Spaces(n - 1)
  }

  /** `r` is `s` behind enough spaces to make it `width` wide, and exactly `s` when
      `s` is already that wide or wider. */
  predicate PaddedTo(r: string, s: string, width: nat) {
    && |r| == (if |s| < width then width else |s|)
    && r[|r| - |s|..] == s
    && (forall i :: 0 <= i < |r| - |s| ==> r[i] == ' ')
  }

  /** `s` left-padded with spaces to `width`; never truncated when already wider. */
  function Padded(s: string, width: nat): (r: string)
    ensures PaddedTo(r, s, width)
  {
    if |s| < width then Spaces(width - |s|) + s else s
  }

  /** The `while newWhite > 0` loop: prepend one space at a time until `s` is as wide
      as `width`. */
  method PadLeft(s: string, width: nat) returns (r: string)
    ensures r == Padded(s, width)
  {
    r := s;
    var newWhite: int := width - |s|;
    ghost var total := newWhite;
    while newWhite > 0
      invariant newWhite <= total
      invariant total > 0 ==> 0 <= newWhite && r == Spaces(total - newWhite) + s
      invariant total <= 0 ==> r == s
      decreases newWhite
    {
      r := " " + r;
      newWhite := newWhite - 1;
    }
  }
}
