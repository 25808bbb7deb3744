/** Decimal digit strings: the rendering JavaScript uses when a number is
    interpolated into a template string, and the reading `Number(...)` gives a
    string made only of decimal digits. Shared by the tile keys and messages of
    the game engine and by the version parser. */
module Decimal {

  predicate IsDigit(c: char) {
    '0' <= c <= '9'
  }

  predicate IsDigits(s: string) {
    forall i :: 0 <= i < |s| ==> IsDigit(s[i])
  }

  function DigitChar(d: nat): (c: char)
    requires d < 10
    ensures IsDigit(c)
  {
    (d + '0' as int) as char
  }

  function DigitValue(c: char): (d: nat)
    requires IsDigit(c)
    ensures d < 10
    ensures DigitChar(d) == c
  {
    c as int - '0' as int
  }

  /** The value of a digit string, most significant digit first. The empty
      string is worth 0, as `Number("")` is. */
  function DigitsToNat(s: string): (r: nat)
    requires IsDigits(s)
    ensures |s| == 0 ==> r == 0
    ensures |s| == 1 ==> r == DigitValue(s[0])
  {
    if |s| == 0 then 0
    else DigitsToNat(s[..|s| - 1]) * 10 + DigitValue(s[|s| - 1])
  }

  /** Leading zeros add nothing, as in `Number("007")`. */
  lemma {:induction false} LeadingZeroIgnored(s: string)
    requires IsDigits(s) && 0 < |s| && s[0] == '0'
    ensures DigitsToNat(s) == DigitsToNat(s[1..])
    decreases |s|
  {
    if 1 < |s| {
      var init, tail := s[..|s| - 1], s[1..];
      LeadingZeroIgnored(init);
      assert init[1..] == tail[..|tail| - 1];
      assert tail[|tail| - 1] == s[|s| - 1];
    }
  }

  /** The shortest decimal rendering of `n`: it is never empty, holds only
      digits, reads back as `n`, and has no leading zero, so 0 is "0". */
  function NatToString(n: nat): (s: string)
    ensures 0 < |s| && IsDigits(s)
    ensures DigitsToNat(s) == n
    ensures s[0] == '0' ==> s == "0"
  {
    if n < 10 then [DigitChar(n)]
    else
      var prefix := NatToString(n / 10);
      var s := prefix + [DigitChar(n % 10)];
      assert s[..|s| - 1] == prefix;
      s
  }

  lemma NatToStringInjective(a: nat, b: nat)
    requires NatToString(a) == NatToString(b)
    ensures a == b
  {
  }

  /** The shortest rendering, as JavaScript prints an integer: no leading
      zero, so "0" is the only rendering that starts with '0', and a minus
      sign is followed by a non-zero digit. */
  predicate Canonical(s: string) {
    && 0 < |s|
    && (s[0] == '0' ==> s == "0")
    && (s[0] == '-' ==> 1 < |s| && s[1] != '0')
  }

  /** JavaScript's rendering of an integer: a minus sign before the digits
      of its magnitude when it is negative. */
  function IntToString(i: int): (s: string)
    ensures 0 < |s|
    ensures i < 0 <==> s[0] == '-'
    ensures i >= 0 ==> IsDigits(s) && DigitsToNat(s) == i
    ensures i < 0 ==> IsDigits(s[1..]) && DigitsToNat(s[1..]) == -i
  {
    if i < 0 then
      var s := "-" + NatToString(-i);
      assert s[1..] == NatToString(-i);
      s
    else NatToString(i)
  }

  /** The rendering of an integer is the shortest one: no leading zero. */
  lemma IntToStringCanonical(i: int)
    ensures Canonical(IntToString(i))
  {
    var s := IntToString(i);
    if i < 0 {
      assert s[1..] == NatToString(-i);
    }
  }
}
