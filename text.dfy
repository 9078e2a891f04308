// Character and decimal-number helpers shared by the generator's components.
// Dec renders a non-negative integer the way `operator<<(int)` on an output
// stream and JUCE's `String (int)` do: plain decimal digits, no sign, no padding.

module Text {

  predicate IsDigit(c: char) {
    '0' <= c <= '9'
  }

  predicate IsAsciiLetter(c: char) {
    'A' <= c <= 'Z' || 'a' <= c <= 'z'
  }

  predicate AllDigits(s: string) {
    s == [] || (IsDigit(s[0]) && AllDigits(s[1..]))
  }

  function DigitChar(d: nat): (c: char)
    requires d < 10
    ensures IsDigit(c)
  {
    (48 + d) as char
  }

  /** The value of a digit character (0 for any other character). */
  function DigitValue(c: char): (d: nat)
    ensures d < 10
    ensures IsDigit(c) ==> DigitChar(d) == c
  {
    if IsDigit(c) then c as int - 48 else 0
  }

  lemma {:induction false} AllDigitsAppend(a: string, b: string)
    requires AllDigits(a) && AllDigits(b)
    ensures AllDigits(a + b)
    decreases |a|
  {
    if a == [] {
      assert a + b == b;
    } else {
      assert (a + b)[1..] == a[1..] + b;
      AllDigitsAppend(a[1..], b);
    }
  }

  /** Decimal text of n, most significant digit first. */
  function Dec(n: nat): (s: string)
    ensures |s| >= 1 && AllDigits(s)
    decreases n
  {
    if n < 10 then [DigitChar(n)]
    else
      var last := [DigitChar(n % 10)];
      assert AllDigits(last) by {
        assert last[1..] == [];
      }
      AllDigitsAppend(Dec(n / 10), last);
      Dec(n / 10) + last
  }

  /** The number a string of decimal digits denotes. */
  function DigitsValue(s: string): nat
    decreases |s|
  {
    if s == [] then 0 else DigitsValue(s[..|s| - 1]) * 10 + DigitValue(s[|s| - 1])
  }

  /** Reading the decimal text of n back gives n. */
  lemma {:induction false} DecRoundTrip(n: nat)
    ensures DigitsValue(Dec(n)) == n
    decreases n
  {
    if n >= 10 {
      DecRoundTrip(n / 10);
      var s := Dec(n);
      assert s[..|s| - 1] == Dec(n / 10);
    }
  }

  /** Distinct numbers have distinct decimal texts. */
  lemma DecInjective(a: nat, b: nat)
    requires a != b
    ensures Dec(a) != Dec(b)
  {
    DecRoundTrip(a);
    DecRoundTrip(b);
  }

  predicate StartsWith(s: string, prefix: string) {
    |prefix| <= |s| && s[..|prefix|] == prefix
  }

  function ToLowerAscii(c: char): (l: char)
    ensures 'A' <= c <= 'Z' ==> l as int == c as int + 32
    ensures !('A' <= c <= 'Z') ==> l == c
  {
    if 'A' <= c <= 'Z' then (c as int + 32) as char else c
  }

  /** `endsWithIgnoreCase`, with case folding restricted to ASCII letters. */
  predicate EndsWithIgnoreCase(s: string, suffix: string) {
    |suffix| <= |s| &&
    forall i :: 0 <= i < |suffix| ==>
      ToLowerAscii(s[|s| - |suffix| + i]) == ToLowerAscii(suffix[i])
  }
}
