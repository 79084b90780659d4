/**
 String helpers the pipeline relies on: suffix test (`str.endswith`),
 the alphabetic test (`str.isalpha`), and the decimal rendering of a count
 (`str(n)` for a non-negative integer) with its parser.

 Unicode case folding and the Unicode "alphabetic" category are not modelled:
 the pipeline takes them as parameters (`lower: string -> string`,
 `isLetter: char -> bool`). An ASCII instance of both is given at the end,
 for concrete examples only.
 */
module Text {

  /** `s.endswith(suffix)` */
  predicate EndsWith(s: string, suffix: string)
  {
    |suffix| <= |s| && s[|s| - |suffix|..] == suffix
  }

  /** `s.isalpha()`: at least one character, and every character is a letter. */
  predicate IsAlpha(isLetter: char -> bool, s: string)
    ensures IsAlpha(isLetter, s) ==> s != ""
  {
    |s| > 0 && forall i :: 0 <= i < |s| ==> isLetter(s[i])
  }

  /** A word that passes `isalpha` holds no character that is not a letter. */
  lemma AlphaExcludes(isLetter: char -> bool, s: string, c: char)
    requires IsAlpha(isLetter, s) && !isLetter(c)
    ensures c !in s
  {
  }

  predicate IsDigit(c: char)
  {
    '0' <= c <= '9'
  }

  function DigitValue(c: char): nat
    requires IsDigit(c)
  {
    c as int - '0' as int
  }

  function DigitChar(d: nat): (c: char)
    requires d < 10
    ensures IsDigit(c) && DigitValue(c) == d
  {
    ('0' as int + d) as char
  }

  predicate AllDigits(s: string)
  {
    forall i :: 0 <= i < |s| ==> IsDigit(s[i])
  }

  /** The value of a string of decimal digits, most significant first. */
  function ParseDecimal(s: string): nat
    requires AllDigits(s)
  {
    if s == [] then 0 else 10 * ParseDecimal(s[..|s| - 1]) + DigitValue(s[|s| - 1])
  }

  /**
   `str(n)` for a non-negative integer: a non-empty string of decimal digits
   without a leading zero, whose value is `n`.
   */
  function NatToString(n: nat): (r: string)
    ensures |r| > 0 && AllDigits(r)
    ensures |r| > 1 ==> r[0] != '0'
    ensures ParseDecimal(r) == n
    decreases n
  {
    if n < 10 then [DigitChar(n)]
    else
      var front := NatToString(n / 10);
      assert |front| == 1 ==> front[0] != '0' by {
        if |front| == 1 {
          assert front == front[..0] + [front[0]];
          assert ParseDecimal(front) == DigitValue(front[0]);
        }
      }
      var r := front + [DigitChar(n % 10)];
      assert r[..|r| - 1] == front;
      r
  }

  /** Two counts render the same only if they are equal. */
  lemma NatToStringInjective(m: nat, n: nat)
    requires NatToString(m) == NatToString(n)
    ensures m == n
  {
  }

  // ---- An ASCII instance of the two parameters, for concrete examples ----

  predicate IsAsciiLetter(c: char)
  {
    'a' <= c <= 'z' || 'A' <= c <= 'Z'
  }

  function AsciiLowerChar(c: char): char
  {
    if 'A' <= c <= 'Z' then (c as int - 'A' as int + 'a' as int) as char else c
  }

  /** Lower-cases the ASCII capitals and leaves every other character alone. */
  function AsciiLower(s: string): (r: string)
    ensures |r| == |s|
    ensures forall i :: 0 <= i < |s| ==> r[i] == AsciiLowerChar(s[i])
  {
    if s == [] then [] else [AsciiLowerChar(s[0])] + AsciiLower(s[1..])
  }
}
