/**
  Decimal text for non-negative integers: `str(n)` and `int(s.strip())` as the
  footer's pointer line uses them.
 */
module Decimal {
  import opened Wrappers

  predicate IsDigit(c: char) {
    '0' <= c <= '9'
  }

  predicate AllDigits(s: string) {
    forall i | 0 <= i < |s| :: IsDigit(s[i])
  }

  function DigitChar(d: nat): (c: char)
    requires d < 10
    ensures IsDigit(c)
  {
    (('0' as int) + d) as char
  }

  /** The value of a digit character (0 for any other character). */
  function DigitValue(c: char): (d: nat)
    ensures d < 10
    ensures IsDigit(c) ==> DigitChar(d) == c
  {
    if IsDigit(c) then (c as int) - ('0' as int) else 0
  }

  /** `str(n)`: the shortest decimal numeral of `n`, most significant digit first. */
  function Format(n: nat): (s: string)
    ensures 1 <= |s| && AllDigits(s)
    ensures s[0] == '0' ==> n == 0 && |s| == 1
  {
    if n < 10 then [DigitChar(n)] else Format(n / 10) + [DigitChar(n % 10)]
  }

  /** The number a string of decimal digits denotes (leading zeros allowed, as `int()` allows them). */
  function ValueOf(s: string): nat {
    if |s| == 0 then 0 else ValueOf(s[..|s| - 1]) * 10 + DigitValue(s[|s| - 1])
  }

  /** Reading back a formatted number gives the number. */
  lemma {:induction false} FormatValue(n: nat)
    ensures ValueOf(Format(n)) == n
  {
    if n >= 10 {
      var s := Format(n);
      assert s[..|s| - 1] == Format(n / 10);
      FormatValue(n / 10);
    }
  }

  /** The characters `str.strip()` removes, restricted to ASCII. */
  predicate IsSpace(c: char) {
    c == ' ' || 9 <= c as int <= 13 || 28 <= c as int <= 31
  }

  predicate AllSpace(s: string) {
    forall i | 0 <= i < |s| :: IsSpace(s[i])
  }

  /** The first position at or after `i` that does not hold a space. */
  function SpaceEnd(s: string, i: nat): (j: nat)
    requires i <= |s|
    ensures i <= j <= |s|
    ensures forall k | i <= k < j :: IsSpace(s[k])
    ensures j < |s| ==> !IsSpace(s[j])
    decreases |s| - i
  {
    if i < |s| && IsSpace(s[i]) then SpaceEnd(s, i + 1) else i
  }

  /** The start of the run of spaces that ends at `j`, not looking below `lo`. */
  function SpaceStart(s: string, lo: nat, j: nat): (i: nat)
    requires lo <= j <= |s|
    ensures lo <= i <= j
    ensures forall k | i <= k < j :: IsSpace(s[k])
    ensures i > lo ==> !IsSpace(s[i - 1])
    decreases j
  {
    if j > lo && IsSpace(s[j - 1]) then SpaceStart(s, lo, j - 1) else j
  }

  /** `s.strip()`: what is left once the spaces at both ends are removed. */
  function Strip(s: string): string {
    var i := SpaceEnd(s, 0);
    s[i..SpaceStart(s, i, |s|)]
  }

  /**
    `int(s.strip())` on the digits-only inputs the model admits: `None` stands
    for the `ValueError` Python raises on anything else, the empty string included.
   */
  function ParseInt(s: string): Option<nat> {
    var t := Strip(s);
    if |t| > 0 && AllDigits(t) then Some(ValueOf(t)) else None
  }

  /** Stripping leaves a string that neither starts nor ends with a space untouched. */
  lemma {:induction false} StripUnpadded(pre: string, t: string)
    requires AllSpace(pre)
    requires |t| > 0 && !IsSpace(t[0]) && !IsSpace(t[|t| - 1])
    ensures Strip(pre + t) == t
  {
    var s := pre + t;
    assert s[|pre|] == t[0];
    assert s[|s| - 1] == t[|t| - 1];
    var i := SpaceEnd(s, 0);
    assert i == |pre|;
    assert SpaceStart(s, i, |s|) == |s|;
    assert s[|pre|..] == t;
  }

  /** The pointer round trip: `int(("\n" + str(n)).strip()) == n`. */
  lemma {:induction false} ParseFormat(pre: string, n: nat)
    requires AllSpace(pre)
    ensures ParseInt(pre + Format(n)) == Some(n)
  {
    var s := Format(n);
    StripUnpadded(pre, s);
    FormatValue(n);
  }
}
