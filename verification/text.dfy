/**
 * Character-level helpers shared by the pipeline: the ASCII digit class `\d`
 * of JavaScript regular expressions, the value `Number.parseInt(s, 10)` gives
 * to a string of digits, and `String.prototype.trim`.
 */
module Text {

  /** `\d` in a JavaScript regular expression without the `u` flag. */
  predicate IsDigit(c: char) {
    '0' <= c <= '9'
  }

  predicate AllDigits(s: string) {
    forall i :: 0 <= i < |s| ==> IsDigit(s[i])
  }

  function DigitValue(c: char): (d: nat)
    requires IsDigit(c)
    ensures d <= 9
  {
    c as int - '0' as int
  }

  function Pow10(n: nat): (p: nat)
    ensures p >= 1
  {
    if n == 0 then 1 else 10 * Pow10(n - 1)
  }

  /** The value of a string of decimal digits, read left to right the way
      `parseInt` accumulates it (leading zeros allowed). */
  function DecimalValue(s: string): (r: nat)
    requires AllDigits(s)
  {
    if |s| == 0 then 0 else 10 * DecimalValue(s[..|s| - 1]) + DigitValue(s[|s| - 1])
  }

  /** A string of n digits denotes a number below 10^n. */
  lemma {:induction false} DecimalValueBound(s: string)
    requires AllDigits(s)
    ensures DecimalValue(s) < Pow10(|s|)
  {
    if |s| > 0 {
      DecimalValueBound(s[..|s| - 1]);
    }
  }

  /** The leading digit of a non-empty digit string weighs 10^(n-1). */
  lemma {:induction false} DecimalValueLeadingDigit(s: string)
    requires AllDigits(s) && |s| > 0
    ensures DecimalValue(s) == DigitValue(s[0]) * Pow10(|s| - 1) + DecimalValue(s[1..])
  {
    if |s| > 1 {
      var init, rest := s[..|s| - 1], s[1..];
      var d, last := DigitValue(s[0]), DigitValue(s[|s| - 1]);
      DecimalValueLeadingDigit(init);
      assert init[1..] == rest[..|rest| - 1] && rest[|rest| - 1] == s[|s| - 1];
      assert init[0] == s[0];
      assert DecimalValue(rest) == 10 * DecimalValue(init[1..]) + last;
      ShiftDigit(d, Pow10(|s| - 2), DecimalValue(init[1..]));
    }
  }

  /** One decimal shift of a leading-digit decomposition. */
  lemma ShiftDigit(d: int, p: int, v: int)
    ensures 10 * (d * p + v) == d * (10 * p) + 10 * v
  {
  }

  /** The value of a digit string is bounded by its leading digit:
      d * 10^(n-1) <= value < (d + 1) * 10^(n-1). */
  lemma DecimalValueRange(s: string)
    requires AllDigits(s) && |s| > 0
    ensures DigitValue(s[0]) * Pow10(|s| - 1) <= DecimalValue(s)
    ensures DecimalValue(s) < (DigitValue(s[0]) + 1) * Pow10(|s| - 1)
  {
    DecimalValueLeadingDigit(s);
    DecimalValueBound(s[1..]);
    MulSucc(DigitValue(s[0]), Pow10(|s| - 1));
  }

  lemma MulSucc(d: int, p: int)
    ensures (d + 1) * p == d * p + p
  {
  }

  /** The ECMAScript WhiteSpace and LineTerminator code points, the set
      `String.prototype.trim` removes. */
  predicate IsWhitespace(c: char) {
    || c == '\t' || c == '\n' || c == '\U{B}' || c == '\U{C}' || c == '\r'
    || c == ' ' || c == '\U{A0}' || c == '\U{1680}'
    || ('\U{2000}' <= c <= '\U{200A}')
    || c == '\U{2028}' || c == '\U{2029}' || c == '\U{202F}' || c == '\U{205F}'
    || c == '\U{3000}' || c == '\U{FEFF}'
  }

  function TrimStart(s: string): (r: string)
    ensures |r| <= |s| && r == s[|s| - |r|..]
    ensures forall i :: 0 <= i < |s| - |r| ==> IsWhitespace(s[i])
    ensures |r| > 0 ==> !IsWhitespace(r[0])
  {
    if |s| > 0 && IsWhitespace(s[0]) then TrimStart(s[1..]) else s
  }

  function TrimEnd(s: string): (r: string)
    ensures |r| <= |s| && r == s[..|r|]
    ensures forall i :: |r| <= i < |s| ==> IsWhitespace(s[i])
    ensures |r| > 0 ==> !IsWhitespace(r[|r| - 1])
  {
    if |s| > 0 && IsWhitespace(s[|s| - 1]) then TrimEnd(s[..|s| - 1]) else s
  }

  /** r is the slice of s starting at i, and everything of s outside that
      slice is whitespace. */
  predicate TrimmedAt(s: string, i: int, r: string) {
    && 0 <= i <= |s| - |r| && r == s[i..i + |r|]
    && (forall k :: 0 <= k < i ==> IsWhitespace(s[k]))
    && (forall k :: i + |r| <= k < |s| ==> IsWhitespace(s[k]))
  }

  /** `String.prototype.trim`: the result is the slice s[i..j] obtained by
      dropping every leading and trailing whitespace code point. */
  function Trim(s: string): (r: string)
    ensures exists i :: TrimmedAt(s, i, r)
    ensures |r| > 0 ==> !IsWhitespace(r[0]) && !IsWhitespace(r[|r| - 1])
  {
    var t := TrimStart(s);
    var r := TrimEnd(t);
    var i := |s| - |t|;
    assert TrimmedAt(s, i, r);
    r
  }

  /** Trimming twice is trimming once. */
  lemma TrimIdempotent(s: string)
    ensures Trim(Trim(s)) == Trim(s)
  {
    var r := Trim(s);
    assert |r| == 0 || !IsWhitespace(r[0]);
    assert TrimStart(r) == r;
    assert TrimEnd(r) == r;
  }
}
