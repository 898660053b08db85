/**
 * Unsigned numerals as C's formatted I/O reads and writes them: the text of a
 * number in a base (printf's %u, klib's itoa, which writes digits past 9 as
 * lower-case letters) and the value of a string of digits (scanf's %u and %x).
 */
module Numerals {

  predicate IsDigit(c: char) { '0' <= c <= '9' }

  predicate IsHexDigit(c: char) { IsDigit(c) || 'a' <= c <= 'f' || 'A' <= c <= 'F' }

  /** The character itoa writes for a digit: 0-9, then a, b, c, ... */
  function DigitChar(d: nat): (c: char)
    requires d < 36
  {
    if d < 10 then ('0' as int + d) as char else ('a' as int + d - 10) as char
  }

  /** The value of a decimal or hexadecimal digit, either case. */
  function DigitValue(c: char): (d: nat)
    requires IsHexDigit(c)
    ensures d < 16
    ensures IsDigit(c) ==> d < 10
  {
    if IsDigit(c) then c as int - '0' as int
    else if 'a' <= c <= 'f' then c as int - 'a' as int + 10
    else c as int - 'A' as int + 10
  }

  /** The digits of n in the base, most significant first, with no leading zeros; "0" for 0. */
  function Text(n: nat, base: nat): (s: string)
    requires 2 <= base <= 36
    ensures |s| >= 1
    decreases n
  {
    if n < base then [DigitChar(n)] else Text(n / base, base) + [DigitChar(n % base)]
  }

  predicate AllDigitsIn(s: string, base: nat)
  {
    forall i :: 0 <= i < |s| ==> IsHexDigit(s[i]) && DigitValue(s[i]) < base
  }

  /** The value of a string of digits in the base, most significant first. */
  function Value(s: string, base: nat): (v: nat)
    requires AllDigitsIn(s, base)
  {
    if s == [] then 0 else Value(s[..|s| - 1], base) * base + DigitValue(s[|s| - 1])
  }

  lemma DigitRoundTrip(d: nat)
    requires d < 16
    ensures IsHexDigit(DigitChar(d)) && DigitValue(DigitChar(d)) == d
  {
  }

  /** Appending a digit multiplies the value by the base and adds the digit. */
  lemma ValueSnoc(s: string, c: char, base: nat)
    requires AllDigitsIn(s, base) && IsHexDigit(c) && DigitValue(c) < base
    ensures AllDigitsIn(s + [c], base)
    ensures Value(s + [c], base) == Value(s, base) * base + DigitValue(c)
  {
    assert (s + [c])[..|s|] == s;
  }

  lemma DivMod(n: nat, base: nat)
    requires base > 0
    ensures n == (n / base) * base + n % base
  {
  }

  /** Reading back the text of a number in a base up to 16 gives the number. */
  lemma {:induction false} ValueOfText(n: nat, base: nat)
    requires 2 <= base <= 16
    ensures AllDigitsIn(Text(n, base), base)
    ensures Value(Text(n, base), base) == n
    decreases n
  {
    if n < base {
      SingleDigitText(n, base);
    } else {
      ValueOfText(n / base, base);
      TextStep(n, base);
    }
  }

  lemma SingleDigitText(n: nat, base: nat)
    requires 2 <= base <= 16 && n < base
    ensures AllDigitsIn(Text(n, base), base)
    ensures Value(Text(n, base), base) == n
  {
    DigitRoundTrip(n);
    assert Text(n, base) == [] + [DigitChar(n)];
    ValueSnoc([], DigitChar(n), base);
  }

  lemma TextStep(n: nat, base: nat)
    requires 2 <= base <= 16 && n >= base
    requires AllDigitsIn(Text(n / base, base), base)
    requires Value(Text(n / base, base), base) == n / base
    ensures AllDigitsIn(Text(n, base), base)
    ensures Value(Text(n, base), base) == n
  {
    var q, d := n / base, n % base;
    DigitRoundTrip(d);
    var t := Text(q, base);
    ValueSnoc(t, DigitChar(d), base);
    assert Text(n, base) == t + [DigitChar(d)];
    DivMod(n, base);
  }

  /** The text of a number in base 10 is all decimal digits and its first digit is not 0 unless it is "0". */
  lemma {:induction false} DecimalText(n: nat)
    ensures forall i :: 0 <= i < |Text(n, 10)| ==> IsDigit(Text(n, 10)[i])
    ensures n > 0 ==> Text(n, 10)[0] != '0'
    decreases n
  {
    if n >= 10 {
      DecimalText(n / 10);
    }
  }
}
