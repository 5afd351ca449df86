/**
 * The number/text conversions of JavaScript that the widget relies on,
 * restricted to the non-negative integers it uses:
 * `n.toString(radix)` (and `String(n)` for radix 10) is ToText, and
 * `parseInt(s, radix)` on a string made only of digits is Value.
 */
module NumberText {

  predicate IsDecimalDigit(c: char) { '0' <= c <= '9' }

  predicate IsLowerHexDigit(c: char) { IsDecimalDigit(c) || 'a' <= c <= 'f' }

  predicate IsHexDigit(c: char) { IsLowerHexDigit(c) || 'A' <= c <= 'F' }

  /** The digit that Number.prototype.toString writes for d: lowercase letters above 9. */
  function DigitChar(d: nat): (c: char)
    requires d < 16
    ensures IsLowerHexDigit(c)
    ensures d < 10 <==> IsDecimalDigit(c)
  {
    if d < 10 then ('0' as int + d) as char else ('a' as int + d - 10) as char
  }

  /** The value of a digit of either case. */
  function DigitValue(c: char): (d: nat)
    requires IsHexDigit(c)
    ensures d < 16
    ensures d < 10 <==> IsDecimalDigit(c)
  {
    if IsDecimalDigit(c) then c as int - '0' as int
    else if 'a' <= c <= 'f' then c as int - 'a' as int + 10
    else c as int - 'A' as int + 10
  }

  lemma DigitRoundTrip(d: nat)
    requires d < 16
    ensures DigitValue(DigitChar(d)) == d
  {
  }

  lemma LowerDigitRoundTrip(c: char)
    requires IsLowerHexDigit(c)
    ensures DigitChar(DigitValue(c)) == c
  {
  }

  /** Every character of s is a digit of the given base. */
  predicate IsDigitsOf(s: string, base: nat)
  {
    forall i | 0 <= i < |s| :: IsHexDigit(s[i]) && DigitValue(s[i]) < base
  }

  /** The value of a digit string, most significant digit first: `parseInt(s, base)`. */
  function Value(s: string, base: nat): nat
    requires IsDigitsOf(s, base)
  {
    if s == [] then 0 else Value(s[..|s| - 1], base) * base + DigitValue(s[|s| - 1])
  }

  /**
   * `n.toString(base)` for a non-negative integer: the digits of n, most
   * significant first, lowercase, without leading zeros.
   */
  function ToText(n: nat, base: nat): (s: string)
    requires 2 <= base <= 16
    ensures |s| >= 1 && IsDigitsOf(s, base)
    ensures forall i | 0 <= i < |s| :: IsLowerHexDigit(s[i])
    ensures s[0] == '0' <==> n == 0
    decreases n
  {
    if n < base then [DigitChar(n)]
    else
      DivideByBase(n, base);
      ToText(n / base, base) + [DigitChar(n % base)]
  }

  /** Dropping the last digit of a number of two or more digits leaves a smaller, non-zero number. */
  lemma DivideByBase(n: nat, base: nat)
    requires 2 <= base <= n
    ensures 1 <= n / base < n
  {
    var q, r := n / base, n % base;
    assert n == q * base + r;
    assert q * base >= q * 2;
  }

  /** A number is its quotient by the base times the base, plus its remainder. */
  lemma QuotientAndRemainder(n: nat, base: nat)
    requires 1 <= base
    ensures n == n / base * base + n % base
  {
  }

  /** Appending one digit multiplies the value so far by the base. */
  lemma ValueAppend(front: string, c: char, base: nat)
    requires IsDigitsOf(front, base) && IsHexDigit(c) && DigitValue(c) < base
    ensures IsDigitsOf(front + [c], base)
    ensures Value(front + [c], base) == Value(front, base) * base + DigitValue(c)
  {
    assert (front + [c])[..|front|] == front;
  }

  /** `parseInt(n.toString(base), base) == n`. */
  lemma {:induction false} ValueOfToText(n: nat, base: nat)
    requires 2 <= base <= 16
    ensures Value(ToText(n, base), base) == n
    decreases n
  {
    if n < base {
      DigitRoundTrip(n);
    } else {
      var q, r := n / base, n % base;
      DivideByBase(n, base);
      var front := ToText(q, base);
      assert ToText(n, base) == front + [DigitChar(r)];
      ValueOfToText(q, base);
      DigitRoundTrip(r);
      ValueAppend(front, DigitChar(r), base);
      QuotientAndRemainder(n, base);
    }
  }

  /**
   * The length of `n.toString(16)`: one digit below 16, two digits from 16
   * to 255, and at least three digits from 256 on.
   */
  lemma {:induction false} HexLength(n: nat)
    ensures |ToText(n, 16)| == 1 <==> n < 16
    ensures |ToText(n, 16)| == 2 <==> 16 <= n < 256
    ensures |ToText(n, 16)| >= 3 <==> 256 <= n
  {
    if n >= 16 {
      HexLength(n / 16);
    }
  }

  /** `n.toString(16)` for n < 256, digit by digit. */
  lemma HexDigitsOfByte(n: nat)
    requires n < 256
    ensures n < 16 ==> ToText(n, 16) == [DigitChar(n)]
    ensures 16 <= n ==> ToText(n, 16) == [DigitChar(n / 16), DigitChar(n % 16)]
  {
  }
}
