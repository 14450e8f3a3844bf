/** Character classes and decimal numerals shared by the parsers and the report. */
module Text {

  predicate IsDigit(c: char) {
    '0' <= c <= '9'
  }

  predicate AllDigits(s: string) {
    forall k :: 0 <= k < |s| ==> IsDigit(s[k])
  }

  function DigitChar(d: nat): (c: char)
    requires d < 10
    ensures IsDigit(c) && c as int - '0' as int == d
  {
    ('0' as int + d) as char
  }

  function DigitValue(c: char): (d: nat)
    requires IsDigit(c)
    ensures d < 10 && DigitChar(d) == c
  {
    c as int - '0' as int
  }

  /** The numeral JavaScript writes for a non-negative integer: decimal, no leading zero. */
  function DecimalText(n: nat): (t: string)
    ensures |t| >= 1 && IsDigit(t[0])
    ensures t[0] == '0' <==> n == 0
    ensures n < 10 <==> |t| == 1
  {
    if n < 10 then [DigitChar(n)] else DecimalText(n / 10) + [DigitChar(n % 10)]
  }

  /** The value of a string of decimal digits, most significant first; leading zeros allowed. */
  function DigitsValue(t: string): nat
    requires AllDigits(t)
  {
    if t == [] then 0 else DigitsValue(t[..|t| - 1]) * 10 + DigitValue(t[|t| - 1])
  }

  /** A run of digits is worth 0 exactly when every digit is '0'. */
  lemma {:induction false} DigitsValueZero(t: string)
    requires AllDigits(t)
    ensures DigitsValue(t) == 0 <==> forall k :: 0 <= k < |t| ==> t[k] == '0'
  {
    if t != [] {
      var front := t[..|t| - 1];
      var last := t[|t| - 1];
      assert AllDigits(front) by {
        forall k | 0 <= k < |front| ensures IsDigit(front[k]) {
          assert front[k] == t[k];
        }
      }
      DigitsValueZero(front);
      assert DigitValue(last) == 0 <==> last == '0';
      if forall k :: 0 <= k < |t| ==> t[k] == '0' {
        forall k | 0 <= k < |front| ensures front[k] == '0' {
          assert front[k] == t[k];
        }
      }
      if DigitsValue(t) == 0 {
        forall k | 0 <= k < |t| ensures t[k] == '0' {
          if k < |front| {
            assert t[k] == front[k];
          }
        }
      }
    }
  }

  /** A numeral is made of decimal digits. */
  lemma {:induction false} DecimalTextDigits(n: nat)
    ensures AllDigits(DecimalText(n))
  {
    if n >= 10 {
      var front := DecimalText(n / 10);
      DecimalTextDigits(n / 10);
      var t := front + [DigitChar(n % 10)];
      forall k | 0 <= k < |t| ensures IsDigit(t[k]) {
        if k < |front| {
          assert t[k] == front[k];
        }
      }
    }
  }

  /** Reading a numeral back gives the number it was written from. */
  lemma {:induction false} DigitsValueOfDecimal(n: nat)
    ensures AllDigits(DecimalText(n)) && DigitsValue(DecimalText(n)) == n
  {
    DecimalTextDigits(n);
    if n >= 10 {
      var t := DecimalText(n);
      assert t[..|t| - 1] == DecimalText(n / 10);
      DigitsValueOfDecimal(n / 10);
    }
  }

  /** `${n}` for a JavaScript number holding the integer n. */
  function NumberText(n: int): (t: string)
    ensures |t| >= 1 && (t[0] == '-' <==> n < 0)
  {
    if n < 0 then "-" + DecimalText(-n) else DecimalText(n)
  }

  /** The length of the longest run of decimal digits at the start of s. */
  function DigitPrefix(s: string): (n: nat)
    ensures n <= |s| && AllDigits(s[..n])
    ensures n < |s| ==> !IsDigit(s[n])
  {
    if s != [] && IsDigit(s[0]) then
      var m := DigitPrefix(s[1..]);
      assert s[..m + 1] == [s[0]] + s[1..][..m];
      m + 1
    else 0
  }

  /** A numeral is read back whole when it is followed by a non-digit or by nothing. */
  lemma {:induction false} DigitPrefixOfNumeral(t: string, rest: string)
    requires AllDigits(t)
    requires rest == [] || !IsDigit(rest[0])
    ensures DigitPrefix(t + rest) == |t|
  {
    if t != [] {
      assert (t + rest)[1..] == t[1..] + rest;
      DigitPrefixOfNumeral(t[1..], rest);
    } else {
      assert t + rest == rest;
    }
  }

  /** sub occurs in s starting at index i. */
  predicate OccursAt(s: string, sub: string, i: int) {
    0 <= i <= |s| - |sub| && s[i..i + |sub|] == sub
  }

  /** String.prototype.includes: sub occurs somewhere in s. */
  predicate Contains(s: string, sub: string) {
    exists i :: 0 <= i <= |s| - |sub| && OccursAt(s, sub, i)
  }

  /** A string containing a longer text contains each of that text's prefixes. */
  lemma ContainsPrefix(s: string, sub: string, pre: string)
    requires Contains(s, sub) && pre <= sub
    ensures Contains(s, pre)
  {
    var i :| 0 <= i <= |s| - |sub| && OccursAt(s, sub, i);
    assert s[i..i + |pre|] == sub[..|pre|] == pre;
    assert OccursAt(s, pre, i);
  }
}
