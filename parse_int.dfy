/**
 * `parseInt(string, 10)` as ECMAScript defines it (the global function parseInt): strip
 * leading white space, take one optional sign, then the longest run of decimal digits;
 * no digits gives NaN.
 */
module IntParsing {
  import opened Wrappers
  import opened Text

  /** The WhiteSpace and LineTerminator code points that parseInt strips. */
  predicate IsJsWhitespace(c: char) {
    || c == '\t' || c == '\n' || c == '\U{000B}' || c == '\U{000C}' || c == '\r' || c == ' '
    || c == '\U{00A0}' || c == '\U{1680}' || ('\U{2000}' <= c <= '\U{200A}')
    || c == '\U{2028}' || c == '\U{2029}' || c == '\U{202F}' || c == '\U{205F}'
    || c == '\U{3000}' || c == '\U{FEFF}'
  }

  /** s without its leading white space. */
  function TrimStart(s: string): (r: string)
    ensures |r| <= |s| && r == s[|s| - |r|..]
    ensures r == [] || !IsJsWhitespace(r[0])
  {
    if s != [] && IsJsWhitespace(s[0]) then TrimStart(s[1..]) else s
  }

  /** What TrimStart removes is white space only. */
  lemma {:induction false} TrimStartRemovesWhitespace(s: string)
    ensures forall k :: 0 <= k < |s| - |TrimStart(s)| ==> IsJsWhitespace(s[k])
  {
    if s != [] && IsJsWhitespace(s[0]) {
      TrimStartRemovesWhitespace(s[1..]);
      forall k | 0 <= k < |s| - |TrimStart(s)| ensures IsJsWhitespace(s[k]) {
        if k > 0 {
          assert s[k] == s[1..][k - 1];
        }
      }
    }
  }

  /** The value of the longest run of digits at the start of u; None if there is none. */
  function ParseDigits(u: string): (r: Option<nat>)
    ensures r.None? <==> u == [] || !IsDigit(u[0])
  {
    var n := DigitPrefix(u);
    if n == 0 then None else Some(DigitsValue(u[..n]))
  }

  /** parseInt(s, 10), with None for NaN.  The value is the exact integer (see Left out). */
  function ParseInt(s: string): (r: Option<int>)
    ensures r.None? <==>
      var t := TrimStart(s);
      var u := if t != [] && (t[0] == '+' || t[0] == '-') then t[1..] else t;
      u == [] || !IsDigit(u[0])
  {
    ParseSigned(TrimStart(s))
  }

  /** One optional sign, then the digit run, of text that starts after the white space. */
  function ParseSigned(t: string): (r: Option<int>)
    ensures r.None? <==>
      var u := if t != [] && (t[0] == '+' || t[0] == '-') then t[1..] else t;
      u == [] || !IsDigit(u[0])
  {
    if t != [] && t[0] == '-' then
      match ParseDigits(t[1..])
      case Some(v) => Some(-(v as int))
      case None => None
    else if t != [] && t[0] == '+' then ParseDigits(t[1..])
    else ParseDigits(t)
  }

  /** A run of digits followed by a non-digit or nothing is read as its value; leading zeros count for nothing. */
  lemma ParseDigitsOfDigits(d: string, rest: string)
    requires d != [] && AllDigits(d) && (rest == [] || !IsDigit(rest[0]))
    ensures ParseDigits(d + rest) == Some(DigitsValue(d))
  {
    DigitPrefixOfNumeral(d, rest);
    assert (d + rest)[..|d|] == d;
  }

  /** No sign, '+' or '-', then a digit run: the digits' value, negated for '-' ("+10" is 10, "007" is 7). */
  lemma ParseSignedOfDigits(sign: string, d: string, rest: string)
    requires sign == "" || sign == "+" || sign == "-"
    requires d != [] && AllDigits(d) && (rest == [] || !IsDigit(rest[0]))
    ensures ParseSigned(sign + d + rest) ==
      Some(if sign == "-" then -(DigitsValue(d) as int) else DigitsValue(d) as int)
  {
    var u := d + rest;
    assert sign + d + rest == sign + u;
    assert u[0] == d[0];
    ParseDigitsOfDigits(d, rest);
    if sign == "" {
      assert sign + u == u;
      ParseSignedAtDigit(u);
    } else if sign == "+" {
      assert sign + u == ['+'] + u;
      ParseSignedAtSign('+', u);
    } else {
      assert sign + u == ['-'] + u;
      ParseSignedAtSign('-', u);
    }
  }

  lemma ParseSignedAtDigit(u: string)
    requires u != [] && IsDigit(u[0])
    ensures ParseSigned(u) == ParseDigits(u)
  {
    DigitIsNoSpaceOrSign(u[0]);
  }

  lemma ParseSignedAtSign(c: char, u: string)
    requires c == '-' || c == '+'
    ensures ParseSigned([c] + u) ==
      if c == '+' then ParseDigits(u)
      else if ParseDigits(u).Some? then Some(-(ParseDigits(u).value as int))
      else None
  {
    assert ([c] + u)[1..] == u;
  }

  /**
   * parseInt of white space, an optional sign and a digit run followed by a non-digit or
   * nothing: the signed value of the digits.
   */
  lemma ParseIntOfDigits(ws: string, sign: string, d: string, rest: string)
    requires forall k :: 0 <= k < |ws| ==> IsJsWhitespace(ws[k])
    requires sign == "" || sign == "+" || sign == "-"
    requires d != [] && AllDigits(d) && (rest == [] || !IsDigit(rest[0]))
    ensures ParseInt(ws + (sign + d + rest)) ==
      Some(if sign == "-" then -(DigitsValue(d) as int) else DigitsValue(d) as int)
  {
    var t := sign + d + rest;
    ParseIntSkipsWhitespace(ws, t);
    assert t[0] == (if sign == "" then d[0] else sign[0]);
    DigitIsNoSpaceOrSign(d[0]);
    assert TrimStart(t) == t;
    ParseSignedOfDigits(sign, d, rest);
  }

  /** Leading white space does not change the result. */
  lemma {:induction false} ParseIntSkipsWhitespace(ws: string, s: string)
    requires forall k :: 0 <= k < |ws| ==> IsJsWhitespace(ws[k])
    ensures ParseInt(ws + s) == ParseInt(s)
  {
    TrimStartSkips(ws, s);
    assert ParseInt(ws + s) == ParseSigned(TrimStart(s));
  }

  lemma {:induction false} TrimStartSkips(ws: string, s: string)
    requires forall k :: 0 <= k < |ws| ==> IsJsWhitespace(ws[k])
    ensures TrimStart(ws + s) == TrimStart(s)
  {
    if ws != [] {
      assert (ws + s)[1..] == ws[1..] + s;
      TrimStartSkips(ws[1..], s);
    } else {
      assert ws + s == s;
    }
  }

  /** An unsigned numeral followed by a non-digit or nothing is read as its value. */
  lemma DigitsOfNumeral(n: nat, rest: string)
    requires rest == [] || !IsDigit(rest[0])
    ensures ParseDigits(DecimalText(n) + rest) == Some(n)
  {
    var d := DecimalText(n);
    DecimalTextDigits(n);
    DigitPrefixOfNumeral(d, rest);
    assert (d + rest)[..|d|] == d;
    DigitsValueOfDecimal(n);
  }

  /** Text that starts with neither white space, a sign nor a digit is NaN ("none"). */
  lemma ParseIntOfNonNumeric(s: string)
    requires s != [] && !IsJsWhitespace(s[0]) && !IsDigit(s[0]) && s[0] != '+' && s[0] != '-'
    ensures ParseInt(s) == None
  {
    assert TrimStart(s) == s;
  }

  /** Text that starts with a digit is read from its first character. */
  lemma ParseIntAtDigit(u: string)
    requires u != [] && IsDigit(u[0])
    ensures ParseInt(u) == ParseDigits(u)
  {
    DigitIsNoSpaceOrSign(u[0]);
    assert TrimStart(u) == u;
  }

  /** Text that starts with '-' is read as the negated digit run after it. */
  lemma ParseIntAtMinus(u: string)
    requires u != [] && IsDigit(u[0])
    ensures ParseInt("-" + u) == Some(-(ParseDigits(u).value as int))
  {
    var s := "-" + u;
    assert s[0] == '-' && s[1..] == u;
    assert TrimStart(s) == s;
  }

  lemma DigitIsNoSpaceOrSign(c: char)
    requires IsDigit(c)
    ensures !IsJsWhitespace(c) && c != '-' && c != '+'
  {
  }

  /**
   * A decimal numeral followed by anything that does not start with a digit is read as
   * its value ("10" is 10, "12abc" is 12, "1e3" is 1).
   */
  lemma ParseIntOfNumeral(n: nat, rest: string)
    requires rest == [] || !IsDigit(rest[0])
    ensures ParseInt(DecimalText(n) + rest) == Some(n)
  {
    var u := DecimalText(n) + rest;
    DigitsOfNumeral(n, rest);
    assert u[0] == DecimalText(n)[0];
    ParseIntAtDigit(u);
  }

  /** The same numeral after a minus sign is read as the negated value ("-3" is -3). */
  lemma ParseIntOfNegativeNumeral(n: nat, rest: string)
    requires rest == [] || !IsDigit(rest[0])
    ensures ParseInt("-" + (DecimalText(n) + rest)) == Some(-(n as int))
  {
    var u := DecimalText(n) + rest;
    DigitsOfNumeral(n, rest);
    assert u[0] == DecimalText(n)[0];
    ParseIntAtMinus(u);
  }
}
