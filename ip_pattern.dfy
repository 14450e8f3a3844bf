/**
 * The address pattern of src/index.ts:
 *
 *   ^((?:(?:^|\.)(?:2(?:5[0-5]|[0-4]\d)|1?\d?\d)){4})|(([0-9a-f]){1,4}(:([0-9a-f]){1,4}){7})$
 *
 * used with String.prototype.match and the global flag, of which the program reads only
 * the first match.  The alternation binds loosest, so the pattern is `^IPV4` or `IPV6$`:
 * the first branch is anchored only at the start of the input and the second only at its
 * end.  The engine tries the input positions from left to right; at position 0 it tries
 * the first branch before the second, and at every later position only the second branch
 * can match, because `^` holds at position 0 alone (no multiline flag).
 */
module IpPattern {
  import opened Wrappers
  import opened Text

  // ---------------------------------------------------------------------------
  // The IPv4 branch
  // ---------------------------------------------------------------------------

  /**
   * t is a whole match of the octet alternative `2(?:5[0-5]|[0-4]\d)|1?\d?\d`:
   * one digit, two digits, or three digits from 100 to 255 (leading zeros allowed
   * in two-digit octets).
   */
  predicate OctetText(t: string) {
    || (|t| == 1 && IsDigit(t[0]))
    || (|t| == 2 && IsDigit(t[0]) && IsDigit(t[1]))
    || (|t| == 3 && IsDigit(t[1]) && IsDigit(t[2]) &&
        (t[0] == '1' || (t[0] == '2' && (t[1] <= '4' || (t[1] == '5' && t[2] <= '5')))))
  }

  /** t is n octets joined by '.' (n >= 1). */
  predicate DottedOctets(t: string, n: nat)
    decreases n, 1
  {
    n >= 1 && (OctetFirst(t, n, 1) || OctetFirst(t, n, 2) || OctetFirst(t, n, 3))
  }

  /** t is n dotted octets whose first octet has exactly L characters. */
  predicate OctetFirst(t: string, n: nat, L: nat)
    decreases n, 0
  {
    && 1 <= n && L <= |t| && OctetText(t[..L])
    && if n == 1 then L == |t| else L < |t| && t[L] == '.' && DottedOctets(t[L + 1..], n - 1)
  }

  /**
   * t is a whole match of the IPv4 branch `((?:(?:^|\.)OCTET){4})` at position 0.
   * The first repetition may start with the `\.` alternative, so a single leading dot is
   * accepted; in the later repetitions `^` cannot hold and a dot is required.
   */
  predicate Ipv4Text(t: string) {
    DottedOctets(t, 4) || (|t| > 0 && t[0] == '.' && DottedOctets(t[1..], 4))
  }

  /**
   * The backtracking search for the octet at position i followed by n - 1 further
   * `.OCTET` repetitions, trying first-octet lengths L, L - 1, ..., 1.  At a given position
   * the octet alternative can end after three, two or one characters (the engine tries
   * `2(5[0-5]|[0-4]\d)` first, then `1?\d?\d` with its optional parts taken first), and it
   * tries the feasible lengths longest first; a repeated length re-runs the same
   * continuation, so "longest valid length first" is the whole of its order.  Result: the
   * end of the first successful path.
   */
  function TryOctet(s: string, i: nat, n: nat, L: nat): Option<nat>
    requires i <= |s| && 1 <= n && L <= 3
    decreases n, L
  {
    if L == 0 then None
    else if i + L <= |s| && OctetText(s[i..i + L]) then
      match AfterOctet(s, i + L, n - 1)
      case Some(e) => Some(e)
      case None => TryOctet(s, i, n, L - 1)
    else TryOctet(s, i, n, L - 1)
  }

  /** The n remaining `.OCTET` repetitions from position j. */
  function AfterOctet(s: string, j: nat, n: nat): Option<nat>
    requires j <= |s|
    decreases n, 4
  {
    if n == 0 then Some(j)
    else if j < |s| && s[j] == '.' then TryOctet(s, j + 1, n, 3)
    else None
  }

  /**
   * The end of the IPv4 branch's match at position 0, if it matches: the first
   * repetition tries `^` (octet at 0) before `\.` (a dot, then the octet at 1).
   */
  function Ipv4Prefix(s: string): Option<nat> {
    match TryOctet(s, 0, 4, 3)
    case Some(e) => Some(e)
    case None => if 0 < |s| && s[0] == '.' then TryOctet(s, 1, 4, 3) else None
  }

  lemma {:induction false} TryOctetSound(s: string, i: nat, n: nat, L: nat)
    requires i <= |s| && 1 <= n && L <= 3
    ensures TryOctet(s, i, n, L).Some? ==>
      var e := TryOctet(s, i, n, L).value; i <= e <= |s| && DottedOctets(s[i..e], n)
    decreases n, L
  {
    if L > 0 {
      if i + L <= |s| && OctetText(s[i..i + L]) {
        AfterOctetSound(s, i + L, n - 1);
        match AfterOctet(s, i + L, n - 1)
        case Some(e) =>
          OctetThenRest(s, i, n, L, e);
        case None =>
          TryOctetSound(s, i, n, L - 1);
      } else {
        TryOctetSound(s, i, n, L - 1);
      }
    }
  }

  /** An octet at s[i..i + L], then the n - 1 further repetitions up to e, make n octets. */
  lemma OctetThenRest(s: string, i: nat, n: nat, L: nat, e: nat)
    requires 1 <= n && 1 <= L <= 3 && i + L <= e <= |s| && OctetText(s[i..i + L])
    requires n == 1 ==> e == i + L
    requires n > 1 ==> i + L < e && s[i + L] == '.' && DottedOctets(s[i + L + 1..e], n - 1)
    ensures DottedOctets(s[i..e], n)
  {
    var t := s[i..e];
    assert t[..L] == s[i..i + L];
    if n > 1 {
      assert t[L] == s[i + L] && t[L + 1..] == s[i + L + 1..e];
    }
    assert OctetFirst(t, n, L);
  }

  lemma {:induction false} AfterOctetSound(s: string, j: nat, n: nat)
    requires j <= |s|
    ensures AfterOctet(s, j, n).Some? ==>
      var e := AfterOctet(s, j, n).value;
      j <= e <= |s| && (n == 0 ==> e == j) &&
      (n > 0 ==> j < e && s[j] == '.' && DottedOctets(s[j + 1..e], n))
    decreases n, 4
  {
    if n > 0 && j < |s| && s[j] == '.' {
      TryOctetSound(s, j + 1, n, 3);
    }
  }

  /**
   * Backtracking is complete and finds the longest match: if s[i..e] is n dotted octets,
   * the search succeeds and ends at e or later.  Only the last octet can be shortened,
   * since the octets before it end at a dot.
   */
  lemma {:induction false} TryOctetComplete(s: string, i: nat, e: nat, n: nat, L: nat, len: nat)
    requires i <= e <= |s| && 1 <= len <= L <= 3
    requires OctetFirst(s[i..e], n, len)
    ensures TryOctet(s, i, n, L).Some? && e <= TryOctet(s, i, n, L).value
    decreases n, L
  {
    var t := s[i..e];
    if len < L {
      if n > 1 {
        assert t[len] == s[i + len];
        NoOctetAcrossDot(s, i, len, L);
      }
      if !(i + L <= |s| && OctetText(s[i..i + L]) && AfterOctet(s, i + L, n - 1).Some?) {
        TryOctetComplete(s, i, e, n, L - 1, len);
      }
    } else {
      assert t[..L] == s[i..i + L];
      if n > 1 {
        var u := t[L + 1..];
        assert u == s[i + L + 1..e];
        var len' :| 1 <= len' <= 3 && OctetFirst(u, n - 1, len');
        TryOctetComplete(s, i + L + 1, e, n - 1, 3, len');
      }
    }
  }

  /** An octet is all digits, so no octet runs across a dot. */
  lemma NoOctetAcrossDot(s: string, i: nat, k: nat, L: nat)
    requires k < L <= 3 && i + k < |s| && s[i + k] == '.'
    ensures !(i + L <= |s| && OctetText(s[i..i + L]))
  {
    if i + L <= |s| {
      assert s[i..i + L][k] == '.';
    }
  }

  /** No octet starts at a character that is not a digit. */
  lemma {:induction false} TryOctetAtNonDigit(s: string, i: nat, n: nat, L: nat)
    requires i < |s| && !IsDigit(s[i]) && 1 <= n && L <= 3
    ensures TryOctet(s, i, n, L) == None
    decreases L
  {
    if L > 0 {
      if i + L <= |s| {
        assert s[i..i + L][0] == s[i];
      }
      TryOctetAtNonDigit(s, i, n, L - 1);
    }
  }

  /** The search never reports a match that is not an IPv4 text. */
  lemma Ipv4PrefixSound(s: string)
    ensures Ipv4Prefix(s).Some? ==>
      Ipv4Prefix(s).value <= |s| && Ipv4Text(s[..Ipv4Prefix(s).value])
  {
    TryOctetSound(s, 0, 4, 3);
    if 0 < |s| && s[0] == '.' {
      TryOctetSound(s, 1, 4, 3);
      match TryOctet(s, 1, 4, 3)
      case Some(e) =>
        assert s[..e][1..] == s[1..e];
      case None =>
    }
    match TryOctet(s, 0, 4, 3)
    case Some(e) =>
      assert s[..e] == s[0..e];
    case None =>
  }

  /**
   * Backtracking is complete: if some prefix of s is an IPv4 text, the branch matches, and
   * its match is at least as long as that prefix.
   */
  lemma Ipv4PrefixComplete(s: string, e: nat)
    requires e <= |s| && Ipv4Text(s[..e])
    ensures Ipv4Prefix(s).Some? && e <= Ipv4Prefix(s).value
  {
    var t := s[..e];
    if DottedOctets(t, 4) {
      assert t == s[0..e];
      var len :| 1 <= len <= 3 && OctetFirst(t, 4, len);
      TryOctetComplete(s, 0, e, 4, 3, len);
    } else {
      assert t[1..] == s[1..e];
      var len :| 1 <= len <= 3 && OctetFirst(t[1..], 4, len);
      TryOctetComplete(s, 1, e, 4, 3, len);
      TryOctetAtNonDigit(s, 0, 4, 3);
    }
  }

  // ---------------------------------------------------------------------------
  // The IPv6 branch
  // ---------------------------------------------------------------------------

  /** `[0-9a-f]`: lower-case hexadecimal only. */
  predicate IsLowerHex(c: char) {
    IsDigit(c) || 'a' <= c <= 'f'
  }

  /** The length of the run of lower-case hexadecimal digits at the start of t. */
  function HexRun(t: string): (h: nat)
    ensures h <= |t| && (h < |t| ==> !IsLowerHex(t[h]))
  {
    if t != [] && IsLowerHex(t[0]) then 1 + HexRun(t[1..]) else 0
  }

  /** Every character of the run is a lower-case hex digit. */
  lemma {:induction false} HexRunHex(t: string, k: nat)
    requires k < HexRun(t)
    ensures IsLowerHex(t[k])
  {
    if k > 0 {
      HexRunHex(t[1..], k - 1);
    }
  }

  /**
   * t is n groups of one to four lower-case hex digits joined by ':'.  A group of
   * `[0-9a-f]{1,4}` is followed by ':' or by the end of the input, neither of which is a
   * hex digit, so every group of a match is a whole run of hex digits: the only way to
   * split t is at its colons.
   */
  predicate HexGroups(t: string, n: nat)
    decreases n
  {
    var h := HexRun(t);
    && 1 <= n && 1 <= h <= 4
    && if n == 1 then h == |t| else h < |t| && t[h] == ':' && HexGroups(t[h + 1..], n - 1)
  }

  /** t is a whole match of the IPv6 branch `[0-9a-f]{1,4}(:[0-9a-f]{1,4}){7}`. */
  predicate Ipv6Text(t: string) {
    HexGroups(t, 8)
  }

  /** The leftmost position at or after p from which the rest of s is an IPv6 text (`$`). */
  function Ipv6Start(s: string, p: nat): (r: Option<nat>)
    requires p <= |s|
    ensures r.Some? ==> p <= r.value <= |s|
    decreases |s| - p
  {
    if Ipv6Text(s[p..]) then Some(p)
    else if p < |s| then Ipv6Start(s, p + 1)
    else None
  }

  /** A position found is an IPv6 suffix, and no earlier position at or after p is one. */
  lemma {:induction false} Ipv6StartFound(s: string, p: nat)
    requires p <= |s| && Ipv6Start(s, p).Some?
    ensures Ipv6Text(s[Ipv6Start(s, p).value..])
    ensures forall k :: p <= k < Ipv6Start(s, p).value ==> !Ipv6Text(s[k..])
    decreases |s| - p
  {
    if !Ipv6Text(s[p..]) {
      Ipv6StartFound(s, p + 1);
    }
  }

  /** No position found means no suffix from p on is an IPv6 text. */
  lemma {:induction false} Ipv6StartNone(s: string, p: nat)
    requires p <= |s| && Ipv6Start(s, p).None?
    ensures forall k :: p <= k <= |s| ==> !Ipv6Text(s[k..])
    decreases |s| - p
  {
    assert !Ipv6Text(s[p..]);
    if p < |s| {
      assert Ipv6Start(s, p) == Ipv6Start(s, p + 1);
      Ipv6StartNone(s, p + 1);
    }
  }

  /** Ipv6Start finds a position exactly when some suffix from p on is an IPv6 text. */
  lemma Ipv6StartComplete(s: string, p: nat, k: nat)
    requires p <= k <= |s| && Ipv6Text(s[k..])
    ensures Ipv6Start(s, p).Some? && Ipv6Start(s, p).value <= k
  {
    if Ipv6Start(s, p).None? {
      Ipv6StartNone(s, p);
    } else {
      Ipv6StartFound(s, p);
    }
  }

  // ---------------------------------------------------------------------------
  // The first match
  // ---------------------------------------------------------------------------

  /** `s.match(IP_REGEXP)[0]`, or None where match returns null. */
  function IpMatch(s: string): Option<string> {
    Ipv4PrefixSound(s);
    match Ipv4Prefix(s)
    case Some(e) => Some(s[..e])
    case None =>
      match Ipv6Start(s, 0)
      case Some(p) => Some(s[p..])
      case None => None
  }

  /**
   * The IPv4 branch: when some prefix of s is an IPv4 text, the match is the longest such
   * prefix (e.g. "1.2.3.4" for "1.2.3.4.5", "1.2.3.45" for "1.2.3.456").
   */
  lemma Ipv4Branch(s: string, e: nat)
    requires e <= |s| && Ipv4Text(s[..e])
    ensures IpMatch(s).Some?
    ensures IpMatch(s).value <= s && Ipv4Text(IpMatch(s).value)
    ensures forall k :: 0 <= k <= |s| && Ipv4Text(s[..k]) ==> k <= |IpMatch(s).value|
  {
    Ipv4PrefixComplete(s, e);
    Ipv4PrefixSound(s);
    forall k | 0 <= k <= |s| && Ipv4Text(s[..k])
      ensures k <= |IpMatch(s).value|
    {
      Ipv4PrefixComplete(s, k);
    }
  }

  /** Only the last octet is shortened, to its longest valid length: "1.2.3.456" yields "1.2.3.45". */
  lemma LongestLastOctet()
    ensures IpMatch("1.2.3.456") == Some("1.2.3.45")
  {
    var s := "1.2.3.456";
    assert s[6..8] == "45" && s[6..9] == "456";
    assert OctetText("45") && !OctetText("456");
    LastOctetTwoDigits(s, 6);
    OctetThenDot(s, 4, 2, "3", s[6..], 8);
    OctetThenDot(s, 2, 3, "2", s[4..], 8);
    OctetThenDot(s, 0, 4, "1", s[2..], 8);
    Ipv4PrefixFromStart(s, 8);
    assert s[..8] == "1.2.3.45";
  }

  /** A last octet of three characters that is not valid is cut to its first two. */
  lemma LastOctetTwoDigits(s: string, i: nat)
    requires i + 3 <= |s| && OctetText(s[i..i + 2]) && !OctetText(s[i..i + 3])
    ensures TryOctet(s, i, 1, 3) == Some(i + 2)
  {
  }

  /**
   * The IPv6 branch: when no prefix of s is an IPv4 text, s matches exactly when some
   * suffix is an IPv6 text, and the match is the leftmost (hence longest) such suffix.
   */
  lemma Ipv6Branch(s: string)
    requires forall e :: 0 <= e <= |s| ==> !Ipv4Text(s[..e])
    ensures IpMatch(s).Some? <==> exists p :: 0 <= p <= |s| && Ipv6Text(s[p..])
    ensures IpMatch(s).Some? ==>
      exists p :: (0 <= p <= |s| && IpMatch(s).value == s[p..] && Ipv6Text(s[p..]) &&
                   forall k :: 0 <= k < p ==> !Ipv6Text(s[k..]))
  {
    Ipv4PrefixSound(s);
    assert Ipv4Prefix(s).None?;
    match Ipv6Start(s, 0)
    case Some(p) =>
      Ipv6StartFound(s, 0);
    case None =>
      Ipv6StartNone(s, 0);
  }

  /** Every match is an IPv4 text at the start of s or an IPv6 text at its end. */
  lemma IpMatchSound(s: string)
    ensures IpMatch(s).Some? ==>
      || (IpMatch(s).value <= s && Ipv4Text(IpMatch(s).value))
      || (exists p :: 0 <= p <= |s| && IpMatch(s).value == s[p..] && Ipv6Text(s[p..]))
  {
    Ipv4PrefixSound(s);
    if Ipv4Prefix(s).None? && Ipv6Start(s, 0).Some? {
      Ipv6StartFound(s, 0);
    }
  }

  // ---------------------------------------------------------------------------
  // Well-formed addresses are matched whole
  // ---------------------------------------------------------------------------

  /** The dotted-decimal text of an IPv4 address, each octet written without leading zeros. */
  function DottedQuad(a: nat, b: nat, c: nat, d: nat): string
    requires a < 256 && b < 256 && c < 256 && d < 256
  {
    DecimalText(a) + "." + DecimalText(b) + "." + DecimalText(c) + "." + DecimalText(d)
  }

  lemma OctetOfDecimal(x: nat)
    requires x < 256
    ensures |DecimalText(x)| <= 3 && OctetText(DecimalText(x))
  {
    var t := DecimalText(x);
    if 10 <= x < 100 {
      assert t == DecimalText(x / 10) + [DigitChar(x % 10)];
    } else if 100 <= x {
      var h, m, u := x / 100, (x / 10) % 10, x % 10;
      assert x / 10 / 10 == h;
      assert DecimalText(x / 10) == [DigitChar(h)] + [DigitChar(m)];
      assert t == [DigitChar(h), DigitChar(m), DigitChar(u)];
      assert h == 1 || h == 2;
      if h == 2 {
        assert m <= 5;
        assert m == 5 ==> u <= 5;
      }
    }
  }

  /**
   * An octet written in decimal and followed by a non-digit or by the end is consumed
   * whole: the longer lengths the search tries first fail on that non-digit.
   */
  lemma {:induction false} TryOctetExact(s: string, i: nat, n: nat, L: nat, o: string, e: nat)
    requires i <= |s| && 1 <= n && OctetText(o)
    requires i + |o| <= |s| && s[i..i + |o|] == o
    requires i + |o| == |s| || !IsDigit(s[i + |o|])
    requires |o| <= L <= 3
    requires AfterOctet(s, i + |o|, n - 1) == Some(e)
    ensures TryOctet(s, i, n, L) == Some(e)
    decreases L
  {
    if L > |o| {
      TryOctetExact(s, i, n, L - 1, o, e);
    }
  }

  /** One octet and the dot after it, at the front of s[i..]. */
  lemma OctetThenDot(s: string, i: nat, n: nat, o: string, tail: string, e: nat)
    requires 2 <= n && OctetText(o) && i <= |s|
    requires s[i..] == o + ['.'] + tail
    requires TryOctet(s, i + |o| + 1, n - 1, 3) == Some(e)
    ensures TryOctet(s, i, n, 3) == Some(e)
  {
    assert s[i..][..|o|] == o && s[i..][|o|] == '.';
    assert s[i..i + |o|] == o;
    TryOctetExact(s, i, n, 3, o, e);
  }

  /** The decimal text of an octet value and the dot after it, at the front of s[i..]. */
  lemma DecimalThenDot(s: string, i: nat, n: nat, x: nat, tail: string, e: nat)
    requires 2 <= n && x < 256 && i <= |s|
    requires s[i..] == DecimalText(x) + ['.'] + tail
    requires TryOctet(s, i + |DecimalText(x)| + 1, n - 1, 3) == Some(e)
    ensures TryOctet(s, i, n, 3) == Some(e)
  {
    OctetOfDecimal(x);
    OctetThenDot(s, i, n, DecimalText(x), tail, e);
  }

  /** The decimal text of the last octet, followed by a non-digit or nothing. */
  lemma LastDecimal(s: string, i: nat, x: nat, rest: string)
    requires x < 256 && i <= |s|
    requires s[i..] == DecimalText(x) + rest
    requires rest == [] || !IsDigit(rest[0])
    ensures TryOctet(s, i, 1, 3) == Some(i + |DecimalText(x)|)
  {
    var o := DecimalText(x);
    OctetOfDecimal(x);
    assert s[i..i + |o|] == s[i..][..|o|] == o;
    assert i + |o| < |s| ==> s[i + |o|] == s[i..][|o|] == rest[0];
    TryOctetExact(s, i, 1, 3, o, i + |o|);
  }

  /** Octet values written in decimal and joined by dots. */
  function Dotted(xs: seq<nat>): string
    requires |xs| >= 1
    decreases |xs|
  {
    if |xs| == 1 then DecimalText(xs[0]) else DecimalText(xs[0]) + ['.'] + Dotted(xs[1..])
  }

  /** Dotted octets at s[i..], followed by a non-digit or nothing, are consumed whole. */
  lemma {:induction false} DottedConsumed(s: string, i: nat, xs: seq<nat>, rest: string)
    requires |xs| >= 1 && (forall k :: 0 <= k < |xs| ==> xs[k] < 256) && i <= |s|
    requires s[i..] == Dotted(xs) + rest
    requires rest == [] || !IsDigit(rest[0])
    ensures TryOctet(s, i, |xs|, 3) == Some(i + |Dotted(xs)|)
    decreases |xs|
  {
    if |xs| == 1 {
      LastDecimal(s, i, xs[0], rest);
    } else {
      var o := DecimalText(xs[0]);
      var d := Dotted(xs[1..]);
      DottedSplit(s, i, xs, rest);
      var j, m, e := i + |o| + 1, |xs| - 1, i + |Dotted(xs)|;
      assert |xs[1..]| == m && j + |d| == e;
      DottedConsumed(s, j, xs[1..], rest);
      assert TryOctet(s, j, m, 3) == Some(e);
      DecimalThenDot(s, i, |xs|, xs[0], d + rest, i + |Dotted(xs)|);
    }
  }

  /** The first octet of dotted octets at s[i..], its dot, and what follows them. */
  lemma DottedSplit(s: string, i: nat, xs: seq<nat>, rest: string)
    requires |xs| >= 2 && i <= |s| && s[i..] == Dotted(xs) + rest
    ensures var o := DecimalText(xs[0]); var d := Dotted(xs[1..]);
      && i + |o| + 1 <= |s| && s[i + |o| + 1..] == d + rest
      && s[i..] == o + ['.'] + (d + rest) && |Dotted(xs)| == |o| + 1 + |d|
  {
    var o := DecimalText(xs[0]);
    var d := Dotted(xs[1..]);
    assert Dotted(xs) == o + ['.'] + d;
    SuffixAfter(s, i, o + ['.'], d, rest);
  }

  /** What follows a known front of s[i..]. */
  lemma SuffixAfter(s: string, i: nat, front: string, mid: string, rest: string)
    requires i <= |s| && s[i..] == front + mid + rest
    ensures i + |front| <= |s| && s[i + |front|..] == mid + rest
    ensures s[i..] == front + (mid + rest)
  {
    assert front + mid + rest == front + (mid + rest);
    assert s[i + |front|..] == s[i..][|front|..];
  }

  lemma Ipv4PrefixFromStart(s: string, e: nat)
    requires TryOctet(s, 0, 4, 3) == Some(e)
    ensures Ipv4Prefix(s) == Some(e)
  {
  }

  /**
   * Every IPv4 address in dotted-decimal form is matched as itself, also when text that
   * does not start with a digit follows it (as in "1.2.3.4.5").
   */
  lemma DottedQuadMatched(a: nat, b: nat, c: nat, d: nat, rest: string)
    requires a < 256 && b < 256 && c < 256 && d < 256
    requires rest == [] || !IsDigit(rest[0])
    ensures IpMatch(DottedQuad(a, b, c, d) + rest) == Some(DottedQuad(a, b, c, d))
  {
    DottedFour(a, b, c, d);
    DottedTextMatched(DottedQuad(a, b, c, d) + rest, [a, b, c, d], rest);
  }

  /**
   * The IPv4 alternative is tried first at the start of the text, so a dotted quad wins
   * even when the text goes on with eight IPv6 groups.
   */
  lemma Ipv4WinsOverIpv6()
    ensures IpMatch("1.2.3.4a:b:c:d:e:f:1:2") == Some("1.2.3.4")
  {
    var rest := "a:b:c:d:e:f:1:2";
    DottedQuadMatched(1, 2, 3, 4, rest);
    assert DottedQuad(1, 2, 3, 4) == "1.2.3.4";
    assert DottedQuad(1, 2, 3, 4) + rest == "1.2.3.4a:b:c:d:e:f:1:2";
  }

  lemma DottedTextMatched(s: string, xs: seq<nat>, rest: string)
    requires |xs| == 4 && forall k :: 0 <= k < |xs| ==> xs[k] < 256
    requires s == Dotted(xs) + rest && (rest == [] || !IsDigit(rest[0]))
    ensures IpMatch(s) == Some(Dotted(xs))
  {
    assert s[0..] == s;
    DottedConsumed(s, 0, xs, rest);
    Ipv4PrefixFromStart(s, |Dotted(xs)|);
    assert s[..|Dotted(xs)|] == Dotted(xs);
  }

  lemma DottedFour(a: nat, b: nat, c: nat, d: nat)
    requires a < 256 && b < 256 && c < 256 && d < 256
    ensures Dotted([a, b, c, d]) == DottedQuad(a, b, c, d)
  {
    var xs := [a, b, c, d];
    DottedFourText(xs);
    assert xs[0] == a && xs[1] == b && xs[2] == c && xs[3] == d;
  }

  lemma DottedFourText(xs: seq<nat>)
    requires |xs| == 4
    ensures Dotted(xs) == DecimalText(xs[0]) + "." + DecimalText(xs[1]) + "." + DecimalText(xs[2])
      + "." + DecimalText(xs[3])
  {
    var A, B, C, D := DecimalText(xs[0]), DecimalText(xs[1]), DecimalText(xs[2]), DecimalText(xs[3]);
    assert xs[1..][1..] == xs[2..] && xs[2..][1..] == xs[3..];
    assert Dotted(xs[3..]) == D;
    assert Dotted(xs[2..]) == C + ['.'] + D;
    assert Dotted(xs[1..]) == B + ['.'] + (C + ['.'] + D);
    assert Dotted(xs) == A + ['.'] + (B + ['.'] + (C + ['.'] + D));
    Regroup(A, B, C, D);
  }

  lemma Regroup(A: string, B: string, C: string, D: string)
    ensures A + ['.'] + (B + ['.'] + (C + ['.'] + D)) == A + "." + B + "." + C + "." + D
  {
    assert "." == ['.'];
  }

  /** Every character of t is a lower-case hex digit or a colon. */
  predicate HexOrColon(t: string) {
    forall k :: 0 <= k < |t| ==> IsLowerHex(t[k]) || t[k] == ':'
  }

  lemma {:induction false} HexGroupsAlphabet(t: string, n: nat)
    requires HexGroups(t, n)
    ensures HexOrColon(t)
    decreases n
  {
    if n > 1 {
      HexGroupsAlphabet(t[HexRun(t) + 1..], n - 1);
      RunThenColon(t);
    } else {
      forall k | 0 <= k < |t| ensures IsLowerHex(t[k]) {
        HexRunHex(t, k);
      }
    }
  }

  /** A run of hex digits, a colon, then hex digits and colons. */
  lemma RunThenColon(t: string)
    requires HexRun(t) < |t| && t[HexRun(t)] == ':' && HexOrColon(t[HexRun(t) + 1..])
    ensures HexOrColon(t)
  {
    var h := HexRun(t);
    forall k | 0 <= k < |t| ensures IsLowerHex(t[k]) || t[k] == ':' {
      if k < h {
        HexRunHex(t, k);
      } else if k > h {
        assert t[k] == t[h + 1..][k - h - 1];
      }
    }
  }

  /** No text that is an IPv6 address has a prefix that is an IPv4 text: the latter holds a dot. */
  lemma Ipv6HasNoIpv4Prefix(t: string, e: nat)
    requires Ipv6Text(t) && e <= |t|
    ensures !Ipv4Text(t[..e])
  {
    HexGroupsAlphabet(t, 8);
    HexOrColonPrefix(t, e);
    if Ipv4Text(t[..e]) {
      var k := Ipv4TextDot(t[..e]);
      assert false;
    }
  }

  lemma HexOrColonPrefix(t: string, e: nat)
    requires HexOrColon(t) && e <= |t|
    ensures HexOrColon(t[..e])
  {
    forall k | 0 <= k < e ensures IsLowerHex(t[..e][k]) || t[..e][k] == ':' {
      assert t[..e][k] == t[k];
    }
  }

  /** An IPv4 text holds a dot; the result is the index of one. */
  lemma Ipv4TextDot(t: string) returns (k: nat)
    requires Ipv4Text(t)
    ensures k < |t| && t[k] == '.'
  {
    if DottedOctets(t, 4) {
      var len :| 1 <= len <= 3 && OctetFirst(t, 4, len);
      assert OctetFirst(t, 4, len);
      assert len < |t|;
      assert t[len] == '.';
      k := len;
    } else {
      k := 0;
    }
  }

  /** Every IPv6 text in the pattern's form (lower-case, eight groups) is matched as itself. */
  lemma Ipv6TextMatched(t: string)
    requires Ipv6Text(t)
    ensures IpMatch(t) == Some(t)
  {
    Ipv4PrefixSound(t);
    if Ipv4Prefix(t).Some? {
      Ipv6HasNoIpv4Prefix(t, Ipv4Prefix(t).value);
    }
    assert t[0..] == t;
  }

  // ---------------------------------------------------------------------------
  // Texts that cannot match
  // ---------------------------------------------------------------------------

  /** An IPv4 text starts with a digit or with its one optional dot. */
  lemma Ipv4TextStart(t: string)
    requires Ipv4Text(t)
    ensures t != [] && (IsDigit(t[0]) || t[0] == '.')
  {
    if DottedOctets(t, 4) {
      var len :| 1 <= len <= 3 && OctetFirst(t, 4, len);
      assert t[..len][0] == t[0];
    }
  }

  /** n hex groups need at least n digits and n - 1 colons. */
  lemma {:induction false} HexGroupsLength(t: string, n: nat)
    requires HexGroups(t, n)
    ensures |t| >= 2 * n - 1
    decreases n
  {
    if n > 1 {
      HexGroupsLength(t[HexRun(t) + 1..], n - 1);
    }
  }

  /** An IPv6 text has a colon right after its first group. */
  lemma Ipv6TextColon(t: string)
    requires Ipv6Text(t)
    ensures HexRun(t) < |t| && t[HexRun(t)] == ':'
  {
  }

  /** Text shorter than any IPv6 address that starts with neither a digit nor a dot. */
  lemma ShortTextUnmatched(s: string)
    requires 0 < |s| < 15 && !IsDigit(s[0]) && s[0] != '.'
    ensures IpMatch(s) == None
  {
    Ipv4PrefixSound(s);
    if Ipv4Prefix(s).Some? {
      var e := Ipv4Prefix(s).value;
      Ipv4TextStart(s[..e]);
    }
    forall p | 0 <= p <= |s| ensures !Ipv6Text(s[p..]) {
      if Ipv6Text(s[p..]) {
        HexGroupsLength(s[p..], 8);
      }
    }
    NoIpv6Suffix(s);
  }

  /** No suffix is an IPv6 text: the IPv6 branch finds nothing. */
  lemma NoIpv6Suffix(s: string)
    requires forall p :: 0 <= p <= |s| ==> !Ipv6Text(s[p..])
    ensures Ipv6Start(s, 0) == None
  {
    if Ipv6Start(s, 0).Some? {
      Ipv6StartFound(s, 0);
    }
  }

  /** Neither branch matching means no match. */
  lemma NoIpMatch(s: string)
    requires Ipv4Prefix(s).None? && Ipv6Start(s, 0).None?
    ensures IpMatch(s) == None
  {
  }

  /** Text without a colon has no IPv6 match. */
  lemma NoColonNoIpv6(s: string)
    requires ':' !in s
    ensures Ipv6Start(s, 0) == None
  {
    forall p | 0 <= p <= |s| ensures !Ipv6Text(s[p..]) {
      if Ipv6Text(s[p..]) {
        Ipv6TextColon(s[p..]);
      }
    }
    NoIpv6Suffix(s);
  }

  /** Four leading digits leave no room for the dot after a first octet. */
  lemma FourDigitsUnmatchedAsIpv4(s: string)
    requires |s| >= 4 && IsDigit(s[0]) && IsDigit(s[1]) && IsDigit(s[2]) && IsDigit(s[3])
    ensures Ipv4Prefix(s) == None
  {
    Ipv4PrefixSound(s);
  }

  /** The number of colons in t. */
  function Colons(t: string): nat {
    multiset(t)[':']
  }

  /** Colons are counted piecewise. */
  lemma ColonsSplit(t: string, k: nat)
    requires k <= |t|
    ensures Colons(t) == Colons(t[..k]) + Colons(t[k..])
  {
    assert t == t[..k] + t[k..];
  }

  /** n hex groups are joined by exactly n - 1 colons. */
  lemma {:induction false} HexGroupsColons(t: string, n: nat)
    requires HexGroups(t, n)
    ensures Colons(t) == n - 1
    decreases n
  {
    var h := HexRun(t);
    if n > 1 {
      HexGroupsColons(t[h + 1..], n - 1);
      ColonsAfterRun(t);
    } else {
      HexRunColons(t);
      assert t[..h] == t;
    }
  }

  /** A run of hex digits and a colon: the colons of t are that one and those after it. */
  lemma ColonsAfterRun(t: string)
    requires HexRun(t) < |t| && t[HexRun(t)] == ':'
    ensures Colons(t) == 1 + Colons(t[HexRun(t) + 1..])
  {
    var h := HexRun(t);
    HexRunColons(t);
    ColonsSplit(t, h);
    ColonFront(t[h..]);
    assert t[h..][1..] == t[h + 1..];
  }

  /** A run of hex digits holds no colon. */
  lemma HexRunColons(t: string)
    ensures Colons(t[..HexRun(t)]) == 0
  {
    var h := HexRun(t);
    forall k | 0 <= k < h ensures t[..h][k] != ':' {
      HexRunHex(t, k);
    }
    assert ':' !in t[..h];
  }

  /** A leading colon counts once. */
  lemma ColonFront(u: string)
    requires u != [] && u[0] == ':'
    ensures Colons(u) == 1 + Colons(u[1..])
  {
    assert u == [':'] + u[1..];
  }

  /**
   * A character outside `[0-9a-f:]` with fewer than seven colons after it: no suffix is
   * an IPv6 text, since one starting at or before it would contain it and one starting
   * after it has too few colons.
   */
  lemma NoIpv6PastBadCharacter(s: string, q: nat)
    requires q < |s| && !IsLowerHex(s[q]) && s[q] != ':' && Colons(s[q + 1..]) < 7
    ensures Ipv6Start(s, 0) == None
  {
    forall p | 0 <= p <= |s| ensures !Ipv6Text(s[p..]) {
      if p <= q {
        Ipv6SuffixAlphabet(s, p, q);
      } else {
        Ipv6SuffixColons(s, q + 1, p);
      }
    }
    NoIpv6Suffix(s);
  }

  /** The same, with the text split around the offending character. */
  predicate BadCharacterSplit(s: string, front: string, c: char, tail: string) {
    s == front + [c] + tail && !IsLowerHex(c) && c != ':' && Colons(tail) < 7
  }

  lemma NoIpv6AroundBadCharacter(s: string, front: string, c: char, tail: string)
    requires BadCharacterSplit(s, front, c, tail)
    ensures Ipv6Start(s, 0) == None
  {
    assert s[|front|] == c && s[|front| + 1..] == tail;
    NoIpv6PastBadCharacter(s, |front|);
  }

  lemma Ipv6SuffixAlphabet(s: string, p: nat, q: nat)
    requires p <= q < |s| && !IsLowerHex(s[q]) && s[q] != ':'
    ensures !Ipv6Text(s[p..])
  {
    if Ipv6Text(s[p..]) {
      HexGroupsAlphabet(s[p..], 8);
    }
  }

  lemma Ipv6SuffixColons(s: string, r: nat, p: nat)
    requires r <= p <= |s| && Colons(s[r..]) < 7
    ensures !Ipv6Text(s[p..])
  {
    assert s[r..][p - r..] == s[p..];
    ColonsSplit(s[r..], p - r);
    if Ipv6Text(s[p..]) {
      HexGroupsColons(s[p..], 8);
    }
  }
}
