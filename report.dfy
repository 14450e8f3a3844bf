/**
 * `printReport` of src/index.ts: sort the received ports numerically in place, then write
 * the header "\n\nopen ports\n" and one line per port.  The text written is returned.
 */
module Report {
  import opened Wrappers
  import opened Text

  predicate Sorted(s: seq<int>) {
    forall i, j :: 0 <= i < j < |s| ==> s[i] <= s[j]
  }

  // ---------------------------------------------------------------------------
  // The order the sort must produce
  // ---------------------------------------------------------------------------

  /** x placed into the sorted sequence s before its first larger-or-equal element. */
  function Insert(x: int, s: seq<int>): (r: seq<int>)
    requires Sorted(s)
    ensures Sorted(r) && multiset(r) == multiset(s) + multiset{x}
    ensures |r| == |s| + 1 && r[0] == (if s == [] || x <= s[0] then x else s[0])
  {
    if s == [] || x <= s[0] then
      SortedCons(x, s);
      [x] + s
    else
      assert s == [s[0]] + s[1..];
      var tail := Insert(x, s[1..]);
      SortedCons(s[0], tail);
      [s[0]] + tail
  }

  /** A sorted sequence stays sorted under a head no larger than its first element. */
  lemma SortedCons(x: int, s: seq<int>)
    requires Sorted(s) && (s == [] || x <= s[0])
    ensures Sorted([x] + s)
  {
    var r := [x] + s;
    forall i, j | 0 <= i < j < |r| ensures r[i] <= r[j] {
      if i > 0 {
        assert r[i] == s[i - 1] && r[j] == s[j - 1];
      } else {
        assert r[j] == s[j - 1];
      }
    }
  }

  /**
   * The ascending rearrangement of s: the reference for what `sort((a, b) => a - b)`
   * leaves in the array (for integers the comparator is exact, and the sorted
   * rearrangement of a sequence is unique; see SortedUnique).
   */
  function SortedPorts(s: seq<int>): (r: seq<int>)
    ensures Sorted(r) && multiset(r) == multiset(s)
  {
    if s == [] then []
    else
      assert s == [s[0]] + s[1..];
      Insert(s[0], SortedPorts(s[1..]))
  }

  /** Two sorted rearrangements of the same elements are equal. */
  lemma {:induction false} SortedUnique(a: seq<int>, b: seq<int>)
    requires Sorted(a) && Sorted(b) && multiset(a) == multiset(b)
    ensures a == b
    decreases |a|
  {
    if a == [] {
      assert |b| == |multiset(b)| == 0;
    } else {
      SameHeads(a, b);
      SortedUnique(a[1..], b[1..]);
      assert a == [a[0]] + a[1..] && b == [b[0]] + b[1..];
    }
  }

  /** Sorted rearrangements of the same non-empty multiset share their head and their tails' elements. */
  lemma SameHeads(a: seq<int>, b: seq<int>)
    requires a != [] && Sorted(a) && Sorted(b) && multiset(a) == multiset(b)
    ensures b != [] && a[0] == b[0]
    ensures Sorted(a[1..]) && Sorted(b[1..]) && multiset(a[1..]) == multiset(b[1..])
  {
    assert a[0] in multiset(a);
    SortedHeadIsLeast(b, a[0]);
    SortedHeadIsLeast(a, b[0]);
    SplitHead(a);
    SplitHead(b);
  }

  /** The head of a sorted sequence is at most any of its elements. */
  lemma SortedHeadIsLeast(a: seq<int>, x: int)
    requires Sorted(a) && x in multiset(a)
    ensures a != [] && a[0] <= x
  {
    assert x in a;
  }

  /** Taking off the head of a sorted sequence. */
  lemma SplitHead(a: seq<int>)
    requires a != [] && Sorted(a)
    ensures Sorted(a[1..]) && multiset(a[1..]) == multiset(a) - multiset{a[0]}
    ensures a == [a[0]] + a[1..]
  {
    assert a == [a[0]] + a[1..];
  }

  /** Any sorted rearrangement of s is SortedPorts(s). */
  lemma SortedIsSortedPorts(s: seq<int>, r: seq<int>)
    requires Sorted(r) && multiset(r) == multiset(s)
    ensures r == SortedPorts(s)
  {
    SortedUnique(r, SortedPorts(s));
  }

  // ---------------------------------------------------------------------------
  // Sorting in place
  // ---------------------------------------------------------------------------

  /** `result.sort((a, b) => a - b)`, as an insertion sort by adjacent swaps. */
  method SortInPlace(a: array<int>)
    modifies a
    ensures Sorted(a[..]) && multiset(a[..]) == multiset(old(a[..]))
  {
    if a.Length < 2 {
      return;
    }
    var i := 1;
    while i < a.Length
      invariant 1 <= i <= a.Length
      invariant Sorted(a[..i])
      invariant multiset(a[..]) == multiset(old(a[..]))
    {
      SinkLast(a, i);
      i := i + 1;
    }
    assert a[..] == a[..a.Length];
  }

  /** Moves a[i] left past the larger elements of the sorted a[..i]. */
  method SinkLast(a: array<int>, i: nat)
    requires i < a.Length && Sorted(a[..i])
    modifies a
    ensures Sorted(a[..i + 1])
    ensures multiset(a[..]) == multiset(old(a[..]))
  {
    var j := i;
    assert a[j..i + 1] == [a[i]];
    while j > 0 && a[j - 1] > a[j]
      invariant 0 <= j <= i
      invariant Sinking(a[..], j, i)
      invariant multiset(a[..]) == multiset(old(a[..]))
    {
      ghost var pre := a[..];
      a[j - 1], a[j] := a[j], a[j - 1];
      SinkStep(pre, a[..], j, i);
      j := j - 1;
    }
    SinkDone(a[..], j, i);
  }

  /**
   * The state of SinkLast's loop: the moving element sits at j, before it a sorted run,
   * from it a sorted run; the two runs would join across the gap at j.
   */
  predicate Sinking(s: seq<int>, j: nat, i: nat)
    requires j <= i < |s|
  {
    Sorted(s[..j]) && Sorted(s[j..i + 1]) && (0 < j < i ==> s[j - 1] <= s[j + 1])
  }

  /** One adjacent swap of SinkLast keeps its loop state and the elements. */
  lemma SinkStep(pre: seq<int>, post: seq<int>, j: nat, i: nat)
    requires 0 < j <= i < |pre| && Sinking(pre, j, i) && pre[j - 1] > pre[j]
    requires post == pre[j - 1 := pre[j]][j := pre[j - 1]]
    ensures Sinking(post, j - 1, i) && multiset(post) == multiset(pre)
  {
    SinkRun(pre, post, j, i);
    assert post[..j - 1] == pre[..j - 1];
    SwapKeepsElements(pre, j - 1);
  }

  lemma SinkRun(pre: seq<int>, post: seq<int>, j: nat, i: nat)
    requires 0 < j <= i < |pre| && Sinking(pre, j, i) && pre[j - 1] > pre[j]
    requires post == pre[j - 1 := pre[j]][j := pre[j - 1]]
    ensures Sorted(post[j - 1..i + 1])
  {
    var run := pre[j + 1..i + 1];
    assert pre[j..i + 1] == [pre[j]] + run;
    assert post[j - 1..i + 1] == [pre[j]] + ([pre[j - 1]] + run);
    SortedCons(pre[j - 1], run);
    SortedCons(pre[j], [pre[j - 1]] + run);
  }

  /** Swapping two neighbours leaves the elements as they were. */
  lemma SwapKeepsElements(s: seq<int>, k: nat)
    requires k + 1 < |s|
    ensures multiset(s[k := s[k + 1]][k + 1 := s[k]]) == multiset(s)
  {
    var t := s[k := s[k + 1]];
    assert multiset(t) == multiset(s) - multiset{s[k]} + multiset{s[k + 1]};
    assert t[k + 1] == s[k + 1];
    assert multiset(t[k + 1 := s[k]]) == multiset(t) - multiset{s[k + 1]} + multiset{s[k]};
  }

  /** When the moving element meets one no larger, or the front, the whole run is sorted. */
  lemma SinkDone(s: seq<int>, j: nat, i: nat)
    requires j <= i < |s| && Sinking(s, j, i) && (j == 0 || s[j - 1] <= s[j])
    ensures Sorted(s[..i + 1])
  {
    SortedJoin(s[..j], s[j..i + 1]);
    assert s[..j] + s[j..i + 1] == s[..i + 1];
  }

  /** Two sorted runs, the first ending no higher than the second begins, make a sorted run. */
  lemma SortedJoin(s: seq<int>, t: seq<int>)
    requires Sorted(s) && Sorted(t) && (s == [] || t == [] || s[|s| - 1] <= t[0])
    ensures Sorted(s + t)
  {
    var r := s + t;
    forall x, y | 0 <= x < y < |r| ensures r[x] <= r[y] {
      if y < |s| {
        assert r[x] == s[x] && r[y] == s[y];
      } else if x >= |s| {
        assert r[x] == t[x - |s|] && r[y] == t[y - |s|];
      } else {
        assert r[x] == s[x] <= s[|s| - 1] && r[y] == t[y - |s|] && t[0] <= t[y - |s|];
      }
    }
  }

  // ---------------------------------------------------------------------------
  // The report text
  // ---------------------------------------------------------------------------

  const Header := "\n\nopen ports\n"

  /** `${port}\n`. */
  function Line(p: int): string {
    NumberText(p) + "\n"
  }

  /** One line per port, in order. */
  function PortLines(ps: seq<int>): string {
    if ps == [] then "" else Line(ps[0]) + PortLines(ps[1..])
  }

  function ReportText(ps: seq<int>): string {
    Header + PortLines(ps)
  }

  /**
   * printReport(result): the array ends up holding its ports in ascending order, and the
   * text written is the header followed by one line per port in that order.
   */
  method PrintReport(result: array<int>) returns (text: string)
    modifies result
    ensures result[..] == SortedPorts(old(result[..]))
    ensures text == ReportText(result[..])
  {
    SortInPlace(result);
    SortedIsSortedPorts(old(result[..]), result[..]);
    text := WriteLines(result);
  }

  /** The header, then `result.forEach((port) => write(`${port}\n`))`. */
  method WriteLines(result: array<int>) returns (text: string)
    ensures text == ReportText(result[..])
  {
    var lines := "";
    for k := 0 to result.Length
      invariant lines == PortLines(result[..k])
    {
      PortLinesSnoc(result[..k], result[k]);
      assert result[..k + 1] == result[..k] + [result[k]];
      lines := lines + Line(result[k]);
    }
    assert result[..] == result[..result.Length];
    text := Header + lines;
  }

  lemma {:induction false} PortLinesSnoc(ps: seq<int>, p: int)
    ensures PortLines(ps + [p]) == PortLines(ps) + Line(p)
  {
    if ps == [] {
      assert [] + [p] == [p] && [p][1..] == [];
    } else {
      assert (ps + [p])[1..] == ps[1..] + [p];
      PortLinesSnoc(ps[1..], p);
    }
  }

  // ---------------------------------------------------------------------------
  // Reading a report back
  // ---------------------------------------------------------------------------

  /** One line `-?[0-9]+\n` at the start of t: its value and its length with the newline. */
  function ReadLine(t: string): (r: Option<(int, nat)>)
    ensures r.Some? ==> 1 <= r.value.1 <= |t|
  {
    if t != [] && t[0] == '-' then
      match ReadUnsigned(t[1..])
      case Some((v, k)) => Some((-(v as int), k + 1))
      case None => None
    else
      match ReadUnsigned(t)
      case Some((v, k)) => Some((v as int, k))
      case None => None
  }

  /** One line `[0-9]+\n` at the start of u: its value and its length with the newline. */
  function ReadUnsigned(u: string): (r: Option<(nat, nat)>)
    ensures r.Some? ==> 1 <= r.value.1 <= |u|
  {
    var n := DigitPrefix(u);
    if n == 0 || n == |u| || u[n] != '\n' then None
    else Some((DigitsValue(u[..n]), n + 1))
  }

  /** The ports of a run of port lines. */
  function ReadLines(t: string): Option<seq<int>>
    decreases |t|
  {
    if t == [] then Some([])
    else
      match ReadLine(t)
      case None => None
      case Some((p, k)) =>
        match ReadLines(t[k..])
        case None => None
        case Some(ps) => Some([p] + ps)
  }

  /** The ports listed by a report text, or None when t is not one. */
  function ReadReport(t: string): Option<seq<int>> {
    if |t| >= |Header| && t[..|Header|] == Header then ReadLines(t[|Header|..]) else None
  }

  lemma ReadDecimalLine(n: nat, rest: string)
    ensures ReadUnsigned(DecimalText(n) + "\n" + rest) == Some((n, |DecimalText(n)| + 1))
  {
    var d := DecimalText(n);
    var t := d + "\n" + rest;
    assert t == d + ("\n" + rest);
    DecimalTextDigits(n);
    DigitPrefixOfNumeral(d, "\n" + rest);
    assert t[..|d|] == d;
    DigitsValueOfDecimal(n);
  }

  /** The line written for p reads back as p. */
  lemma ReadPortLine(p: int, rest: string)
    ensures ReadLine(Line(p) + rest) == Some((p, |Line(p)|))
  {
    if p < 0 {
      ReadNegativeLine(-p, rest);
    } else {
      ReadNonNegativeLine(p, rest);
    }
  }

  lemma ReadNonNegativeLine(n: nat, rest: string)
    ensures ReadLine(Line(n) + rest) == Some((n as int, |Line(n)|))
  {
    var d := DecimalText(n);
    var t := Line(n) + rest;
    assert Line(n) == d + "\n";
    assert t == d + "\n" + rest;
    ReadDecimalLine(n, rest);
    ReadLineUnsigned(t, n, |d| + 1);
  }

  lemma ReadNegativeLine(n: nat, rest: string)
    requires n >= 1
    ensures ReadLine(Line(-(n as int)) + rest) == Some((-(n as int), |Line(-(n as int))|))
  {
    ReadDecimalLine(n, rest);
    ReadMinusLine(DecimalText(n), rest, n);
    assert Line(-(n as int)) == "-" + DecimalText(n) + "\n";
  }

  lemma ReadMinusLine(d: string, rest: string, v: nat)
    requires ReadUnsigned(d + "\n" + rest) == Some((v, |d| + 1))
    ensures ReadLine("-" + d + "\n" + rest) == Some((-(v as int), |d| + 2))
  {
    var u := d + "\n" + rest;
    assert "-" + d + "\n" + rest == "-" + u;
    ReadLineMinus(u, v, |d| + 1);
  }

  lemma ReadLineUnsigned(t: string, v: nat, k: nat)
    requires t != [] && IsDigit(t[0]) && ReadUnsigned(t) == Some((v, k))
    ensures ReadLine(t) == Some((v as int, k))
  {
  }

  lemma ReadLineMinus(u: string, v: nat, k: nat)
    requires ReadUnsigned(u) == Some((v, k))
    ensures ReadLine("-" + u) == Some((-(v as int), k + 1))
  {
    assert ("-" + u)[1..] == u;
  }

  lemma ReadLinesStep(t: string, p: int, k: nat, ps: seq<int>)
    requires t != [] && ReadLine(t) == Some((p, k)) && ReadLines(t[k..]) == Some(ps)
    ensures ReadLines(t) == Some([p] + ps)
  {
  }

  lemma {:induction false} ReadPortLines(ps: seq<int>)
    ensures ReadLines(PortLines(ps)) == Some(ps)
    decreases |ps|
  {
    if ps != [] {
      var line := Line(ps[0]);
      var rest := PortLines(ps[1..]);
      var t := line + rest;
      ReadPortLine(ps[0], rest);
      assert t[|line|..] == rest;
      ReadPortLines(ps[1..]);
      ReadLinesStep(t, ps[0], |line|, ps[1..]);
      assert [ps[0]] + ps[1..] == ps;
    }
  }

  /** The report names exactly the ports it was written for, in their order. */
  lemma ReportRoundTrip(ps: seq<int>)
    ensures ReadReport(ReportText(ps)) == Some(ps)
  {
    var t := ReportText(ps);
    assert t[..|Header|] == Header;
    assert t[|Header|..] == PortLines(ps);
    ReadPortLines(ps);
  }
}
