/** The operations of Python's `str` that the profiler relies on, over `seq<char>`:
    substring test (`in`), non-overlapping count (`count`), non-overlapping
    replacement (`replace`), joining with no separator (`"".join`) and
    `splitlines`. */
module Text {

  /** `sub in s`: some window of `s` equals `sub`. */
  predicate Contains(s: string, sub: string) {
    exists i :: 0 <= i <= |s| - |sub| && OccursAt(s, sub, i)
  }

  /** The window of `s` at `i` is `sub`. */
  predicate OccursAt(s: string, sub: string, i: nat)
    requires i + |sub| <= |s|
  {
    s[i..i + |sub|] == sub
  }

  /** `s.count(p)`: occurrences of `p` found by scanning left to right and
      resuming after each match, so occurrences never overlap. */
  function CountOccurrences(s: string, p: string): nat
    requires |p| > 0
    decreases |s|
  {
    if |s| < |p| then 0
    else if s[..|p|] == p then 1 + CountOccurrences(s[|p|..], p)
    else CountOccurrences(s[1..], p)
  }

  /** `s.replace(p, r)`: the same left-to-right scan, each match replaced by `r`. */
  function ReplaceAll(s: string, p: string, r: string): string
    requires |p| > 0
    decreases |s|
  {
    if |s| < |p| then s
    else if s[..|p|] == p then r + ReplaceAll(s[|p|..], p, r)
    else [s[0]] + ReplaceAll(s[1..], p, r)
  }

  /** Number of positions at which `p` starts in `s`, overlapping ones included. */
  function MatchCount(s: string, p: string): nat
    requires |p| > 0
    decreases |s|
  {
    if |s| < |p| then 0
    else (if s[..|p|] == p then 1 else 0) + MatchCount(s[1..], p)
  }

  /** `"".join(parts)`. */
  function Concat(parts: seq<string>): string {
    if parts == [] then "" else Concat(parts[..|parts| - 1]) + parts[|parts| - 1]
  }

  /** The characters Python's `str.splitlines` treats as line boundaries. */
  predicate IsLineBreak(c: char) {
    c == '\n' || c == '\r' || c == '\U{000B}' || c == '\U{000C}' || c == '\U{001C}'
    || c == '\U{001D}' || c == '\U{001E}' || c == '\U{0085}' || c == '\U{2028}' || c == '\U{2029}'
  }

  /** Index of the first line boundary in `s`, or `|s|` when there is none. */
  function FirstBreak(s: string): (i: nat)
    ensures i <= |s|
    ensures forall j :: 0 <= j < i ==> !IsLineBreak(s[j])
    ensures i < |s| ==> IsLineBreak(s[i])
  {
    if s == [] || IsLineBreak(s[0]) then 0 else 1 + FirstBreak(s[1..])
  }

  /** `s.splitlines()`: the lines of `s` without their boundaries; `"\r\n"` is
      one boundary and a final boundary does not start an empty last line. */
  function SplitLines(s: string): (lines: seq<string>)
    ensures forall k, j :: 0 <= k < |lines| && 0 <= j < |lines[k]| ==> !IsLineBreak(lines[k][j])
    decreases |s|
  {
    if s == "" then []
    else
      var i := FirstBreak(s);
      if i == |s| then [s]
      else
        var width := if s[i] == '\r' && i + 1 < |s| && s[i + 1] == '\n' then 2 else 1;
        [s[..i]] + SplitLines(s[i + width..])
  }

  /** Each line followed by `"\n"`: the text a program prints line by line. */
  function JoinLines(lines: seq<string>): string {
    if lines == [] then "" else lines[0] + "\n" + JoinLines(lines[1..])
  }

  predicate NoLineBreaks(line: string) {
    forall j :: 0 <= j < |line| ==> !IsLineBreak(line[j])
  }

  /** Printing lines and splitting the output gives the lines back. */
  lemma {:induction false} SplitLinesJoinLines(lines: seq<string>)
    requires forall k :: 0 <= k < |lines| ==> NoLineBreaks(lines[k])
    ensures SplitLines(JoinLines(lines)) == lines
  {
    if lines != [] {
      SplitLinesJoinLines(lines[1..]);
      SplitLinesFirst(lines[0], JoinLines(lines[1..]));
      assert lines == [lines[0]] + lines[1..];
    }
  }

  /** A line without boundaries followed by `"\n"` is the first line. */
  lemma SplitLinesFirst(line: string, rest: string)
    requires NoLineBreaks(line)
    ensures SplitLines(line + "\n" + rest) == [line] + SplitLines(rest)
  {
    var s := line + "\n" + rest;
    assert s[|line|] == '\n';
    assert forall j :: 0 <= j < |line| ==> s[j] == line[j];
    assert FirstBreak(s) == |line|;
    assert s[..|line|] == line;
    assert s[|line| + 1..] == rest;
  }

  /** A window that does not start at 0 is a window of the tail. */
  lemma ContainsShift(s: string, p: string)
    requires |s| > 0 && |p| > 0 && (|s| < |p| || s[..|p|] != p)
    ensures Contains(s, p) <==> Contains(s[1..], p)
  {
    if Contains(s, p) {
      var i :| 0 <= i <= |s| - |p| && OccursAt(s, p, i);
      assert i != 0;
      assert s[1..][i - 1..i - 1 + |p|] == s[i..i + |p|];
      assert OccursAt(s[1..], p, i - 1);
    }
    if Contains(s[1..], p) {
      var i :| 0 <= i <= |s[1..]| - |p| && OccursAt(s[1..], p, i);
      assert s[i + 1..i + 1 + |p|] == s[1..][i..i + |p|];
      assert OccursAt(s, p, i + 1);
    }
  }

  /** The count is zero exactly when the pattern does not occur at all. */
  lemma {:induction false} CountZeroIffAbsent(s: string, p: string)
    requires |p| > 0
    ensures CountOccurrences(s, p) == 0 <==> !Contains(s, p)
    decreases |s|
  {
    if |s| < |p| {
    } else if s[..|p|] == p {
      assert OccursAt(s, p, 0);
    } else {
      ContainsShift(s, p);
      CountZeroIffAbsent(s[1..], p);
    }
  }

  /** Every replacement changes the length by `|r| - |p|`. */
  lemma {:induction false} ReplaceAllLength(s: string, p: string, r: string)
    requires |p| > 0
    ensures |ReplaceAll(s, p, r)| == |s| + CountOccurrences(s, p) * (|r| - |p|)
    decreases |s|
  {
    if |s| < |p| {
    } else if s[..|p|] == p {
      var tail := s[|p|..];
      ReplaceAllLength(tail, p, r);
      var c := CountOccurrences(tail, p);
      assert |ReplaceAll(s, p, r)| == |r| + |ReplaceAll(tail, p, r)|;
      assert CountOccurrences(s, p) == 1 + c;
      Distribute(c, |r| - |p|);
    } else {
      var tail := s[1..];
      ReplaceAllLength(tail, p, r);
      assert |ReplaceAll(s, p, r)| == 1 + |ReplaceAll(tail, p, r)|;
      assert CountOccurrences(s, p) == CountOccurrences(tail, p);
    }
  }

  lemma Distribute(c: int, d: int)
    ensures (1 + c) * d == d + c * d
  {
  }

  /** A string in which the pattern does not occur is left unchanged. */
  lemma {:induction false} ReplaceAllAbsent(s: string, p: string, r: string)
    requires |p| > 0 && !Contains(s, p)
    ensures ReplaceAll(s, p, r) == s
    decreases |s|
  {
    if |s| >= |p| {
      if s[..|p|] == p {
        assert OccursAt(s, p, 0);
      }
      ContainsShift(s, p);
      ReplaceAllAbsent(s[1..], p, r);
      assert s == [s[0]] + s[1..];
    }
  }

  /** A pattern whose first character does not recur in it. */
  predicate FirstCharUnique(p: string) {
    |p| > 0 && forall d :: 0 < d < |p| ==> p[d] != p[0]
  }

  /** After a match at 0, no match of such a pattern starts before `|p|`. */
  lemma {:induction false} MatchCountSkip(s: string, p: string, k: nat)
    requires FirstCharUnique(p) && |p| <= |s| && s[..|p|] == p
    requires 1 <= k <= |p|
    ensures MatchCount(s[1..], p) == MatchCount(s[k..], p)
    decreases k
  {
    if k > 1 {
      MatchCountSkip(s, p, k - 1);
      var t := s[k - 1..];
      assert t[1..] == s[k..];
      if |t| >= |p| {
        assert t[0] == p[k - 1] != p[0];
        assert t[..|p|] != p;
      }
    }
  }

  /** For a pattern such as `JOIN`, which cannot overlap itself, the
      non-overlapping count is the number of positions where it occurs. */
  lemma {:induction false} CountIsMatchCount(s: string, p: string)
    requires FirstCharUnique(p)
    ensures CountOccurrences(s, p) == MatchCount(s, p)
    decreases |s|
  {
    if |s| < |p| {
    } else if s[..|p|] == p {
      CountIsMatchCount(s[|p|..], p);
      MatchCountSkip(s, p, |p|);
    } else {
      CountIsMatchCount(s[1..], p);
    }
  }

  /** `"".join` distributes over concatenation of the part lists. */
  lemma {:induction false} ConcatAppend(a: seq<string>, b: seq<string>)
    ensures Concat(a + b) == Concat(a) + Concat(b)
    decreases |b|
  {
    if b != [] {
      assert (a + b)[..|a + b| - 1] == a + b[..|b| - 1];
      ConcatAppend(a, b[..|b| - 1]);
    } else {
      assert a + b == a;
    }
  }
}
