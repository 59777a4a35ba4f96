/** The stdout-log profiler of src/profiler.py: the captured output of a
    function is split into lines; the lines before each `Execution time:`
    line form one executed statement, whose duration is read from that
    line; statements are sorted by duration, grouped by the hash of their
    cleaned text and ranked by how often they ran. */
module StdoutProfiler {
  import opened Text
  import opened Sorting
  import opened Aggregate

  /** `decimal.InvalidOperation`, raised by `Decimal(digits)` on a malformed number. */
  datatype ParseError = InvalidDecimal(digits: string)

  datatype Result<T> = Ok(value: T) | Err(error: ParseError)

  /** The hex digest of the SHA-1 hash of a text. */
  type Digest = string

  /** `ParseSQL.EXECUTION_TIME_REGEX`: the substring that marks the end of a statement. */
  const ExecutionTimeMarker: string := "Execution time:"

  /** `SqlStatement.SPACES`: seven spaces, the width a tab was expanded to. */
  const Spaces: string := "       "

  /** An executed statement: its lines, its duration, the cleaned text and
      the digest of the cleaned text. */
  datatype SqlStatement = SqlStatement(statement: seq<string>, executionTime: real,
                                       cleanStatement: string, hash: Digest)

  // ---------------------------------------------------------------------
  // Cleaning and hashing (SqlStatement.__init__)
  // ---------------------------------------------------------------------

  /** `line.replace(SPACES, " ")`. */
  function Collapse(line: string): string {
    ReplaceAll(line, Spaces, " ")
  }

  /** `"".join(line.replace(SPACES, " ") for line in statement)`. */
  function CleanStatement(lines: seq<string>): string
    decreases |lines|
  {
    if lines == [] then "" else CleanStatement(lines[..|lines| - 1]) + Collapse(lines[|lines| - 1])
  }

  /** `SqlStatement(statement, execution_time)`; `digest` stands for SHA-1. */
  function NewSqlStatement(lines: seq<string>, time: real, digest: string -> Digest): SqlStatement {
    var clean := CleanStatement(lines);
    SqlStatement(lines, time, clean, digest(clean))
  }

  /** A statement as the constructor builds it. */
  ghost predicate WellFormed(s: SqlStatement, digest: string -> Digest) {
    s.cleanStatement == CleanStatement(s.statement) && s.hash == digest(s.cleanStatement)
  }

  /** Each run of seven spaces shrinks to one space, so the line loses six
      characters per run; it is unchanged exactly when it has no such run. */
  lemma CollapseLength(line: string)
    ensures |Collapse(line)| == |line| - 6 * CountOccurrences(line, Spaces)
    ensures Collapse(line) == line <==> !Contains(line, Spaces)
  {
    ReplaceAllLength(line, Spaces, " ");
    CountZeroIffAbsent(line, Spaces);
    if !Contains(line, Spaces) {
      ReplaceAllAbsent(line, Spaces, " ");
    }
  }

  /** The cleaned text of several line lists is the concatenation of their
      cleaned texts: lines are joined with no separator. */
  lemma {:induction false} CleanStatementAppend(a: seq<string>, b: seq<string>)
    ensures CleanStatement(a + b) == CleanStatement(a) + CleanStatement(b)
    decreases |b|
  {
    if b == [] {
      assert a + b == a;
    } else {
      assert (a + b)[..|a + b| - 1] == a + b[..|b| - 1];
      CleanStatementAppend(a, b[..|b| - 1]);
    }
  }

  /** Cleaning never lengthens the text, and leaves lines without a run of
      seven spaces exactly as `"".join` would. */
  lemma {:induction false} CleanStatementShorter(lines: seq<string>)
    ensures |CleanStatement(lines)| <= |Concat(lines)|
    ensures (forall k :: 0 <= k < |lines| ==> !Contains(lines[k], Spaces)) ==> CleanStatement(lines) == Concat(lines)
    decreases |lines|
  {
    if lines != [] {
      CleanStatementShorter(lines[..|lines| - 1]);
      CollapseLength(lines[|lines| - 1]);
    }
  }

  /** Cleaning is not idempotent: thirteen spaces become seven, which a second
      cleaning turns into one. */
  lemma CollapseNotIdempotent()
    ensures Collapse("             ") == Spaces
    ensures Collapse(Collapse("             ")) == " "
  {
    var six := "      ";
    assert Collapse(six) == six;
    assert "             " == Spaces + six;
    assert (Spaces + six)[..7] == Spaces && (Spaces + six)[7..] == six;
    assert Collapse(Spaces + six) == " " + six;
    assert Spaces[..7] == Spaces && Spaces[7..] == "";
    assert Collapse(Spaces) == " " + Collapse("");
  }

  /** Runs of different width are not identified: eight spaces leave two. */
  lemma RunWidthMatters()
    ensures CleanStatement(["a" + Spaces + "b"]) == "a b"
    ensures CleanStatement(["a" + Spaces + " b"]) == "a  b"
  {
    var s, t := "a" + Spaces + "b", "a" + Spaces + " b";
    var one: seq<string>, other: seq<string> := [s], [t];
    assert one[..0] == [] && other[..0] == [];
    assert (Spaces + "b")[..7] == Spaces && (Spaces + "b")[7..] == "b";
    assert Collapse(Spaces + "b") == " " + Collapse("b");
    assert s[..7] != Spaces by { assert s[0] != Spaces[0]; }
    assert s[1..] == Spaces + "b";
    assert Collapse(s) == [s[0]] + Collapse(s[1..]);
    assert (Spaces + " b")[..7] == Spaces && (Spaces + " b")[7..] == " b";
    assert Collapse(Spaces + " b") == " " + Collapse(" b");
    assert t[..7] != Spaces by { assert t[0] != Spaces[0]; }
    assert t[1..] == Spaces + " b";
    assert Collapse(t) == [t[0]] + Collapse(t[1..]);
  }

  // ---------------------------------------------------------------------
  // The duration (ParseSQL._extract_execution_time)
  // ---------------------------------------------------------------------

  predicate IsDigit(c: char) { '0' <= c <= '9' }

  predicate IsDigitOrDot(c: char) { IsDigit(c) || c == '.' }

  predicate AllDigits(s: string) { forall i :: 0 <= i < |s| ==> IsDigit(s[i]) }

  /** `"".join(d for d in line if d.isnumeric() or d == '.')`, ASCII digits only. */
  function Digits(line: string): (d: string)
    ensures forall i :: 0 <= i < |d| ==> IsDigitOrDot(d[i])
    decreases |line|
  {
    if line == [] then []
    else Digits(line[..|line| - 1]) + (if IsDigitOrDot(line[|line| - 1]) then [line[|line| - 1]] else [])
  }

  /** The filter works piecewise: the digits of a line are those of its parts,
      in order, from anywhere in it. */
  lemma {:induction false} DigitsAppend(a: string, b: string)
    ensures Digits(a + b) == Digits(a) + Digits(b)
    decreases |b|
  {
    if b == [] {
      assert a + b == a;
    } else {
      assert (a + b)[..|a + b| - 1] == a + b[..|b| - 1];
      DigitsAppend(a, b[..|b| - 1]);
    }
  }

  /** Digits and dots are all kept. */
  lemma {:induction false} DigitsKeepsAll(line: string)
    requires forall i :: 0 <= i < |line| ==> IsDigitOrDot(line[i])
    ensures Digits(line) == line
    decreases |line|
  {
    if line != [] {
      var init := line[..|line| - 1];
      assert forall i :: 0 <= i < |init| ==> init[i] == line[i];
      DigitsKeepsAll(init);
      assert line == init + [line[|line| - 1]];
    }
  }

  /** Everything else is dropped. */
  lemma {:induction false} DigitsDropsRest(line: string)
    requires forall i :: 0 <= i < |line| ==> !IsDigitOrDot(line[i])
    ensures Digits(line) == ""
    decreases |line|
  {
    if line != [] {
      var init := line[..|line| - 1];
      assert forall i :: 0 <= i < |init| ==> init[i] == line[i];
      DigitsDropsRest(init);
    }
  }

  /** The numeric value of a string of ASCII digits. */
  function NatValue(ds: string): nat
    requires AllDigits(ds)
    decreases |ds|
  {
    if ds == [] then 0 else 10 * NatValue(ds[..|ds| - 1]) + (ds[|ds| - 1] as int - '0' as int)
  }

  function Pow10(n: nat): (p: nat)
    ensures p >= 1
  {
    if n == 0 then 1 else 10 * Pow10(n - 1)
  }

  /** Index of the first `c` in `s`, or `|s|`. */
  function IndexOf(s: string, c: char): (i: nat)
    ensures i <= |s|
    ensures forall j :: 0 <= j < i ==> s[j] != c
    ensures i < |s| ==> s[i] == c
  {
    if s == [] || s[0] == c then 0 else 1 + IndexOf(s[1..], c)
  }

  /** `Decimal(digits)` for a string of digits and dots: valid when it is
      `whole` or `whole.frac` with at least one digit in all. */
  function DecimalOf(d: string): (r: Result<real>)
    requires forall i :: 0 <= i < |d| ==> IsDigitOrDot(d[i])
    ensures r.Ok? ==> r.value >= 0.0
  {
    var dot := IndexOf(d, '.');
    var whole := d[..dot];
    var frac := if dot < |d| then d[dot + 1..] else "";
    if AllDigits(whole) && AllDigits(frac) && |whole| + |frac| > 0 then
      Ok(NatValue(whole) as real + NatValue(frac) as real / Pow10(|frac|) as real)
    else Err(InvalidDecimal(d))
  }

  /** `ParseSQL._extract_execution_time(line)`. */
  function ExtractExecutionTime(line: string): Result<real> {
    DecimalOf(Digits(line))
  }

  predicate HasDigit(s: string) { exists i :: 0 <= i < |s| && IsDigit(s[i]) }

  /** Digits and dots with no dot are all digits. */
  lemma DigitsWithoutDot(d: string)
    requires forall i :: 0 <= i < |d| ==> IsDigitOrDot(d[i])
    ensures AllDigits(d) <==> '.' !in d
  {
  }

  /** The conversion succeeds exactly when the kept characters contain at most
      one dot and at least one digit. */
  lemma DecimalOfValid(d: string)
    requires forall i :: 0 <= i < |d| ==> IsDigitOrDot(d[i])
    ensures DecimalOf(d).Ok? <==> multiset(d)['.'] <= 1 && HasDigit(d)
  {
    var dot := IndexOf(d, '.');
    if dot == |d| {
      DecimalWithoutDot(d);
    } else {
      DecimalWithDot(d, dot);
    }
  }

  lemma DecimalWithoutDot(d: string)
    requires forall i :: 0 <= i < |d| ==> IsDigitOrDot(d[i])
    requires IndexOf(d, '.') == |d|
    ensures DecimalOf(d).Ok? <==> multiset(d)['.'] <= 1 && HasDigit(d)
  {
    assert d[..|d|] == d;
    assert '.' !in d;
    DigitsWithoutDot(d);
    if |d| > 0 {
      assert IsDigit(d[0]);
    }
  }

  lemma DecimalWithDot(d: string, dot: nat)
    requires forall i :: 0 <= i < |d| ==> IsDigitOrDot(d[i])
    requires dot == IndexOf(d, '.') < |d|
    ensures DecimalOf(d).Ok? <==> multiset(d)['.'] <= 1 && HasDigit(d)
  {
    DecimalOfParts(d, dot);
    DotSplit(d, dot);
  }

  /** The validity test on the two sides of the first dot, restated on `d`. */
  lemma DotSplit(d: string, dot: nat)
    requires forall i :: 0 <= i < |d| ==> IsDigitOrDot(d[i])
    requires dot < |d| && d[dot] == '.' && forall j :: 0 <= j < dot ==> d[j] != '.'
    ensures multiset(d)['.'] <= 1 && HasDigit(d)
        <==> AllDigits(d[..dot]) && AllDigits(d[dot + 1..]) && |d[..dot]| + |d[dot + 1..]| > 0
  {
    var whole, frac := d[..dot], d[dot + 1..];
    assert forall i :: 0 <= i < |whole| ==> whole[i] == d[i];
    assert '.' !in whole;
    DigitsWithoutDot(whole);
    assert forall i :: 0 <= i < |frac| ==> frac[i] == d[dot + 1 + i];
    DigitsWithoutDot(frac);
    DotCount(d, dot);
    assert multiset(frac)['.'] == 0 <==> '.' !in frac;
    if AllDigits(frac) {
      HasDigitAround(d, dot);
    }
  }

  /** With a dot at `dot`, the conversion reads `d[..dot]` and `d[dot + 1..]`. */
  lemma DecimalOfParts(d: string, dot: nat)
    requires forall i :: 0 <= i < |d| ==> IsDigitOrDot(d[i])
    requires dot == IndexOf(d, '.') < |d|
    ensures DecimalOf(d).Ok? <==> AllDigits(d[..dot]) && AllDigits(d[dot + 1..]) && |d[..dot]| + |d[dot + 1..]| > 0
  {
  }

  lemma DotCount(d: string, dot: nat)
    requires dot < |d| && d[dot] == '.' && '.' !in d[..dot]
    ensures multiset(d)['.'] == 1 + multiset(d[dot + 1..])['.']
  {
    assert d == d[..dot] + [d[dot]] + d[dot + 1..];
    assert multiset(d[..dot])['.'] == 0;
  }

  lemma HasDigitAround(d: string, dot: nat)
    requires dot < |d| && d[dot] == '.'
    requires AllDigits(d[..dot]) && AllDigits(d[dot + 1..])
    ensures HasDigit(d) <==> dot > 0 || dot + 1 < |d|
  {
    if HasDigit(d) {
      var i :| 0 <= i < |d| && IsDigit(d[i]);
      assert i != dot;
    }
    if dot > 0 {
      assert d[..dot][0] == d[0];
    } else if dot + 1 < |d| {
      assert d[dot + 1..][0] == d[dot + 1];
    }
  }

  /** A whole and a fractional part. */
  lemma DecimalTwelveAndAHalf()
    ensures DecimalOf("12.5") == Ok(12.5)
  {
    assert "12.5"[1..][1..] == ".5";
    assert IndexOf("12.5", '.') == 2;
    assert "12.5"[..2] == "12" && "12.5"[3..] == "5" && "12"[..1] == "1";
    assert NatValue("12") == 12;
  }

  /** A trailing dot: no fractional digits. */
  lemma DecimalTrailingDot()
    ensures DecimalOf("5.") == Ok(5.0)
  {
  }

  /** A leading dot: no whole digits. */
  lemma DecimalLeadingDot()
    ensures DecimalOf(".5") == Ok(0.5)
  {
  }

  /** Inputs `Decimal` rejects: nothing, a lone dot, two dots. */
  lemma DecimalOfRejects()
    ensures DecimalOf("").Err? && DecimalOf(".").Err? && DecimalOf("1.2.3").Err?
  {
  }

  // ---------------------------------------------------------------------
  // Splitting the log into statements (ParseSQL._parse)
  // ---------------------------------------------------------------------

  /** `EXECUTION_TIME_REGEX in line`. */
  predicate IsMarker(line: string) {
    Contains(line, ExecutionTimeMarker)
  }

  /** The buffered lines of one statement and the marker line that closed it. */
  datatype Segment = Segment(body: seq<string>, marker: string)

  /** The scan of `_parse` from `lines` on, with `pending` lines buffered. */
  function SegmentsFrom(lines: seq<string>, pending: seq<string>): seq<Segment>
    decreases |lines|
  {
    if lines == [] then []
    else if IsMarker(lines[0]) then [Segment(pending, lines[0])] + SegmentsFrom(lines[1..], [])
    else SegmentsFrom(lines[1..], pending + [lines[0]])
  }

  function Segments(lines: seq<string>): seq<Segment> {
    SegmentsFrom(lines, [])
  }

  /** The lines the segments account for, in order. */
  function Flatten(segs: seq<Segment>): seq<string>
    decreases |segs|
  {
    if segs == [] then [] else segs[0].body + [segs[0].marker] + Flatten(segs[1..])
  }

  /** The marker lines of `lines`, in order. */
  function MarkerLines(lines: seq<string>): seq<string>
    decreases |lines|
  {
    if lines == [] then [] else (if IsMarker(lines[0]) then [lines[0]] else []) + MarkerLines(lines[1..])
  }

  function Markers(segs: seq<Segment>): seq<string>
    decreases |segs|
  {
    if segs == [] then [] else [segs[0].marker] + Markers(segs[1..])
  }

  function NoMarker(lines: seq<string>): bool {
    forall j :: 0 <= j < |lines| ==> !IsMarker(lines[j])
  }

  /** `segs` cuts `lines` into statements: each segment is marker-free lines
      closed by a marker line; together they cover a prefix of `lines`, and
      what follows holds no marker (the unterminated tail that is dropped). */
  ghost predicate Segmentation(lines: seq<string>, segs: seq<Segment>) {
    && (forall k :: 0 <= k < |segs| ==> IsMarker(segs[k].marker) && NoMarker(segs[k].body))
    && |Flatten(segs)| <= |lines|
    && lines[..|Flatten(segs)|] == Flatten(segs)
    && NoMarker(lines[|Flatten(segs)|..])
  }

  lemma {:induction false} SegmentsFromSegmentation(lines: seq<string>, pending: seq<string>)
    requires NoMarker(pending)
    ensures Segmentation(pending + lines, SegmentsFrom(lines, pending))
    decreases |lines|
  {
    if lines == [] {
      assert pending + lines == pending;
    } else if IsMarker(lines[0]) {
      var tail := lines[1..];
      var rest := SegmentsFrom(tail, []);
      SegmentsFromSegmentation(tail, []);
      assert [] + tail == tail;
      SegmentationCons(tail, rest, pending, lines[0]);
      assert SegmentsFrom(lines, pending) == [Segment(pending, lines[0])] + rest;
      assert pending + lines == pending + [lines[0]] + tail;
    } else {
      SegmentsFromSegmentation(lines[1..], pending + [lines[0]]);
      assert (pending + [lines[0]]) + lines[1..] == pending + lines;
    }
  }

  /** Marker-free lines and a marker line in front of a segmentation. */
  lemma SegmentationCons(tail: seq<string>, rest: seq<Segment>, pending: seq<string>, marker: string)
    requires Segmentation(tail, rest) && NoMarker(pending) && IsMarker(marker)
    ensures Segmentation(pending + [marker] + tail, [Segment(pending, marker)] + rest)
  {
  }

  /** `Segments` cuts the lines into statements. */
  lemma SegmentsSegmentation(lines: seq<string>)
    ensures Segmentation(lines, Segments(lines))
  {
    SegmentsFromSegmentation(lines, []);
    assert [] + lines == lines;
  }

  /** The first segment of a segmentation, and the segmentation of the rest. */
  lemma SegmentationHead(lines: seq<string>, segs: seq<Segment>)
    requires Segmentation(lines, segs) && segs != []
    ensures |segs[0].body| < |lines|
    ensures lines[..|segs[0].body|] == segs[0].body && lines[|segs[0].body|] == segs[0].marker
    ensures Segmentation(lines[|segs[0].body| + 1..], segs[1..])
  {
    var n := |segs[0].body|;
    var f := Flatten(segs);
    assert f == segs[0].body + [segs[0].marker] + Flatten(segs[1..]);
    assert lines[..n] == f[..n];
    assert lines[n] == f[n];
    var tail := lines[n + 1..];
    var g := Flatten(segs[1..]);
    assert f[n + 1..] == g;
    assert tail[..|g|] == lines[..|f|][n + 1..];
    assert tail[|g|..] == lines[|f|..];
    forall k | 0 <= k < |segs[1..]| ensures IsMarker(segs[1..][k].marker) && NoMarker(segs[1..][k].body) {
      assert segs[1..][k] == segs[k + 1];
    }
  }

  /** A segmentation is unique. */
  lemma {:induction false} SegmentationUnique(lines: seq<string>, a: seq<Segment>, b: seq<Segment>)
    requires Segmentation(lines, a) && Segmentation(lines, b)
    ensures a == b
    decreases |lines|
  {
    if a != [] && b != [] {
      SegmentationHead(lines, a);
      SegmentationHead(lines, b);
      var m, n := |a[0].body|, |b[0].body|;
      if m < n {
        assert false;
      } else if n < m {
        assert false;
      }
      assert a[0] == b[0];
      SegmentationUnique(lines[m + 1..], a[1..], b[1..]);
      assert a == [a[0]] + a[1..] && b == [b[0]] + b[1..];
    } else if a != [] {
      SegmentationHead(lines, a);
      assert false;
    } else if b != [] {
      SegmentationHead(lines, b);
      assert false;
    }
  }

  /** `Segments` is the one and only segmentation of the lines. */
  lemma SegmentsCharacterized(lines: seq<string>, segs: seq<Segment>)
    ensures Segmentation(lines, segs) <==> segs == Segments(lines)
  {
    SegmentsSegmentation(lines);
    if Segmentation(lines, segs) {
      SegmentationUnique(lines, segs, Segments(lines));
    }
  }

  /** One segment per marker line, in the order the marker lines appear. */
  lemma {:induction false} SegmentsFromMarkers(lines: seq<string>, pending: seq<string>)
    ensures Markers(SegmentsFrom(lines, pending)) == MarkerLines(lines)
    ensures |SegmentsFrom(lines, pending)| == |MarkerLines(lines)|
    decreases |lines|
  {
    if lines != [] {
      if IsMarker(lines[0]) {
        var segs := [Segment(pending, lines[0])] + SegmentsFrom(lines[1..], []);
        assert segs[1..] == SegmentsFrom(lines[1..], []);
        SegmentsFromMarkers(lines[1..], []);
      } else {
        SegmentsFromMarkers(lines[1..], pending + [lines[0]]);
      }
    }
  }

  /** The statements of a list of segments, with `time` reading the duration
      of a marker line; the first malformed duration raises, as the exception
      does in the loop. */
  function Statements(segs: seq<Segment>, digest: string -> Digest, time: string -> Result<real>): Result<seq<SqlStatement>>
    decreases |segs|
  {
    if segs == [] then Ok([])
    else
      match time(segs[0].marker)
      case Err(e) => Err(e)
      case Ok(t) =>
        match Statements(segs[1..], digest, time)
        case Err(e) => Err(e)
        case Ok(rest) => Ok([NewSqlStatement(segs[0].body, t, digest)] + rest)
  }

  /** What `_parse(stdout)` returns or raises. */
  function ParseLog(stdout: string, digest: string -> Digest): Result<seq<SqlStatement>> {
    Statements(Segments(SplitLines(stdout)), digest, ExtractExecutionTime)
  }

  /** `Statements` succeeds exactly when every marker line holds a valid number. */
  lemma {:induction false} StatementsOk(segs: seq<Segment>, digest: string -> Digest, time: string -> Result<real>)
    ensures Statements(segs, digest, time).Ok? <==>
      forall k :: 0 <= k < |segs| ==> time(segs[k].marker).Ok?
    decreases |segs|
  {
    if segs != [] {
      StatementsOk(segs[1..], digest, time);
      if time(segs[0].marker).Ok? && Statements(segs[1..], digest, time).Ok? {
        forall k | 0 < k < |segs| ensures time(segs[k].marker).Ok? {
          assert segs[k] == segs[1..][k - 1];
        }
      } else if time(segs[0].marker).Ok? {
        var k :| 0 <= k < |segs[1..]| && !time(segs[1..][k].marker).Ok?;
        assert segs[k + 1] == segs[1..][k];
      }
    }
  }

  /** Then statement `k` is made of the body of segment `k` and the number on
      its marker line. */
  lemma {:induction false} StatementsValues(segs: seq<Segment>, digest: string -> Digest, time: string -> Result<real>)
    requires Statements(segs, digest, time).Ok?
    ensures |Statements(segs, digest, time).value| == |segs|
    ensures forall k :: 0 <= k < |segs| ==>
      && Statements(segs, digest, time).value[k].statement == segs[k].body
      && time(segs[k].marker) == Ok(Statements(segs, digest, time).value[k].executionTime)
    decreases |segs|
  {
    if segs != [] {
      var t := time(segs[0].marker);
      var tail := Statements(segs[1..], digest, time);
      assert t.Ok? && tail.Ok?;
      StatementsValues(segs[1..], digest, time);
      var rest := tail.value;
      var r := Statements(segs, digest, time).value;
      assert r == [NewSqlStatement(segs[0].body, t.value, digest)] + rest;
      forall k | 0 < k < |segs|
        ensures r[k].statement == segs[k].body
        ensures time(segs[k].marker) == Ok(r[k].executionTime)
      {
        assert segs[k] == segs[1..][k - 1];
        assert r[k] == rest[k - 1];
      }
    }
  }

  /** Otherwise it raises the error of the first marker line that is not a
      valid number. */
  lemma {:induction false} StatementsFirstError(segs: seq<Segment>, digest: string -> Digest, time: string -> Result<real>)
    requires Statements(segs, digest, time).Err?
    ensures exists k :: (0 <= k < |segs| && time(segs[k].marker) == Err(Statements(segs, digest, time).error)
      && forall j :: 0 <= j < k ==> time(segs[j].marker).Ok?)
    decreases |segs|
  {
    var e := Statements(segs, digest, time).error;
    var t := time(segs[0].marker);
    if t.Err? {
      assert t == Err(e);
    } else {
      var tail := Statements(segs[1..], digest, time);
      assert tail == Err(e);
      StatementsFirstError(segs[1..], digest, time);
      var k :| 0 <= k < |segs[1..]| && time(segs[1..][k].marker) == Err(e)
        && forall j :: 0 <= j < k ==> time(segs[1..][j].marker).Ok?;
      FirstErrorShift(segs, k, e, time);
    }
  }

  lemma FirstErrorShift(segs: seq<Segment>, k: nat, e: ParseError, time: string -> Result<real>)
    requires 0 < |segs| && k < |segs| - 1 && time(segs[0].marker).Ok?
    requires time(segs[1..][k].marker) == Err(e)
    requires forall j :: 0 <= j < k ==> time(segs[1..][j].marker).Ok?
    ensures time(segs[k + 1].marker) == Err(e)
    ensures forall j :: 0 <= j < k + 1 ==> time(segs[j].marker).Ok?
  {
  }

  /** The parsed statements are built by the constructor. */
  lemma {:induction false} StatementsWellFormed(segs: seq<Segment>, digest: string -> Digest, time: string -> Result<real>)
    requires Statements(segs, digest, time).Ok?
    ensures forall s :: s in Statements(segs, digest, time).value ==> WellFormed(s, digest)
    decreases |segs|
  {
    if segs != [] {
      var t := time(segs[0].marker);
      var tail := Statements(segs[1..], digest, time);
      assert t.Ok? && tail.Ok?;
      StatementsWellFormed(segs[1..], digest, time);
      var head := NewSqlStatement(segs[0].body, t.value, digest);
      assert WellFormed(head, digest);
      assert Statements(segs, digest, time).value == [head] + tail.value;
    }
  }

  /** `r` with the statements `done` put in front of a successful result. */
  function Prepend(done: seq<SqlStatement>, r: Result<seq<SqlStatement>>): Result<seq<SqlStatement>> {
    match r
    case Ok(rest) => Ok(done + rest)
    case Err(e) => Err(e)
  }

  /** A line that is not a marker joins the buffered statement. */
  lemma ScanPlain(lines: seq<string>, i: nat, current: seq<string>)
    requires i < |lines| && !IsMarker(lines[i])
    ensures SegmentsFrom(lines[i..], current) == SegmentsFrom(lines[i + 1..], current + [lines[i]])
  {
  }

  /** A marker line closes the buffered statement. */
  lemma ScanMarker(lines: seq<string>, i: nat, current: seq<string>)
    requires i < |lines| && IsMarker(lines[i])
    ensures SegmentsFrom(lines[i..], current) == [Segment(current, lines[i])] + SegmentsFrom(lines[i + 1..], [])
  {
  }

  /** The statements of a closed segment followed by the rest. */
  lemma StatementsCons(seg: Segment, rest: seq<Segment>, done: seq<SqlStatement>, digest: string -> Digest, time: string -> Result<real>)
    ensures time(seg.marker).Err? ==>
      Prepend(done, Statements([seg] + rest, digest, time)) == Err(time(seg.marker).error)
    ensures time(seg.marker).Ok? ==>
      Prepend(done, Statements([seg] + rest, digest, time))
        == Prepend(done + [NewSqlStatement(seg.body, time(seg.marker).value, digest)], Statements(rest, digest, time))
  {
    var segs := [seg] + rest;
    assert segs[0] == seg && segs[1..] == rest;
    var tail := Statements(rest, digest, time);
    var t := time(seg.marker);
    if tail.Ok? && t.Ok? {
      var x := NewSqlStatement(seg.body, t.value, digest);
      assert done + ([x] + tail.value) == (done + [x]) + tail.value;
    }
  }

  /** `ParseSQL._parse(stdout)`. */
  method Parse(stdout: string, digest: string -> Digest) returns (r: Result<seq<SqlStatement>>)
    ensures r == ParseLog(stdout, digest)
  {
    var sqlLines := SplitLines(stdout);
    var sqlStatements: seq<SqlStatement> := [];
    var currentSqlStatement: seq<string> := [];
    assert sqlLines[0..] == sqlLines;
    assert Prepend([], ParseLog(stdout, digest)) == ParseLog(stdout, digest) by {
      var all := ParseLog(stdout, digest);
      if all.Ok? {
        assert [] + all.value == all.value;
      }
    }
    for i := 0 to |sqlLines|
      invariant Prepend(sqlStatements, Statements(SegmentsFrom(sqlLines[i..], currentSqlStatement), digest, ExtractExecutionTime))
             == ParseLog(stdout, digest)
    {
      var line := sqlLines[i];
      if IsMarker(line) {
        ScanMarker(sqlLines, i, currentSqlStatement);
        StatementsCons(Segment(currentSqlStatement, line), SegmentsFrom(sqlLines[i + 1..], []), sqlStatements, digest, ExtractExecutionTime);
        var executionTime := ExtractExecutionTime(line);
        if executionTime.Err? {
          return Err(executionTime.error);
        }
        sqlStatements := sqlStatements + [NewSqlStatement(currentSqlStatement, executionTime.value, digest)];
        currentSqlStatement := [];
      } else {
        ScanPlain(sqlLines, i, currentSqlStatement);
        currentSqlStatement := currentSqlStatement + [line];
      }
    }
    assert sqlLines[|sqlLines|..] == [];
    assert sqlStatements + [] == sqlStatements;
    return Ok(sqlStatements);
  }

  /** What the parser promises about a log it accepts: one statement per
      marker line, in their order, each made of exactly the lines since the
      previous marker line, with the trailing unterminated lines dropped. */
  lemma ParseLogSpec(stdout: string, digest: string -> Digest)
    requires ParseLog(stdout, digest).Ok?
    ensures var lines, ss := SplitLines(stdout), ParseLog(stdout, digest).value;
      && |ss| == |MarkerLines(lines)| == |Segments(lines)|
      && Segmentation(lines, Segments(lines))
      && (forall k :: 0 <= k < |ss| ==>
           && ss[k].statement == Segments(lines)[k].body
           && Segments(lines)[k].marker == MarkerLines(lines)[k]
           && ExtractExecutionTime(MarkerLines(lines)[k]) == Ok(ss[k].executionTime))
      && (forall s :: s in ss ==> WellFormed(s, digest))
  {
    var lines := SplitLines(stdout);
    var segs := Segments(lines);
    var ss := Statements(segs, digest, ExtractExecutionTime).value;
    StatementsValues(segs, digest, ExtractExecutionTime);
    StatementsWellFormed(segs, digest, ExtractExecutionTime);
    SegmentsSegmentation(lines);
    SegmentsFromMarkers(lines, []);
    var ms := MarkerLines(lines);
    forall k | 0 <= k < |ss|
      ensures ss[k].statement == segs[k].body && segs[k].marker == ms[k]
      ensures ExtractExecutionTime(ms[k]) == Ok(ss[k].executionTime)
    {
      MarkersAt(segs, k);
    }
  }

  lemma {:induction false} MarkersAt(segs: seq<Segment>, k: nat)
    requires k < |segs|
    ensures |Markers(segs)| == |segs| && Markers(segs)[k] == segs[k].marker
    decreases |segs|
  {
    if k > 0 {
      MarkersAt(segs[1..], k - 1);
    } else if |segs| > 1 {
      MarkersAt(segs[1..], 0);
    }
  }

  /** The example log, printed as three lines: the trailing `SELECT 2` has
      no marker line after it and is dropped. */
  lemma ParseLogExample(digest: string -> Digest)
    ensures ParseLog(JoinLines(["SELECT 1", "Execution time: 12.5ms", "SELECT 2"]), digest)
         == Ok([NewSqlStatement(["SELECT 1"], 12.5, digest)])
  {
    ExampleLines();
    ExampleSegments();
    ExampleTime();
    StatementsSingle(Segment(["SELECT 1"], "Execution time: 12.5ms"), 12.5, digest, ExtractExecutionTime);
  }

  lemma ExampleLines()
    ensures SplitLines(JoinLines(["SELECT 1", "Execution time: 12.5ms", "SELECT 2"]))
         == ["SELECT 1", "Execution time: 12.5ms", "SELECT 2"]
  {
    var l1, l2, l3 := "SELECT 1", "Execution time: 12.5ms", "SELECT 2";
    assert NoLineBreaks(l1) && NoLineBreaks(l2) && NoLineBreaks(l3);
    SplitLinesJoinLines([l1, l2, l3]);
  }

  /** A single closed statement with a valid duration. */
  lemma StatementsSingle(seg: Segment, t: real, digest: string -> Digest, time: string -> Result<real>)
    requires time(seg.marker) == Ok(t)
    ensures Statements([seg], digest, time) == Ok([NewSqlStatement(seg.body, t, digest)])
  {
    var segs := [seg];
    assert segs[0] == seg && segs[1..] == [];
    assert [NewSqlStatement(seg.body, t, digest)] + [] == [NewSqlStatement(seg.body, t, digest)];
  }

  lemma ExampleSegments()
    ensures Segments(["SELECT 1", "Execution time: 12.5ms", "SELECT 2"])
         == [Segment(["SELECT 1"], "Execution time: 12.5ms")]
  {
    var l1, l2, l3 := "SELECT 1", "Execution time: 12.5ms", "SELECT 2";
    var lines := [l1, l2, l3];
    assert !IsMarker(l1) && !IsMarker(l3);
    assert IsMarker(l2) by {
      assert OccursAt(l2, ExecutionTimeMarker, 0);
    }
    assert lines[1..] == [l2, l3] && lines[1..][1..] == [l3] && lines[1..][1..][1..] == [];
    assert SegmentsFrom([l3], []) == [];
    assert SegmentsFrom([l2, l3], [l1]) == [Segment([l1], l2)] + SegmentsFrom([l3], []);
    assert SegmentsFrom(lines, []) == SegmentsFrom([l2, l3], [] + [l1]);
    assert [] + [l1] == [l1];
  }

  /** Only the digits and dots between a text and a unit are kept. */
  lemma DigitsBetween(prefix: string, number: string, unit: string)
    requires forall i :: 0 <= i < |prefix| ==> !IsDigitOrDot(prefix[i])
    requires forall i :: 0 <= i < |number| ==> IsDigitOrDot(number[i])
    requires forall i :: 0 <= i < |unit| ==> !IsDigitOrDot(unit[i])
    ensures Digits(prefix + number + unit) == number
  {
    DigitsDropsRest(prefix);
    DigitsKeepsAll(number);
    DigitsDropsRest(unit);
    DigitsAppend(prefix, number);
    DigitsAppend(prefix + number, unit);
  }

  lemma ExampleTime()
    ensures ExtractExecutionTime("Execution time: 12.5ms") == Ok(12.5)
  {
    DigitsBetween("Execution time: ", "12.5", "ms");
    assert "Execution time: " + "12.5" + "ms" == "Execution time: 12.5ms";
    DecimalTwelveAndAHalf();
  }

  // ---------------------------------------------------------------------
  // Sorting and counting (ParseSQL.__init__, ParseSQL._count_duplicates)
  // ---------------------------------------------------------------------

  function ExecutionTime(s: SqlStatement): real { s.executionTime }

  function Hash(s: SqlStatement): Digest { s.hash }

  /** `ParseSQL._count_duplicates()` over `self.sorted`. */
  method CountDuplicates(sorted: seq<SqlStatement>) returns (profile: seq<Group<SqlStatement>>)
    ensures profile == SortBy(Groups(sorted, Hash, ExecutionTime), CountKey)
  {
    var groups := Deduplicate(sorted, Hash, ExecutionTime);
    var rows := new Group<SqlStatement>[|groups|](i requires 0 <= i < |groups| => groups[i]);
    assert rows[..] == groups;
    SortInPlace(rows, CountKey);
    profile := rows[..];
  }

  /** The fields of a `ParseSQL` object after construction. */
  datatype ParseSQL = ParseSQL(stdout: string, sqlStatements: seq<SqlStatement>,
                               sorted: seq<SqlStatement>, duplicates: seq<Group<SqlStatement>>)

  /** `ParseSQL(stdout)`: parse, sort by duration (`sorted` is stable), count. */
  method NewParseSQL(stdout: string, digest: string -> Digest) returns (r: Result<ParseSQL>)
    ensures r.Err? <==> ParseLog(stdout, digest).Err?
    ensures r.Err? ==> r.error == ParseLog(stdout, digest).error
    ensures r.Ok? ==>
      && r.value.stdout == stdout
      && r.value.sqlStatements == ParseLog(stdout, digest).value
      && r.value.sorted == SortBy(r.value.sqlStatements, ExecutionTime)
      && r.value.duplicates == SortBy(Groups(r.value.sorted, Hash, ExecutionTime), CountKey)
  {
    var parsed := Parse(stdout, digest);
    if parsed.Err? {
      return Err(parsed.error);
    }
    var sqlStatements := parsed.value;
    var sorted := SortBy(sqlStatements, ExecutionTime);
    var duplicates := CountDuplicates(sorted);
    return Ok(ParseSQL(stdout, sqlStatements, sorted, duplicates));
  }

  /** What the profile of the statements promises: `sorted` is them in
      ascending time order; the profile has one row per hash with counts
      adding up to the number of statements, each row reporting the slowest
      statement of its hash and count times its time; rows ascend by count. */
  lemma ProfileSpec(statements: seq<SqlStatement>)
    ensures var sorted := SortBy(statements, ExecutionTime);
      && SortedBy(sorted, ExecutionTime)
      && multiset(sorted) == multiset(statements)
      && ProfileOf(SortBy(Groups(sorted, Hash, ExecutionTime), CountKey), sorted, Hash, ExecutionTime)
      && SortedBy(SortBy(Groups(sorted, Hash, ExecutionTime), CountKey), CountKey)
  {
    var sorted := SortBy(statements, ExecutionTime);
    SortBySorted(statements, ExecutionTime);
    SortByPermutes(statements, ExecutionTime);
    RankedGroupsCorrect(sorted, Hash, ExecutionTime, CountKey);
  }

  /** Statements with equal cleaned text have equal hashes, and so share
      their row of the profile. */
  lemma SameCleanSameRow(statements: seq<SqlStatement>, digest: string -> Digest, a: SqlStatement, b: SqlStatement)
    requires forall s :: s in statements ==> WellFormed(s, digest)
    requires a in statements && b in statements && a.cleanStatement == b.cleanStatement
    ensures var profile := SortBy(Groups(SortBy(statements, ExecutionTime), Hash, ExecutionTime), CountKey);
      exists g :: g in profile && g.statement.hash == a.hash && g.statement.hash == b.hash
  {
    var sorted := SortBy(statements, ExecutionTime);
    SortByMembers(statements, ExecutionTime);
    RankedGroupsCorrect(sorted, Hash, ExecutionTime, CountKey);
    assert a in sorted;
    assert a.hash == b.hash;
  }
}
