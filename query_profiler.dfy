/** The query-log profiler of src/sql_profiler.py: the queries Django
    recorded while a function ran are sorted by duration, annotated with
    their number of joins and the hash of their text, grouped by hash,
    ranked by total time, and the ten most expensive groups are kept. */
module QueryProfiler {
  import opened Text
  import opened Sorting
  import opened Aggregate

  /** The hex digest of the SHA-1 hash of a text. */
  type Digest = string

  /** An entry of `connection.queries`: the SQL text and the duration,
      already converted by `float(x['time'])`. */
  datatype QueryRecord = QueryRecord(sql: string, time: real)

  /** The dictionary `analyze_query` returns. */
  datatype AnalyzedQuery = AnalyzedQuery(numJoins: nat, time: real, query: string, hash: Digest)

  /** The rows kept by `self.top_ten`. */
  const TopCount: nat := 10

  const JoinKeyword: string := "JOIN"

  function RecordTime(q: QueryRecord): real { q.time }

  function QueryHash(a: AnalyzedQuery): Digest { a.hash }

  function QueryTime(a: AnalyzedQuery): real { a.time }

  /** `ParseSql.analyze_query(query)`; `digest` stands for SHA-1. The join
      count is that of `str.count`, which for `JOIN` is the number of
      positions where the word starts (it cannot overlap itself). */
  function AnalyzeQuery(q: QueryRecord, digest: string -> Digest): (a: AnalyzedQuery)
    ensures a.numJoins == MatchCount(q.sql, JoinKeyword)
    ensures a.time == q.time && a.query == q.sql && a.hash == digest(q.sql)
  {
    CountIsMatchCount(q.sql, JoinKeyword);
    AnalyzedQuery(CountOccurrences(q.sql, JoinKeyword), q.time, q.sql, digest(q.sql))
  }

  /** `[self.analyze_query(q) for q in self.sql_statements]`. */
  function AnalyzeAll(qs: seq<QueryRecord>, digest: string -> Digest): (r: seq<AnalyzedQuery>)
    ensures |r| == |qs|
    ensures forall k :: 0 <= k < |qs| ==> r[k] == AnalyzeQuery(qs[k], digest)
  {
    seq(|qs|, k requires 0 <= k < |qs| => AnalyzeQuery(qs[k], digest))
  }

  /** Joins are counted case-sensitively, one per occurrence. */
  lemma JoinCountExamples()
    ensures MatchCount("JOIN", JoinKeyword) == 1
    ensures MatchCount("join", JoinKeyword) == 0
    ensures MatchCount("JOINJOIN", JoinKeyword) == 2
  {
    assert "JOIN"[1..] == "OIN";
    assert "join"[..4][0] != JoinKeyword[0] && "join"[1..] == "oin";
    var s := "JOINJOIN";
    assert s[..4] == JoinKeyword && s[4..] == JoinKeyword;
    MatchCountSkip(s, JoinKeyword, 4);
  }

  /** Analysis keeps the durations, so records sorted by time give analyses
      sorted by time. */
  lemma AnalyzeAllSorted(qs: seq<QueryRecord>, digest: string -> Digest)
    requires SortedBy(qs, RecordTime)
    ensures SortedBy(AnalyzeAll(qs, digest), QueryTime)
  {
  }

  /** `self.sql[-10:]`: the last ten rows, or all of them when there are fewer. */
  function TopTen<T>(rows: seq<T>): seq<T> {
    if |rows| <= TopCount then rows else rows[|rows| - TopCount..]
  }

  /** Of rows ascending by total time, the kept ones are the most expensive:
      as many as there are up to ten, a suffix of the rows, and no row left
      out costs more than a kept one. */
  lemma TopTenSpec<R>(rows: seq<Group<R>>)
    requires SortedBy(rows, TotalTimeKey)
    ensures |TopTen(rows)| == if |rows| < TopCount then |rows| else TopCount
    ensures TopTen(rows) == rows[|rows| - |TopTen(rows)|..]
    ensures forall g, h :: g in TopTen(rows) && h in rows[..|rows| - |TopTen(rows)|] ==> h.totalTime <= g.totalTime
    ensures SortedBy(TopTen(rows), TotalTimeKey)
  {
  }

  /** `ParseSql._deduplicate_sql_expressions()` over `self.analyzed`. */
  method DeduplicateSqlExpressions(analyzed: seq<AnalyzedQuery>) returns (profile: seq<Group<AnalyzedQuery>>)
    ensures profile == SortBy(Groups(analyzed, QueryHash, QueryTime), TotalTimeKey)
  {
    var groups := Deduplicate(analyzed, QueryHash, QueryTime);
    var rows := new Group<AnalyzedQuery>[|groups|](i requires 0 <= i < |groups| => groups[i]);
    assert rows[..] == groups;
    SortInPlace(rows, TotalTimeKey);
    profile := rows[..];
  }

  /** The fields of a `ParseSql` object after construction. */
  datatype ParseSql = ParseSql(sqlStatements: seq<QueryRecord>, analyzed: seq<AnalyzedQuery>,
                               sql: seq<Group<AnalyzedQuery>>, topTen: seq<Group<AnalyzedQuery>>)

  /** `ParseSql(sql_statements)`: the caller's list is sorted in place by
      duration (`list.sort` is stable), then analysed, grouped and cut. */
  method NewParseSql(sqlStatements: array<QueryRecord>, digest: string -> Digest) returns (r: ParseSql)
    modifies sqlStatements
    ensures sqlStatements[..] == SortBy(old(sqlStatements[..]), RecordTime)
    ensures r.sqlStatements == sqlStatements[..]
    ensures r.analyzed == AnalyzeAll(r.sqlStatements, digest)
    ensures r.sql == SortBy(Groups(r.analyzed, QueryHash, QueryTime), TotalTimeKey)
    ensures r.topTen == TopTen(r.sql)
  {
    SortInPlace(sqlStatements, RecordTime);
    var statements := sqlStatements[..];
    var analyzed := AnalyzeAll(statements, digest);
    var sql := DeduplicateSqlExpressions(analyzed);
    r := ParseSql(statements, analyzed, sql, TopTen(sql));
  }

  /** The report built from `records`, as `NewParseSql` leaves it. */
  function Report(records: seq<QueryRecord>, digest: string -> Digest): ParseSql {
    var sorted := SortBy(records, RecordTime);
    var analyzed := AnalyzeAll(sorted, digest);
    var sql := SortBy(Groups(analyzed, QueryHash, QueryTime), TotalTimeKey);
    ParseSql(sorted, analyzed, sql, TopTen(sql))
  }

  /** What the report promises: the records in ascending time order; one
      analysis per record; one row per hash with counts adding up to the
      number of queries, each reporting its slowest query and count times its
      time; rows ascending by total time; the ten costliest rows kept. */
  lemma ReportSpec(records: seq<QueryRecord>, digest: string -> Digest)
    ensures var r := Report(records, digest);
      && SortedBy(r.sqlStatements, RecordTime)
      && multiset(r.sqlStatements) == multiset(records)
      && |r.analyzed| == |records|
      && SortedBy(r.analyzed, QueryTime)
      && ProfileOf(r.sql, r.analyzed, QueryHash, QueryTime)
      && SortedBy(r.sql, TotalTimeKey)
      && |r.topTen| == (if |r.sql| < TopCount then |r.sql| else TopCount)
      && r.topTen == r.sql[|r.sql| - |r.topTen|..]
  {
    var r := Report(records, digest);
    SortBySorted(records, RecordTime);
    SortByPermutes(records, RecordTime);
    SortByMembers(records, RecordTime);
    AnalyzeAllSorted(r.sqlStatements, digest);
    RankedGroupsCorrect(r.analyzed, QueryHash, QueryTime, TotalTimeKey);
    TopTenSpec(r.sql);
  }

  /** Queries with the same text have the same hash and so share their row. */
  lemma SameTextSameRow(records: seq<QueryRecord>, digest: string -> Digest, a: QueryRecord, b: QueryRecord)
    requires a in records && b in records && a.sql == b.sql
    ensures exists g :: g in Report(records, digest).sql && g.statement.hash == digest(a.sql) == digest(b.sql)
  {
    var sorted := SortBy(records, RecordTime);
    var analyzed := AnalyzeAll(sorted, digest);
    var sql := SortBy(Groups(analyzed, QueryHash, QueryTime), TotalTimeKey);
    assert Report(records, digest).sql == sql;
    SortByMembers(records, RecordTime);
    var i :| 0 <= i < |sorted| && sorted[i] == a;
    assert analyzed[i].hash == digest(a.sql);
    RowForQuery(analyzed, analyzed[i]);
  }

  /** Every analysed query has a row with its hash. */
  lemma RowForQuery(analyzed: seq<AnalyzedQuery>, q: AnalyzedQuery)
    requires q in analyzed
    ensures exists g :: g in SortBy(Groups(analyzed, QueryHash, QueryTime), TotalTimeKey) && g.statement.hash == q.hash
  {
    RankedGroupsCorrect(analyzed, QueryHash, QueryTime, TotalTimeKey);
    var g :| g in SortBy(Groups(analyzed, QueryHash, QueryTime), TotalTimeKey) && QueryHash(g.statement) == QueryHash(q);
  }

  /** A run of three queries, one of them twice: the repeated one is counted
      twice and reported with its slower duration, and ranks last. */
  lemma ReportExample(a: string, b: string, digest: string -> Digest)
    requires digest(a) != digest(b)
    ensures Report([QueryRecord(a, 3.0), QueryRecord(b, 1.0), QueryRecord(a, 2.0)], digest).sql
         == [Group(1, 1.0, 1.0, AnalyzeQuery(QueryRecord(b, 1.0), digest)),
             Group(2, 3.0, 6.0, AnalyzeQuery(QueryRecord(a, 3.0), digest))]
  {
    var qa3, qb1, qa2 := QueryRecord(a, 3.0), QueryRecord(b, 1.0), QueryRecord(a, 2.0);
    ExampleSorted(qa3, qb1, qa2);
    var a1, a2, a3 := AnalyzeQuery(qb1, digest), AnalyzeQuery(qa2, digest), AnalyzeQuery(qa3, digest);
    var analyzed := AnalyzeAll([qb1, qa2, qa3], digest);
    assert analyzed == [a1, a2, a3];
    ExampleGroups(a1, a2, a3);
    var gb, ga := MakeGroup(1, a1, QueryTime), MakeGroup(2, a3, QueryTime);
    ExampleRanked(gb, ga);
    assert Report([qa3, qb1, qa2], digest).sql == SortBy([gb, ga], TotalTimeKey);
  }

  lemma ExampleSorted(qa3: QueryRecord, qb1: QueryRecord, qa2: QueryRecord)
    requires qa3.time == 3.0 && qb1.time == 1.0 && qa2.time == 2.0
    ensures SortBy([qa3, qb1, qa2], RecordTime) == [qb1, qa2, qa3]
  {
    var s := [qa3, qb1, qa2];
    assert s[..2][..1] == [qa3] && s[..1][..0] == [];
    assert SortBy([qa3], RecordTime) == [qa3];
    assert SortBy(s[..2], RecordTime) == Insert([qa3], qb1, RecordTime);
    assert Insert([qa3], qb1, RecordTime) == [qb1, qa3];
    assert [qb1, qa3][..1] == [qb1];
    assert Insert([qb1, qa3], qa2, RecordTime) == [qb1, qa2, qa3];
  }

  lemma ExampleGroups(a1: AnalyzedQuery, a2: AnalyzedQuery, a3: AnalyzedQuery)
    requires a1.hash != a2.hash && a2.hash == a3.hash
    ensures Groups([a1, a2, a3], QueryHash, QueryTime) == [MakeGroup(1, a1, QueryTime), MakeGroup(2, a3, QueryTime)]
  {
    var rs := [a1, a2, a3];
    ExampleKeys(a1, a2, a3);
    ExampleCounts(a1, a2, a3);
    var ks := [a1.hash, a2.hash];
    KeysInOrderOccur(rs, QueryHash);
    GroupsForAt(rs, QueryHash, QueryTime, ks);
  }

  lemma ExampleKeys(a1: AnalyzedQuery, a2: AnalyzedQuery, a3: AnalyzedQuery)
    requires a1.hash != a2.hash && a2.hash == a3.hash
    ensures KeysInOrder([a1, a2, a3], QueryHash) == [a1.hash, a2.hash]
  {
    var rs := [a1, a2, a3];
    assert rs[..2] == [a1, a2] && rs[..2][..1] == [a1] && rs[..2][..1][..0] == [];
    assert KeysInOrder([a1], QueryHash) == [a1.hash];
    assert KeysInOrder([a1, a2], QueryHash) == [a1.hash, a2.hash];
  }

  lemma ExampleCounts(a1: AnalyzedQuery, a2: AnalyzedQuery, a3: AnalyzedQuery)
    requires a1.hash != a2.hash && a2.hash == a3.hash
    ensures Occurrences([a1, a2, a3], QueryHash, a1.hash) == 1
    ensures Occurrences([a1, a2, a3], QueryHash, a2.hash) == 2
    ensures LastOf([a1, a2, a3], QueryHash, a1.hash) == a1
    ensures LastOf([a1, a2, a3], QueryHash, a2.hash) == a3
  {
    var rs := [a1, a2, a3];
    assert rs[..2] == [a1, a2] && [a1, a2][..1] == [a1] && [a1][..0] == [];
    assert Occurrences([a1], QueryHash, a1.hash) == 1;
    assert QueryHash([a1][0]) != a2.hash;
    assert Occurrences([a1], QueryHash, a2.hash) == 0;
    assert Occurrences([a1, a2], QueryHash, a1.hash) == 1 && Occurrences([a1, a2], QueryHash, a2.hash) == 1;
    assert LastOf([a1, a2], QueryHash, a1.hash) == a1;
  }

  lemma ExampleRanked(gb: Group<AnalyzedQuery>, ga: Group<AnalyzedQuery>)
    requires gb.totalTime == 1.0 && ga.totalTime == 6.0
    ensures SortBy([gb, ga], TotalTimeKey) == [gb, ga]
  {
    var s := [gb, ga];
    assert s[..1] == [gb] && s[..1][..0] == [];
    assert SortBy([gb], TotalTimeKey) == [gb];
  }

  // ---------------------------------------------------------------------
  // `defaultdict` is used but never imported in src/sql_profiler.py
  // ---------------------------------------------------------------------

  /** The names bound at module level in src/sql_profiler.py: its two imports
      and its two definitions. */
  const ModuleNames: set<string> := {"sha1", "connection", "ParseSql", "profile_sql"}

  /** `NameError`, raised when a name is looked up that is not bound. */
  datatype NameError = NameError(name: string)

  datatype Outcome<T> = Returned(value: T) | Raised(error: NameError)

  /** `ParseSql(records)` as written: `_deduplicate_sql_expressions` looks up
      `defaultdict` among the module's names before it does anything else.
      By then the constructor has sorted the caller's list in place and
      analysed it, so the caller is left with a sorted list and the error. */
  function ParseSqlAsWritten(records: seq<QueryRecord>, digest: string -> Digest): Outcome<ParseSql> {
    if "defaultdict" in ModuleNames then Returned(Report(records, digest))
    else Raised(NameError("defaultdict"))
  }

  /** As written, constructing the profiler fails for every input, the
      empty query log included. */
  lemma AsWrittenAlwaysRaises(records: seq<QueryRecord>, digest: string -> Digest)
    ensures ParseSqlAsWritten(records, digest) == Raised(NameError("defaultdict"))
    ensures ParseSqlAsWritten([], digest).Raised?
  {
  }

  /** With `from collections import defaultdict`, as src/profiler.py has, the
      empty query log gives an empty report. */
  lemma CorrectedEmptyLog(digest: string -> Digest)
    ensures Report([], digest) == ParseSql([], [], [], [])
  {
  }
}
