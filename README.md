# SQL profiler, modelled in Dafny

The repository is a small profiler for the SQL a Python function runs. It
has two front ends and one shared pipeline.

- `src/profiler.py` reads the captured standard output of the function.
  - Every line that contains `Execution time:` closes one executed
    statement, made of the lines buffered since the previous such line.
  - The duration is the `Decimal` made of the digits and dots of that line.
  - Each statement's lines are cleaned (every run of seven spaces becomes
    one space, then the lines are joined) and hashed with SHA-1.
  - The statements are sorted by duration and grouped by hash. Each group is
    ranked by its count.
- `src/sql_profiler.py` reads the query records a Django connection logged.
  - The caller's list is sorted in place by duration.
  - Each record is analysed: the number of `JOIN`s and the SHA-1 of the raw
    text.
  - The records are grouped by hash, and the groups are ranked by total time.
    The last ten groups are the top slice.

In both front ends a group holds four things:
- how many records carry the hash;
- the record stored last for it, which in ascending time order is the slowest;
- that record's time;
- count times that time.

The model has five modules:

- `Text` models the `str` operations the code uses: `in`, `count`,
  `replace`, `"".join` and `splitlines`.
- `Sorting` models Python's stable sort.
  - `SortBy` is a stable insertion sort, stated as a function.
  - `SortInPlace` is an in-place insertion sort on an `array`, proved equal
    to it.
- `Aggregate` models the counting loop both profilers share.
  - `Deduplicate` updates a count map and a latest-record map in one pass
    over the records.
  - It then builds one row per key, in dict insertion order.
  - It is proved equal to the function `Groups` (the rows of
    src/profiler.py:70-85), whose properties are lemmas.
- `StdoutProfiler` models `src/profiler.py`.
  - `CleanStatement` is the cleaned text and `NewSqlStatement` is the
    `SqlStatement` constructor.
  - `ExtractExecutionTime` is `_extract_execution_time`.
  - `Statements` and `ParseLog` are the value that `_parse` returns or
    raises. `Parse` is its line loop.
  - `CountDuplicates` is `_count_duplicates`, and `NewParseSQL` is the
    `ParseSQL` constructor.
- `QueryProfiler` models `src/sql_profiler.py`.
  - `AnalyzeQuery` is `analyze_query`, and `TopTen` is the `top_ten` slice.
  - `DeduplicateSqlExpressions` is `_deduplicate_sql_expressions`.
  - `NewParseSql` is the `ParseSql` constructor. `Report` is the object it
    builds, as a function of the records.

Modelling choices:
- SHA-1 is the function parameter `digest`. It is deterministic and otherwise
  unconstrained.
- Durations are `real`s.
- The hash-keyed dicts of the source are Dafny `map`s, and their insertion
  order is an explicit sequence of keys.

Three behaviours of the code a reader might not expect:
- **Digits of the duration.** `_extract_execution_time` (src/profiler.py:46)
  keeps every digit and dot of the marker line, wherever they occur, in
  order. See `StdoutProfiler.DigitsAppend` and `StdoutProfiler.DigitsBetween`.
- **Cleaning is not idempotent.** src/profiler.py:11,16 replaces only exact
  seven-space runs, scanning from left to right. Thirteen spaces become
  seven, which a second cleaning turns into one. See
  `StdoutProfiler.CollapseNotIdempotent`.
- **Run width matters.** For the same reason, indentation runs of different
  widths give different cleaned text, so (for SHA-1) different hashes. See
  `StdoutProfiler.RunWidthMatters`.

A malformed duration raises the conversion error of `Decimal`, here
`InvalidDecimal`. It aborts the whole parse, as that exception does.

## Model

| member | source | states |
|---|---|---|
| Text.SplitLines | src/profiler.py:50 | no produced line contains a line boundary |
| Text.SplitLinesJoinLines | src/profiler.py:50 | splitting text printed line by line gives back exactly the printed lines |
| Text.CountZeroIffAbsent | src/profiler.py:16 | the non-overlapping count of a pattern is zero exactly when the pattern does not occur |
| Text.ReplaceAllLength | src/profiler.py:16 | each replacement changes the length by the replacement's length minus the pattern's |
| Text.ReplaceAllAbsent | src/profiler.py:16 | replacing a pattern that does not occur leaves the text unchanged |
| Text.CountIsMatchCount | src/sql_profiler.py:17 | for a pattern whose first character does not recur (such as `JOIN`), the non-overlapping count equals the number of positions where it starts |
| Text.ConcatAppend | src/profiler.py:16 | joining with no separator distributes over concatenation of the part lists |
| Sorting.SortBySorted | src/profiler.py:37 | the sorted sequence is non-decreasing by the key |
| Sorting.SortByPermutes | src/sql_profiler.py:9 | the sorted sequence is a permutation of the input (equal multisets) |
| Sorting.SortByMembers | src/profiler.py:37 | sorting keeps the length and exactly the same members |
| Sorting.SortByStable | src/profiler.py:37 | the elements with any one key keep their relative order (stability) |
| Sorting.SortBySum | src/profiler.py:86 | sorting does not change a sum over the elements |
| Sorting.SortByDistinct | src/profiler.py:86 | sorting keeps elements pairwise distinct under any projection |
| Sorting.InsertInPlace | src/sql_profiler.py:9 | the first i+1 cells become the stable insertion of cell i into the cells before it; later cells are unchanged |
| Sorting.SortInPlace | src/sql_profiler.py:9 | the array afterwards holds the stable sort of its old contents |
| Aggregate.KeysInOrderOccur | src/profiler.py:78 | the dict's keys are exactly the hashes that occur, each listed once |
| Aggregate.LastOfMember | src/profiler.py:75 | the stored record of a hash is one of the records and carries that hash |
| Aggregate.LastOfSlowest | src/profiler.py:73-75 | with records in ascending time order, the stored record of a hash is at least as slow as every record with that hash |
| Aggregate.GroupsForAt | src/profiler.py:77-85 | row k is count, time and count times time of the k-th key's stored record |
| Aggregate.GroupsCountSum | src/profiler.py:73-74 | the row counts add up to the number of records |
| Aggregate.GroupsRows | src/profiler.py:78-85 | every row is built from a hash that occurs, with its count and stored record |
| Aggregate.GroupsDistinct | src/profiler.py:78 | no two rows share a hash |
| Aggregate.GroupsCover | src/profiler.py:73-78 | every record's hash has a row |
| Aggregate.GroupsFaithful | src/profiler.py:79-84 | each row stores one of the records, counts the records with its hash and reports count times time as total |
| Aggregate.GroupsSlowest | src/profiler.py:73-82 | with records in ascending time order each row reports the slowest time of its hash |
| Aggregate.GroupsCorrect | src/profiler.py:71-85 | the rows satisfy all of the above together |
| Aggregate.RankedGroupsCorrect | src/profiler.py:86 | sorting the rows by any key keeps all of the above and orders the rows by that key |
| Aggregate.Deduplicate | src/profiler.py:71-85 | the counting loop and the row-building loop produce exactly `Groups` of the records |
| StdoutProfiler.CollapseLength | src/profiler.py:16 | a cleaned line is six characters shorter per seven-space run, and unchanged exactly when it has no such run |
| StdoutProfiler.CleanStatementAppend | src/profiler.py:16 | the cleaned text of concatenated line lists is the concatenation of their cleaned texts |
| StdoutProfiler.CleanStatementShorter | src/profiler.py:16 | the cleaned text is never longer than the plain join, and equals it when no line has a seven-space run |
| StdoutProfiler.CollapseNotIdempotent | src/profiler.py:11-16 | thirteen spaces clean to seven spaces, and cleaning again gives one |
| StdoutProfiler.RunWidthMatters | src/profiler.py:11-16 | a seven-space and an eight-space indentation clean to different texts |
| StdoutProfiler.Digits | src/profiler.py:46 | the kept string holds only digits and dots |
| StdoutProfiler.DigitsAppend | src/profiler.py:46 | the kept characters of a concatenation are the concatenation of the kept characters, so digits from anywhere in the line are kept in order |
| StdoutProfiler.DigitsKeepsAll | src/profiler.py:46 | a string of digits and dots is kept whole |
| StdoutProfiler.DigitsDropsRest | src/profiler.py:46 | a string without digits or dots is dropped entirely |
| StdoutProfiler.DigitsBetween | src/profiler.py:46 | text and a unit around a number leave just the number |
| StdoutProfiler.DecimalOf | src/profiler.py:47 | a converted duration is never negative |
| StdoutProfiler.DecimalOfValid | src/profiler.py:47 | a string of digits and dots converts exactly when it has at most one dot and at least one digit |
| StdoutProfiler.DecimalTwelveAndAHalf | src/profiler.py:47 | `12.5` converts to 12.5 |
| StdoutProfiler.DecimalTrailingDot | src/profiler.py:47 | `5.` converts to 5 |
| StdoutProfiler.DecimalLeadingDot | src/profiler.py:47 | `.5` converts to 0.5 |
| StdoutProfiler.DecimalOfRejects | src/profiler.py:47 | the empty string, a lone dot and `1.2.3` are rejected |
| StdoutProfiler.ExampleTime | src/profiler.py:44-47 | the line `Execution time: 12.5ms` gives 12.5 |
| StdoutProfiler.SegmentsSegmentation | src/profiler.py:54-68 | the scan cuts the lines into marker-free bodies each closed by a marker line, covering a prefix after which no marker line remains |
| StdoutProfiler.SegmentationUnique | src/profiler.py:54-66 | there is only one such cut |
| StdoutProfiler.SegmentsCharacterized | src/profiler.py:54-66 | a list of segments is such a cut exactly when it is what the scan produces |
| StdoutProfiler.SegmentsFromMarkers | src/profiler.py:54-64 | the scan yields one segment per marker line, closed by the marker lines in their order |
| StdoutProfiler.StatementsOk | src/profiler.py:57-62 | building the statements succeeds exactly when every marker line holds a valid number |
| StdoutProfiler.StatementsValues | src/profiler.py:57-62 | statement k has the lines of segment k and the duration read from its marker line |
| StdoutProfiler.StatementsFirstError | src/profiler.py:57-62 | on failure, the error is that of the first marker line whose number is invalid |
| StdoutProfiler.StatementsWellFormed | src/profiler.py:13-18 | every built statement carries the cleaned text of its lines and that text's digest |
| StdoutProfiler.Parse | src/profiler.py:49-68 | the line loop returns exactly `ParseLog` of the output, or its first conversion error |
| StdoutProfiler.ParseLogSpec | src/profiler.py:49-68 | an accepted log gives one statement per marker line, in order, with exactly the lines since the previous marker line and the duration of its own marker line; trailing unterminated lines are dropped |
| StdoutProfiler.ParseLogExample | src/profiler.py:49-68 | `SELECT 1`, `Execution time: 12.5ms`, `SELECT 2` parse to the one statement `SELECT 1` taking 12.5 |
| StdoutProfiler.CountDuplicates | src/profiler.py:70-87 | the profile is the groups of the sorted statements by hash, sorted by count |
| StdoutProfiler.NewParseSQL | src/profiler.py:34-38 | construction fails exactly when parsing fails, with its error; otherwise the object holds the parsed statements, their stable sort by time and the counted profile |
| StdoutProfiler.ProfileSpec | src/profiler.py:37-38 | the sorted statements are a time-ordered permutation; the profile conserves counts, has one row per hash reporting the slowest statement and count times its time, and ascends by count |
| StdoutProfiler.SameCleanSameRow | src/profiler.py:16-18 | statements with equal cleaned text have equal hashes and share one row of the profile |
| QueryProfiler.AnalyzeQuery | src/sql_profiler.py:15-23 | the join count is the number of positions where `JOIN` starts; time and text are copied; the hash is the digest of the raw text |
| QueryProfiler.AnalyzeAll | src/sql_profiler.py:10 | one analysis per record, in the same order |
| QueryProfiler.JoinCountExamples | src/sql_profiler.py:17 | `JOIN` counts 1, `join` counts 0, `JOINJOIN` counts 2 |
| QueryProfiler.AnalyzeAllSorted | src/sql_profiler.py:9-10 | analyses of time-sorted records are time-sorted |
| QueryProfiler.TopTenSpec | src/sql_profiler.py:12 | the top slice has min(10, n) rows, is the suffix of the rows, is sorted, and no excluded row costs more than a kept one |
| QueryProfiler.DeduplicateSqlExpressions | src/sql_profiler.py:25-43 | the profile is the groups of the analyses by hash, sorted by total time |
| QueryProfiler.NewParseSql | src/sql_profiler.py:7-12 | the caller's array is left holding the stable sort of its old contents; the fields are the analyses, the ranked groups and their top slice |
| QueryProfiler.ReportSpec | src/sql_profiler.py:7-12 | records a time-ordered permutation; one analysis each; the profile conserves counts, has one row per hash with its slowest query, and ascends by total time; the top slice is the last min(10, n) rows |
| QueryProfiler.SameTextSameRow | src/sql_profiler.py:22-31 | queries with the same text share one row of the report |
| QueryProfiler.RowForQuery | src/sql_profiler.py:29-41 | every analysed query has a row with its hash |
| QueryProfiler.ReportExample | src/sql_profiler.py:7-43 | for `a` at 3.0, `b` at 1.0 and `a` at 2.0, the rows are `b` once at 1.0, then `a` twice at 3.0 with total 6.0 |
| QueryProfiler.AsWrittenAlwaysRaises | src/sql_profiler.py:26 | as written, construction raises `NameError` for `defaultdict` on every input, the empty one included |
| QueryProfiler.CorrectedEmptyLog | src/sql_profiler.py:7-12 | with the import present, an empty query log gives empty analyses, rows and top slice |

## Left out

- `profile_sql` in both files is glue and is not modelled. One version captures standard output with IPython's `capture_output`. The other slices Django's global `connection.queries` log. Both call an arbitrary function. The captured text and the query records are parameters instead.
- SHA-1 is foreign code. It is the function parameter `digest`, assumed deterministic and nothing more.
- `float(x['time'])` and floating-point arithmetic are not modelled: a record's time is already a `real`. Rounding in `count * time` is not modelled either.
- StdoutProfiler.DecimalOf: models `Decimal` only on strings of ASCII digits and dots, which is all the modelled `Digits` keeps (see the next line). Its value is exact, as a `real`.
- StdoutProfiler.Digits: treats only ASCII `0`-`9` as numeric. `str.isnumeric` also accepts other Unicode numeric characters, so lines holding them are not modelled as the source treats them.
- `id(self)` is not modelled. Object identity plays no part in the profile.
- `__str__`, `__repr__` and `show_sql` only print, so they are not modelled.
- `ParseSQL` and `ParseSql` each become a datatype of the fields their constructors set, through `StdoutProfiler.NewParseSQL` and `QueryProfiler.NewParseSql`. Neither class changes its fields after construction. The in-place mutation the model does capture is the sort of the caller's list, an `array` in `NewParseSql`.
- Queries hold only `sql` and `time`. The other keys of a Django query dict are not read.

## Findings

| source | as written | input that shows it | evidently intended | confidence | as-written member | corrected member |
|---|---|---|---|---|---|---|
| src/sql_profiler.py:26 | `defaultdict(int)` is used, but the module imports only `sha1` and `connection`, so the name is unbound and `NameError` is raised | any query log, including the empty one; lines 9-10 have already sorted the caller's list in place and analysed it when line 26 raises | `from collections import defaultdict`, as in src/profiler.py, so records are counted per hash | not executed | QueryProfiler.AsWrittenAlwaysRaises | QueryProfiler.CorrectedEmptyLog |
