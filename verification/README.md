# ApexBase: proved models of its oracles, harnesses and transaction core

ApexBase is an embedded column store with SQL, full-text and vector search. The repository judges
itself through a set of benchmark programs that contain small but intricate algorithms of their own,
and its engine has an optimistic transaction manager over multi-version rows. This project models
both in Dafny and proves what they are relied on for.

| modules | what they model |
|---|---|
| `Text`, `ArgScanner`, `CallSearch`, `SqlTree`, `BalancedText` | the scanner, the regular-expression search and the texts of the Hive to DuckDB rewriter |
| `CallTemplates`, `CallRewriter`, `NaiveRewriter`, `StrToMapRule`, `IndexedSplit`, `StackRows` | its rewriting loops |
| `HiveArrays`, `HiveMeaning`, `CallMeaning`, `HivePipeline` | what the rewritten expressions mean on both sides, and the two passes composed on text |
| `PgBytes`, `PgWire`, `PgSession`, `PgExchange` | the minimal PostgreSQL wire client (sections 55.2.2 and 55.7 of the PostgreSQL 16 documentation) |
| `MixedWorkload`, `MixedReads` | writers behind a barrier and concurrent readers, as a transition system |
| `Ranking`, `RankFusion`, `FusionOrder`, `TopK` | rank fusion and the exact top-k oracle |
| `Scoreboard`, `Workloads`, `WorkloadMeaning` | the two tallies of benchmark results |
| `ConflictDetector`, `Transactions`, `VersionStore` | the transaction manager: conflict detection, commit protocol, version chains and garbage collection |
| `SnapshotReads`, `SnapshotRuns`, `SnapshotCommits`, `SnapshotSerial`, `SnapshotWitnesses` | what the queries of a transaction find in storage and versions while others commit |

`dafny verify dfyconfig.toml` checks the whole project.

## What is proved

**The rewriter.** `_rewrite_calls` searches the text again after every splice, and one template copies its
argument, so neither the text nor the number of calls shrinks. `CallRewriter` proves that on the text of a
tree each round lowers a weight by exactly one, that the loop stops after exactly that many rounds, and that
what it leaves is the printed form of the structural rewriting; it raises `IndexError` exactly when a call
it reaches lacks an argument. `BalancedText` shows which texts are texts of trees, for all six rules: those
whose quotes and parentheses close and whose literals do not look like calls, and for `str_to_map`, whose
replacement is its argument, those in which no call stands where the argument could meet its surroundings
and make a new one. That last condition is sufficient for the structural result, not necessary: the loop
also leaves `a(x)` of `str_to_map(a)(x)`. It cannot simply be dropped: on `str_to_map(str_to_map)(x)` the
loop goes on to `x` although the structural rewriting is `str_to_map(x)`. For `str_to_map` the loop is also
shown to end on every text at all. Without the placeholder names of `concat_ws` and `unix_timestamp` the
loop would end exactly when every call it reaches has two arguments (`NaiveEndsExactly`).
`_rewrite_indexed_split` is modelled on every text; it leaves an indexed split behind exactly when one is
nested in an argument of another.

**Meaning.** Cutting at a delimiter is determined by its laws: the pieces joined by the delimiter are the
text, and no occurrence of the delimiter begins inside a piece (`CutExactly`). The engine has no list type:
an array is one text joined by NUL. A list survives that exactly when it is not empty and holds no NUL, the
two engines cut a text alike exactly when the delimiter is not empty and no piece holds a NUL, `slice`
agrees with the inclusive `list_slice` exactly when `SliceAgrees` holds of the length, start and count, and
posexplode agrees on a table exactly when every list is NULL or survives: an empty list is one empty element
to the engine, with or without OUTER, as `posexplode(slice(split('a', ','), 2, 1))` shows. Under these
conditions on the values it meets, the engine computes the encoding of what DuckDB computes on the
translation. `TranslateText` ties this to the text: the two passes print the translation of the expression
whose text they were given.

The other replacements are read back as calls and evaluated by DuckDB's rules. `array_to_string(list, sep)`
computes what the engine's `concat_ws(sep, list)` does exactly when the list is not NULL and no NUL
character was lost, since the engine gives the empty text for NULL; `list_value` is the engine's `array`
exactly when no value is NULL or holds a NUL character; `quantile_cont` interpolates where the engine takes
the nearest rank, so they agree on a group exactly when the position is that of an element or lies between
equal ones; `epoch(strptime(x, '%Y-%m-%d'))` agrees with `unix_timestamp(x, format)` exactly for NULL and
for dates, as the engine also reads times and gives NULL where DuckDB fails.

**The wire client.** Every fragmentation of the byte stream reads back as the same messages, framing is
injective, rows round-trip with NULL apart from the empty string, and a call consumes exactly its own
response if and only if the rows it decodes are well-formed. `query` stops decoding at the first error while
`query_streaming` does not, so the two agree exactly when no malformed row follows an error; a malformed row
desynchronises the connection, with a witness. The rows or the error that a server encodes are what either
call gives its caller, byte layouts included, and a stream that ends anywhere inside a readable response
makes the call raise.

**The mixed workload.** An invariant over every interleaving, the barrier, the final table, progress, and
the exact inputs for which the harness's closing assertions hold. Every answer of a reader is the exact
number of rows visible at that step.

**Retrieval oracles.** The fused order of two ids is decided by a comparison of whole numbers, for two
shared ids at ranks p, q and r, s by `(2k+p+q)(k+r)(k+s)` against `(2k+r+s)(k+p)(k+q)`. Consensus in rank
fusion holds for all branches of length `n` if and only if `n <= k + 1`. The harness assertion that the
first fused id is a branch leader is not a law: the branches `[1, 3]` and `[2, 3]` put `3` first. Within
that length it holds exactly when the branches share nothing or a leader held by both outranks every other
shared id, and when no leader is shared exactly for branches that share nothing. The shortlist of the top-k
oracle is exact under the error bound, and with exact coarse distances it is right whatever `argpartition`
picks if and only if the ties fit into the shortlist. Recall times the number of neighbours asked for is the
number of true neighbours found.

**The tallies.** The scoreboard's rows add up to the section's counts for every result table and every
repeat-free selection whose metrics are listed once; the engine list has to name every engine that occurs.
Verdicts, counts, totals and labels are also stated by the times of the result table alone: a row is
labelled faster exactly when ApexBase's sum is below that of every rival timed in each metric shown. The
workload list at lines 4198 to 4373 names no metric twice.

**Transactions.** The steps are the sections the manager runs under one lock or in one atomic access, so
runs are all interleavings. First committer wins holds in every state of every run in which no prune drops
an entry that a live transaction needs, and pruning is harmless exactly under that condition. In such runs a
writer is turned down exactly when another transaction has overtaken it or is being committed on one of its
rows. It follows for all interleavings in which a snapshot's timestamp is taken and registered without
interruption and likewise the oldest snapshot is loaded and used. The code guarantees neither:
`create_rw_snapshot` takes the timestamp before it registers the snapshot, and `InterruptedBeginLosesUpdate`
is a run in which an update is lost that way. Recorded reads of a committed writer, those handed to
`record_read`, stand exactly when nobody committed one of them between its validation and its publication;
two transactions whose windows overlap can both commit with write skew, although validation checks the read
set. No SQL statement records a read, so for SQL transactions the read set is empty (`ReadSetsEmpty`) and
nothing protects reads: in `UnrecordedReadOverwritten` a row that a transaction saw is changed and committed
before its validation, and it commits all the same.

**Snapshots.** A `SELECT` in a transaction is answered from base storage, its WHERE clause included, and
only then do version chains hide rows of the result or replace output columns of them. They are looked up by
the `_id` column of the result: without it, what storage holds is the answer. A commit changes storage
first, takes its timestamp next and publishes versions last. `RepeatableExactly` says for every query and
every interleaving of these steps with those of the manager when a snapshot finds the same for a row
throughout: exactly when no step between disturbs it, each way of disturbing being spelled out. In orderly
runs every write captured the row that storage still holds when it is applied, and then a commit that nobody
interrupts is invisible to a `SELECT` of columns in the snapshots before it exactly when each write is
isolated: a new row is hidden by its version or fails the WHERE clause, a deleted row was not shown, and an
updated row was hidden, or the WHERE clause treats it as before and it changes no shown column, or, with
`_id` in the result, only columns that the version seen holds, or has no history yet. Each part shows: after
a first update `SELECT v` returns the new value to an older snapshot (`ProjectionSeesNewValue`), and `SELECT
* WHERE v = 1` loses the row although its version still holds 1 (`FilterOnValueLosesRow`). Snapshots from
the commit's timestamp on find what it wrote.

With interruptions, `SettledRowReads` holds of every run: between two states in which no transaction stands
between applying and publishing a row, a row whose commits publish in the order in which they were applied
reads as after their serial execution, whatever happens to other rows and as long as sweeps stay at or below
the snapshot. In between it need not: `ReadsUncommittedRow` is a run in which a reader sees an update before
it has a timestamp and the old row again after it is published. Commits publish after their locks are gone,
and every snapshot finds the newest commit it may see exactly when they publish in timestamp order;
`TwoUnpublishedCommits` is a run after which both orders are open. A read-only snapshot takes the current
timestamp without advancing it and therefore sees the commit that comes right after it, which read-write
snapshots never do.

Where code and documentation differ the code is modelled. The comment in `gc` says that a version is
removable when its end lies below the oldest active timestamp; the code also removes one whose end equals
it, and the proof shows that this is sound. The module text of the conflict detector promises that a
committed transaction's reads were not modified since its snapshot; the code ensures it for recorded reads,
up to validation, and no statement records one.

## Model

| member | source | states |
|---|---|---|
| ArgScanner.SplitArgs | benchmarks/bench_hive_complex_vs_duckdb.py:87-103 | the scanning loop returns the trimmed texts between the unquoted commas at depth zero, for every text |
| ArgScanner.Pieces | benchmarks/bench_hive_complex_vs_duckdb.py:87-103 | there is one piece more than there are unquoted commas at depth zero |
| ArgScanner.SplitInvertsJoin | benchmarks/bench_hive_complex_vs_duckdb.py:87-103 | splitting the comma-join of trimmed balanced arguments gives the arguments back |
| ArgScanner.PiecesResplit | benchmarks/bench_hive_complex_vs_duckdb.py:87-103 | for any text, every returned piece splits to itself |
| ArgScanner.PiecesCoverText | benchmarks/bench_hive_complex_vs_duckdb.py:87-103 | the pieces before trimming, with the commas put back, are the text |
| ArgScanner.FindClose | benchmarks/bench_hive_complex_vs_duckdb.py:111-121 | the closing loop stops just past the parenthesis that brings depth and quotes back, or at the end |
| CallSearch.SearchFinds | benchmarks/bench_hive_complex_vs_duckdb.py:107-109 | the regular expression's leftmost match ends at the first parenthesis preceded by a bounded name and blanks |
| CallSearch.SearchFails | benchmarks/bench_hive_complex_vs_duckdb.py:107-109 | the search fails where no parenthesis is preceded that way |
| SqlTree.CloseOfArgs | benchmarks/bench_hive_complex_vs_duckdb.py:110-121 | from an opening parenthesis the closing loop finds the matching one, whatever literals and groups stand between |
| SqlTree.PiecesOfArgs | benchmarks/bench_hive_complex_vs_duckdb.py:122-122 | splitting the text of an argument list gives the trimmed texts of the arguments |
| BalancedText.TreesAreReadableTexts | benchmarks/bench_hive_complex_vs_duckdb.py:106-124 | for every rule, a text is the text of a tree if and only if it is readable: quotes and parentheses close, literals hold no call, and an argument that replaces its call cannot meet its surroundings |
| BalancedText.TreesAreBalancedTexts | benchmarks/bench_hive_complex_vs_duckdb.py:291-308 | for the five rules whose replacement is a call, readable means that quotes and parentheses close and literals hold no call |
| BalancedText.RewriteReadable | benchmarks/bench_hive_complex_vs_duckdb.py:106-124 | for every rule and readable text the loop ends with the structural rewriting of whichever tree the text has, or raises exactly when a call lacks an argument |
| BalancedText.TreesAgree | benchmarks/bench_hive_complex_vs_duckdb.py:106-124 | two trees of one text have the same rewriting, the same failures and the same number of rounds |
| CallTemplates.RenderIsReplacement | benchmarks/bench_hive_complex_vs_duckdb.py:291-308 | each template builds the text that its lambda builds, and is missing exactly where the lambda raises; what the texts compute is stated by the `CallMeaning` rows and, for slices, by `HivePipeline.TranslateText` |
| CallTemplates.TemplatesAreGood | benchmarks/bench_hive_complex_vs_duckdb.py:291-308 | no replacement text creates a call of the name being rewritten |
| CallTemplates.WfInst | benchmarks/bench_hive_complex_vs_duckdb.py:123-123 | splicing a replacement in keeps the text readable as a tree whose calls are those of the arguments |
| CallRewriter.RewriteCalls | benchmarks/bench_hive_complex_vs_duckdb.py:106-124 | the loop ends after exactly the weight in rounds with the structural rewriting, text outside calls unchanged |
| CallRewriter.RoundSimulates | benchmarks/bench_hive_complex_vs_duckdb.py:108-123 | one round of the text loop is the replacement of the leftmost outermost call of the tree |
| CallRewriter.ReplaceKeeps | benchmarks/bench_hive_complex_vs_duckdb.py:108-123 | a round keeps the final result and lowers the weight by exactly one |
| CallRewriter.SliceWeight | benchmarks/bench_hive_complex_vs_duckdb.py:297-297 | the slice template counts its second argument twice |
| NaiveRewriter.NaiveRoundSimulates | benchmarks/bench_hive_complex_vs_duckdb.py:291-308 | without the placeholder a call with two arguments is replaced and any other one is built again in its place |
| NaiveRewriter.NaiveEndsExactly | benchmarks/bench_hive_complex_vs_duckdb.py:291-308 | without the placeholder the loop ends if and only if every call it reaches has exactly two arguments, for `concat_ws` and `unix_timestamp` |
| StrToMapRule.RoundShrinks | benchmarks/bench_hive_complex_vs_duckdb.py:300-301 | on every text a round for `str_to_map` shortens the text and never raises |
| StrToMapRule.RewriteStrToMap | benchmarks/bench_hive_complex_vs_duckdb.py:106-124 | on every text the loop for `str_to_map` ends, and no call is left |
| StrToMapRule.FlattenedIsStructural | benchmarks/bench_hive_complex_vs_duckdb.py:300-301 | on readable text its result is the structural rewriting |
| StrToMapRule.JoinedIsNotStructural | benchmarks/bench_hive_complex_vs_duckdb.py:300-301 | a family of balanced texts that are not readable, on which the result is another one |
| IndexedSplit.RewriteIndexedSplit | benchmarks/bench_hive_complex_vs_duckdb.py:144-169 | the loop ends on every text, since the unscanned rest shrinks on both branches |
| IndexedSplit.LeftOfCursorIsFinal | benchmarks/bench_hive_complex_vs_duckdb.py:144-169 | the text left of the cursor is a prefix of the result |
| IndexedSplit.RewritesIndexedSplits | benchmarks/bench_hive_complex_vs_duckdb.py:144-169 | on the text of a tree exactly the outermost indexed splits are rewritten, un-indexed ones stay |
| IndexedSplit.LeavesExactlyNested | benchmarks/bench_hive_complex_vs_duckdb.py:144-169 | an indexed split is left if and only if one was nested in a kept argument of a split |
| IndexedSplit.DecimalShow | benchmarks/bench_hive_complex_vs_duckdb.py:160-166 | reading back the printed index gives the index |
| HiveMeaning.ElementShift | benchmarks/bench_hive_complex_vs_duckdb.py:160-166 | zero-based element access is one-based access one further, beyond the end too |
| HiveMeaning.SliceShift | benchmarks/bench_hive_complex_vs_duckdb.py:297-297 | under the guard the inclusive slice is the engine's slice |
| HiveMeaning.SliceAgreesExactly | apexbase/src/query/executor/expressions.rs:4339-4374 | the two slices agree on all lists of a length if and only if the guard holds |
| HiveMeaning.SliceDiffers | apexbase/src/query/executor/expressions.rs:4339-4374 | where the guard fails a list with distinct elements tells them apart |
| HiveMeaning.HiveSliceElements | apexbase/src/query/executor/expressions.rs:4339-4374 | element n of the engine's slice is element n from its start on, up to the length |
| HiveMeaning.ListSliceElements | benchmarks/bench_hive_complex_vs_duckdb.py:297-297 | which elements an inclusive one-based slice holds, and what positions below one stand for |
| HiveMeaning.NullsPropagate | apexbase/src/query/executor/expressions.rs:4240-4262 | splits and slices are NULL exactly where an operand is, on both sides |
| HiveArrays.SurvivesExactly | apexbase/src/query/executor/expressions.rs:4245-4252 | a list comes back from the engine's encoding if and only if it is not empty and no element holds a NUL |
| HiveArrays.CutExactly | apexbase/src/query/executor/expressions.rs:4233-4262 | for every text and delimiter that is not empty the pieces are the one list that joins to the text and in which no occurrence of the delimiter begins inside a piece |
| HiveArrays.PiecesHoldNoDelimiter | apexbase/src/query/executor/expressions.rs:4233-4262 | no piece contains the delimiter |
| HiveArrays.DecodeIsCut | apexbase/src/query/executor/expressions.rs:4020-4020 | reading an array is cutting its text at NUL |
| HiveArrays.EmptyDelimiter | apexbase/src/query/executor/expressions.rs:4249-4252 | an empty delimiter cuts between all characters; the engine also cuts at both ends |
| HiveArrays.CutsAgreeExactly | apexbase/src/query/executor/expressions.rs:4233-4262 | the engine's list and DuckDB's are the same if and only if the delimiter is not empty and no piece holds a NUL; `HiveArrays.CutExactly` says which pieces these are |
| HiveArrays.PlainTextCutsAlike | apexbase/src/query/executor/expressions.rs:4233-4262 | text without NUL is cut alike by every delimiter that is not empty |
| HiveMeaning.PosExplodeAgreesExactly | benchmarks/bench_hive_complex_vs_duckdb.py:204-218 | the rewritten join gives the view's rows if and only if the list is NULL, or not empty and free of NUL, with or without OUTER |
| HiveMeaning.LateralViewsAgreeExactly | apexbase/src/query/executor/joins.rs:3007-3043 | whole tables: same rows in the same order if and only if every row's list explodes alike |
| HiveMeaning.EmptySliceExplodes | apexbase/src/query/executor/joins.rs:3035-3039 | a slice past the end, exploded: the engine emits a row and DuckDB none |
| HiveMeaning.TranslationPreservesMeaning | benchmarks/bench_hive_complex_vs_duckdb.py:144-169 | the engine computes the encoding of what DuckDB computes on the translation, for every typed expression whose splits and slices meet values on which the engines agree |
| CallMeaning.ConcatWsAgreesExactly | benchmarks/bench_hive_complex_vs_duckdb.py:291-296 | the replacement of concat_ws(sep, list) computes what the engine does if and only if the list is not NULL and holds no NUL character, unless NUL is the separator |
| CallMeaning.ConcatWsOfTextsExactly | benchmarks/bench_hive_complex_vs_duckdb.py:291-296 | with three or more arguments, texts or NULLs: if and only if no text holds a NUL character, unless NUL is the separator |
| CallMeaning.ArrayAgreesExactly | benchmarks/bench_hive_complex_vs_duckdb.py:302-302 | the replacement of array(...) is the list the engine reads in its array if and only if no value is NULL or holds a NUL character |
| CallMeaning.PercentileAgreesExactly | benchmarks/bench_hive_complex_vs_duckdb.py:298-298 | interpolation agrees with the engine's nearest rank on a group if and only if it is empty, or the position is that of an element or lies between equal ones |
| CallMeaning.QuantilesAgreeExactly | apexbase/src/query/executor/aggregation/grouped.rs:4652-4686 | the two quantiles of ordered values agree if and only if the position is that of an element or lies between equal ones |
| CallMeaning.UnixTimestampAgreesExactly | benchmarks/bench_hive_complex_vs_duckdb.py:303-308 | with a format: if and only if the argument is NULL or a date |
| CallMeaning.UnixTimestampCastExactly | benchmarks/bench_hive_complex_vs_duckdb.py:303-308 | without one: if and only if the argument is NULL, a date or a date with a time |
| CallMeaning.StrToMapAgrees | benchmarks/bench_hive_complex_vs_duckdb.py:300-301 | str_to_map is its first argument on both sides |
| CallMeaning.ReadWritten | benchmarks/bench_hive_complex_vs_duckdb.py:291-308 | a written call reads back as its name and its arguments |
| CallMeaning.TreeArgsAreArgs | benchmarks/bench_hive_complex_vs_duckdb.py:122-123 | the argument texts that the loop hands to a replacement can stand between the commas of a call |
| HivePipeline.FirstPass | benchmarks/bench_hive_complex_vs_duckdb.py:252-257 | the indexed-split pass on the text of a flat expression prints the expression with its splits translated |
| HivePipeline.TranslateText | benchmarks/bench_hive_complex_vs_duckdb.py:252-297 | both passes take the text of a flat expression to the text of its translation |
| StackRows.SelectTuples | benchmarks/bench_hive_complex_vs_duckdb.py:132-137 | the cut into tuples for every row count, with both exceptions |
| StackRows.SelectStackExactly | benchmarks/bench_hive_complex_vs_duckdb.py:132-139 | the tuples are the engine's rows, value by value, if and only if the engine accepts the statement |
| StackRows.SelectTuplesCover | benchmarks/bench_hive_complex_vs_duckdb.py:132-137 | the tuples hold the values in order and nothing else; which inputs raise which exception |
| StackRows.LateralTuples | benchmarks/bench_hive_complex_vs_duckdb.py:238-244 | the lateral form cuts as many tuples as asked for |
| StackRows.LateralStackExactly | apexbase/src/query/executor/joins.rs:3064-3072 | the lateral tuples are full rows if and only if there are enough values, so surplus values the engine rejects are dropped |
| PgBytes.UnpackPack32 | benchmarks/bench_pg_wire_concurrency.py:98-101 | the signed 32-bit length reads back |
| PgBytes.UnpackPack16 | benchmarks/bench_pg_wire_concurrency.py:142-146 | the signed 16-bit column count reads back |
| PgBytes.NetworkOrder | benchmarks/bench_pg_wire_concurrency.py:100-109 | the most significant byte comes first, and its top bit is the sign |
| PgWire.MinimalPgClient.RecvExact | benchmarks/bench_pg_wire_concurrency.py:87-96 | exactly the requested bytes however the socket splits them, or the end-of-stream error |
| PgWire.MinimalPgClient.ReadMessage | benchmarks/bench_pg_wire_concurrency.py:98-101 | one message is taken off the stream and no more |
| PgWire.MinimalPgClient.ReadMessages | benchmarks/bench_pg_wire_concurrency.py:87-101 | repeated reading returns the framed messages under every fragmentation |
| PgWire.MinimalPgClient.Startup | benchmarks/bench_pg_wire_concurrency.py:103-115 | sends the startup packet and reads up to ReadyForQuery, an error or an unsupported authentication |
| PgWire.MinimalPgClient.ParseRow | benchmarks/bench_pg_wire_concurrency.py:142-156 | the field loop decodes the row or fails on a field beyond the body |
| PgWire.MinimalPgClient.SendQuery | benchmarks/bench_pg_wire_concurrency.py:134-136 | sends one framed Query message, or none when its length does not fit |
| PgWire.MinimalPgClient.Query | benchmarks/bench_pg_wire_concurrency.py:134-164 | result and stream position after a simple query |
| PgWire.MinimalPgClient.QueryStreaming | benchmarks/bench_pg_wire_concurrency.py:166-214 | result and stream position after a streaming query |
| PgWire.ReadFrame | benchmarks/bench_pg_wire_concurrency.py:98-101 | reading inverts framing |
| PgWire.FramesInjective | benchmarks/bench_pg_wire_concurrency.py:98-101 | two message sequences with the same bytes are equal |
| PgWire.DecodeEncodedRow | benchmarks/bench_pg_wire_concurrency.py:142-156 | decoding inverts encoding for every row in bounds, NULL apart from the empty string |
| PgWire.ErrorOfFields | benchmarks/bench_pg_wire_concurrency.py:117-132 | the last code and the last message field of an ErrorResponse are reported |
| PgSession.QueryAlignedExactly | benchmarks/bench_pg_wire_concurrency.py:134-164 | `query` consumes exactly its response if and only if every row before the first error decodes |
| PgSession.StreamAlignedExactly | benchmarks/bench_pg_wire_concurrency.py:166-214 | `query_streaming` does if and only if it keeps no rows or every row decodes |
| PgSession.QueryAgreesWithStreaming | benchmarks/bench_pg_wire_concurrency.py:134-214 | both have the same outcome if and only if no malformed row follows an error |
| PgSession.StartupAlignedExactly | benchmarks/bench_pg_wire_concurrency.py:103-115 | start-up succeeds exactly on a greeting without password request or error, and then consumes just it |
| PgSession.CallAlignedExactly | benchmarks/bench_pg_wire_concurrency.py:134-214 | either call consumes exactly its own response if and only if the response is readable for it |
| PgSession.CallsStayAligned | benchmarks/bench_pg_wire_concurrency.py:134-214 | over any sequence of calls the k-th result is the answer to the k-th response, returned or raised |
| PgSession.ConnectionStaysAligned | benchmarks/bench_pg_wire_concurrency.py:103-214 | the same from start-up on |
| PgSession.ResultDependsOnOwnResponse | benchmarks/bench_pg_wire_concurrency.py:134-214 | changing the other responses does not change the k-th result |
| PgSession.MalformedRowDesynchronizes | benchmarks/bench_pg_wire_concurrency.py:134-164 | after a malformed row the next call reads the rest of the old response |
| PgExchange.MessageLayout | benchmarks/bench_pg_wire_concurrency.py:98-101 | a message is a kind byte, four bytes of length that count themselves, and the body |
| PgExchange.ImpossibleLength | benchmarks/bench_pg_wire_concurrency.py:87-101 | a length below four is refused before the body is read |
| PgExchange.QueryLayout | benchmarks/bench_pg_wire_concurrency.py:136-137 | a query travels as Q, its length, the text and a zero byte |
| PgExchange.StartupLayout | benchmarks/bench_pg_wire_concurrency.py:104-105 | the start-up packet byte by byte |
| PgExchange.RowLayout | benchmarks/bench_pg_wire_concurrency.py:145-155 | a row of NULL and a text byte by byte |
| PgExchange.ClippedField | benchmarks/bench_pg_wire_concurrency.py:145-155 | a last field longer than the body is cut off without an error |
| PgExchange.RowsArrive | benchmarks/bench_pg_wire_concurrency.py:134-213 | either call gives its caller the rows that the server encoded |
| PgExchange.ErrorArrives | benchmarks/bench_pg_wire_concurrency.py:157-164 | either call raises the last code and message that the server sent, after the whole response |
| PgExchange.TruncationIsNoticed | benchmarks/bench_pg_wire_concurrency.py:87-96 | a stream that ends anywhere inside a readable response makes the call raise |
| PgExchange.StartupRefused | benchmarks/bench_pg_wire_concurrency.py:106-115 | the first message that refuses decides which error is raised and what is left unread |
| MixedWorkload.Write | benchmarks/bench_mixed_rw.py:41-51 | the batches append the writer's range exactly once, in order |
| MixedWorkload.StepKeepsInv | benchmarks/bench_mixed_rw.py:66-86 | every step keeps distinct keys, value equal to key, the seed, the barrier and rising reader counts |
| MixedWorkload.RunKeepsInv | benchmarks/bench_mixed_rw.py:66-86 | the invariant holds in every state of every interleaving |
| MixedWorkload.BarrierFirst | benchmarks/bench_mixed_rw.py:130-147 | no row beyond the seed is visible before all writers waited at the barrier |
| MixedWorkload.FinishedTable | benchmarks/bench_mixed_rw.py:199-214 | when all writers have finished the keys are exactly those below the expected count, each once |
| MixedReads.ReadsAreExact | benchmarks/bench_mixed_rw.py:66-86 | in every run each answer of a reader is the exact number of rows visible, or the exact row |
| MixedReads.WriterAppendsInOrder | benchmarks/bench_mixed_rw.py:47-50 | a writer appends the next key of its own range |
| MixedWorkload.ChecksPassExactly | benchmarks/bench_mixed_rw.py:199-214 | the closing checks accept a finished run if and only if there is a seed row and each writer has a row |
| MixedWorkload.StepLowersWork | benchmarks/bench_mixed_rw.py:41-51 | every writer step lowers the work left, reads leave it alone |
| MixedWorkload.WritersNeverStick | benchmarks/bench_mixed_rw.py:41-51 | without failures some writer can move until all have finished |
| MixedWorkload.WritersCanFinish | benchmarks/bench_mixed_rw.py:169-171 | from every reachable failure-free state all writers can finish |
| MixedWorkload.WriterStepsBounded | benchmarks/bench_mixed_rw.py:41-51 | no run has more writer steps than the initial work |
| MixedWorkload.MaximalRunsComplete | benchmarks/bench_mixed_rw.py:130-171 | a failure-free run no writer can continue has finished all writers and the whole table |
| RankFusion.Fuse | benchmarks/bench_hybrid_retrieval.py:111-118 | the dictionary loop and sort return the first ids of the union by descending score and id |
| FusionOrder.SharedOrder | benchmarks/bench_hybrid_retrieval.py:111-118 | two ids of both branches at ranks p, q and r, s: which comes first is a comparison of whole numbers |
| FusionOrder.LoneAgainstShared | benchmarks/bench_hybrid_retrieval.py:111-118 | an id of one branch against one of both |
| FusionOrder.LoneOrder | benchmarks/bench_hybrid_retrieval.py:111-118 | two ids of one branch each: the smaller rank comes first |
| FusionOrder.FusedSharedOrder | benchmarks/bench_hybrid_retrieval.py:111-118 | the fused list has two shared ids in that order |
| FusionOrder.UnevenRanksWin | benchmarks/bench_hybrid_retrieval.py:111-118 | at 60, ranks 1 and 9 come before ranks 5 and 5 |
| RankFusion.ConsensusHolds | benchmarks/bench_hybrid_retrieval.py:111-118 | ids found by both branches of length at most k + 1 come strictly before ids found by one |
| RankFusion.ConsensusExactly | benchmarks/bench_hybrid_retrieval.py:111-118 | that bound on the length is exact |
| RankFusion.HarnessConsensus | benchmarks/bench_hybrid_retrieval.py:56-59 | the harness's constants meet the bound |
| RankFusion.FusionIgnoresBranchOrder | benchmarks/bench_hybrid_retrieval.py:111-118 | permuting the branches does not change the result |
| RankFusion.MassConserved | benchmarks/bench_hybrid_retrieval.py:113-116 | the scores sum to the reciprocal ranks 1/(k + rank) of all branch positions |
| RankFusion.FusionRespectsDominance | benchmarks/bench_hybrid_retrieval.py:111-118 | an id ahead of another in every branch that holds the other is ranked before it |
| RankFusion.FirstIsLeaderExactly | benchmarks/bench_hybrid_retrieval.py:218-221 | for all lengths the first fused id is a branch leader if and only if a leader outranks, by its ranks, every shared id that leads neither branch |
| RankFusion.FirstLeadsExactly | benchmarks/bench_hybrid_retrieval.py:218-221 | within length k + 1: if and only if the branches share nothing or a leader held by both outranks every other shared id |
| RankFusion.NoSharedLeader | benchmarks/bench_hybrid_retrieval.py:218-221 | with no shared leader: if and only if the branches share nothing |
| RankFusion.DisjointBranchesKeepLeader | benchmarks/bench_hybrid_retrieval.py:218-221 | with no shared id the first fused id is a branch leader |
| RankFusion.SharedRunnerUpPassesLeaders | benchmarks/bench_hybrid_retrieval.py:218-221 | two branches on which the harness's assertion fails |
| TopK.ExpansionIsExact | benchmarks/bench_perf_canary.py:276-276 | the expanded distance formula is the squared difference in every dimension |
| TopK.ArgPartition | benchmarks/bench_perf_canary.py:277-278 | some shortlist of the right size, none of its rows farther than a row left out |
| TopK.ExactTopKIds | benchmarks/bench_perf_canary.py:262-284 | the result is the top k of some admissible shortlist by distance and index; an empty corpus is an error |
| TopK.UnroundedIsExact | benchmarks/bench_perf_canary.py:276-276 | without rounding the coarse distances are the exact ones |
| TopK.ShortlistIsExact | benchmarks/bench_perf_canary.py:262-284 | under the error bound the re-ranked shortlist is the global top k |
| TopK.SmallCorpusIsExact | benchmarks/bench_perf_canary.py:277-284 | a corpus no larger than the shortlist is always exact |
| TopK.ShortlistWidth | benchmarks/bench_perf_canary.py:277-278 | the shortlist holds k and 200 rows where there are so many, and never more than the larger number |
| TopK.TiesDecide | benchmarks/bench_perf_canary.py:277-284 | with exact coarse distances every shortlist is right if and only if the ties fit |
| TopK.RecallAtK | benchmarks/bench_perf_canary.py:287-294 | the loop computes the mean hit rate, with both exceptions: times k and the number of queries it is the number of pairs of a query and a true neighbour among its first k ids |
| TopK.HitsBounded | benchmarks/bench_perf_canary.py:287-294 | recall is at most one, and one exactly when every true neighbour was returned |
| TopK.RecallCounts | benchmarks/bench_perf_canary.py:287-294 | recall times the neighbours asked for is the number of true neighbours found |
| TopK.OneMoreHit | benchmarks/bench_perf_canary.py:287-294 | one more true neighbour among the first k raises the sum of the hit rates by one k-th |
| Scoreboard.JudgeMeans | benchmarks/bench_vs_sqlite_duckdb.py:4571-4577 | a win, or a loss, is a relative gap of at least the tolerance to the best rival |
| Scoreboard.MoreRivalsNeverHelp | benchmarks/bench_vs_sqlite_duckdb.py:4571-4577 | adding rivals never improves a verdict |
| Scoreboard.VerdictsAgree | benchmarks/bench_vs_sqlite_duckdb.py:4559-4630 | both tallies judge a metric alike when all its engines are named |
| Scoreboard.AgreeExactly | benchmarks/bench_vs_sqlite_duckdb.py:4559-4630 | they agree on all tables over a set of engines if and only if the engine list names the whole set |
| WorkloadMeaning.VerdictMeans | benchmarks/bench_vs_sqlite_duckdb.py:4571-4577 | won if and only if below every rival by a billionth, lost if and only if some rival is trailed, skipped if and only if there is nothing to compare |
| WorkloadMeaning.GroupVerdictMeans | benchmarks/bench_vs_sqlite_duckdb.py:4593-4630 | the same for the engines of a workload's list |
| Workloads.SummarizeSection | benchmarks/bench_vs_sqlite_duckdb.py:4559-4583 | the loop counts the wins, ties and losses of the listed metrics |
| WorkloadMeaning.SectionCounts | benchmarks/bench_vs_sqlite_duckdb.py:4559-4583 | the counts are the numbers of metrics won, lost and comparable |
| Workloads.SummarizeGroup | benchmarks/bench_vs_sqlite_duckdb.py:4593-4644 | rows, totals, comparison and counts of one workload, whose meaning in terms of the times the `WorkloadMeaning` rows state |
| WorkloadMeaning.TotalsMean | benchmarks/bench_vs_sqlite_duckdb.py:4607-4619 | an engine has a total if and only if it is named and timed in every metric shown, and it is the sum of its times |
| WorkloadMeaning.ComparisonMeans | benchmarks/bench_vs_sqlite_duckdb.py:4547-4556 | the label of a row compares ApexBase's sum of times with those of every rival timed in every metric shown |
| WorkloadMeaning.SummaryCounts | benchmarks/bench_vs_sqlite_duckdb.py:4620-4643 | the counts of a row are the numbers of its metrics won and lost |
| Workloads.CountIsTotal | benchmarks/bench_vs_sqlite_duckdb.py:4634-4643 | the metric count is the sum of wins, ties and losses |
| Workloads.BuildScoreboard | benchmarks/bench_vs_sqlite_duckdb.py:4647-4668 | the rows of the workloads in order, then the rest |
| Workloads.PlacedOnceExactly | benchmarks/bench_vs_sqlite_duckdb.py:4648-4663 | a repeat-free selection is spread without loss or repetition if and only if no selected metric is listed twice |
| Workloads.DisjointGroupsPlaceOnce | benchmarks/bench_vs_sqlite_duckdb.py:4198-4373 | workloads that share no metric place none twice |
| Workloads.BoardAdds | benchmarks/bench_vs_sqlite_duckdb.py:4647-4668 | for any selection and workloads the rows add up to the placed metrics and the rest |
| Workloads.TalliesAgree | benchmarks/bench_vs_sqlite_duckdb.py:4559-4668 | the rows' metric counts, wins, ties and losses sum to the section's |
| Workloads.ShownOnce | benchmarks/bench_vs_sqlite_duckdb.py:4647-4668 | every comparable selected metric is shown once, and nothing else |
| WorkloadMeaning.RowOfWorkload | benchmarks/bench_vs_sqlite_duckdb.py:4647-4663 | each workload with something to show has its own row behind those of the workloads before it, with exactly its selected comparable metrics |
| Workloads.UngroupedInOther | benchmarks/bench_vs_sqlite_duckdb.py:4660-4667 | a comparable metric no workload lists is shown in the last row, Other, and nowhere else |
| Workloads.SweptWorkload | benchmarks/bench_vs_sqlite_duckdb.py:4607-4619 | a workload won in every metric is also won in total, against every rival that has a total |
| Workloads.LosingEverywhereMayWinTotal | benchmarks/bench_vs_sqlite_duckdb.py:4607-4630 | a workload lost in every metric whose total is nevertheless won |
| ConflictDetector.Detector.Validate | apexbase/src/txn/conflict.rs:130-168 | passes exactly when nothing read or written was overwritten since the snapshot; a conflict named is a real one, reads first |
| ConflictDetector.Detector.AcquireWriteIntent | apexbase/src/txn/conflict.rs:217-238 | takes all intents or none, and none exactly when another transaction holds one |
| ConflictDetector.Detector.RecordPreparedCommit | apexbase/src/txn/conflict.rs:178-202 | logs every write and gives back exactly the transaction's own intents |
| ConflictDetector.Detector.ReleaseIntents | apexbase/src/txn/conflict.rs:205-213 | gives back exactly the transaction's own intents |
| ConflictDetector.Detector.AdvanceWatermark | apexbase/src/txn/conflict.rs:241-245 | keeps the entries at or above the watermark in order |
| ConflictDetector.RetainedIs | apexbase/src/txn/conflict.rs:241-245 | drops exactly the entries below the watermark |
| Transactions.PassedIsClear | apexbase/src/txn/manager.rs:261-313 | with a complete log a transaction that passes validation overlaps no commit on a row it wrote or recorded as read |
| Transactions.RefusedExactly | apexbase/src/txn/manager.rs:261-313 | with a complete log a writer is turned down if and only if another transaction has overtaken it or is being committed on one of its rows |
| Transactions.StepKeepsInv | apexbase/src/txn/manager.rs:203-450 | every section keeps times, true log entries, intents of preparing transactions and their clearness |
| Transactions.PruneExactly | apexbase/src/txn/manager.rs:393-406 | pruning keeps the log complete if and only if it drops nothing newer than a live snapshot |
| Transactions.PruneKeepsExactly | apexbase/src/txn/manager.rs:393-406 | a prune with a fresh reading keeps exactly the entries at or above some registered snapshot |
| Transactions.RunKeepsInv | apexbase/src/txn/manager.rs:203-450 | first committer wins in every state of every run whose prunes are harmless |
| Transactions.FirstCommitterWinsAlways | apexbase/src/txn/conflict.rs:102-104 | first committer wins in all interleavings that do not interrupt begin or load-and-prune |
| Transactions.LostUpdateExactly | apexbase/src/txn/conflict.rs:150-165 | a late writer on an old snapshot is stopped if and only if the log still holds a newer write of the row |
| Transactions.InterruptedBeginLosesUpdate | apexbase/src/storage/mvcc/snapshot.rs:94-111 | a run that interrupts begin and loses an update |
| Transactions.ReadsStandExactly | apexbase/src/txn/manager.rs:257-313 | a committed writer's recorded reads stand until its commit if and only if nobody committed one between its validation and its publication |
| Transactions.NoSkew | apexbase/src/txn/conflict.rs:130-148 | no write skew through recorded reads between transactions with clear windows |
| Transactions.OverlappingWindowsSkew | apexbase/src/txn/manager.rs:261-352 | two transactions that recorded reads of each other's rows and prepare before either publishes both commit |
| VersionStore.Store.Read | apexbase/src/storage/mvcc/version_store.rs:141-148 | the first visible version of the chain decides |
| VersionStore.Store.AppendVersion | apexbase/src/storage/mvcc/version_store.rs:130-138 | the previous latest version ends where the new one begins; a missing row is reported |
| VersionStore.Store.PublishWrites | apexbase/src/txn/manager.rs:353-391 | the writes of a commit are applied to the chains in order |
| VersionStore.Store.Gc | apexbase/src/storage/mvcc/version_store.rs:286-303 | every chain is cut and forgotten tombstones are dropped |
| VersionStore.AddVersionReads | apexbase/src/storage/mvcc/version_store.rs:130-138 | a new version is seen from its timestamp on and changes nothing before |
| VersionStore.PublishReads | apexbase/src/txn/manager.rs:353-391 | what a written row reads as at every timestamp, other rows unchanged |
| VersionStore.SnapshotStableExactly | apexbase/src/txn/manager.rs:353-391 | a commit changes nothing for an earlier snapshot if and only if the write's past fits what the snapshot reads |
| VersionStore.UpdateInvisibleExactly | apexbase/src/storage/mvcc/snapshot.rs:82-103 | which snapshots an update stays invisible to: all read-write ones, a read-only one only after another timestamp |
| VersionStore.GcChainReads | apexbase/src/storage/mvcc/version_store.rs:167-181 | cutting a chain changes no read at or after the oldest snapshot |
| VersionStore.GcInvisible | apexbase/src/storage/mvcc/gc.rs:64-68 | garbage collection changes no read of an active or later snapshot |
| VersionStore.GcInvisibleWhenIdle | apexbase/src/storage/mvcc/version_store.rs:286-303 | with no snapshot active forgotten rows still read as deleted |
| VersionStore.GcKeepsExactly | apexbase/src/storage/mvcc/version_store.rs:167-181 | a chain of two versions or more keeps exactly those without an end or that a snapshot from the oldest on may see |
| VersionStore.RowForgottenExactly | apexbase/src/storage/mvcc/version_store.rs:286-303 | a row is forgotten if and only if its newest version is a tombstone and no snapshot is active |
| VersionStore.LastPublishedWins | apexbase/src/storage/mvcc/version_store.rs:130-148 | whatever the order of publication, a read finds what was published last at or below its timestamp |
| VersionStore.PublicationOrderExactly | apexbase/src/txn/manager.rs:347-391 | every snapshot finds the newest commit it may see if and only if commits publish in timestamp order |
| SnapshotReads.VersionedIsLive | apexbase/src/query/executor/dml/coordination.rs:1003-1009 | the engine's test for version history holds exactly of rows whose newest version is not a tombstone |
| SnapshotReads.ApplyExactly | apexbase/src/query/executor/dml/coordination.rs:908-1090 | for every query: applying a write to storage changes its result if and only if the row, not hidden by a version, comes or goes for the WHERE clause or changes in an output column that the version seen does not hold |
| SnapshotReads.PublishExactly | apexbase/src/txn/manager.rs:353-391 | for every query: publishing changes its result if and only if the result has `_id` and the row, and the chain then hides it otherwise or shows another output column |
| SnapshotReads.SweepExactly | apexbase/src/storage/mvcc/version_store.rs:286-303 | a sweep changes a result if and only if the first version that was kept and is visible shows otherwise, and never in snapshots at or above the sweep's timestamp |
| SnapshotReads.OrderedSweepExactly | apexbase/src/storage/mvcc/version_store.rs:167-181 | on a chain published in order a sweep changes a result if and only if a version that shows the row to it is dropped |
| SnapshotReads.CommitExactly | apexbase/src/query/executor/dml/coordination.rs:318-325 | for every query an uninterrupted commit changes no result of an earlier snapshot if and only if every write keeps the past |
| SnapshotRuns.ActExactly | apexbase/src/query/executor/dml/coordination.rs:159-325 | a step of any transaction changes the result of a query if and only if it disturbs it |
| SnapshotRuns.RepeatableExactly | apexbase/src/storage/mvcc/snapshot.rs:32-35 | over every interleaving and for every query a snapshot finds the same for a row throughout if and only if no step between disturbs it |
| SnapshotRuns.ReadSetsEmpty | apexbase/src/txn/context.rs:155-168 | in every run of statements no transaction has a recorded read |
| SnapshotRuns.CapturedIsCurrent | apexbase/src/query/executor/dml/coordination.rs:822-905 | in orderly runs first committer wins, and a write still to be applied captured the row as storage holds it |
| SnapshotCommits.UninterruptedCommitExactly | apexbase/src/query/executor/dml/coordination.rs:318-325 | in orderly runs an uninterrupted commit is invisible to a `SELECT` of columns, with or without `_id`, with any WHERE clause, in earlier snapshots if and only if its writes are isolated from it |
| SnapshotCommits.CommitSeenLater | apexbase/src/query/executor/dml/coordination.rs:318-325 | snapshots from the commit's timestamp on find of each row what the write left, if the WHERE clause keeps it |
| SnapshotCommits.ProjectionSeesNewValue | apexbase/src/query/executor/aggregation/pipeline.rs:1239-1260 | `SELECT v` in an older snapshot returns the new value after the first versioned update |
| SnapshotCommits.FilterLosesRow | apexbase/src/query/executor/dml/coordination.rs:915-916 | a WHERE clause that the new row fails drops it from an older snapshot whose version still has the old row |
| SnapshotCommits.FilterOnValueLosesRow | apexbase/src/query/executor/dml/coordination.rs:915-916 | `SELECT * WHERE v = 1` loses a row whose version still holds 1 |
| SnapshotCommits.PublicationOrderDecides | apexbase/src/txn/manager.rs:347-391 | two recorded commits may publish in either order, and the later publication is what is read |
| SnapshotWitnesses.TwoUnpublishedCommits | apexbase/src/txn/manager.rs:315-391 | a run after which two commits of one row have timestamps and neither has published |
| SnapshotSerial.SettledIsSerial | apexbase/src/query/executor/dml/coordination.rs:159-325 | if what was applied to a row was published in the same order, every query finds the row as after the serial execution of its commits |
| SnapshotSerial.SettledRepeatable | apexbase/src/query/executor/dml/coordination.rs:159-325 | a settled row reads the same if each of its commits keeps the past of the serial state before it |
| SnapshotSerial.SettledRowReads | apexbase/src/storage/mvcc/snapshot.rs:32-35 | in every run both hold between states in which no transaction stands between applying and publishing the row, if its commits publish in the order of their application and no sweep goes above the snapshot |
| SnapshotWitnesses.ReadsUncommittedRow | apexbase/src/query/executor/dml/coordination.rs:312-325 | a run in which a snapshot reads a row before its commit has a timestamp and the old row again afterwards |
| SnapshotWitnesses.UnrecordedReadOverwritten | apexbase/src/txn/conflict.rs:130-148 | a run in which a row the reader saw is overwritten before its validation and the reader still commits |

## Left out

- CallRewriter.RewriteCalls: stated for the texts of trees (see `BalancedText` for which texts those are), because on unbalanced text the source promises nothing, not even that the loop ends.
- HivePipeline.TranslateText: expressions are columns, numbers, literals, splits, indexed splits and slices in one spelling, and the passes between the two are left out; the other `re.sub` chains of `duckdb_sql` rewrite the text of single queries and have no meaning of their own to keep.
- HiveMeaning.TranslationPreservesMeaning: expressions are typed as DuckDB demands, since the engine does not tell an array from a text; the DuckDB side follows the documented behaviour of `string_split`, `list_extract`, `list_slice`, `range` and lateral joins; the Hive side follows the engine's own evaluation.
- CallMeaning.ConcatWsAgreesExactly: the separator is a text that does not change from row to row, as the engine takes it from the first row; DuckDB's side follows the documented behaviour of `array_to_string`, `concat_ws`, `list_value`, `quantile_cont`, `strptime` and the casts of the harness's macro.
- CallMeaning.PercentileAgreesExactly: exact reals, for a quantile from zero to one and a group's values in ascending order.
- CallMeaning.UnixTimestampAgreesExactly: how a text reads as a time under a format is a parameter, with dates of at most ten characters that are no date-times.
- CallMeaning.ReadWritten: the evaluation reads texts that are one call, as the rewriter writes them; values of argument texts are given.
- The regular expressions of `_rewrite_lateral_views` and `_rewrite_stack_selects` around the modelled parts, and the final `.replace` of the placeholder names, are not part of this model.
- Characters: `\w` treats every non-blank character above ASCII as a letter and `\d` is ASCII only.
- PgWire.MinimalPgClient.Query: cells and error texts stay bytes, since UTF-8 decoding is total for the model; time-outs and socket errors other than the end of the stream are not modelled.
- PgWire.MinimalPgClient.QueryStreaming: the time to the first row and the byte counts of the report are not modelled.
- MixedWorkload.RunKeepsInv: the store publishes the rows of a batch one at a time, as the harness's comment allows; latencies, time-outs of reader threads and process start-up are left out.
- RankFusion.Fuse: scores are exact reals, so ties that floating point would break by rounding are ties here.
- TopK.ExactTopKIds: one query at a time, with the float32 distances as a parameter that `ShortlistIsExact` bounds.
- Workloads.SummarizeGroup: the geometric mean and the printed number in the ratio label are left out; the label's direction is kept.
- Transactions.RunKeepsInv: timestamps do not wrap at 64 bits, and idle time-outs appear as rollbacks; `SnapshotRuns` adds the storage work between `prepare_commit` and `finalize_commit`.
- SnapshotCommits.UninterruptedCommitExactly: for transactions that write each row once; `SnapshotSerial.SettledRowReads` covers repeated writes of a row, in one direction.
- SnapshotRuns.RepeatableExactly: queries of transactions without writes of their own on one table, row by row, so no aggregates, ordering, limits or joins; publishing one write is one step although the engine seeds and appends under separate locks, and storage gives inserted rows the ids that were reserved for them.
- SnapshotRuns.CapturedIsCurrent: a statement reads the stored row and buffers its write in one step, although the engine does the two one after the other, and rollback to a savepoint, which takes writes back out of the buffer, is not modelled.
- VersionStore.Store.Gc: the counters and the interval that decide when to collect are left out.
- The rest of the engine (storage format, query execution, full-text and vector indexes, durability) and all timing, reporting and client plumbing of the benchmarks.
