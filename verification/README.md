# db4, verified

A Dafny model of the core of db4, a small SQL engine written in C, with proofs of what its
parts keep between them. Four redundant structures have to agree: a table, the hash index on its
primary key, the undo log of the open transaction and the write-ahead log (WAL) beside the base
file. They are related through one abstraction, the visible state: for each table its live row
numbers and their cells.

How the modules build on each other:

- `Values`, `RowIndexes`, `TableStates`, `Tables`: storage. The open-addressing index and the
  table are classes changed in place; the index invariant (stale pairs are allowed, missing ones
  are not) is part of `Table.Valid`, and every method is specified on the abstract `TableState`.
- `Expressions`, `Constraints`, `Statements`, `SetSemantics`: the static type check, the two
  evaluators, key and reference checks, and INSERT, UPDATE, DELETE and CREATE TABLE as functions
  on a catalog value. `Catalogs` has the undo log and the savepoint relation.
- `Numbers`, `Operators`, `Inserts`, `Updates`: what those functions mean, without naming them. DOUBLE
  patterns as numbers, operators by the numbers, truth values and bytes of their operands, statements by the
  names of columns, the values of expressions and the integrity of the result.
- `Dumps`, `Frames`, `Loads`: what a dump keeps of a row, WAL replay row by row, and what `.load`
  checks before it replays a log.
- `Sessions`, `Durability`: one session as a state machine (statements, BEGIN, COMMIT, ROLLBACK,
  load, checkpoint, and how each can fail) over a set of files keyed by path, and the theorems over
  all its runs. `Divergences`: runs that end with a table and its file apart, with a file that no load
  takes or with integrity broken, one for each exception the theorems make.
- `Transactions`: what a session promises: how each statement answers, what BEGIN, COMMIT and ROLLBACK
  bracket, and that after a session in which nothing failed every loaded table is on disk.
- `Outcomes`, `Databases`: the class `Database`, with table objects, undo entries holding raw
  heap references, and files. `Database.Execute` changes them in place and is proved to
  be a step of `Sessions`; `RunSession` carries the theorems over to the objects.
- `WalBytes`, `WalFiles`, `WalLayout`: rows, frames and the log file as bytes; appending and replaying.
  `StoredFiles`: base file and log as bytes stand for the rows and frames of the session theorems.
- `Selects`, `Answers`, `Groupings`: joins and the two index fast paths; GROUP BY.
- `Generations`: several processes on one file. `FkGraphs`: the foreign-key graph.
- `Csv`, `Lexers`, `Parsers`, `Precedence`, `Grammars`: text in and out.

Allocation, file writes and locks that may fail are nondeterministic choices. The floating-point
unit, the hash mixing function and the WAL checksum are parameters: every result holds for any
of them. DOUBLE is its 64-bit pattern with IEEE comparison, INT is 64 bits wide with wrap-around,
and INT to DOUBLE conversion rounds as IEEE 754 does.

Several expected properties are false of the code. Each has an input or a run that shows it, and the
condition under which it holds:

- INT values are compared as DOUBLE. Exactly the INT values of `ExactInt` (below 2^53 in magnitude, or
  below 2^54 and twice an odd number) convert to a DOUBLE that no other INT converts to
  (`ExactIntsConvertUniquely`); for exactly these keys, and DOUBLE keys other than NaN, comparison
  agrees with equality and hash (`ExactKeysExactly`). For the others an index lookup misses a row that a
  scan lists (`InexactKeyIsMissed`). NaN breaks transitivity (`NaNBreaksTheOrder`), exactly where it
  stands between two values in the wrong order (`TransitivityExactly`).
- An UPDATE is checked row by row: `UPDATE t SET id = id + 1` on the keys 1 and 2 is refused as a duplicate, although
  all rows together would have kept integrity (`ShiftIsRefused`). `UpdateExactly` says when one succeeds. INSERT and
  DELETE succeed exactly if the result as a whole has integrity (`InsertExactly`, `DeleteExactly`).
- The index can hold a pair twice, and a point lookup then lists the row twice (`SameKeyWrittenTwice`).
  `ProbeOrderExactly` says when a lookup has the order and number of a scan.
- Replay fills row numbers that were never logged with live all-NULL rows: the phantoms in `Agrees`.
- A COMMIT that fails half way and is rolled back can leave rows in the file that memory no longer shows
  (`FailedCommitDiverges`); `ReloadExactly` says exactly when.
- A checkpoint dumps an empty text, inf and nan as what a load reads as NULL, a text with a NUL byte is cut
  there, and a row with a text over 2^20 bytes is skipped (`EmptyTextDiverges`). `DumpKeepsExactly` and
  `CheckpointExactly` say when memory and file agree after it.
- A checkpoint that fails after compacting, or a crash inside one, can leave a file that does not fit the
  renumbered memory (`FailedCheckpointDiverges`); `FailedCheckpointExactly` says exactly when. Other
  processes may then append under old row numbers (`UncountedCheckpointLetsStaleFramesIn`);
  `StepSafeExactly` says which checkpoints are harmless. The 32-bit counter also wraps
  (`WrapAroundLetsStaleFramesIn`).
- `.load` installs a table although the replay of its log ran out of memory (`PartialLoadDiverges`).
  `StoppedReplayExactly` says when a replay that stopped shows what a whole one would.
- One file can be loaded under two names, whose commits then overwrite each other
  (`SharedFileDiverges`), and the disagreement outlives the sharing (`LeftSharerDiverges`);
  `SharedFileExactly` says when a commit to one disagrees with the other.
- An INSERT into a table with a recorded allocation failure leaves a live all-NULL row that the file does not
  have (`LatchedInsertDiverges`); `UnloggedRowExactly` says when a reload makes up the same row, which can
  happen (`LatchedInsertCanAgree`), and `LatchedInsertExactly` when the row breaks integrity.
- `.load` can refuse a file that agrees with memory. It checks the rows of the base, not those the log makes
  of them: a base without rows is refused (`EmptyBaseIsRefused`), a base row whose parent was deleted
  since (`ChildIsRefused`), and one whose text key was dumped as NULL (`EmptyTextDiverges`).
  `RestartShowsRolledBack` says exactly which files a later session can load.
- For the same reason a load can break integrity: a phantom row has a NULL key (`PhantomBreaksIntegrity`).
  `LoadKeepsIntegrityExactly` says when it does. Loading over a parent (`ReloadOrphansChild`), or inside a
  transaction that is then rolled back (`RollbackOrphansLoadedRow`), orphans rows.
- An append that fails and cannot be cut back leaves a torn frame. Later commits are answered with success and
  lost behind it (`TornAppendDiverges`), unless they happen to complete its payload to the same checksum
  (`LostBehindTear`).

`dafny verify dfyconfig.toml` checks the whole project.

## Model

| member | source | states |
|---|---|---|
| `Values.ExactIntsConvertUniquely` | c/src/value.c:37-41 | an INT is the only one that converts to its DOUBLE exactly if it is below 2^53 in magnitude, or below 2^54 and twice an odd number |
| `Values.CompareIsTotalPreorder` | c/src/value.c:37-50 | compare_values is reflexive, sign-antisymmetric and transitive on comparable values without NaN |
| `Values.TransitivityExactly` | c/src/value.c:37-50 | transitivity fails on comparable values exactly if the middle one is NaN and the outer two are in the wrong order |
| `Values.NaNBreaksTheOrder` | c/src/value.c:37-44 | it does fail: 1.0 and 0.0 both compare equal to NaN |
| `Values.EqualCellsHashAlike` | c/src/value.c:52-81 | cells equal for the constraint checks have equal hashes, -0.0 and 0.0 included |
| `Values.CompareZeroIsCellEqual` | c/src/value.c:37-50 | for an exact key and a cell of its type that is not NaN, comparing equal is being equal, whichever is the left operand |
| `Values.ExactKeysExactly` | c/src/value.c:37-81 | the exact keys are exactly those: any other INT compares equal to a different INT, and NaN to every DOUBLE |
| `Numbers.RankIsNumeric` | c/src/value.c:37-41 | the order of patterns by rank is the order of the numbers they denote |
| `Numbers.ConvertsToNearest` | c/src/value.c:37-41 | an INT is converted to the nearest DOUBLE, of two equally near to the one with the even pattern, and up to 2^53 exactly |
| `Numbers.ConversionIsMonotone` | c/src/value.c:37-41 | conversion never puts two INT values in the wrong order |
| `RowIndexes.VisitsRefineBag` | c/src/index.c:47-58 | probing for a hash visits each row exactly as often as the pair was inserted |
| `RowIndexes.VisitsUntilFindsAny` | c/src/index.c:47-58 | a visitor that stops at a match reports one exactly if the full visit has one |
| `RowIndexes.DistinctExactly` | c/src/table.c:438-441 | a key write keeps the pairs of the index distinct exactly if it does not repeat a pair |
| `RowIndexes.RowIndex.constructor` | c/src/index.c:60-62 | an empty index is valid and usable |
| `RowIndexes.RowIndex.RawInsert` | c/src/index.c:9-16 | the probe loop ends at a free slot and adds the pair to the bag of pairs |
| `RowIndexes.RowIndex.Rehash` | c/src/index.c:26-28 | moving the slots to a larger array keeps the bag |
| `RowIndexes.RowIndex.Grow` | c/src/index.c:18-32 | growing keeps the bag and restores the load bound, or fails and changes nothing |
| `RowIndexes.RowIndex.Insert` | c/src/index.c:34-41 | the pair is added, or the index is degraded for good |
| `RowIndexes.RowIndex.Find` | c/src/index.c:47-58 | visits what the probe specification says, for any visitor |
| `RowIndexes.RowIndex.Clear` | c/src/index.c:60-62 | empties the index and makes it usable again |
| `Tables.Table.constructor` | c/src/table.c:98-138 | an empty table with a complete index |
| `Tables.Table.AppendRow` | c/src/table.c:254-265 | adds a live all-NULL row and keeps the index complete, or records the failure |
| `Tables.Table.DeleteRow` | c/src/table.c:267-274 | tombstones the row, keeps the dead count exact |
| `Tables.Table.UndeleteRow` | c/src/table.c:276-281 | revives the row, keeps the dead count exact |
| `Tables.Table.SetNull` | c/src/table.c:287-289 | the cell is NULL, nothing else changes |
| `Tables.Table.SetInt` | c/src/table.c:295-300 | the cell holds the value, nothing else changes, a key cell is indexed |
| `Tables.Table.SetDouble` | c/src/table.c:302-307 | same for DOUBLE |
| `Tables.Table.SetBool` | c/src/table.c:309-314 | same for BOOL |
| `Tables.Table.SetText` | c/src/table.c:316-333 | same for TEXT; a text or heap past 32 bits, or no memory, leaves the cell and records the failure |
| `Tables.Table.SetTextRef` | c/src/table.c:357-362 | restores a captured reference; the heap only grows, so it denotes the same text |
| `Tables.Table.StoreCell` | c/src/table.c:438-441 | writing a key cell keeps the index complete with its new hash and adds exactly its pair, a second time if it was there |
| `Tables.Table.MatchIsVisited` | c/src/table.c:434-441 | a usable index shows every live row whose key equals the one looked up |
| `Tables.Table.ColumnHasDuplicate` | c/src/table.c:449-474 | index or scan, the answer is whether another live row holds an equal value |
| `Tables.Table.HasMatchingValue` | c/src/table.c:482-522 | index or scan, the answer is whether a live row holds an equal value of the same type |
| `Tables.Table.FindByPkHash` | c/src/table.c:528-530 | candidate rows in probe order, all in range |
| `Tables.Table.Compact` | c/src/table.c:532-561 | keeps exactly the live rows in order, leaves no tombstone, rebuilds a complete index with distinct pairs |
| `Tables.Table.CompactHeap` | c/src/table.c:563-607 | every text reads as before and the new heap holds exactly the referenced bytes, up to 2^32 of them |
| `Tables.Table.MoveColumn` | c/src/table.c:591-599 | a column's texts appended to the new heap and its references redirected to them |
| `Expressions.ResolveColumn` | c/src/interp.c:72-107 | a resolved name denotes a column of that name in a source in scope |
| `Expressions.ResolveUnique` | c/src/interp.c:88-107 | an unqualified name resolves only if no other source has it |
| `Expressions.EvalValue` | c/src/interp.c:274-364 | type soundness: an expression that type-checks yields NULL or a value of its static type, and no wrong union member is read on the way |
| `Expressions.EvaluatorsAgree` | c/src/interp.c:241-272 | the two mutually recursive evaluators agree on every predicate |
| `Expressions.KleeneLogic` | c/src/interp.c:241-272 | AND is the minimum, OR the maximum and NOT the reversal of false < unknown < true |
| `Expressions.Assigned` | c/src/interp.c:459-471 | a value that fits is stored with the column's type, unchanged if it had it; an INT in a DOUBLE column as a DOUBLE that compares equal to it |
| `Expressions.FittingValueIsAssignable` | c/src/interp.c:444-457 | an expression accepted for a column evaluates to something assign_value may store |
| `Expressions.SameViewSameResult` | c/src/interp.c:274-289 | evaluation depends only on the cells the expression names |
| `Expressions.InferBySchema` | c/src/interp.c:112-197 | the static type depends only on the schemas in scope, so one check serves every row |
| `Operators.ComparisonMeans` | c/src/interp.c:223-237 | a comparison is UNKNOWN exactly on NULL; otherwise exactly one of <, = and > is TRUE, by number, truth value or bytes, and <=, >=, <> are their unions |
| `Operators.CompareIsBefore` | c/src/value.c:37-50 | compare_values follows the numbers two values denote as DOUBLE, false before true, and the first different byte; NaN ties with everything |
| `Operators.IntegersCompare` | c/src/value.c:37-44 | an INT is never found less than a smaller one, and always less than a larger one if either is exact |
| `Operators.TrueMeans` | c/src/interp.c:216-221 | a predicate is TRUE exactly if its value is true, UNKNOWN exactly if it is NULL |
| `Operators.ArithmeticMeans` | c/src/interp.c:319-360 | INT results are exact modulo 2^64, hence exact while they fit; division and mixed operands go through the DOUBLE operation of their operator |
| `Operators.NegationMeans` | c/src/interp.c:291-304 | negation is exact modulo 2^64 on INT, reverses the number of a DOUBLE, keeps NULL and NaN |
| `Operators.LeavesMean` | c/src/interp.c:276-290 | a column is the cell of the current row in a column of that name, a parameter the one of its number |
| `Operators.CheckExactly` | c/src/interp.c:157-193 | an operator is admitted exactly if no values its operands can have would be misread |
| `Operators.FitsExactly` | c/src/interp.c:444-457 | an expression fits a column exactly if all it can be is NULL, of the column's type, or an INT for a DOUBLE column |
| `Operators.ResolvesExactly` | c/src/interp.c:72-107 | a bare name resolves exactly if one source has it and no second one, a qualified one if the first source of that name has it |
| `Catalogs.UndoToSplit` | c/src/txn.c:108-119 | undoing to an early mark is undoing to a later one first |
| `Catalogs.InsertIsUndone` | c/src/txn.c:84-89 | undoing an insert gives back the catalog up to one dead row |
| `Catalogs.DeleteIsUndone` | c/src/txn.c:90-92 | undoing a delete gives back the catalog |
| `Catalogs.UpdateIsUndone` | c/src/txn.c:93-105 | undoing a cell update gives back the catalog |
| `Catalogs.UndoesStep` | c/src/txn.c:115-119 | a logged change with an exact undo keeps the savepoint relation, so any number of changes to one cell unwind |
| `Catalogs.UndoToAdd` | c/src/catalog.c:21-51 | a table created after the mark does not disturb undoing: table numbers are stable |
| `Catalogs.DeadExtIsInvisible` | c/src/table.c:267-274 | dead rows left behind by an undone insert are not visible |
| `Constraints.RowChangeKeepsIntegrity` | c/src/interp.c:372-432 | a changed row that passes the row checks, and whose old key is unchanged or unreferenced, keeps the whole catalog's integrity |
| `Constraints.DeleteKeepsIntegrity` | c/src/interp.c:409-432 | deleting an unreferenced row keeps integrity |
| `Constraints.IntegrityMeansUniqueKeys` | c/src/interp.c:372-384 | integrity says that two live rows never hold equal keys and no live key is NULL |
| `Constraints.RowCheckExactly` | c/src/interp.c:372-402 | the row checks refuse a changed or added row exactly if it would break integrity |
| `Constraints.DeleteCheckExactly` | c/src/interp.c:411-432 | a row is referenced exactly if deleting it would break integrity |
| `Statements.RunKeepsIntegrity` | c/src/interp.c:1307-1542 | every INSERT, UPDATE or DELETE that succeeds keeps keys unique and references matched |
| `Statements.CreateKeepsIntegrity` | c/src/interp.c:1555-1657 | CREATE TABLE keeps the catalog sound and changes no visible row |
| `Statements.AssignAllShape` | c/src/interp.c:1474-1481 | a row's assignments change no other row and no other column |
| `SetSemantics.LastAssignmentWins` | c/src/interp.c:1474-1481 | a column assigned several times holds the last value, converted to the column's type |
| `SetSemantics.InsertedRowHolds` | c/src/interp.c:1351-1387 | an inserted row holds each listed value in its column and NULL elsewhere |
| `SetSemantics.UpdateIsSetwise` | c/src/interp.c:1456-1490 | UPDATE row by row equals UPDATE at once: every row is selected and computed from the table as the statement found it |
| `SetSemantics.DeleteIsSetwise` | c/src/interp.c:1521-1542 | DELETE removes exactly the live rows on which WHERE is TRUE in the table as the statement found it, and counts them |
| `Inserts.InsertMeans` | c/src/interp.c:1316-1399 | an INSERT appends one live row per VALUES list: the k-th value, converted, in the k-th column or the one named k-th, NULL in the others; nothing else changes |
| `Inserts.InsertExactly` | c/src/interp.c:1303-1404 | it succeeds exactly if table and columns exist, no column is named twice, the values fit, and the catalog with all its rows has integrity |
| `Inserts.InsertRefusal` | c/src/interp.c:372-402 | of one VALUES list: the first cell that is a missing key, a taken key or a reference without parent decides the error |
| `Inserts.InsertErrors` | c/src/interp.c:1305-1372 | before that the table, the columns, the number of values, or the first value that does not fit |
| `Inserts.CreateMeans` | c/src/interp.c:1614-1656 | CREATE TABLE adds one empty table: column c has name, type and reference of the c-th definition and is the key exactly if marked primary |
| `Inserts.CreateExactly` | c/src/interp.c:1556-1612 | it succeeds exactly for a new name, at least one column, no name twice, one key at most, and references to keys of the same type |
| `Inserts.CreateErrors` | c/src/interp.c:1556-1612 | otherwise the first of these in that order names the error |
| `Inserts.CreatedKeyIsEnforced` | c/src/interp.c:372-384 | in a table so created an INSERT with a NULL or a taken key is refused as such |
| `Inserts.CreatedReferenceIsEnforced` | c/src/interp.c:386-400 | and one with a reference that has no live parent |
| `Inserts.SecondInsertIsRefused` | c/src/interp.c:372-384 | CREATE TABLE with a key, then the same INSERT twice: the second is a duplicate, unless the key is NaN |
| `Updates.UpdateMeans` | c/src/interp.c:1448-1495 | an UPDATE gives each selected row the last value assigned to each named column, computed from the table it began with; all other cells, rows and tables stay, and the selected rows are counted |
| `Updates.UpdateExactly` | c/src/interp.c:1406-1501 | it succeeds exactly if it type-checks, sets no key of a selected row that others refer to, and the catalog is sound after each row |
| `Updates.UpdateErrors` | c/src/interp.c:1427-1453 | before any row the table, the first assignment that does not fit, or the WHERE clause names the error |
| `Updates.ReferencedKeyIsKept` | c/src/interp.c:1471 | a row whose referenced key is set fails the statement with that error |
| `Updates.UpdateRefusal` | c/src/interp.c:1488 | otherwise its first new cell that is refused, against the rows as they are by then, decides |
| `Updates.ShiftIsRefused` | c/src/interp.c:1464-1490 | shifting the keys 1 and 2 up by one is refused, although the shifted rows are sound |
| `Updates.DeleteMeans` | c/src/interp.c:1521-1541 | DELETE tombstones exactly the live rows of which its WHERE clause is true, and counts them |
| `Updates.DeleteExactly` | c/src/interp.c:1503-1548 | a DELETE that type-checks is refused, as referenced, exactly if the catalog without the selected rows would not have integrity |
| `Frames.LastWriterWins` | c/src/wal.c:303-339 | a replayed row shows its last frame, or the base row, or an all-NULL row below the highest logged number |
| `Frames.ReplayTwiceIsOnce` | c/src/wal.c:303-339 | replaying a frame list twice equals replaying it once |
| `Frames.AgreesRowByRow` | c/src/wal.c:326-328 | a reload shows the visible rows plus one live all-NULL row per number that was never logged, exactly if every row is in sync |
| `Frames.CommitSyncs` | c/src/wal.c:165-175 | frames for the touched rows bring the disk in line with memory on those rows |
| `Frames.SharedFileExactly` | c/src/wal.c:165-175 | after a commit of another table to the same file, the file still agrees with a table exactly if the table shows each written row alike |
| `Dumps.DumpKeepsExactly` | c/src/load.c:504-525 | rows written by a dump are read back as they were exactly if no cell is an empty text, a text with a NUL or over 2^20 bytes, or a DOUBLE that is not finite |
| `Dumps.DumpIsRead` | c/src/load.c:527-551 | the bytes of a dump, read and converted by the load, are its header and the dumped rows, whatever the rows hold |
| `Frames.CheckpointExactly` | c/src/wal.c:402-406 | after a completed checkpoint memory and file agree exactly if every live cell survives the dump |
| `Frames.FailedCheckpointExactly` | c/src/wal.c:402-413 | what a checkpoint that failed or crashed leaves shows the compacted memory exactly if the old log is gone and the dump kept every row, or no live row lay above a tombstone and base or log has each row |
| `Frames.CheckpointEmptiesBase` | c/src/wal.c:402-406 | a checkpoint writes a base without a row to read exactly if every live row has a text over the reader's limit |
| `Frames.UnloggedRowExactly` | c/src/interp.c:1371-1375 | a live all-NULL row that no frame records leaves memory and file in agreement exactly if its number was never logged and lies below one that was |
| `Frames.StoppedReplayExactly` | c/src/wal.c:303-339 | a replay that stops after k frames shows what a whole one would exactly if every row that the rest mentions shows its last frame already |
| `Loads.BaseAcceptedExactly` | c/src/load.c:43-74 | checking base rows one after the other, each against those before it, decides that keys are non-NULL and pairwise unequal and that references have live parents |
| `Loads.ReferenceAllowedExactly` | c/src/load.c:310-341 | a reference of a loaded table is allowed exactly if it names the key, of the same type, of another table from which no references lead back |
| `Loads.IntegrityTableByTable` | c/src/load.c:57-74 | integrity of a catalog is that a load of each table's live rows would pass its row checks |
| `Loads.CompactionKeepsIntegrity` | c/src/table.c:532-561 | compaction renumbers rows and changes nothing that keys or references see |
| `Loads.LoadKeepsIntegrityExactly` | c/src/load.c:409-449 | a load of a new name keeps integrity exactly if the rows that the log makes of the base pass the row checks too |
| `TableStates.CompactionClosesGap` | c/src/table.c:532-552 | with a live row above a tombstone, compaction moves the last live row down, past the number of the first tombstone |
| `Sessions.RunsKeepIntegrity` | c/src/interp.c:1785-1832 | over every run of CREATE, INSERT, UPDATE, DELETE, BEGIN, COMMIT, ROLLBACK, checkpoints and plain loads from the empty catalog, live keys are non-null and unequal and references matched, now and after undoing everything uncommitted |
| `Sessions.LoadWithoutLogIsPlain` | c/src/load.c:409-449 | a load of a new name without a log, outside a transaction, is one such |
| `Sessions.LatchedInsertExactly` | c/src/interp.c:1371-1375 | the all-NULL row an INSERT leaves on a table with a recorded allocation failure breaks integrity exactly if the table has a primary key |
| `Sessions.RejectedStatementChangesNothing` | c/src/interp.c:1399-1403 | a rejected statement, whichever row failed, changes neither visible state nor log |
| `Sessions.RollbackRestoresBegin` | c/src/txn.c:108-113 | whatever ran since BEGIN, failed COMMITs and loads included, ROLLBACK restores every table that existed then, and every later one as it was created or loaded |
| `Transactions.QueryIsAnswered` | c/src/interp.c:1803-1828 | inside a transaction or not, a statement is done and counted as its function says, or rejected for its reason without visible change, or its own commit fails |
| `Transactions.BeginToRollback` | c/src/txn.c:26-115 | BEGIN, statements, ROLLBACK: every table shows what it showed before BEGIN, and no transaction is open |
| `Transactions.BeginToCommit` | c/src/interp.c:1731-1771 | BEGIN, statements, COMMIT: memory stays, and the transaction is over exactly if COMMIT is answered with success |
| `Transactions.LoadMeans` | c/src/load.c:424-447 | a successful load puts what the file gives under the name, without a recorded failure, and touches nothing else |
| `Transactions.CheckpointMeans` | c/src/wal.c:384-415 | a completed checkpoint leaves the live rows in order, in memory without tombstones, on disk as a dump without a log |
| `Transactions.OrdinaryRunsAreDurable` | c/src/interp.c:1726-1771 | after a run in which no commit, load or checkpoint failed in part, no file was loaded twice and every checkpointed cell was storable, each loaded table shows what a reload of its file would, plus phantoms |
| `Transactions.IntegrityWithoutLoads` | c/src/interp.c:1785-1832 | runs without a load keep integrity, latched INSERTs aside |
| `Durability.RunsKeepDurable` | c/src/interp.c:1731-1771 | over every run with loads and reloads, statements, commits, rollbacks and checkpoints that may each fail, every tracked table agrees with its file outside the rows of the open transaction |
| `Durability.Durability` | c/src/wal.c:264-343 | outside a transaction, replaying the log over the base gives the visible state row number by row number, plus exactly the phantom rows |
| `Durability.ReloadExactly` | c/src/txn.c:108-113 | at every point of every run, a reload of a tracked table shows what ROLLBACK would leave, plus phantoms, exactly unless ROLLBACK takes back rows that a failed COMMIT wrote |
| `Durability.RestartShowsRolledBack` | c/src/load.c:43-74 | a later session can load a tracked file exactly if its base has a row, the tables it refers to are there and its base rows have good keys and live parents; it then sees the rolled-back state, on the condition of ReloadExactly |
| `Durability.FirstLoadExactly` | c/src/load.c:353-410 | the first load of a session takes a tracked file without foreign keys exactly if its base has a row and good keys |
| `Durability.HalfWrittenExactly` | c/src/interp.c:1737-1766 | after a half-failed commit, undone memory agrees with the file exactly if it shows what the commit wrote |
| `Divergences.SharedFileDiverges` | c/src/load.c:169-187 | a run that loads one file under two names: a commit to the first is unknown to the second, whose commit then overwrites it |
| `Divergences.LeftSharerDiverges` | c/src/catalog.c:21-28 | a run after which the first name is loaded from another file: the second still disagrees with its own |
| `Divergences.FailedCommitDiverges` | c/src/interp.c:1737-1766 | a run whose COMMIT fails at the second table: after ROLLBACK the first table's file shows a row that memory does not |
| `Divergences.TornAppendDiverges` | c/src/wal.c:165-198 | a run whose COMMIT tears the log and whose second COMMIT is answered with success: the file does not have the row |
| `Divergences.FailedCheckpointDiverges` | c/src/wal.c:402-413 | a run whose checkpoint fails before or after the dump, with a live row above a tombstone: memory and file disagree |
| `Divergences.PartialLoadDiverges` | c/src/load.c:432-449 | a run whose load runs out of memory in the log: the table is installed without a row that the file has |
| `Divergences.EmptyBaseIsRefused` | c/src/load.c:353-360 | a run that checkpoints an empty table and then commits a row: every later load of the file is refused |
| `Divergences.EmptyTextDiverges` | c/src/load.c:504-525 | a run that loads and checkpoints a table with an empty text: a reload shows NULL, and where the text is the key the file is refused |
| `Divergences.ChildIsRefused` | c/src/load.c:57-74 | a run that updates a child and deletes its old parent, both committed: the next session loads the parent, and refuses the child for its base row |
| `Divergences.LatchedInsertDiverges` | c/src/interp.c:1371-1375 | a run in which memory gives out for one INSERT, and the next one leaves a row that the file does not have |
| `Divergences.LatchedInsertCanAgree` | c/src/interp.c:1371-1375 | a run after which the row so left is the one that a reload makes up |
| `Divergences.PhantomBreaksIntegrity` | c/src/wal.c:326-328 | a run that keeps integrity, and a next session in which a loaded key is NULL |
| `Divergences.RollbackOrphansLoadedRow` | c/src/load.c:57-74 | a run that loads a child of an uncommitted parent: after ROLLBACK the child has none |
| `Divergences.ReloadOrphansChild` | c/src/load.c:447-449 | a run that loads another file over a parent: its child has none |
| `Outcomes.ProgressUnwound` | c/src/txn.c:115-119 | unwinding to the savepoint ends with the old log and only dead rows added |
| `Outcomes.CellChangeIsUndone` | c/src/txn.c:51-72 | a logged cell write, or one that found no heap space, is undone by its entry |
| `Outcomes.InsertUnwound` | c/src/interp.c:1399-1403 | a multi-row INSERT that fails at row r reports that row's error and is unwound |
| `Outcomes.UpdateFails` | c/src/interp.c:1495-1500 | the first failing row decides an UPDATE's error |
| `Databases.Database.constructor` | c/src/txn.c:6-11 | an empty catalog, no transaction, nothing logged |
| `Databases.Database.RestoreCell` | c/src/txn.c:84-106 | an undo entry's raw cell is written back verbatim |
| `Databases.Database.AssignCell` | c/src/interp.c:459-471 | the cell holds the assigned value, or a text found no room and the failure is recorded |
| `Databases.Database.FillCells` | c/src/interp.c:1371-1379 | an inserted row's cells are assigned in order, and its key adds one pair at most, so distinct pairs stay distinct |
| `Databases.Database.RollbackTo` | c/src/txn.c:115-119 | the reverse loop over raw entries is UndoTo on the abstract log, which it truncates |
| `Databases.Database.CheckRowConstraints` | c/src/interp.c:372-407 | finds the first violation of the row, by column |
| `Databases.Database.CheckPkNotReferenced` | c/src/interp.c:409-432 | true exactly if a live row of any table refers to the key |
| `Databases.Database.InsertInto` | c/src/interp.c:1345-1404 | all rows as InsertRows says, or the first error and nothing visible, or the row a recorded failure leaves; a successful INSERT keeps index pairs distinct |
| `Databases.Database.UpdateTable` | c/src/interp.c:1456-1501 | all rows as UpdateRows says with their count, or the first error, unwound |
| `Databases.Database.DeleteFrom` | c/src/interp.c:1513-1543 | all rows as DeleteRows says with their count, or the first error, unwound |
| `Databases.Database.CommitLog` | c/src/interp.c:1731-1772 | each touched table's distinct rows are appended once, in order of first touch; a failure stops there, leaves the transaction open and its log as it was, or torn |
| `Databases.Database.AppendWal` | c/src/wal.c:139-199 | one frame per row, or after a failure none, or, where the file cannot be cut back, the first few and maybe a piece of the next |
| `Databases.Database.Autocommit` | c/src/interp.c:1806-1830 | outside a transaction a statement is begun, performed, and committed or rolled back |
| `Databases.Database.CreateNewTable` | c/src/interp.c:1555-1657 | the checks in order, then a new empty table at the end of the catalog |
| `Databases.Database.FkChainReaches` | c/src/load.c:88-101 | the recursive search over the catalog's tables is ChainReaches |
| `Databases.Database.CheckLoadedReferences` | c/src/load.c:302-347 | the loop over a schema's references decides ReferencesAllowed |
| `Databases.Database.CheckLoadedRow` | c/src/load.c:57-74 | the loop over columns finds a violation exactly if the row has one, against the earlier rows and the catalog |
| `Databases.Database.ReadBase` | c/src/load.c:408-430 | the rows of the base, each checked as it is loaded: all of them accepted, or the load gives up |
| `Databases.Database.ReadTable` | c/src/load.c:408-437 | base rows, checked, then the log: all of it, or with a failed allocation a part that makes up no cell and loses no base row |
| `Databases.Database.InstallTable` | c/src/catalog.c:21-51 | the table takes the place of one of its name, or a new number at the end |
| `Databases.Database.LoadTable` | c/src/load.c:169-452 | a load is refused, exactly for a failed check or for want of file, lock or memory, or installs base rows with the log replayed, whole or, after a failed allocation in the log, in part |
| `Databases.Database.DumpTable` | c/src/load.c:527-551 | the cursor loop writes the dumped form of the live rows, in order |
| `Databases.Database.CheckpointTable` | c/src/wal.c:384-415 | compaction, dump, log removal, counting: the step of Sessions, including what each partial failure leaves |
| `Databases.Database.SelectFrom` | c/src/interp.c:620-921 | a query over tables of the catalog lists tuples of its answer only, and on exact keys all; in order, while the catalog has integrity and no index pair is stored twice |
| `Databases.Database.Execute` | c/src/interp.c:1785-1832 | a CREATE, INSERT, UPDATE, DELETE, BEGIN, COMMIT, ROLLBACK, load or checkpoint on the objects is a step of the session state machine, unless a checkpoint finds more text than 32-bit offsets reach |
| `Databases.RunSession` | c/src/interp.c:1785-1832 | after any list of statements a reload of any tracked table's file shows its visible rows plus phantoms, and after a plain one the objects satisfy integrity; it ends early only at a checkpoint that would lose text |
| `WalBytes.RowRoundTrip` | c/src/wal.c:68-102 | apply_row_payload undoes encode_row for every row of the schema, whatever the row held before |
| `WalBytes.FrameRoundTrip` | c/src/wal.c:125-137 | a whole frame is read back, a frame cut anywhere is not a frame |
| `WalBytes.ParsedFrameApplies` | c/src/wal.c:326-339 | applying a parsed frame does what the frame says, growing the table first |
| `WalBytes.TornLogReplaysWholeFrames` | c/src/wal.c:303-341 | for every byte prefix, replay applies exactly the frames wholly inside it |
| `WalBytes.TornFrameExactly` | c/src/wal.c:307-324 | a torn frame with later appends behind it reads as a frame exactly if the payload filled up from them has the checksum of the torn one |
| `WalBytes.LostBehindTear` | c/src/wal.c:307-324 | else replay gives what lies before the tear, and the later frames are lost |
| `WalLayout.FrameLayout` | c/src/wal.c:125-137 | WAL1, row number, kind, payload length and checksum at their offsets, lowest byte first, then the payload |
| `WalLayout.HeaderLayout` | c/src/wal.c:155-170 | WL4H, then the fingerprint |
| `WalLayout.CellLayout` | c/src/wal.c:68-102 | null flag, then eight bytes of an INT in two's complement or a DOUBLE, one of a BOOL, or length and bytes of a TEXT |
| `WalLayout.CutPayloadExactly` | c/src/wal.c:212-262 | of a payload cut at any byte the whole cells are read, the others keep what they held, and replay goes on exactly if the cut is between cells |
| `WalLayout.ShortPayloadEndsReplay` | c/src/wal.c:303-341 | a frame whose payload ends inside a cell applies the cells before, and nothing behind it is replayed |
| `WalFiles.TornFileReplaysWholeFrames` | c/src/wal.c:264-343 | same for a log file with its header; cut inside the header it replays nothing |
| `WalFiles.WholeFileRecovers` | c/src/wal.c:264-343 | replaying the bytes of all appends over the base is the reload that the session theorems speak of |
| `WalFiles.CrashInsideAppend` | c/src/wal.c:139-199 | whatever part of a commit's bytes reached the file, reloading gives the state before plus the first k rows of the commit |
| `WalFiles.EncodeStoredRow` | c/src/wal.c:68-102 | the loop over columns writes the encoding of the row |
| `WalFiles.LogOnDisk.Append` | c/src/wal.c:139-199 | header if new, then one frame per row; after a failure the file is as it was, or, if cutting it back fails too, a part of what was to be written follows |
| `WalFiles.ApplyPayload` | c/src/wal.c:212-262 | decoding in place changes the frame's row only, and is DecodeCells on it unless memory runs out |
| `WalFiles.ReplayOnto` | c/src/wal.c:264-343 | the replay loop on a table is ReplayFile on its state, unless memory runs out, which it reports |
| `WalFiles.ReplayList` | c/src/wal.c:303-343 | decoded frames onto a table: the whole replay, or with failed allocations a part that makes up no cell |
| `WalFiles.LoadRow` | c/src/load.c:76-86 | a base row on top of those before it, with distinct index pairs, or a recorded failure |
| `StoredFiles.CheckpointStands` | c/src/load.c:527-551 | the bytes of a completed checkpoint stand for the dumped base without a log |
| `StoredFiles.CommitStands` | c/src/wal.c:139-199 | the bytes of a commit leave what was in the log and stand for its frames behind the old ones |
| `StoredFiles.BytesShowRolledBack` | c/src/load.c:353-452 | at every point of every run, reading back bytes that stand for a tracked table's file shows what ROLLBACK would leave, plus phantoms, on the condition of ReloadExactly |
| `Selects.NestedLoopAnswers` | c/src/interp.c:770-894 | for any number of joins the nested loop is the cross product, first table slowest, filtered by every ON and WHERE on whole tuples |
| `Answers.AnswerMembers` | c/src/interp.c:770-894 | a combination of rows is in the answer exactly if all are live and every ON and the WHERE clause is true of it |
| `Answers.AnswerInOrder` | c/src/interp.c:770-894 | the answer is ordered by row numbers, the first table slowest, and has no combination twice |
| `Selects.PkEqualitySound` | c/src/interp.c:511-537 | if WHERE is TRUE on a row, the row's key compares equal to the constant recognised in it |
| `Selects.JoinPkEqualitySound` | c/src/interp.c:557-570 | if ON is TRUE, the inner key compares equal to the recognised expression |
| `Selects.ProbeKeepsAll` | c/src/interp.c:705-732 | index candidates filtered by the condition are the rows a scan keeps: as sets always, as sequences with unique keys and distinct pairs |
| `Selects.ProbeOrderExactly` | c/src/interp.c:578-589 | with unique keys the index lists what a scan lists, in order and number, exactly if the kept row's pair is stored once; else once per copy |
| `Selects.ExactWithoutNumberKeys` | c/src/interp.c:705-732 | with no INT or DOUBLE keys every query is exact |
| `Selects.SameKeyWrittenTwice` | c/src/table.c:438-441 | UPDATE t SET id = 5 WHERE id = 5 makes a lookup of 5 list its row twice |
| `Selects.InexactKeyIsMissed` | c/src/interp.c:705-732 | a lookup of a key misses the row whose other key compares equal, where a scan lists it |
| `Selects.ScanRows` | c/src/interp.c:748-768 | the cursor loop keeps the live rows that pass, in storage order |
| `Selects.LookupRows` | c/src/interp.c:705-768 | point lookup, or scan: after WHERE the same rows |
| `Selects.Join` | c/src/interp.c:770-877 | one join step by probe or by scan gives the tuples of the nested loop |
| `Selects.Select` | c/src/interp.c:620-921 | the query by whichever plan: tuples of its answer only, on exact keys all of them, with unique keys and distinct pairs also their order |
| `Groupings.KeyOrder` | c/src/interp.c:1006-1020 | group_key_cmp is a total preorder with NULLs first and equal to each other |
| `Groupings.KeyOrderMeans` | c/src/interp.c:1006-1020 | keys are ordered by the first group column on which they differ, NULL before every value |
| `Groupings.KeyEqual` | c/src/interp.c:1022-1031 | group_key_equal holds exactly when the order ties |
| `Groupings.GroupLines` | c/src/interp.c:1238-1249 | on rows sorted by key the run loop emits one line per distinct key over exactly its rows |
| `Groupings.GroupIsKeyClass` | c/src/interp.c:1238-1249 | a group holds exactly the rows with its key |
| `Groupings.BuildLine` | c/src/interp.c:1049-1092 | COUNT(*), COUNT(c) and SUM(c) of an INT column, NULL for no value |
| `Groupings.LineOfOneMore` | c/src/interp.c:1049-1092 | one more row adds one to COUNT(*) and, if its cell is not NULL, one to COUNT(c) and its value to SUM(c) |
| `Groupings.DoubleSumAccumulates` | c/src/interp.c:1071-1106 | the DOUBLE sum is the last of the accumulator values, each the one before plus the next number, starting at zero |
| `Groupings.BuildDoubles` | c/src/interp.c:1063-1092 | SUM of a DOUBLE column and AVG are the row-order sum of the values present, and that sum over their number; NULL for none |
| `Groupings.GroupedEqualsUngrouped` | c/src/interp.c:1233-1259 | whatever permutation sorted the rows, the groups' counts and sums add up to the ungrouped ones |
| `Generations.StaleExactly` | c/src/interp.c:1706-1710 | a commit is refused exactly unless the checkpoints counted since the process loaded are a multiple of 2^32 |
| `Generations.FramesStayCurrent` | c/src/wal.c:384-415 | with fewer than 2^32 counted checkpoints, in every interleaving whose cut-short checkpoints are harmless every frame refers to the base file on disk; the first harmful one ends that |
| `Generations.StepSafeExactly` | c/src/wal.c:402-415 | a locked section keeps the guard sufficient exactly if it is harmless: a checkpoint that counted, or that renumbered nothing, or nobody's rows |
| `Generations.UnsafeIsOneCommitAway` | c/src/interp.c:1706-1712 | where the guard is not sufficient, a frame is wrong already or one commit makes it so |
| `Generations.UncountedCheckpointLetsStaleFramesIn` | c/src/wal.c:402-413 | a checkpoint that removed the log but failed to count lets another process append under old row numbers |
| `Generations.WrapAroundLetsStaleFramesIn` | c/src/wal.c:409-411 | the bound is tight: a run of 2^32 checkpoints lets a stale frame in |
| `FkGraphs.SearchIsExact` | c/src/load.c:88-101 | on an acyclic catalog fk_chain_reaches with fuel for every table is exact reachability |
| `FkGraphs.ReachableIsReached` | c/src/load.c:88-101 | with any fuel it finds what there is to find |
| `FkGraphs.PathsAreShort` | c/src/load.c:88-89 | no path of an acyclic catalog uses up the fuel |
| `FkGraphs.LoadKeepsAcyclic` | c/src/load.c:311-341 | an accepted load, also one replacing a table, closes no cycle |
| `FkGraphs.CreateKeepsAcyclic` | c/src/interp.c:1583-1612 | CREATE TABLE closes no cycle without searching |
| `FkGraphs.CatalogsStayAcyclic` | c/src/load.c:447-449 | every catalog built by loads and CREATE TABLE is acyclic and refers to existing tables |
| `Csv.CheckQuotes` | c/src/load.c:487-491 | a field needs quotes exactly if it has a comma, quote, CR or LF |
| `Csv.WriteField` | c/src/load.c:493-502 | appends the field, quoted with doubled quotes if needed |
| `Csv.WriteRecord` | c/src/load.c:527-548 | appends the fields with commas and a line feed |
| `Csv.CsvReader.SkipToNextRow` | c/src/csv.c:21-38 | resynchronises after the next row end outside quotes |
| `Csv.CsvReader.NextRow` | c/src/csv.c:162-216 | on any input: end of file, out of memory, or a record on, whose fields are those of the grammar |
| `Csv.FieldRoundTrip` | c/src/csv.c:66-128 | a written field within the limit is read back, flagged quoted exactly if it needed quotes |
| `Csv.ReadFieldMeans` | c/src/csv.c:66-128 | on any input what is read as a field is one: quoted with doubled quotes, or free of delimiters, within the limit and before a delimiter or the end |
| `Csv.FileRoundTrip` | c/src/csv.c:162-216 | a written file without fields over the limit reads back record by record, then ends |
| `Csv.ReadAll` | c/src/load.c:266-437 | the load loop fails without a readable header, else it collects the rows of any input, skipping malformed records and those of another length than the first |
| `Csv.RegularRows` | c/src/load.c:402-437 | of a file without such records it collects all |
| `Csv.RecordTooLong` | c/src/csv.c:66-128 | a written record with a field over the limit is skipped as a whole, quoted or not, and the reader resynchronises right behind it |
| `Csv.WriteThenRead` | c/src/load.c:524-550 | written by the writer's loops and read by the load loop, every table of fields comes back but for the records with a field over the limit: each field up to its first NUL, flagged quoted exactly if it had to be |
| `Lexers.LiteralRoundTrip` | c/src/lexer.c:122-143 | any text without NUL, its apostrophes doubled, is scanned to its own end and denotes itself |
| `Lexers.ScannedIsEscaped` | c/src/lexer.c:122-143 | every scanned literal is the escaped form of the text it denotes |
| `Lexers.TokensAdvance` | c/src/lexer.c:89-173 | tokens come in source order, none is empty, none overlaps |
| `Lexers.SymbolIsLongest` | c/src/lexer.c:151-173 | of the operators spelled at a place the longest is taken, and none exactly if there is none |
| `Lexers.TokenMeans` | c/src/lexer.c:89-173 | each token is what its kind says and as long as can be; an invalid one starts no token |
| `Lexers.SourceIsTokens` | c/src/lexer.c:69-173 | the source is exactly its tokens with blanks, line feeds and comments around them, and each token has its line |
| `Lexers.Lex` | c/src/lexer.c:89-173 | every call reports the end of the input or moves forward |
| `Lexers.Lexer.Skip` | c/src/lexer.c:69-80 | skips blanks, line feeds and comments, counting lines |
| `Lexers.Lexer.NextToken` | c/src/lexer.c:89-173 | the scanner's loops over words, numbers, literals and trivia are Lex |
| `Parsers.EscapeRoundTrip` | c/src/parser.c:89-115 | unescaping undoes doubling the apostrophes |
| `Parsers.LiteralRoundTrip` | c/src/parser.c:119-146 | the digits of a non-negative 64-bit integer are read as it, within the length limit |
| `Parsers.PrimaryRoundTrip` | c/src/parser.c:189-215 | a printed expression is a primary that parses to itself, whatever operator follows |
| `Parsers.PrintParseRoundTrip` | c/src/parser.c:1014-1063 | parsing undoes printing through all seven levels when no operator follows |
| `Precedence.SparseRoundTrip` | c/src/parser.c:229-337 | written with only the parentheses that precedence and left-associativity ask for, an expression parses to itself |
| `Precedence.ComparisonsDoNotChain` | c/src/parser.c:285-297 | a second comparison is left unread |
| `Grammars.OrByTheRules` | c/src/parser.c:189-337 | whatever the parser reads is an expression by the rules of the grammar, and the one they say |
| `Parsers.OrNumbers` | c/src/parser.c:176-182 | the k-th question mark becomes parameter k, and the count grows by their number |
| `Parsers.Parser.OrLevel` | c/src/parser.c:326-337 | the method fails or does what the grammar says, and fails whenever the grammar does |
| `Parsers.Parser.Term` | c/src/parser.c:243-255 | same for products, left-associative |
| `Parsers.Parser.Comparison` | c/src/parser.c:285-297 | same for comparisons, which do not chain |
| `Parsers.Parser.Primary` | c/src/parser.c:189-215 | same for columns, literals, parameters and parentheses |

## Left out

- Rounding of DOUBLE arithmetic: the four operations are a parameter. Number formatting: `Dumps` takes it that digits bring an INT and a finite DOUBLE back.
- Groupings.BuildLine: the columns of one line are fixed; SUM and AVG in DOUBLE are `BuildDoubles`, and only the exact aggregates are shown to add up over the groups.
- That an allocation, a file write or a lock succeeds: each may fail at any time, so no result says that a statement is not rejected for want of memory, nor a load or checkpoint unavailable.
- The constants of the hash mixer and of the FNV checksum: parameters; no result needs collision-freedom.
- Null and tombstone bitmaps, arena layout, capacity doubling and the memory budget: sequences and a failing allocation that sets one flag per table (the engine has one per arena).
- The slot mask is written as a remainder; capacities are powers of two, where both agree.
- Databases.Database.CheckpointTable: says nothing when the texts of the compacted table exceed 2^32 bytes, because the 32-bit offsets then lose text and no caller could rely on the result.
- Databases.RunSession: stops at a checkpoint of that kind.
- Databases.Database.Execute: does not take SELECT, which is `SelectFrom`.
- Databases.Database.LoadTable: takes the file as decoded rows and frames, and the schema as an argument. Inferring types, the schema JSON and what the engine does with a file of other types are not modelled: it leaves base cells that do not convert NULL, and drops a log of another column layout with a warning. So the next session is taken to load with the same types; without a schema a dumped text that reads as a number would be inferred as one. The bytes are in `StoredFiles`.
- Durability.Durability: is about tracked tables, that is, tables whose file no other table was loaded from and has no torn log, and that since the last load or completed checkpoint nothing in `diverged` has parted from it: a load in part, a rolled-back half commit, an append that could not be cut back, a checkpoint that lost cells or failed with a gap, a row left by an INSERT on a recorded allocation failure, or a file shared before. `Divergences` has a run for each.
- Durability.RunsKeepDurable: takes what is appended behind a torn frame as lost, also where it happens to complete that frame (`TornFrameExactly`).
- Selects.ProbeKeepsAll: is about exact keys and live keys that are not NaN; elsewhere comparison and hash disagree (`ExactKeysExactly`).
- WalFiles.ReplayOnto: what a replay that ran out of memory leaves is stated on decoded frames, in `ReplayList`.
- Sessions.RunsKeepIntegrity: is about runs whose loads are plain: of a new name, outside a transaction, and with rows that pass the checks also after the log is replayed (`LoadKeepsIntegrityExactly`); `Divergences` has a run that breaks integrity for each of the three. It excludes INSERT into a table with a recorded allocation failure (`LatchedInsertExactly`).
- Selects.Select: ON clauses are required to type-check on the tables joined so far, which the engine does not check; projection, ORDER BY and LIMIT are not modelled.
- Groupings.GroupLines: the sort is any permutation in key order; NaN in a group column is excluded, and sums that leave 64 bits, which C leaves undefined.
- Multi-byte numbers in the log are little-endian, as on the machines the engine runs on; it writes them in host order.
- Several failures of the type check, and all error texts, are one error value each.
- Parsers.PrintParseRoundTrip: works on tokens; texts with an apostrophe, negative and DOUBLE literals and parameters are not printed in a form the parser reads back.
- Parsing of whole statements, keyword recognition, adding and dropping columns, setting a key on a table that has rows, the REPL, the embedding API, tab completion, file locks and renames as system calls.
- A header line that starts with a byte-order mark, which a reload drops from the first column name.
- Method-local buffers of the source (row lists, scratch strings) are sequences.
