# DeltaBase, modelled and proved

DeltaBase is a small relational engine: a write-ahead log with crash recovery, paged B+ tree indexes,
a write-back buffer pool, tables kept as chains of pages, a planner that picks between two kinds of
scan, and a precedence-climbing expression parser. This project states what each of these is for and
proves that it does it, for every input, every interleaving and every run.

`dafny verify dfyconfig.toml` checks everything.

## The parts

| files | what they are about |
|---|---|
| `types`, `page_rows`, `page_ledger`, `log_shape`, `loser_chains` | log records; how redo and undo edit the rows of a page; which effects a page carries |
| `recovery_inv`, `recovery_steps`, `recovery_runs` | what holds between the durable log and the pages on disk at every point where the machine may stop, and what each step of recovery keeps |
| `recovery_manager` | `recover` itself, as a class over a WAL manager and an I/O manager |
| `engine_runs`, `engine_example` | whole runs: work, flushes, page writes, crashes, recoveries that crash themselves, restarts; two of them written out |
| `engine_calls`, `statement_runs`, `statement_records` | transactions, commits and table statements as steps of those runs, and their records in the files |
| `codec`, `wal_codec`, `storage_codec`, `typed_codec`, `memory_stream`, `wal_serializer` | the byte formats, what they keep of typed values, and the streams they are written to |
| `wal_tails`, `wal_files`, `wal_manager`, `transaction` | what a torn tail does to later records, the log's segment files, the WAL manager, transactions |
| `values`, `token_bytes`, `btree_*` | the index key order, the bytes of values and rows, B+ trees as values, and the paged tree with its splits |
| `lru_policy`, `cache`, `cache_losses`, `buffer_pool` | the replacement policy, the write-back cache and what it can lose, the pool |
| `table_page`, `table_rows`, `table_statement`, `table_index`, `table_unique`, `table_lookup`, `table_store`, `table_history`, `table_scans` | tables: pages and their chain, what statements make of rows, indexes, uniqueness, scans, plans |
| `conditions`, `planner` | how filters and index scans judge a row, and which scan is chosen |
| `parser` | the expression parser |

How to read the model:

- The record with LSN *n* is element *n - 1* of the log, so a log is well numbered by construction of
  its LSNs; identifiers (UUIDs) are opaque numbers, and a null page id is `None`.
- A compensation record carries `undoNext`; its `prev` is always 0, as the code builds it. The LSN that
  undo writes into a record before appending it is overwritten by the append.
- Rows appear twice: with token bytes (`Types.Row`), as the log and recovery see them, and with typed
  values (`TablePages.TableRow`), as tables, indexes and conditions see them.
- In `BTreeModel` a tree is a value; `BTreeIndex` is the imperative tree on numbered pages and is proved
  to compute that value. Tables hold the value.
- `EngineCalls.CallIsStep` and `EngineCalls.CommitAsSteps` connect the transaction objects to the runs,
  `StatementRuns` the statements of the table. `EngineRuns.StampStep` is `insert_row` stamping a page with
  the LSN of the table record that follows the row's own record.
- How a double becomes bytes is the parameter `realBytes`; `log2` in the planner is a parameter too.
- Reading past the end of a stream delivers the bytes there are; the parameter `junk` is whatever an
  uninitialised variable held.

Hypotheses that the code does not enforce, and where they stand:

- Recovery: what a transaction that does not commit wrote since the last completed recovery is touched by
  no other transaction in the durable log (`RecoveryInvariant.LosersApart`, assumed at
  `EngineRuns.CrashStep`). `LoserChains.UndoneInOrderShows` shows, for a chain of two changes, exactly when
  undoing them in the wrong order does no harm.
- Recovery: a row change gives the new row version an id that is new on its page
  (`EngineRuns.MayChange`). `StatementRuns` shows that updates and deletes keep to this, and an insert
  exactly when its id is free there (`StatementRuns.InsertIsChange`); an insert after an update, or after an
  undone table record, may not.
- Recovery: a page reaches the disk only when the log is durable up to its last LSN
  (`EngineRuns.WriteStep`). Commit's flush keeps to this (`Transactions.Transaction.CommitTxn`); eviction
  writes without looking.
- Recovery: everything up to the checkpoint LSN has reached the pages. The code never sets that LSN to
  anything but 0.
- Tables: a page id, an index id or a transaction id made anew is not in use yet.
- Index scans: no two row versions on a page share an id. Inserts, deletes and index creation keep that;
  an insert after an update may break it (`TableIndexes.InsertAfterUpdateRepeats`), and
  `TableStores.TableStore.InsertRow` says exactly when. `TableLookups.LookupExactly` says exactly when
  looking up the entries of an index still yields the live rows.

Where the code does not do what it seems meant to do, the model follows the code:

- Undoing an update revives the *new* row id with the *old* values, so results are compared as multisets
  of live token tuples.
- Recovery leaves a row over for each row version that a transaction wrote and updated again, when it stops
  before its commit and both changes have reached the page on disk: undoing the update revives the new
  version, and undoing the write then finds the old one obsolete already. Otherwise it leaves the committed
  rows alone (`RecoveryRuns.RecoveredExactly`, `EngineRuns.RecoveredRunExactly`).
- The evaluator's less-than comparisons are reversed; the index scan's are not (`Conditions.AgreeExactly`).
- A page that was created and not marked dirty is lost once as many other pages have been read as the cache
  holds, and not before (`CacheLosses.UnmarkedIsLost`, `BufferPools.UnmarkedPageIsLost`); the same holds of
  any operations on other pages (`CacheLosses.UnmarkedAmongOps`).
- An index file does not store its last page number; after reading it back, the next page created is
  numbered 1, which is taken (`StorageCodec.IndexFileSurvives`, `BTreeInvariant.PageOneTaken`).
- A log file cut inside a size field may be refused instead of ending there (`WalCodec.CutFile`). Records
  appended behind a cut inside a record are read as the missing bytes of that record
  (`WalCodec.AppendedAfterCut`), and those of a new transaction are not found once its header is there
  (`WalTails.NewTxnFound`).
- Of equal keys that no longer fit into one leaf, find returns an older one (`BTreeEquals.FindsOlder`). An
  insert asks a unique index only about the one row found, so it can let in a value that a live row holds
  once an obsolete version holds it too (`TableUniques.AcceptedFor`, `TableUniques.OverlooksLive`).
- A unique index is refused on values whose bytes agree, whatever their types
  (`TokenBytes.AcrossTypes`, `TableStores.DistinctExactly`).
- The index scan's short cut for equality looks for nodes tagged as columns, which its own comparison does
  not know (`TableScans.TaggedScanReturnsNothing`).
- While any row is live, the planner's cost of an index does not depend on how many are (`Planner.CostOfTotal`).
- The parser recurses for ever exactly on the inputs whose last token is an opening parenthesis or `NOT` met
  where an operand is expected, or `NOT` met as an operator; one pass over the tokens decides it
  (`ExpressionParser.EndlessExactly`, `ExpressionParser.EndlessIsEndless`).

## Model

| member | source | states |
|---|---|---|
| PageLedger.RedoHolds | deltabase/src/recovery/recovery_manager.cpp:240-270 | redoing a change that is not in effect makes the page carry exactly one effect more, and nothing else moves |
| PageLedger.RedoEffect | deltabase/src/recovery/recovery_manager.cpp:240-270 | redo adds the new row version, hides the old one and changes the count of every live token tuple by exactly the change's delta |
| PageLedger.UndoHolds | deltabase/src/recovery/recovery_manager.cpp:407-443 | undoing a loser's change takes its effect out for good, whether or not it had reached the page, once what took away its row version has been undone; what that leaves over is accounted for |
| PageLedger.UndoEffect | deltabase/src/recovery/recovery_manager.cpp:407-443 | undo restores the count of every live token tuple, although it revives the new row id, except that a write whose version is obsolete already leaves that version's tokens once too often |
| PageLedger.CommittedView | deltabase/src/recovery/recovery_manager.cpp:240-310 | rows carrying exactly the committed changes show what replaying only those shows, and one row for each version that undoing has left over |
| PageLedger.LeftEmpty | deltabase/src/recovery/recovery_manager.cpp:407-443 | nothing is left over if and only if no undone update replaced a version that an undone change had written |
| PageRows.LiveCountIs | deltabase/src/storage/std_db_instance.cpp:133-164 | the count that these speak of is the number of rows of the page without the obsolete flag that carry the tokens |
| LoserChains.BothUndoneShows | deltabase/src/recovery/recovery_manager.cpp:407-443 | a loser's write followed by a second change of the same row version is undone correctly if and only if the second change is a delete |
| LoserChains.UndoneInOrderShows | deltabase/src/recovery/recovery_manager.cpp:407-443 | undone in the other order, as for two transactions, the chain comes out right if and only if it is a delete of an updated row |
| RecoveryInvariant.LaterUndoneFirst | deltabase/src/recovery/recovery_manager.cpp:312-405 | when the compensation of a loser's write is redone, that of whatever took its version away has reached the page already |
| LogShape.CompensationUnique | deltabase/src/recovery/recovery_manager.cpp:497-538 | a record never gets two compensations |
| LogShape.CompensatedNotCommitted | deltabase/src/recovery/recovery_manager.cpp:312-405 | a transaction that is compensated has not committed |
| RecoverySteps.RedoKeeps | deltabase/src/recovery/recovery_manager.cpp:83-102 | one redo write under the page LSN guard keeps everything recovery relies on |
| RecoverySteps.ClrKeeps | deltabase/src/recovery/recovery_manager.cpp:340-385 | one durable compensation record keeps it too: the page lags behind the log by exactly that record |
| RecoverySteps.RollbackKeeps | deltabase/src/recovery/recovery_manager.cpp:397-404 | so does the closing rollback marker |
| RecoverySteps.ClrMove | deltabase/src/recovery/recovery_manager.cpp:340-345 | following undo_next from a compensation leads strictly back, to where undo was |
| RecoverySteps.FinishedPage | deltabase/src/recovery/recovery_manager.cpp:21-35 | once nothing is left to redo or undo, a page shows exactly the committed changes and what undoing those that had reached it has left over |
| RecoveryRuns.StepKeepsView | deltabase/src/recovery/recovery_manager.cpp:21-102 | no step of recovery changes what the committed rows are, nor what will be left over |
| RecoveryRuns.PathRecoverable | deltabase/src/recovery/recovery_manager.cpp:45-61 | every state recovery passes through can be recovered from, with the same outcome |
| RecoveryRuns.RecoveredRows | deltabase/src/recovery/recovery_manager.cpp:21-102 | however often recovery is cut short and restarted, at completion each page shows what the committed transactions put there, and what undoing has left over |
| RecoveryRuns.RecoveredExactly | deltabase/src/recovery/recovery_manager.cpp:21-102 | these are the committed rows alone if and only if no transaction without a commit had updated a row version of its own on that page before the crash |
| RecoveryRuns.Restartable | deltabase/src/recovery/recovery_manager.cpp:94-99 | an interrupted recovery and an uninterrupted one end with the same live rows |
| RecoveryRuns.QuietIsFinal | deltabase/src/recovery/recovery_manager.cpp:94-99 | after a completed recovery there is no page left to write and no record left to append |
| RecoveryRuns.LosersClosed | deltabase/src/recovery/recovery_manager.cpp:312-405 | every loser ends up with exactly one rollback marker and, per change whose page exists, exactly one compensation |
| RecoveryRuns.ReverseOrder | deltabase/src/recovery/recovery_manager.cpp:312-405 | compensations stand in the reverse order of the changes they undo |
| RecoveryManagers.LoadedPage.RedoChange | deltabase/src/recovery/recovery_manager.cpp:240-310 | the in-place row edits of redo are the function the properties are about |
| RecoveryManagers.LoadedPage.UndoChange | deltabase/src/recovery/recovery_manager.cpp:407-443 | the in-place row edits of undo likewise |
| RecoveryManagers.RecoveryManager.GetCommitLsns | deltabase/src/recovery/recovery_manager.cpp:592-613 | exactly the committed transactions, each with the LSN of a commit record of its own |
| RecoveryManagers.RecoveryManager.GetRollbackLsns | deltabase/src/recovery/recovery_manager.cpp:615-636 | exactly the transactions with a rollback marker |
| RecoveryManagers.RecoveryManager.GetLastLsns | deltabase/src/recovery/recovery_manager.cpp:638-648 | the last LSN of each transaction in the log |
| RecoveryManagers.RecoveryManager.GetActiveTxns | deltabase/src/recovery/recovery_manager.cpp:650-666 | the transactions with neither marker, with their last LSNs |
| RecoveryManagers.RecoveryManager.RedoData | deltabase/src/recovery/recovery_manager.cpp:83-102 | the page has seen the record afterwards, by at most one page write |
| RecoveryManagers.RecoveryManager.RedoAll | deltabase/src/recovery/recovery_manager.cpp:38-81 | redo leaves nothing to redo and, after a completed recovery, changes nothing |
| RecoveryManagers.RecoveryManager.UndoOne | deltabase/src/recovery/recovery_manager.cpp:320-395 | one turn of undo moves strictly back, keeps the log durable before the page, and leaves what is above compensated |
| RecoveryManagers.RecoveryManager.UndoTxn | deltabase/src/recovery/recovery_manager.cpp:315-404 | undo of one loser ends, closes that transaction and no other |
| RecoveryManagers.RecoveryManager.Recover | deltabase/src/recovery/recovery_manager.cpp:21-35 | every page ends up showing the committed changes, alone exactly when no such update had reached it; every state passed through is recoverable; a second recovery changes nothing |
| RecoveryManagers.RestartableAnywhere | deltabase/src/recovery/recovery_manager.cpp:21-35 | a crash at any point of recovery leaves a state from which recovery can start again |
| EngineRuns.NextKeepsInv | deltabase/src/transactions/transaction.cpp:32-81 | every step of the engine keeps the connection between log, pages in memory and pages on disk |
| EngineRuns.RunInv | deltabase/src/transactions/transaction.cpp:32-81 | hence every reachable state has it |
| EngineRuns.CommitsSurvive | deltabase/src/wal/file_wal_manager.cpp:240-261 | a commit that has become durable is never lost, through any number of crashes |
| EngineRuns.RecoveredIsCommitted | deltabase/src/recovery/recovery_manager.cpp:21-35 | the rows of an epoch and those of the log before it add up to the rows of the whole log, and so does what is left over |
| EngineRuns.RecoveredRunIsCommitted | deltabase/src/recovery/recovery_manager.cpp:21-102 | in every run, whenever a recovery is complete, each page on disk shows what the committed transactions of the whole durable log left there, and what recoveries have left over, as a multiset of live token tuples |
| EngineRuns.RecoveredRunExactly | deltabase/src/recovery/recovery_manager.cpp:407-443 | in every run, that is what the committed transactions left there alone if and only if no stop so far caught on that page an update by a transaction of its own row version without its commit |
| EngineExamples.CommittedComesBack | deltabase/src/recovery/recovery_manager.cpp:83-102 | a run in which only the log of a committed insert had become durable ends with a completed recovery and the row on its page |
| EngineExamples.UncommittedIsHidden | deltabase/src/recovery/recovery_manager.cpp:312-405 | a run in which an insert without a commit had reached its page ends with a completed recovery and the row marked obsolete |
| StatementRuns.InsertIsChange | deltabase/src/storage/std_db_instance.cpp:425-430 | inserting a row does to the page what redoing its record does, and is a change recovery can account for exactly when the id is free on the page |
| StatementRuns.UpdateIsChange | deltabase/src/storage/std_db_instance.cpp:512-544 | replacing a row likewise, the before image being logged with the obsolete flag set |
| StatementRuns.DeleteIsChange | deltabase/src/storage/std_db_instance.cpp:598-604 | deleting a row likewise |
| StatementRuns.RunReaches | deltabase/src/transactions/transaction.cpp:32-81 | what steps lead to from the end of a run is the end of a run, so the invariant of all runs holds there |
| StatementRuns.InsertAsSteps | deltabase/src/storage/std_db_instance.cpp:364-438 | an insert whose id is free takes the engine along: row record, table record, page stamped with the latter's LSN |
| StatementRuns.UpdateAsSteps | deltabase/src/storage/std_db_instance.cpp:480-563 | an update that goes through is a run of steps that log, for each row hit, the change of its row and the table's record, and leave the same pages |
| StatementRuns.DeleteAsSteps | deltabase/src/storage/std_db_instance.cpp:565-615 | so is a delete |
| StatementRecords.InsertTyped | deltabase/src/storage/std_db_instance.cpp:425-430 | what an insert logs is a row of the table, its values as given |
| StatementRecords.UpdatesTyped | deltabase/src/storage/std_db_instance.cpp:480-563 | what an update logs are rows of the table, before and after image |
| StatementRecords.DeletesTyped | deltabase/src/storage/std_db_instance.cpp:565-615 | what a delete logs are rows of the table |
| StatementRecords.LoggedSurvives | deltabase/src/wal/file_wal_manager.cpp:74-138 | a log that goes on with a statement's records is read back from its files as it was written |
| Codec.GetPutRow | deltabase/src/storage/std_storage_serializer.cpp:612-639 | decoding undoes encoding for rows of any length and any tokens, up to those bytes, and consumes exactly what was written |
| Codec.GetPutTable | deltabase/src/storage/std_storage_serializer.cpp:67-100 | the same for table metadata with any number of columns and indexes |
| Codec.GetPutColumn | deltabase/src/storage/std_storage_serializer.cpp:113-124 | the same for columns |
| Codec.GetPutIndex | deltabase/src/storage/std_storage_serializer.cpp:126-140 | the same for index metadata |
| Codec.GetPutSchema | deltabase/src/storage/std_storage_serializer.cpp:102-111 | the same for schemas |
| Codec.GetPutToken | deltabase/src/storage/std_storage_serializer.cpp:641-669 | the same for any token, up to the bytes of one of the NULL type, which are not written; for typed values see TypedCodec.ValueSurvives |
| WalCodec.GetPutRecord | deltabase/src/wal/std_wal_serializer.cpp:417-1045 | decoding undoes encoding for all 25 record kinds, whatever follows, up to those bytes |
| WalCodec.CanonicalRowIff | deltabase/src/storage/std_storage_serializer.cpp:142-156 | a row comes back unchanged exactly when its tokens of the NULL type hold no bytes, as those of every table row do (TypedCodec.RowSurvives) |
| TypedCodec.ValueSurvives | deltabase/src/storage/std_storage_serializer.cpp:641-669 | every typed value is read back with the type and the bytes it was written with |
| TypedCodec.ValueLength | deltabase/src/storage/std_storage_serializer.cpp:142-156 | what is written for a value is eight bytes long exactly when it is NULL; otherwise its bytes follow behind their number |
| TypedCodec.ValuesApart | deltabase/src/storage/std_storage_serializer.cpp:142-156 | two values are written alike exactly when they are the same |
| TypedCodec.ValuesOn | deltabase/src/storage/std_storage_serializer.cpp:142-156 | the bytes of NULL, of an integer, of a character and of a string |
| TypedCodec.RowSurvives | deltabase/src/storage/std_storage_serializer.cpp:612-639 | every row of a table within the field widths is read back as it was written |
| TypedCodec.RowOn | deltabase/src/storage/std_storage_serializer.cpp:262-280 | the bytes of a row with a NULL and an integer |
| TypedCodec.PageSurvives | deltabase/src/storage/std_storage_serializer.cpp:414-453 | so is every page of a table |
| TypedCodec.IndexPageSurvives | deltabase/src/storage/std_storage_serializer.cpp:455-484 | so is every page of an index, whatever values its keys are |
| TypedCodec.RecordSurvives | deltabase/src/wal/std_wal_serializer.cpp:417-1045 | every log record about rows of a table or about metadata, each compensation and each marker is read back as it was written |
| TypedCodec.LogSurvives | deltabase/src/wal/file_wal_manager.cpp:74-138 | so a log of such records is one that reopening its files gives back |
| TypedCodec.BeginOn | deltabase/src/wal/std_wal_serializer.cpp:11-60 | the bytes of a BEGIN record, with the order of its fields |
| WalCodec.GetPutEntries | deltabase/src/wal/file_wal_manager.cpp:373-393 | a log file reads back as the records written to it, then what its remaining bytes give |
| WalCodec.CutFile | deltabase/src/wal/file_wal_manager.cpp:373-393 | a log file cut anywhere in its last record reads as the records before it, except when the cut is inside the size field and the rest of that field happens to make it zero |
| WalCodec.AppendedAfterCut | deltabase/src/wal/file_wal_manager.cpp:320-340 | what is read from a file cut in a record and then appended to, case by case: the appended records behind a cut between two; behind one in the size field, what follows the completed field; otherwise what their bytes give as the rest of the torn record |
| WalCodec.AppendedLost | deltabase/src/wal/file_wal_manager.cpp:373-393 | appended records are all lost while they do not make up for the missing bytes of the torn one |
| WalTails.AppendedFound | deltabase/src/wal/file_wal_manager.cpp:373-393 | the appended records are found if and only if the cut was between two records, whenever it is in the size field or what is there of the torn header differs from the header of the first appended record |
| WalTails.NewTxnFound | deltabase/src/wal/file_wal_manager.cpp:373-393 | so it is when the torn header is complete and the first appended record belongs to another transaction |
| WalTails.FoundAfterCut | deltabase/src/wal/file_wal_manager.cpp:373-393 | one byte short of that it need not be: a BEGIN torn before its last byte can be completed by the next one, which is then found |
| StorageCodec.GetPutPage | deltabase/src/storage/std_storage_serializer.cpp:414-453 | a data page survives being written and read back |
| StorageCodec.GetPutIndexFile | deltabase/src/storage/std_storage_serializer.cpp:455-484 | an index file comes back with all its pages and the last page number 0 |
| StorageCodec.IndexFileSurvives | deltabase/src/storage/std_storage_serializer.cpp:182-201 | it comes back unchanged if and only if no page had been numbered and its keys hold no unwritten bytes |
| MemoryStreams.MemoryStream.Write | deltabase/src/misc/memory_stream.cpp:29-41 | writing overwrites from the position on and moves it past what was written |
| MemoryStreams.MemoryStream.Append | deltabase/src/misc/memory_stream.cpp:43-50 | copies up to the wanted number of bytes from another stream |
| MemoryStreams.ReadOnlyMemoryStream.Read | deltabase/src/misc/memory_stream.cpp:137-146 | delivers the wanted bytes, or those there are |
| WalSerializer.SerializeRow | deltabase/src/storage/std_storage_serializer.cpp:262-280 | the stream a row is written to holds its encoding, which keeps every row of a table (TypedCodec.RowSurvives) |
| WalSerializer.SerializeTable | deltabase/src/storage/std_storage_serializer.cpp:67-100 | likewise for table metadata |
| WalSerializer.SerializeRecord | deltabase/src/wal/std_wal_serializer.cpp:11-424 | likewise for every kind of log record |
| WalSerializer.DeserializeRow | deltabase/src/storage/std_storage_serializer.cpp:612-639 | reads what the decoding function says, failing when it fails; on what was written for a row of a table that is the row (TypedCodec.RowSurvives) |
| WalSerializer.DeserializeTable | deltabase/src/storage/std_storage_serializer.cpp:297-344 | likewise for table metadata |
| WalSerializer.DeserializeRecord | deltabase/src/wal/std_wal_serializer.cpp:426-1045 | likewise for every kind of log record |
| WalFiles.FilesAppend | deltabase/src/wal/file_wal_manager.cpp:297-349 | one record more in the right segment file keeps the directory in step with the log |
| WalFiles.SegmentReads | deltabase/src/wal/file_wal_manager.cpp:351-396 | each segment file reads back as its slice of the log |
| WalManager.ReadLogsFromFile | deltabase/src/wal/file_wal_manager.cpp:351-396 | the reading loop computes the decoding of a log file, partial tails and failures included |
| WalManager.FileWalManager.Create | deltabase/src/wal/file_wal_manager.cpp:30-72 | a new directory holds the empty log |
| WalManager.FileWalManager.Open | deltabase/src/wal/file_wal_manager.cpp:74-138 | opening reconstructs from the segment files exactly the flushed records, with the next LSN one past the last and the flushed LSN equal to it |
| WalManager.FileWalManager.AppendLog | deltabase/src/wal/file_wal_manager.cpp:140-158 | the record gets the next LSN, whatever it carried, and nothing becomes durable |
| WalManager.FileWalManager.AppendLogs | deltabase/src/wal/file_wal_manager.cpp:160-171 | the records get consecutive LSNs in order |
| WalManager.FileWalManager.ReadLog | deltabase/src/wal/file_wal_manager.cpp:173-197 | finds the record with the LSN exactly when there is one |
| WalManager.FileWalManager.WriteLogs | deltabase/src/wal/file_wal_manager.cpp:297-349 | after writing, the directory holds the longer log and nothing else |
| WalManager.FileWalManager.Flush | deltabase/src/wal/file_wal_manager.cpp:240-261 | everything appended becomes durable, in order |
| WalManager.FileWalManager.WaitForDurable | deltabase/src/wal/file_wal_manager.cpp:199-232 | for an appended LSN it ends with that LSN durable after at most one flush |
| Transactions.FollowVisitsOwn | deltabase/src/transactions/transaction.cpp:45-62 | in any interleaving, following prev from a transaction's last record visits exactly its records, latest first, and ends at its BEGIN with prev 0 |
| Transactions.PerformKeepsLog | deltabase/src/transactions/transaction.cpp:32-75 | each accepted call keeps the log in the shape recovery relies on |
| Transactions.InterleavingsOk | deltabase/src/transactions/transaction.cpp:32-75 | so does any interleaving of calls of any transactions, with every session in step with the log |
| EngineCalls.CallIsStep | deltabase/src/transactions/transaction.cpp:32-75 | each accepted call of a transaction appends what a step of the engine's runs appends, so what holds of all runs holds of them |
| EngineCalls.CommitReaches | deltabase/src/transactions/transaction.cpp:71-74 | a commit record, a flush of the log and writes of pages the log then covers are steps of a run |
| EngineCalls.CommitAsSteps | deltabase/src/transactions/transaction.cpp:64-81 | a whole commit, with its flush of the log and of the covered pages, takes the engine from one state of a run to another |
| Transactions.Transaction.constructor | deltabase/src/transactions/transaction.cpp:13-18 | a transaction with a new id starts idle and in step |
| Transactions.Transaction.BeginTxn | deltabase/src/transactions/transaction.cpp:32-43 | accepted exactly when idle; appends the BEGIN |
| Transactions.Transaction.AppendChange | deltabase/src/transactions/transaction.cpp:45-62 | accepted exactly when active; appends the change with id and back pointer set |
| Transactions.Transaction.CommitTxn | deltabase/src/transactions/transaction.cpp:64-81 | on return all records are durable, the transaction is committed in the log files, everything dirty that the log covers has been written, and nothing else has |
| Transactions.ReopenAfterCommit | deltabase/src/wal/file_wal_manager.cpp:74-138 | a later reopening finds the transaction committed |
| Values.OrderLaws | deltabase/src/storage/index_bplus_tree.cpp:199-205 | compare_token is a total order: the one that Values.LessMeans and Values.TypesMean describe |
| Values.BytesLessIs | deltabase/src/types/data_token.cpp:140-141 | a string is less than another exactly when they agree up to a place where it ends first or has the smaller byte |
| Values.LessMeans | deltabase/src/types/data_token.cpp:125-150 | within a type, operator< is that of numbers, of character codes, of truth values, or dictionary order |
| Values.TypesMean | deltabase/src/types/data_token.cpp:125-128 | across types it is the order of the types |
| BTreeModel.InsertEntries | deltabase/src/storage/index_bplus_tree.cpp:21-34 | insertion adds exactly the new entry and keeps all others in their order, through any cascade of splits |
| BTreeOrder.InsertOrdered | deltabase/src/storage/index_bplus_tree.cpp:36-146 | insertion keeps the nodes sorted and each separator the smallest key to its right |
| BTreeOrder.FindCorrect | deltabase/src/storage/index_bplus_tree.cpp:8-19 | find succeeds exactly when the key is in the tree, with a pointer stored under it, even when equal keys span leaves |
| BTreeOrder.FindIsFirst | deltabase/src/storage/index_bplus_tree.cpp:8-19 | of equal keys it takes the first in the leaf that the search leads to |
| BTreeEquals.OneLeaf | deltabase/src/storage/index_bplus_tree.cpp:148-159 | pointers inserted under one key that fit into one leaf stand there newest first |
| BTreeEquals.FindsOlder | deltabase/src/storage/index_bplus_tree.cpp:36-64 | one more, and find returns not the newest but the one just behind the middle |
| BTreeShape.InsertUniform | deltabase/src/storage/index_bplus_tree.cpp:36-146 | insertion keeps all leaves at one depth |
| BTreeShape.InsertFilled | deltabase/src/storage/index_bplus_tree.cpp:42-50 | insertion keeps the key counts within their bounds, both ways |
| BTreeShape.HeightBound | deltabase/src/storage/index_bplus_tree.cpp:123-135 | a tree of d levels holds at least 2 * (n/2 + 1)^(d - 2) * ((m + 1)/2) entries |
| BTreeShape.InsertLinked | deltabase/src/storage/index_bplus_tree.cpp:52-53 | insertion keeps the leaves linked from left to right |
| BTreeShape.InsertUnique | deltabase/src/storage/BP_index_pager.cpp:59-78 | new pages get exactly the next numbers, and no number is used twice |
| BTreeInvariant.InsertKeeps | deltabase/src/storage/index_bplus_tree.cpp:21-146 | one insertion keeps the whole invariant and adds exactly one entry |
| BTreeInvariant.BuiltHolds | deltabase/src/storage/index_bplus_tree.cpp:21-146 | after any run of insertions the invariant holds and the entries in leaf order are the inserted ones, sorted |
| BTreeInvariant.FindBuilt | deltabase/src/storage/index_bplus_tree.cpp:8-19 | find(k) returns a pointer exactly when some insertion used k, and one that was inserted with k |
| BTreeInvariant.ChainWalk | deltabase/src/storage/std_db_instance.cpp:295-322 | the leaf chain visits every leaf once and yields the entries in order |
| BTreeInvariant.PageOneTaken | deltabase/src/storage/BP_index_pager.cpp:59-78 | page 1 belongs to every tree, so a file read back without its last page number reuses it |
| BTreeSplits.LeafSplit | deltabase/src/storage/index_bplus_tree.cpp:36-57 | the page writes of a leaf split leave both halves laid out, the right one not yet linked to a parent |
| BTreeSplits.NodeSplit | deltabase/src/storage/index_bplus_tree.cpp:117-146 | so do those of an internal split, including the parent fields of the children moved |
| BTreeSplits.Join | deltabase/src/storage/index_bplus_tree.cpp:87-108 | the parent takes in the separator and the right page, with parent fields to match |
| BTreeSplits.NewRoot | deltabase/src/storage/index_bplus_tree.cpp:67-85 | a split root gets a new page above both halves |
| BTreeIndex.IndexPager.CreatePage | deltabase/src/storage/BP_index_pager.cpp:59-78 | a new page has the next number |
| BTreeIndex.IndexBPlusTree.constructor | deltabase/src/storage/file_io_manager.cpp:725-752 | a new index file is a valid empty tree |
| BTreeIndex.IndexBPlusTree.FindLeaf | deltabase/src/storage/index_bplus_tree.cpp:161-188 | reaches the leaf of the key and records the page numbers from the root to it; what a split there makes of the whole tree is determined by that path |
| BTreeIndex.IndexBPlusTree.Find | deltabase/src/storage/index_bplus_tree.cpp:8-19 | succeeds exactly when the key was inserted, with a pointer inserted under it |
| BTreeIndex.IndexBPlusTree.Insert | deltabase/src/storage/index_bplus_tree.cpp:21-34 | the pages hold afterwards exactly the tree that insertion describes, page numbers and parent fields included, and the entries gain the new one |
| BTreeIndex.IndexBPlusTree.SplitLeafAndPropagate | deltabase/src/storage/index_bplus_tree.cpp:36-57 | the split and everything above it yields the rebuilt tree |
| BTreeIndex.IndexBPlusTree.InsertIntoParent | deltabase/src/storage/index_bplus_tree.cpp:59-115 | likewise, ending because the path gets shorter |
| BTreeIndex.IndexBPlusTree.SplitInternalAndPropagate | deltabase/src/storage/index_bplus_tree.cpp:117-146 | likewise |
| BTreeIndex.IndexBPlusTree.Walk | deltabase/src/storage/std_db_instance.cpp:295-322 | the walk along next_leaf yields all row pointers in key order |
| LruPolicies.ReplayByRecency | deltabase/src/misc/include/LRU_policy.hpp:20-39 | after any sequence of touches and evictions the list holds distinct keys by recency of their last touch |
| LruPolicies.LruPolicy.Touch | deltabase/src/misc/include/LRU_policy.hpp:20-31 | the key moves to the front |
| LruPolicies.LruPolicy.Evict | deltabase/src/misc/include/LRU_policy.hpp:33-39 | the victim is the key whose last touch is the oldest |
| Caches.StepSound | deltabase/src/misc/include/cache.hpp:47-101 | cached keys are always the policy's keys, and never more than the maximum |
| Caches.StepRefines | deltabase/src/misc/include/cache.hpp:47-101 | each operation does to the readable contents what it does to a plain map if and only if it does not evict a value that was neither marked nor on disk |
| Caches.RunRefines | deltabase/src/misc/include/cache.hpp:47-101 | hence over whole runs |
| Caches.MarkedRunsRefine | deltabase/src/misc/include/cache.hpp:74-101 | a client that marks every change at once always reads what a plain map would hold |
| CacheLosses.UnmarkedIsLost | deltabase/src/storage/buffer_pool.cpp:41-55 | a created page that is not marked stays readable exactly as long as fewer different other keys than the cache's size have been read since, whatever else was cached; then it alone is gone |
| CacheLosses.UnmarkedChangeIsLost | deltabase/src/misc/include/cache.hpp:85-101 | a change of a clean page that is not marked is taken back at the same point |
| CacheLosses.UnmarkedAmongOps | deltabase/src/misc/include/cache.hpp:47-101 | among any reads, puts, writes, marks and flushes of other keys an unmarked value is read back exactly as long as fewer than the cache's size have been touched, then the key reads as on disk |
| BufferPools.UnmarkedPageIsLost | deltabase/src/misc/include/cache.hpp:20-45 | at the size the pool uses, 100: a created page survives 99 reads of other pages and is lost by the hundredth |
| Caches.Cache.PutEntry | deltabase/src/misc/include/cache.hpp:47-63 | does to the cache what the operation says, evicting first when full |
| Caches.Cache.Find | deltabase/src/misc/include/cache.hpp:65-73 | returns what is cached and touches it |
| Caches.Cache.Mark | deltabase/src/misc/include/cache.hpp:75-83 | marks and touches |
| Caches.Cache.EvictEntry | deltabase/src/misc/include/cache.hpp:85-101 | a dirty victim reaches the disk before it goes |
| Caches.Cache.FlushKeys | deltabase/src/storage/buffer_pool.cpp:194-232 | writes exactly the dirty entries among the keys, in any order |
| BufferPools.BufferPool.GetDp | deltabase/src/storage/buffer_pool.cpp:63-80 | reads through the cache |
| BufferPools.BufferPool.CreateDp | deltabase/src/storage/buffer_pool.cpp:41-55 | caches a new page and lists it |
| BufferPools.BufferPool.PrepareDp | deltabase/src/storage/buffer_pool.cpp:82-100 | the first page of the table with room, or a new one; nothing else readable changes |
| BufferPools.BufferPool.GetTableData | deltabase/src/storage/buffer_pool.cpp:102-115 | the table's pages as a plain map would return them |
| BufferPools.BufferPool.DirtyDp | deltabase/src/storage/buffer_pool.cpp:186-192 | marks a cached page and returns it |
| BufferPools.BufferPool.DirtyIf | deltabase/src/storage/buffer_pool.cpp:168-174 | marks a cached index file and returns it |
| BufferPools.BufferPool.UpdateDp | deltabase/src/storage/buffer_pool.cpp:186-192 | changing a page in place and marking it updates the plain map |
| BufferPools.BufferPool.FlushDirty | deltabase/src/storage/buffer_pool.cpp:194-206 | writes every dirty entry |
| BufferPools.BufferPool.FlushDirtyUpTo | deltabase/src/storage/buffer_pool.cpp:208-232 | flushes exactly the entries whose LSN the limit covers |
| BufferPools.FlushedPages | deltabase/src/storage/buffer_pool.cpp:208-232 | what that leaves: everything covered is clean, and a page on disk is the old one or a cached one that the limit covers |
| BufferPools.BufferPool.GetTableIndex | deltabase/src/storage/buffer_pool.cpp:117-145 | reads a listed index file through the cache |
| BufferPools.BufferPool.CreateTableIndex | deltabase/src/storage/buffer_pool.cpp:147-166 | the whole new state: the file on disk without its LSN, cached with it, marked and listed, another perhaps evicted |
| BufferPools.IndexCreatedView | deltabase/src/storage/buffer_pool.cpp:147-166 | so the new index file can be read at once, and no other is lost or changed |
| BufferPools.BufferPool.SetIfLsn | deltabase/src/storage/buffer_pool.cpp:176-184 | raises the LSN of one cached index file and changes nothing else |
| Conditions.AgreeExactly | deltabase/src/executor/evaluator.cpp:53-354 | for which operators and values the filter and the index scan agree, both ways; what each says of two values is in the next rows |
| Conditions.IntegersCompare | deltabase/src/executor/evaluator.cpp:79-354 | on two integers: what each operator of the filter and of the index scan is on the numbers |
| Conditions.RealsCompare | deltabase/src/executor/evaluator.cpp:79-354 | the same on two reals |
| Conditions.CharsCompare | deltabase/src/executor/evaluator.cpp:79-354 | the same on two characters |
| Conditions.StringsCompare | deltabase/src/executor/evaluator.cpp:280-299 | the same on two strings, by where they first differ |
| Conditions.OperatorsMean | deltabase/src/executor/evaluator.cpp:79-354 | for any two ordinary values of one type EQ, GR and GRE mean equal, greater and one of the two, in the filter and in the index scan |
| Conditions.IsMeans | deltabase/src/executor/evaluator.cpp:53-112 | IS NULL holds of NULL alone, and IS with an ordinary value is equality |
| Conditions.SidesCompare | deltabase/src/executor/evaluator.cpp:17-51 | which column or literal each side of a condition takes its value from, and which conditions throw |
| Conditions.LessThanDisagrees | deltabase/src/executor/evaluator.cpp:173-195 | they disagree on 1 < 2 |
| Conditions.NullFails | deltabase/src/executor/evaluator.cpp:79-112 | a NULL passes none of the supported comparisons |
| Planner.CostOfTotal | deltabase/src/executor/std_planner.cpp:165-182 | while rows are live the cost of an index is log2 of all row versions plus the selectivity's share of them, however many are live |
| Planner.UselessIndex | deltabase/src/executor/std_planner.cpp:165-182 | with selectivity 1 an index never costs less than reading every row version |
| Planner.CheapIndex | deltabase/src/executor/std_planner.cpp:125-182 | exactly when an index costs less than reading every row version |
| Planner.ChooseScanType | deltabase/src/executor/std_planner.cpp:184-218 | the first of the cheapest indexes on the condition's column when one costs less than reading every row version, the sequential scan exactly when none does, and when the planner refuses |
| TableRows.AddedEffect | deltabase/src/storage/std_db_instance.cpp:425-425 | one row more in a page is one more in the counts, the live rows and the entries an index should have |
| TableRows.HiddenEffect | deltabase/src/storage/std_db_instance.cpp:598-600 | marking a row obsolete takes exactly it from the live rows and leaves the entries |
| TableRows.SameBag | deltabase/src/storage/std_db_instance.cpp:80-131 | the rows of a table do not depend on the order its pages are visited in |
| TablePages.FirstFitIs | deltabase/src/storage/buffer_pool.cpp:83-100 | the page chosen for a row is the first listed one that takes it without growing over 32 KiB; none is chosen exactly when none has the room |
| TableIndexes.CoversAdded | deltabase/src/storage/std_db_instance.cpp:440-478 | an index that takes in each new row keeps covering every live row with a value, and nothing foreign |
| TableIndexes.CoversHidden | deltabase/src/storage/std_db_instance.cpp:588-607 | deleting leaves stale entries behind but the index still covers the table |
| TableIndexes.LookupExact | deltabase/src/storage/std_db_instance.cpp:236-255 | looking up every entry yields each live row with a value exactly once and nothing stale |
| TableLookups.LookupExactly | deltabase/src/storage/std_db_instance.cpp:236-255 | whatever ids repeat, an index of all versions yields each live row with a value once if and only if every such version is the one its pointer leads to or is obsolete like that one |
| TableLookups.SharedAlike | deltabase/src/storage/std_db_instance.cpp:236-255 | where every version has a value: if and only if the versions that share a page and an id are all obsolete or all the same live row |
| TableIndexes.AddedApart | deltabase/src/types/meta_table.cpp:24-27 | ids on a page stay distinct exactly when the new id is not taken there |
| TableIndexes.InsertApart | deltabase/src/types/meta_table.cpp:24-24 | inserts alone never repeat an id |
| TableIndexes.UpdateApart | deltabase/src/storage/std_db_instance.cpp:513-513 | nor do updates |
| TableIndexes.InsertAfterUpdateRepeats | deltabase/src/storage/std_db_instance.cpp:512-515 | an insert after an update repeats an id, and the newer row is never found through the index |
| TableUniques.RefusedFor | deltabase/src/storage/std_db_instance.cpp:440-478 | a unique index refuses a row only when a live row has its value |
| TableUniques.AcceptedFor | deltabase/src/storage/std_db_instance.cpp:440-478 | it lets a row in whose value a live row holds only when an obsolete version holds it too |
| TableUniques.OverlooksLive | deltabase/src/storage/std_db_instance.cpp:440-478 | how that comes about: of 65 versions with the value only the 33rd is looked at |
| TableHistories.RunHistory | deltabase/src/storage/std_db_instance.cpp:364-478 | through any history of inserts and index creations, no two live rows share a value in the column of a unique index |
| TableStatements.UpdatedIs | deltabase/src/storage/std_db_instance.cpp:512-533 | an updated row keeps its width and each column no assignment names; any other has the value of the last assignment to it, a literal or a column of the row as it was |
| TableStatements.UpdatedOn | deltabase/src/storage/std_db_instance.cpp:512-533 | two columns can change places, and the later of two assignments to a column counts |
| TableStatements.ArrangedIs | deltabase/src/types/meta_table.cpp:28-55 | an inserted row has in each column the value given by position or for the last naming of it, and NULL where none is given |
| TableStores.TailIs | deltabase/src/storage/std_db_instance.cpp:398-419 | only the last page of the chain names no next page |
| TableStores.HeadIs | deltabase/src/storage/std_db_instance.cpp:97-119 | a page is the first of the chain exactly when no page names it |
| TableStores.TableStore.constructor | deltabase/src/types/include/meta_table.hpp:19-32 | an empty table is valid |
| TableStores.TableStore.PreparePage | deltabase/src/storage/std_db_instance.cpp:381-419 | first fit, or a new page behind the last one of the single chain |
| TableStores.TableStore.FindTail | deltabase/src/storage/std_db_instance.cpp:400-412 | the page chosen is the last one of the chain |
| TableStores.TableStore.InsertIntoIndexes | deltabase/src/storage/std_db_instance.cpp:440-478 | refuses exactly when a unique index leads to a row that is not obsolete (TableUniques.RefusedFor and AcceptedFor say when that is); otherwise every index takes the row in |
| TableStores.TableStore.MakeRow | deltabase/src/types/meta_table.cpp:16-55 | each column gets the value given for it by position or by the last column of that name, NULL otherwise, said of the values alone; the id is the counter's old value |
| TableStores.TableStore.InsertRow | deltabase/src/storage/std_db_instance.cpp:364-438 | while ids are distinct it throws only when a live row has the new row's value in a unique column, and lets such a value in only when an obsolete version holds it too; otherwise there is one live row more, with the values as given and the id the counter held; chain, counters, indexes and distinct live values stay in step; ids stay distinct exactly when that id is free on the page |
| TableStores.TableStore.UpdateOne | deltabase/src/storage/std_db_instance.cpp:504-555 | the old version stays, obsolete, and the new one with the next id, every column as the assignments say, goes to the end of its page |
| TableStores.TableStore.UpdatePage | deltabase/src/storage/std_db_instance.cpp:499-562 | the rows of a page after an update: the live ones with a given id obsolete, and behind all of them their new versions in order, numbered on, every column as the assignments say |
| TableStores.TableStore.UpdateRows | deltabase/src/storage/std_db_instance.cpp:480-563 | the table shows, as a multiset, each live row with the id of a given row with the values the assignments say and every other row as it was |
| TableStores.TableStore.DeleteRows | deltabase/src/storage/std_db_instance.cpp:565-615 | exactly the live rows with the id of a given row disappear, the others stay in their order; live values of unique columns stay distinct |
| TableStores.DistinctExactly | deltabase/src/storage/std_db_instance.cpp:761-793 | values with different bytes differ, and in a column of one type only those |
| TokenBytes.SameToken | deltabase/src/types/data_token.cpp:24-78 | type and bytes together tell any two values apart |
| TokenBytes.AcrossTypes | deltabase/src/storage/std_db_instance.cpp:777-789 | bytes alone do not: a string and a character share theirs |
| TokenBytes.IntegerBytes | deltabase/src/types/data_token.cpp:33-38 | an integer is kept in four bytes, in two's complement with the lowest first |
| TableStores.TableStore.CheckUnique | deltabase/src/storage/std_db_instance.cpp:761-793 | succeeds exactly when no two live values have the same bytes |
| TableStores.TableStore.CreateIndex | deltabase/src/storage/std_db_instance.cpp:729-822 | refuses exactly on values of a unique index with the same bytes; otherwise the new index is built from the live rows with a value and covers the table |
| TableScans.FindHead | deltabase/src/storage/std_db_instance.cpp:97-128 | an unreferenced page when there is one |
| TableScans.SeqScanNode.Open | deltabase/src/storage/std_db_instance.cpp:80-131 | the scan starts where all live rows are still to come |
| TableScans.SeqScanNode.Next | deltabase/src/storage/std_db_instance.cpp:133-164 | the next live row, until none is left |
| TableScans.SeqScanNode.Drain | deltabase/src/storage/std_db_instance.cpp:60-78 | collects exactly the rows still to come |
| TableScans.SeqScanTable | deltabase/src/storage/std_db_instance.cpp:60-164 | a sequential scan of a table returns every live row once, whatever order the page list has |
| TableScans.SeqScanExact | deltabase/src/storage/std_db_instance.cpp:97-119 | the live rows along the chain are those of the listed pages, as a multiset |
| TableScans.FilterNode.Next | deltabase/src/executor/node_executor.cpp:116-134 | the next row that passes, skipping exactly those that do not |
| TableScans.FilterNode.Drain | deltabase/src/executor/node_executor.cpp:116-134 | all of them |
| TableScans.IndexScanNode.Open | deltabase/src/storage/std_db_instance.cpp:166-325 | the rows of the index scan, or an exception, the short cut for tagged columns included |
| TableScans.TaggedScanReturnsNothing | deltabase/src/storage/std_db_instance.cpp:257-293 | that short cut never returns a row: it is empty when find leads to no live row and throws otherwise |
| TableScans.IndexScanNode.Next | deltabase/src/executor/node_executor.cpp:81-89 | hands them out one by one |
| TableScans.IndexScanExact | deltabase/src/storage/std_db_instance.cpp:212-325 | an index scan returns exactly once each live row with a value that satisfies the condition |
| TableScans.PlansAgree | deltabase/src/executor/std_planner.cpp:220-257 | the index plan and the filter plan return the same multiset of rows for EQ, GR and GRE on an ordinary type; which rows is said at TableScans.RunSelect |
| TableScans.RunSelect | deltabase/src/executor/std_planner.cpp:220-257 | whichever plan is chosen and run, a row is returned as often as it is a live row of the table if its value is equal to or greater than the literal as the operator asks, as a number, a character code or in dictionary order, and never otherwise |
| ExpressionParser.EndlessExactly | deltabase/src/sql/parser.cpp:587-669 | parsing fails to end if and only if one pass over the tokens meets the last one, an opening parenthesis or NOT, as an operand, or NOT as an operator |
| ExpressionParser.EndlessIsEndless | deltabase/src/sql/parser.cpp:587-714 | that these calls return at no depth, and all others within a depth linear in the tokens left, with the outcome the other lemmas are about |
| ExpressionParser.SameCallAgain | deltabase/src/sql/parser.cpp:39-49 | why: on the last token the cursor does not move, so the call is made again on the same token |
| ExpressionParser.EndlessOpens | deltabase/src/sql/parser.cpp:656-669 | in particular parsing always ends unless the last token is an opening parenthesis or NOT |
| ExpressionParser.EndlessAlternates | deltabase/src/sql/parser.cpp:587-669 | when only the last token opens and IS NOT does not occur: exactly when the tokens before it alternate between leaves and operators |
| ExpressionParser.EndlessWitnesses | deltabase/src/sql/parser.cpp:656-679 | three inputs that never end, and two that end with an opening parenthesis and are parsed |
| ExpressionParser.TreeConsumes | deltabase/src/sql/parser.cpp:587-679 | the tokens of the tree in order are exactly the tokens consumed, NOT before or between operands included, the cursor standing behind them or stuck on the last |
| ExpressionParser.TreeCanonical | deltabase/src/sql/parser.cpp:587-640 | every parsed tree binds by priority and to the left; ParsedLayered says what the priorities are |
| ExpressionParser.ParsePrint | deltabase/src/sql/parser.cpp:587-640 | parsing the printed form of any such tree, inside a longer input, returns it and stops behind it, whatever lower-priority token follows |
| ExpressionParser.ParsedLayered | deltabase/src/sql/parser.cpp:587-640 | without parentheses every parsed tree is a left chain of OR over left chains of AND over chains of NOT over chains of comparisons |
| ExpressionParser.LayeredParsed | deltabase/src/sql/parser.cpp:587-640 | every tree of these layers is what parsing its printed form gives |
| ExpressionParser.MixedChains | deltabase/src/types/include/ast_tree.hpp:56-75 | for all comparisons x, y, z: x OR y AND z is OR(x, AND(y, z)), x AND y OR z is OR(AND(x, y), z), and chains of one of them go to the left |
| ExpressionParser.TwoOperators | deltabase/src/types/include/ast_tree.hpp:56-75 | which of two operators binds tighter, for comparisons, NOT between operands, AND, and NOT before an operand |
| ExpressionParser.PrintInjective | deltabase/src/types/include/ast_tree.hpp:56-75 | two different such trees never print alike |
| ExpressionParser.SqlParser.Advance | deltabase/src/sql/parser.cpp:39-49 | the cursor never passes the last token |
| ExpressionParser.SqlParser.ParseOperand | deltabase/src/sql/parser.cpp:656-714 | computes the operand the functions above speak about |
| ExpressionParser.SqlParser.ParseBinaryTree | deltabase/src/sql/parser.cpp:587-640 | the climbing loop computes the tree, ending on every input that does not recurse for ever |
| ExpressionParser.SqlParser.ParseExpression | deltabase/src/sql/parser.cpp:642-654 | refuses a lone operand; what it parses without parentheses is of the layers OR, AND, NOT, comparison |

## Left out

- Metadata in recovery: schema, table and index records are in the log, in its byte format and in the undo chain, but their effect on the catalog is not modelled; they have no LSN guard.
- EngineRuns.CrashStep: what recovery shows when another transaction has touched a row version of one that does not commit is stated for chains of two changes only.
- EngineRuns.RecoveredRunIsCommitted: pages as recovery sees them, that is rows and last LSN; page chains and index contents are not logged and not claimed after a crash.
- BufferPools.BufferPool.FlushDirtyUpTo: eviction writes pages without comparing LSNs, so no such bound is claimed for it.
- TableStores.TableStore.InsertRow: nothing is claimed once a unique violation has been thrown, because counters, page list and earlier indexes are then already changed.
- TableUniques.OverlooksLive: the inserts and deletes of one value, 65 of each, that lead to such an index are not written out.
- TableStores.TableStore.UpdateRows: the loop visits the rows there at its start; that appending to the vector it iterates over invalidates its iterators is not modelled, nor are C++ references held across insertions into a page vector.
- TableScans.PlansAgree: nothing is claimed for LT and LTE, where evaluator and index disagree, nor for BOOL.
- ExpressionParser.TreeConsumes: only inputs without opening parentheses; a closing parenthesis is not consumed by the code.
- WalTails.AppendedFound: behind a cut in a record whose header, as far as it is there, agrees with that of the first appended record, both outcomes occur and no condition is given.
- Accounting of page sizes: the code does not raise a page's size on insert, so no capacity bound is claimed.
- StatementRuns.UpdateAsSteps: the page's LSN moves with each row there, in the code once at the end of the page; nothing reads it in between. The table object itself makes no log calls.
- Planner: column names are already resolved; log2 is any function that is not negative on positive numbers, and costs are real numbers.
- The page and index-file formats are stated on values; the stream methods are modelled for rows, metadata and log records.
- Values.OrderLaws: REAL is a real number, so NaN, signed zero and rounding are not modelled; INTEGER keeps its order but not its width.
- 64-bit wrap-around of LSNs, row ids and page numbers.
- Concurrency: locks, the commit wait of other threads, and the server.
- SELECT lists, projection, limit, the lexer, the remaining statements of the parser, the network protocol, configuration files, the command line and the C# driver.
- Generation of UUIDs and all file-system behaviour beyond maps from names to contents; each read or write is one atomic step, and fsync is not modelled separately.
- The final sort when a log is opened: the segment files are already in LSN order.
