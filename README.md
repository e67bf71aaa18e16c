# VIF disk cache — a Dafny model of its cache engine

VIF is an Android disk cache. Each entry is a file named after a ROWID, kept in
a cache directory. A SQLite table `cache` records the entry's metadata:
`client_key`, `file_size`, `finalized`, `last_used` and `created_on`. The
engine `VIF` runs every public operation as one task on a single-thread
executor:

- `put` upserts the key, writes the stream into the slot file, finalizes the
  row at the file's length and adds that length to a running total. When the
  total exceeds the budget, it evicts the least recently used rows.
- `delete`, `getAsFile` and `getAsObject` read or remove an entry.
- The constructor's recovery task removes the slots a crash left unfinalized.

The project has seven modules:

| file | module | models |
|---|---|---|
| `options.dfy` | `Options` | The `Option` datatype with `GetOr`, standing in for a Java reference that may be null. |
| `table.dfy` | `Table` | The table as `map<int, Row>` keyed by ROWID, with the unique-key invariant. The statements as functions: upsert, finalize, lookup, touch. Sums of `file_size`. The eviction walk and its lemmas. |
| `sql_text.dfy` | `SqlText` | Java's decimal rendering of a ROWID. The comma-joined list and the `DELETE` statement text, with readers that parse them back. |
| `cache_db.dfy` | `Db` | The query helper's default-on-failure rule. The class `CacheDb`: a mutable table plus a flag saying whether its reads throw. Also the lemmas about its statements. |
| `blobs.dfy` | `Blobs` | The cache directory as `map<FilePath, seq<byte>>`. Slot file names. `saveFile` outcomes. Which deletions succeed. |
| `engine.dfy` | `Engine` | The class `Vif` with its fields `db`, `maxSize`, `cacheDir`, `totalSize` and the directory `files`. Its operations as methods. Lemmas on the agreement between recorded sizes and file lengths. |
| `scenarios.dfy` | `Scenarios` | The auto-delete scenario of the instrumented tests, on concrete tables. |

Some inputs of the real system are supplied as parameters instead:

- the current time (`now`);
- the bytes of the input stream, and how the copy ended (`WriteOutcome`);
- the slot files that resist deletion (`locked`);
- whether the database's reads throw (`readFails`);
- the directory that `getExternalCacheDir()` answers (`defaultDir`);
- the parser a caller passes to `getAsObject`.

The order in which the database walks rows of equal `last_used` is a choice
the model leaves open. Every lemma about eviction holds for any walk that is
non-increasing in `last_used`.

Where the design description and the code disagree, the model follows the
code:

- `put` adds the new file length to `totalSize` without subtracting the
  length of the entry it overwrites (`Engine.PutTotalDrift`).
- `freeSpace` removes rows and files but leaves `totalSize` as it was, so the
  total stays above the budget after eviction (`Engine.Vif.FreeSpace`).
- `delete` reads the total from the table before it deletes anything
  (`Engine.Vif.Delete`).
- `prepareKey` answers with the largest ROWID, not the key's own ROWID (see
  Findings). The engine keeps that call.

## Model

| member | source | states |
|---|---|---|
| `Table.MaxId` | library/src/main/java/com/gazman/disk_cache/CacheDb.java:38-40 | `coalesce(max(ROWID), 0)`: 0 on an empty table, otherwise a ROWID of the table that is at least every other ROWID |
| `Table.FindKey` | library/src/main/java/com/gazman/disk_cache/CacheDb.java:38 | the sub-select finds a row holding the key, and finds nothing exactly when no row holds it |
| `Table.UpsertSlot` | library/src/main/java/com/gazman/disk_cache/CacheDb.java:35-41 | the ROWID the upsert writes is at least 1. It is in the table exactly when the key has a row, and then it is that row. Otherwise it is the old maximum plus one, above every ROWID |
| `Table.Prepare` | library/src/main/java/com/gazman/disk_cache/CacheDb.java:35-41 | after the upsert the table is still well formed. Exactly one row holds the key, reset to size 0, unfinalized, both times `now`. The ROWIDs grow by that slot only, and no other row changes. The largest ROWID is the slot exactly when the key was new or already held the largest ROWID |
| `Table.Finalize` | library/src/main/java/com/gazman/disk_cache/CacheDb.java:53-55 | row `id`, if present, becomes finalized with size `len`. Every other row and the set of ROWIDs are unchanged |
| `Table.LookupFinalized` | library/src/main/java/com/gazman/disk_cache/CacheDb.java:57-66 | finds a ROWID exactly when some finalized row holds the key, and that ROWID is such a row |
| `Table.Touch` | library/src/main/java/com/gazman/disk_cache/CacheDb.java:67-69 | rows holding the key get `last_used = now`. Every other row and the set of ROWIDs are unchanged |
| `Table.TotalSize` | library/src/main/java/com/gazman/disk_cache/CacheDb.java:30 | the `sum(file_size)` over the rows with `finalized = 1`, taken as a sum over their set of ROWIDs (its properties: `Table.SizeOfRemove`, `Table.TotalSizeNonNegative`) |
| `Table.SeqSize` | library/src/main/java/com/gazman/disk_cache/CacheDb.java:110-112 | the running `count` after the rows of a walk prefix, adding each row's `file_size`; never negative on a well-formed table |
| `Table.SizeOfRemove` | library/src/main/java/com/gazman/disk_cache/CacheDb.java:21-31 | a `sum(file_size)` over a set of rows does not depend on which row is counted first |
| `Table.TotalSizeNonNegative` | library/src/main/java/com/gazman/disk_cache/CacheDb.java:21-31 | the sum of finalized sizes of a well-formed table is never negative |
| `Table.SeqSizeIsSizeOf` | library/src/main/java/com/gazman/disk_cache/CacheDb.java:110-116 | on a walk without repeats, the running count equals the sum over the rows walked |
| `Table.IsLastUsedOrder` | library/src/main/java/com/gazman/disk_cache/CacheDb.java:119 | an order in which `ORDER BY last_used desc` may deliver the table: each ROWID exactly once, `last_used` never increasing, ties in any order |
| `Table.OverBudget` | library/src/main/java/com/gazman/disk_cache/CacheDb.java:109-117 | what the loop collects: the ROWID of each walk position at which the running sum exceeds the budget, in walk order; never more ROWIDs than the walk has |
| `Table.LastUsedOrderExists` | library/src/main/java/com/gazman/disk_cache/CacheDb.java:119 | every table has a walk listing each ROWID once, non-increasing in `last_used` |
| `Table.OrderElements` | library/src/main/java/com/gazman/disk_cache/CacheDb.java:119 | such a walk lists exactly the table's ROWIDs |
| `Table.OverBudgetIsSuffix` | library/src/main/java/com/gazman/disk_cache/CacheDb.java:105-120 | the collected ROWIDs are a suffix of the walk. A position lies in that suffix exactly when the running sum up to it exceeds the budget. So once a row is chosen, every later row is chosen |
| `Table.ChosenSuffix` | library/src/main/java/com/gazman/disk_cache/CacheDb.java:105-120 | the collected ROWIDs are the tail of the walk, in walk order |
| `Table.ChosenWithinTable` | library/src/main/java/com/gazman/disk_cache/CacheDb.java:105-120 | eviction chooses only ROWIDs of the table |
| `Table.KeptWithinBudget` | library/src/main/java/com/gazman/disk_cache/CacheDb.java:110-116 | with a non-negative budget, the rows walked before the first chosen one fit within the budget |
| `Table.NothingEvictedWithinBudget` | library/src/main/java/com/gazman/disk_cache/CacheDb.java:110-116 | when the whole table fits within the budget, nothing is chosen |
| `Table.EvictionRestoresBudget` | library/src/main/java/com/gazman/disk_cache/CacheDb.java:105-120 | removing every chosen row leaves a table whose total size is within a non-negative budget |
| `Table.EvictedIffNewerRowsExceed` | library/src/main/java/com/gazman/disk_cache/CacheDb.java:105-120 | take a row whose `last_used` no other row shares. It is chosen exactly when the rows used no earlier than it together exceed the budget, whatever the walk |
| `SqlText.Decimal` | library/src/main/java/com/gazman/disk_cache/CacheDb.java:95 | `append(int)` writes at least one character and never a comma |
| `SqlText.DecimalRoundTrip` | library/src/main/java/com/gazman/disk_cache/CacheDb.java:95 | reading back the decimal text of any integer, negative ones included, gives the integer |
| `SqlText.DecimalInjective` | library/src/main/java/com/gazman/disk_cache/VIF.java:243 | two integers have the same decimal text exactly when they are equal |
| `SqlText.Join` | library/src/main/java/com/gazman/disk_cache/CacheDb.java:88-96 | the ROWIDs' decimal texts with a comma between neighbours; empty exactly when there are no ROWIDs |
| `SqlText.DeleteSql` | library/src/main/java/com/gazman/disk_cache/CacheDb.java:87-97 | the text `DELETE from cache WHERE ROWID in (`, the joined ROWIDs, then `)` |
| `SqlText.JoinRoundTrip` | library/src/main/java/com/gazman/disk_cache/CacheDb.java:88-96 | the comma-joined ROWIDs parse back to the same list, in order. The empty text is the empty list |
| `SqlText.DeleteSqlRoundTrip` | library/src/main/java/com/gazman/disk_cache/CacheDb.java:86-98 | the statement `deleteKeys` builds names exactly the ROWIDs it was built from, in order |
| `SqlText.DeleteSqlInjective` | library/src/main/java/com/gazman/disk_cache/CacheDb.java:86-98 | two ROWID lists give the same statement exactly when the lists are equal |
| `Db.Query` | library/src/main/java/com/gazman/disk_cache/CacheDb.java:138-157 | the parsed value when the read neither throws nor parses null; the helper's default otherwise |
| `Db.ExecuteDelete` | library/src/main/java/com/gazman/disk_cache/CacheDb.java:98-103 | running a `DELETE … ROWID in (…)` statement removes exactly the listed ROWIDs and changes no remaining row |
| `Db.DeleteSqlRemovesListed` | library/src/main/java/com/gazman/disk_cache/CacheDb.java:86-99 | the statement `deleteKeys` runs removes exactly the rows of the given ROWIDs and keeps the others as they were |
| `Db.DeleteIdempotent` | library/src/main/java/com/gazman/disk_cache/CacheDb.java:86-99 | running the same `deleteKeys` statement twice is the same as running it once |
| `Db.PrepareAnswerIsSlotIff` | library/src/main/java/com/gazman/disk_cache/CacheDb.java:33-51 | `prepareKey`'s answer `max(ROWID)` is the key's own row exactly when the key was new or already held the largest ROWID |
| `Db.PrepareAnswerMissesExistingKey` | library/src/main/java/com/gazman/disk_cache/CacheDb.java:42-50 | on the table {1: "a", 2: "b"}, preparing "a" again upserts row 1 but answers 2 |
| `Db.TotalSizeAfterFinalize` | library/src/main/java/com/gazman/disk_cache/CacheDb.java:53-55 | finalizing an unfinalized row at `len` raises the sum of finalized sizes by `len` |
| `Db.TotalSizeAfterPrepare` | library/src/main/java/com/gazman/disk_cache/CacheDb.java:35-41 | the upsert takes the key's old finalized size, if any, out of the sum of finalized sizes |
| `Db.CacheDb.constructor` | library/src/main/java/com/gazman/disk_cache/CacheDb.java:17-19 | opens the table as it was persisted |
| `Db.CacheDb.Read` | library/src/main/java/com/gazman/disk_cache/CacheDb.java:140-146 | a read on this database throws exactly when its reads fail; otherwise it delivers what the parser made of the cursor, null included |
| `Db.CacheDb.PrepareKey` | library/src/main/java/com/gazman/disk_cache/CacheDb.java:33-51 | the table becomes the upsert of the old one. The answer is -1 when the read throws, otherwise the largest ROWID, which is a row of the table |
| `Db.CacheDb.PrepareSlot` | library/src/main/java/com/gazman/disk_cache/CacheDb.java:33-51 | the corrected `prepareKey`: the same upsert, answered by the key's own ROWID (the old one, or the fresh one), whose row holds the key; -1 when the read throws |
| `Db.CacheDb.FinalizeKey` | library/src/main/java/com/gazman/disk_cache/CacheDb.java:53-55 | the table becomes the old one with row `id` finalized at `len` |
| `Db.CacheDb.GetKey` | library/src/main/java/com/gazman/disk_cache/CacheDb.java:57-71 | the answer is not -1 exactly when the read succeeds and a finalized row holds the key, and then it is that ROWID. The key's rows are touched only then; otherwise the table is unchanged |
| `Db.CacheDb.GetCorruptedFiles` | library/src/main/java/com/gazman/disk_cache/CacheDb.java:73-84 | every ROWID with `finalized = 0`, each once, in some order; empty when the read throws |
| `Db.CacheDb.DeleteKeys` | library/src/main/java/com/gazman/disk_cache/CacheDb.java:86-99 | the statement run is the `DELETE` over exactly the given ROWIDs. Afterwards the table is the old one without those ROWIDs |
| `Db.CacheDb.BuildDeleteSql` | library/src/main/java/com/gazman/disk_cache/CacheDb.java:87-97 | the `StringBuilder` loop with the `first` flag builds exactly the `DELETE` statement over the ROWIDs, in order |
| `Db.CacheDb.GetTotalSize` | library/src/main/java/com/gazman/disk_cache/CacheDb.java:21-31 | the sum of finalized sizes, never negative; -1 when the read throws |
| `Db.CacheDb.GetKeysToDelete` | library/src/main/java/com/gazman/disk_cache/CacheDb.java:105-120 | the loop over a walk non-increasing in `last_used` returns exactly the ROWIDs at which the running sum exceeds `maxSize`, in walk order; empty when the read throws |
| `Blobs.SlotFile` | library/src/main/java/com/gazman/disk_cache/VIF.java:243 | the file `<k>.vif` in the cache directory |
| `Blobs.SlotFileInjective` | library/src/main/java/com/gazman/disk_cache/VIF.java:239-244 | in one directory, two slots share a file exactly when they are the same slot |
| `Blobs.Length` | library/src/main/java/com/gazman/disk_cache/VIF.java:91 | `File.length()`: the number of bytes of the file, 0 when it does not exist |
| `Blobs.Saved` | library/src/main/java/com/gazman/disk_cache/VIF.java:259-274 | no other file changes. After a copy the file exists, holds a prefix of the stream, and its length is the count copied. When the file cannot be opened, nothing changes |
| `Blobs.Deletable` | library/src/main/java/com/gazman/disk_cache/VIF.java:235-237 | `deleteFile` succeeds exactly when the file does not exist or `delete()` removes it: the file is absent, or present and not locked |
| `Blobs.Deleted` | library/src/main/java/com/gazman/disk_cache/VIF.java:247-255 | the cleaned list: the keys, in order, whose slot file is deletable on the directory as it was at the start; never longer than the keys |
| `Blobs.DeletedElements` | library/src/main/java/com/gazman/disk_cache/VIF.java:246-255 | `removeKeys` cleans a ROWID exactly when it is among the keys and its slot file was absent or could be deleted |
| `Engine.Agrees` | library/src/main/java/com/gazman/disk_cache/VIF.java:91-92 | every finalized row's `file_size` is the length of its slot file, as `put` records it with `finalizeKey(k, file.length())` |
| `Engine.PrepareKeepsAgreement` | library/src/main/java/com/gazman/disk_cache/VIF.java:88 | the upsert keeps every finalized row's size equal to its file's length |
| `Engine.SaveAndFinalizeKeepAgreement` | library/src/main/java/com/gazman/disk_cache/VIF.java:89-92 | writing slot `k`'s file, then finalizing row `k` at that file's length, keeps every finalized row's size equal to its file's length |
| `Engine.DeletedCovers` | library/src/main/java/com/gazman/disk_cache/VIF.java:246-257 | a ROWID whose file `removeKeys` was asked to delete, and that is not locked, is among the cleaned ROWIDs |
| `Engine.RemovalKeepsAgreement` | library/src/main/java/com/gazman/disk_cache/VIF.java:246-257 | dropping the cleaned rows and the deletable files keeps every remaining finalized row's size equal to its file's length |
| `Engine.PutTotalDrift` | library/src/main/java/com/gazman/disk_cache/VIF.java:93 | when `put` writes the key's own row, the table's total moves by the new length less the key's old size. `put` adds only the new length |
| `Engine.PutThenGet` | library/src/androidTest/java/com/gazman/disk_cache/ExampleInstrumentedTest.java:46-72 | after a `put` on the key's own row, a read finds that row finalized, and its file holds the copied bytes of the stream |
| `Engine.PutOverOlderKeyIsLost` | library/src/main/java/com/gazman/disk_cache/VIF.java:88-92 | when the answer of `prepareKey` is another key's row, `put` finalizes that other row at the new length, and the key itself has no finalized row |
| `Engine.GetAfterDeleteFindsNothing` | library/src/androidTest/java/com/gazman/disk_cache/ExampleInstrumentedTest.java:92-120 | after `delete`'s upsert, whatever rows are then removed, no finalized row holds the key: the read delivers null |
| `Engine.DeleteOfOlderKeyHitsAnother` | library/src/main/java/com/gazman/disk_cache/VIF.java:113-120 | when the answer of `prepareKey` is another key's row, `delete` removes that other row and keeps the key's own row, unfinalized |
| `Engine.RemoveStep` | library/src/main/java/com/gazman/disk_cache/VIF.java:248-255 | one iteration of the loop in `removeKeys` moves both the cleaned list and the directory on by the next ROWID |
| `Engine.RemoveOneKeepsAgreement` | library/src/main/java/com/gazman/disk_cache/VIF.java:119-120 | deleting one slot's file and then its row keeps the remaining sizes equal to their files' lengths |
| `Engine.RecoveryIsOrderFree` | library/src/main/java/com/gazman/disk_cache/VIF.java:50 | working through any list of the unfinalized ROWIDs cleans the same ROWIDs and tries the same files, whatever the list's order |
| `Engine.Vif.constructor` | library/src/main/java/com/gazman/disk_cache/VIF.java:43-54 | after the recovery task, unfinalized rows are gone where their file could be deleted, and so are those files. The total is taken from the table. Agreement of sizes and files is kept |
| `Engine.Vif.Recover` | library/src/main/java/com/gazman/disk_cache/VIF.java:47-53 | removes every unfinalized row whose file is absent or deletable, and every deletable unfinalized file, then sets `totalSize` to `getTotalSize()`. When the reads throw, only the total changes |
| `Engine.Vif.ToFile` | library/src/main/java/com/gazman/disk_cache/VIF.java:239-244 | fixes the directory on first use, then answers `<dir>/<k>.vif` |
| `Engine.Vif.DeleteFile` | library/src/main/java/com/gazman/disk_cache/VIF.java:235-237 | succeeds exactly when the file is absent or not locked, and only then is the file gone |
| `Engine.Vif.DeleteSlotFiles` | library/src/main/java/com/gazman/disk_cache/VIF.java:247-255 | the loop collects, in order, the ROWIDs whose file is gone, and removes every deletable file among the keys' files |
| `Engine.Vif.RemoveKeys` | library/src/main/java/com/gazman/disk_cache/VIF.java:246-257 | rows are deleted only for the cleaned ROWIDs; ROWIDs whose file resisted keep their rows and files. The directory loses exactly the deletable files of the keys. Agreement is kept |
| `Engine.Vif.FreeSpace` | library/src/main/java/com/gazman/disk_cache/VIF.java:227-229 | removes the slots `getKeysToDelete(maxSize)` chooses on some walk of the table, and leaves `totalSize` as it was |
| `Engine.Vif.Store` | library/src/main/java/com/gazman/disk_cache/VIF.java:88-93 | the slot is `prepareKey`'s answer. Its file becomes the saved stream. Its row is finalized at that file's length, and `totalSize` grows by exactly that length |
| `Engine.Vif.Put` | library/src/main/java/com/gazman/disk_cache/VIF.java:84-102 | the store step as above. Eviction runs exactly when the new `totalSize` exceeds `maxSize`, and then removes the slots `getKeysToDelete` chooses on the stored table. Agreement is kept |
| `Engine.Vif.Delete` | library/src/main/java/com/gazman/disk_cache/VIF.java:109-126 | `delete` works on slot `k = prepareKey(key)`. When `k` is -1, the table is left as the upsert made it and nothing else changes. Otherwise `totalSize` is set to `getTotalSize()` first. Row `k` and its file are removed exactly when the file was deletable; otherwise both stay |
| `Engine.Vif.GetAsFile` | library/src/main/java/com/gazman/disk_cache/VIF.java:136-150 | yields slot `k`'s file exactly when `getKey` finds a finalized row, and null otherwise. Only `last_used` changes |
| `Engine.Vif.GetAsObject` | library/src/main/java/com/gazman/disk_cache/VIF.java:161-197 | delivers `onResult(null)` when the key is not found. Otherwise it delivers `onResult` of the parsed value, or `onError` when the parser throws. Apart from `last_used`, nothing changes |
| `Scenarios.FirstPut` | library/src/androidTest/java/com/gazman/disk_cache/ExampleInstrumentedTest.java:124 | `put("object1")` on the empty table takes ROWID 1, and `prepareKey` answers 1 |
| `Scenarios.SecondPut` | library/src/androidTest/java/com/gazman/disk_cache/ExampleInstrumentedTest.java:125 | `put("object2")` takes ROWID 2, and `prepareKey` answers 2 |
| `Scenarios.SecondPutWithinBudget` | library/src/androidTest/java/com/gazman/disk_cache/ExampleInstrumentedTest.java:125 | after the second put the table holds exactly 2 MiB, which does not exceed the budget, so nothing is evicted |
| `Scenarios.ReadFirst` | library/src/androidTest/java/com/gazman/disk_cache/ExampleInstrumentedTest.java:126 | reading object1 finds ROWID 1 and moves its `last_used` to the read's time |
| `Scenarios.ThirdPut` | library/src/androidTest/java/com/gazman/disk_cache/ExampleInstrumentedTest.java:127 | `put("object3")` takes ROWID 3, and `prepareKey` answers 3 |
| `Scenarios.ThirdPutExceedsBudget` | library/src/androidTest/java/com/gazman/disk_cache/ExampleInstrumentedTest.java:127 | after the third put the table holds 3 MiB against a 2 MiB budget, so eviction runs |
| `Scenarios.AutoDeleteEvictsSecond` | library/src/androidTest/java/com/gazman/disk_cache/ExampleInstrumentedTest.java:122-131 | when the read and the third put fall on later milliseconds than the second put, eviction chooses exactly object2's row on whatever walk the database takes, so object1 and object3 remain |

## Left out

- The executor, `Handler` posting, `shutDown` and `shutDownAndWait`. Each task runs to completion in order on one thread, so each operation is one method. Callbacks are return values.
- Put's completion callback: it carries no data, so it is not modelled.
- `setCacheDir` after construction. The directory is a constructor parameter, in force before any task runs. A later call races with the tasks already queued, and is not modelled.
- `saveFile`'s buffer, its read/write loop and `close`. The copy is abstracted as the file holding the first `count` bytes of the stream, or as untouched when the file cannot be opened.
- SQLite, `Cursor` and `SqlHelper`. Only the schema and the unique index on `client_key` shape `Row` and `TableOk`.
- Failures of individual queries. Whether reads throw is fixed per database (`readFails`), and statements that write always succeed.
- `Log` calls and `printStackTrace`. `getExternalCacheDir()` is the parameter `defaultDir`.
- Engine.Vif.ToFile: `getExternalCacheDir()` is taken to answer a directory. When it answers null, Java's `toFile` builds a path relative to the working directory and asks again on the next call. That case is not modelled.
- The sample app's `MainActivity` and the test runner.
- Db.CacheDb.GetKeysToDelete and Db.CacheDb.GetTotalSize: sums are unbounded integers. The 64-bit `long` overflow of `count` and of the SQL sum is not modelled.
- Engine.Vif.Put: `totalSize` is unbounded, so its `long` overflow is not modelled.
- Db.CacheDb.PrepareKey, Db.CacheDb.GetCorruptedFiles, Db.CacheDb.GetKeysToDelete and Engine.Vif.Delete: ROWIDs are unbounded. The truncation of a ROWID above 2^31 - 1 by `getInt` (`CacheDb.java` lines 46, 79 and 114) and by `delete`'s `int k` (`VIF.java` line 113) is not modelled.
- Table.UpsertSlot: the sub-select is `SELECT ROWID … WHERE client_key = ? UNION SELECT max(ROWID) + 1 … limit 1`. `UNION` removes duplicates, and SQLite in practice returns its rows in ascending order. The key's ROWID is always below max + 1, so the model takes the key's ROWID when the key exists and max + 1 otherwise.
- Scenarios.AutoDeleteEvictsSecond: the test reads the device clock. When the read falls on the same millisecond as the second put, the two rows tie in `last_used`, and which one is evicted depends on how SQLite breaks the tie. The model states the scenario only for strictly later times.
- Db.CacheDb.GetKeysToDelete: the walk is a nondeterministic choice of a non-increasing order of `last_used`. How SQLite breaks ties is not modelled, and every property is stated for all such orders.
- The slot files form a map from path to bytes only. Directories, permissions and what `File.exists` sees across processes are not modelled.

## Findings

| source | as written | input that shows it | evidently intended | confidence | as-written member | corrected member |
|---|---|---|---|---|---|---|
| library/src/main/java/com/gazman/disk_cache/CacheDb.java:42-50 | `prepareKey` answers `select max(ROWID)`, the largest ROWID of the table | table {1: "a", 2: "b"}, then `prepareKey("a")`: the upsert rewrites row 1, and the answer is 2 | answer the ROWID the upsert wrote, the key's own row | not executed | `Db.PrepareAnswerMissesExistingKey` | `Db.CacheDb.PrepareSlot` |

Re-putting a key that is not the newest then goes wrong in `put`. The file of
another key's slot is overwritten, and that other row is finalized at the new
length. The key's own row stays unfinalized, so a read finds nothing
(`Engine.PutOverOlderKeyIsLost`). `delete` of such a key removes the other
key's row and file instead (`Engine.DeleteOfOlderKeyHitsAnother`).

With the corrected answer, a read after a `put` whose slot file could be
opened finds the key and its bytes (`Engine.PutThenGet`). The engine `Vif` keeps the call as written,
because that is the behaviour of the code as it stands. The corrected
`Db.CacheDb.PrepareSlot` stands beside `Db.CacheDb.PrepareKey`, and
`Db.PrepareAnswerIsSlotIff` says exactly when the two answers agree.
