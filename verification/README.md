# PPBase native backup and destructive restore: a Dafny model

The files here model the native backup of PPBase, the archive format it writes, and the
destructive restore that replays an archive over a running installation, and prove what those
parts promise about every input, every run and every crash.

| files | what they model |
|---|---|
| `RestoreMachine`, `RestoreInvariant`, `RestoreRecovery`, `RestoreTheorems`, `RestoreProgress`, `RestoreConvergence` | destructive restore, service and start-up recovery as one transition system; crash refinement, coupling, convergence, fence safety |
| `RestoreProgram`, `RestoreGuarantees`, `CutoverGuard` | the same protocol as classes and methods that change the world in place, each proved against what it leaves on disk and to stay inside any set of states that system does not leave |
| `Codec`, `StoredCodec`, `CopySegments`, `CopyReader`, `CopyWriter` | the `data.copy` container |
| `Utf8`, `Utf8Form`, `Json`, `JsonNormal`, `JsonLoops`, `JsonParser`, `JsonShortest`, `JsonRecords` | canonical JSON |
| `SqlWords`, `SqlLexer`, `SqlGrammar`, `SqlFragment`, `SqlMeaning` | the SQL lexer and the read-only check |
| `SchemaTypes`, `SchemaContract`, `SchemaAccepts`, `SchemaMeaning`, `SchemaJson`, `SchemaDictionary`, `SchemaReads`, `SchemaBytes`, `SchemaLoads`, `SchemaLoading`, `SchemaForms` | `schema.json` |
| `ViewOrder`, `ViewRanks`, `NativeDatabase`, `NativeRebuild`, `NativeArchive`, `RebuildMeaning`, `ArchiveForms`, `ForeignForms`, `AuthCollection` | view order, rebuild and the export/rebuild inverse |
| `ZipDirectory`, `ZipWriter` | the ZIP end-record search and central-directory walk, against writers of archives |
| `ArchiveStore`, `Leases`, `LeaseRuns`, `SettingsMerge`, `SettingsRuns`, `SettingsUpdates` | publication, leases, settings commits |
| `FileReferences`, `InventoryFormat`, `StorageNames` | the two injective encodings |
| `Results`, `Bytes`, `Text`, `Ordering` | shared vocabulary |

## How the restore is modelled

The data directory is a history of snapshots. The first is on disk, each later one adds one
directory operation that has not been fsynced, the last is what the running process sees. An
fsync of the directory makes the last one durable. `PowerLoss(keep)` keeps any snapshot of the
history, that is, loses any suffix of the operations since the last fsync; `ProcessDies` loses
nothing but the process. A journal write is four effects (create, fsync of the file, replace,
fsync of the directory), a recursive removal two. An error or cancellation may surface at any
step. The database is one atomic transaction with its marker.

`database_committed` alone is not evidence of a commit because its record is only a hint: what
couples files and database is that the marker implies the journal and both swapped entries
(`CouplingInEveryRun`), and recovery decides by the marker or by `finalizing`.

The methods take a set of states `r` that no event of the program leaves (`Closed`) and promise
to stay in it; `RestoreGuarantees` supplies the invariant and the reachable states for `r`. What
can fail in the environment (the world, a directory, a sink, a connection, the lock table) sets a
ghost flag when it does, and contracts say that a method fails only when the flag is set.

## Where the code does less than it promises

1. Recovery that reads `finalizing` does not know whether that record is durable. If an earlier
   recovery was killed, or raised, between `os.replace` and the directory fsync, the next one
   skips the write, drops and commits the marker, and a power failure then brings back the older
   record without a marker: the old files are put back under the new database.
   `PrematureDropIsReachable` is such a run, `DropIsSafeIffSealIsDurable` the exact condition, and
   the run theorems are stated for runs that meet it (`SealedRun`), among them every run in which
   each crash at that point is a power failure (`GentleRunsAreSealed`).
2. Strings outside NFC are normalised silently when `schema.json` is written (`LoadsComposed` says
   exactly what comes back). A view definition in another form is exported and restored without
   complaint as a different view (`ForeignViewComesBackChanged`), a migration name as another name
   (`ForeignFormIsLost`). `EndToEnd` has the exact condition for the database and for the schema.
3. Publishing holds no lease on `backups`. A download may pin an archive between its link and a
   later failure of the same publication, whose cleanup then unlinks it under the reader
   (`UnlinkUnderPin`; exact condition in `OnlyRollbackUnlinksPinned`). Deletion never does this.
4. A reconciliation of the settings that itself fails leaves live and durable storage different
   until the next one (`FailedReconciliationDisagrees`; exact condition in
   `DirtyIffSomeSettingsDisagree`).
5. Which workspaces a recovery removes can depend on a power failure during it
   (`RecoveriesCanDiffer`; exact condition in `RecoveriesAgreeExactlyIff`). Database, storage and
   secret never do (`RecoveriesAgree`).

## Assumptions about the environment

- A PostgreSQL transaction is atomic and settled before its marker is read. A transaction that
  commits after its marker was read as absent is excluded.
- `rename` and `os.replace` are atomic. The prepared workspace is durable before the cutover
  begins; recovery's validation of the restored files against the inventory may fail at any
  time and then stops the start-up.
- zlib obeys the laws in `Codec`, which `StoredCodec` shows to be satisfiable; SHA-256 is
  injective where a statement says so; NFC is idempotent, leaves ASCII alone, makes no
  text empty and keeps fronts of NFC texts; the Unicode tables agree with ASCII below 128
  (decimal digits included, for `AuthCollection`, where SHA-256 also prints as 64 hexadecimal digits).
- `flock` is a readers-writer lock released when its process dies. The write barrier is exclusive
  and held by the session that commits, so a commit lands before the barrier is free again.
- Random names (temporary files, restore identifiers) are not drawn twice; closing a descriptor does not fail.
- Python recursion limits and memory are not modelled; integers are unbounded except where the
  source bounds them.

## Model

| member | source | states |
|---|---|---|
| `RestoreTheorems.CrashRefinement` | ppbase/backup/destructive.py:322-382 | In every run of any number of restores, crashes, errors and recoveries (marker drops sealed), a serving process sees database, storage and secret of the one generation that an atomic old-to-new variable, switched at each database commit, is in; so does every snapshot a power failure could leave; `committed` is reported exactly for restores whose transaction committed |
| `RestoreTheorems.CouplingInEveryRun` | ppbase/backup/destructive.py:704-743 | In every snapshot of every reachable state: a marker has a journal of its restore and both files swapped; `database_committed` implies the marker; `finalizing` implies the commit; before the commit the current generation is intact under one of its two names; previous files are missing only under `finalizing` |
| `RestoreTheorems.RunKeeps` | ppbase/backup/destructive.py:653-770 | The coupling invariant survives whole runs, so the refusals (marker without journal, another restore's marker, invalid journal, missing files, changed marker) are never reached from the protocol's own steps |
| `RestoreInvariant.StepKeeps` | ppbase/backup/destructive.py:653-770 | Every single step (rename, mkdir, removal, fsync, journal effect, commit, marker drop, error, crash, restart) keeps the coupling invariant when a marker is dropped only over a durable seal |
| `RestoreTheorems.DropIsSafeIffSealIsDurable` | ppbase/backup/destructive.py:724-733 | Removing the marker is safe against every later power failure if and only if the `finalizing` record is durable at that moment |
| `RestoreTheorems.UnsealedDropMixes` | ppbase/backup/destructive.py:724-733 | Whenever it is not, a power failure and an undisturbed start-up serve the old files with the new database |
| `RestoreProgress.PrematureDropIsReachable` | ppbase/backup/destructive.py:724-733 | Such a run exists from the initial state: recovery is killed between replacing the journal and fsyncing the directory, the next start-up reads `finalizing` from the page cache, skips the write, drops the marker, and power fails |
| `RestoreTheorems.GentleRunsAreSealed` | ppbase/backup/destructive.py:724-733 | Runs in which no recovery is killed or raises between that replace and that fsync (a power failure there is harmless) never drop a marker early |
| `RestoreTheorems.FenceOpensOnlyWhenOld` | ppbase/backup/service.py:1542-1555 | The guard opens in a live process only when database and files, in every snapshot, are the old generation, and no journal is left |
| `RestoreTheorems.MixedMeansFenced` | ppbase/backup/service.py:1477-1506 | While any snapshot mixes generations the process is fenced, down or recovering |
| `RestoreTheorems.RecoveryConverges` | ppbase/backup/destructive.py:734-767 | When the snapshots on disk head for one outcome, recovery cut off any number of times by errors, kills and power failures ends in it |
| `RestoreConvergence.RecoveriesAgree` | ppbase/backup/destructive.py:653-770 | From every state of the protocol, killed at any step, any two completed recoveries leave the same database and the same storage and secret (except that a storage directory or secret the original installation lacks may be there or not) |
| `RestoreConvergence.RecoveriesAgreeExactlyIff` | ppbase/backup/destructive.py:653-770 | All completed recoveries of a stopped process leave exactly the same directory entries, workspaces included, if and only if its snapshots head for one outcome |
| `RestoreConvergence.RecoveriesCanDiffer` | ppbase/backup/destructive.py:334-345 | A process killed inside the first journal write is a state in which they do not: whether the workspace goes depends on what a power failure takes back |
| `RestoreTheorems.StartupReaches` | ppbase/backup/destructive.py:653-770 | From any snapshot on disk a start-up that is left alone terminates in the outcome that the snapshot and the marker determine |
| `RestoreRecovery.Completes` | ppbase/backup/destructive.py:653-770 | A remaining-work measure bounds the number of steps of an undisturbed recovery |
| `RestoreTheorems.FurtherStartupDoesNothing` | ppbase/backup/destructive.py:674-680 | A start-up after a reported recovery returns nothing and changes nothing |
| `RestoreTheorems.SecondRollbackChangesNothing` | ppbase/backup/service.py:245-256 | The service's rollback after the swap's own rollback changes neither files nor database, whether the first one removed a journal or there was none yet |
| `RestoreProgress.RestoreCompletes` | ppbase/backup/service.py:1430-1517 | A restore that meets no error reaches the committed database, the new files and a durable `database_committed` record |
| `RestoreProgram.WriteJournal` | ppbase/backup/destructive.py:218-271 | A journal write takes exactly the four machine steps; it fails only with a fault, then removes its temporary file and leads to the caller's handler; otherwise the record is durable and nothing else has changed |
| `RestoreProgram.ClearJournal` | ppbase/backup/destructive.py:273-288 | Clearing walks unlink and fsync, a missing journal returns at once, and only a fault makes it fail |
| `RestoreProgram.PreparedStorageRestore.SwapIntoPlace` | ppbase/backup/destructive.py:322-382 | The swap ends swapped, or behind its own rollback with the service's rollback still to come; it fails only with a fault, a second call or a missing input |
| `RestoreProgram.PreparedStorageRestore.Rollback` | ppbase/backup/destructive.py:406-420 | Rollback ends ready to leave, or fenced after a fault, which is the only way it fails |
| `RestoreProgram.RollbackStorage` | ppbase/backup/destructive.py:384-393 | The previous tree takes the place of the active one, or the step fails with a fault |
| `RestoreProgram.PreparedStorageRestore.MarkDatabaseCommitted` | ppbase/backup/destructive.py:422-423 | The durable record says `database_committed` and nothing else has changed, or a fault fences |
| `RestoreProgram.RestoreUnderLease` | ppbase/backup/service.py:1430-1555 | Without a fault, and with workspace and secret there, the cutover ends waiting for the restart with the new entries, the kept old ones and the committed database; it is fenced only after a fault; otherwise it is rolled back with no journal left, and exactly then the guard is closed |
| `RestoreProgram.Settle` | ppbase/backup/service.py:1477-1506 | The marker read from an independent connection decides: with it the commit is validated and recorded, without it everything is rolled back, and only a fault fences |
| `RestoreProgram.Recover` | ppbase/backup/destructive.py:653-770 | Start-up recovery stops only after a fault and refuses only contradictory disks; otherwise it serves, with exactly the files and database that journal and marker call for: old ones put back, or new ones kept and the marker gone, and no journal or workspace |
| `RestoreGuarantees.RestoreSafely` | ppbase/backup/service.py:1430-1555 | One restore from any state of the protocol: when it returns with the guard closed, every snapshot holds the old generation and no journal; when it awaits the restart, every snapshot holds the new files with the old ones kept, and the database is committed; otherwise the guard is up |
| `RestoreGuarantees.RecoverSafely` | ppbase/backup/destructive.py:653-770 | One start-up from any state of the protocol whose seal is durable never refuses, serves unless there is a fault, and then every snapshot holds the one generation of the database |
| `RestoreGuarantees.InvariantIsClosed` | ppbase/backup/destructive.py:653-770 | No event of the program leaves the coupling invariant, so the methods above keep it |
| `RestoreGuarantees.ReachIsClosed` | ppbase/backup/destructive.py:653-770 | Nor the states a sealed run reaches, so whatever the methods leave is reached by a run of the transition system and the theorems about runs apply |
| `CutoverGuard.BackupCutoverGuard.Close` | ppbase/backup/service.py:170-190 | Closing releases the barrier first and then every retained context last-in first-out, whatever raises; a second close does nothing |
| `CutoverGuard.BackupCutoverGuard.RetainOperationContext` | ppbase/backup/service.py:164-168 | A context is added exactly when the guard is open |
| `CutoverGuard.ReversedIsLastInFirstOut` | ppbase/backup/service.py:170-190 | The contexts are closed last in, first out, each once |
| `StoredCodec.StoredIsLawful` | ppbase/backup/copy_format.py:362-424 | The codec laws assumed of zlib hold of a concrete streaming codec |
| `CopySegments.ValidateSegmentLayout` | ppbase/backup/copy_format.py:224-262 | A layout is accepted exactly when the segments tile the file, each `uncompressed_size` is at most `compressed_size * max_ratio`, and the total is within the budget |
| `CopySegments.LayoutBoundsInflation` | ppbase/backup/copy_format.py:224-276 | An accepted layout inflates to at most ratio times the file size |
| `CopySegments.TilesPartition` | ppbase/backup/copy_format.py:224-262 | Every byte position of a tiled file lies in exactly one segment |
| `CopyReader.SegmentReader.IterUncompressed` | ppbase/backup/copy_format.py:452-518 | For any file bytes and record, finishes normally exactly when the range is one whole stream with the recorded sizes and hashes and the inflated size is at most ratio times the stored one, having yielded its content; never yields more than the recorded size, never reads outside the recorded range, never inflates without a limit |
| `CopyReader.SegmentReader.InflateChunk` | ppbase/backup/copy_format.py:484-498 | The inner loop makes progress or proves the range bad |
| `CopyReader.StepProgress` | ppbase/backup/copy_format.py:484-498 | One bounded decompress call keeps the relation between bytes taken and bytes given |
| `CopyWriter.SegmentWriter.Emit` | ppbase/backup/copy_format.py:310-328 | With a sink that takes any positive part of what it is given, all bytes land in order; it fails only when the sink has stalled |
| `CopyWriter.SegmentWriter.WriteSegment` | ppbase/backup/copy_format.py:347-424 | The record describes exactly the stream that landed; it fails only for a stalled sink or a bad name or column list |
| `CopyWriter.WriteTables` | ppbase/backup/native.py:302-316 | Exporting any tables over a fresh file leaves a container of their streams, unless the sink stalls or a table has a bad name or column list |
| `CopyWriter.ContainerTiles` | ppbase/backup/copy_format.py:224-262 | The returned segments tile the file with no gap or overlap |
| `CopyWriter.ContainerReadsBack` | ppbase/backup/copy_format.py:452-518 | Each segment whose plain size is at most ratio times its stored size reads back as the concatenation of the chunks it was fed |
| `CopyWriter.OnlyTheOriginalReads` | ppbase/backup/copy_format.py:452-518 | A written segment reads from any file, through any decompressor, exactly (no other bytes having its hashes) when the recorded range holds the stream that was written, it inflates to what was fed, and the ratio is allowed |
| `Utf8.RoundTrip` | ppbase/backup/models.py:226-239 | Strict UTF-8 decoding inverts encoding |
| `Utf8.DecodeInverts` | ppbase/backup/models.py:272-280 | Decoding accepts only what encoding produces |
| `Utf8Form.PointsAreWellFormed` | ppbase/backup/models.py:226-239 | The encodings of scalar values are exactly the well-formed byte sequences of table 3-7 of the Unicode Standard |
| `Utf8Form.EncodeKeepsOrder` | ppbase/backup/models.py:226-239 | Encoded strings stand in the order of the strings; with the well-formed sequences fixed, that leaves one encoding |
| `Json.NormalizeIsNormal` | ppbase/backup/models.py:151-198 | A normalised value is left alone by normalising again |
| `JsonNormal.NormalizeMeans` | ppbase/backup/models.py:151-198 | A value normalises to another exactly when that one is the same value with every string and key in NFC: 64-bit integers, strings UTF-8 can hold, no two keys that become one, no floats and no foreign objects |
| `JsonNormal.BytesMean` | ppbase/backup/models.py:226-239 | Canonical bytes exist exactly for those values and are the printed NFC form in UTF-8 |
| `JsonLoops.NormalizeMapping` | ppbase/backup/models.py:167-187 | The mapping loop accepts exactly the mappings the specification accepts and builds its result |
| `JsonLoops.PairsWithoutDuplicates` | ppbase/backup/models.py:263-269 | A dictionary comes out exactly when no key repeats |
| `JsonParser.PrintParses` | ppbase/backup/models.py:226-239 | A printed value parses back to itself in front of any delimiter |
| `JsonParser.CanonicalRoundTrip` | ppbase/backup/models.py:226-296 | Canonical bytes exist exactly for admissible values, are accepted, and parse to the normalised value |
| `JsonParser.AcceptedIffCanonical` | ppbase/backup/models.py:272-296 | A payload is accepted exactly when it is the canonical form of some value |
| `JsonParser.AcceptedPayloadsAreUnique` | ppbase/backup/models.py:272-296 | Two accepted payloads with equal values are the same bytes |
| `JsonParser.CanonicalInjective` | ppbase/backup/models.py:226-239 | Equal canonical bytes come from values with the same normal form |
| `JsonShortest.QuoteIsShortest` | ppbase/backup/models.py:226-239 | No JSON spelling of a string is shorter than the printed one, and it is the only one of its length that writes hexadecimal digits in lower case |
| `JsonShortest.PrintIsShortest` | ppbase/backup/models.py:226-239 | No JSON text of a value is shorter than the printed one: no spaces, no padding, no longer escape |
| `JsonShortest.PrintedKeysAscend` | ppbase/backup/models.py:226-239 | Read off the printed text, the keys of an object ascend strictly by code points |
| `JsonShortest.PrintedWords` | ppbase/backup/models.py:226-239 | The literals are `null`, `true` and `false` |
| `SqlLexer.LexReassembles` | ppbase/backup/schema_contract.py:290-393 | A successful tokenisation cuts the text into pieces, each spelled as its token says, that end to end are the text |
| `SqlGrammar.LexIsGrammar` | ppbase/backup/schema_contract.py:290-393 | Tokenising gives a list of pieces exactly when they spell the text and each is cut where the lexical grammar ends it |
| `SqlLexer.LiteralInsideIsOpaque` | ppbase/backup/schema_contract.py:344-369 | Replacing the inside of a plain quoted constant changes that one token and nothing else |
| `SqlLexer.UnquoteInverts` | ppbase/backup/schema_contract.py:328-343 | The unquoted name of a quoted identifier determines its spelling |
| `SqlFragment.TokenizeSql` | ppbase/backup/schema_contract.py:290-393 | The index loops compute the specified token list, and fail exactly where it fails |
| `SqlFragment.ValidateReadonlySql` | ppbase/backup/schema_contract.py:402-482 | The check returns the trimmed text exactly for the fragments the closed grammar accepts |
| `SqlMeaning.AcceptedMeans` | ppbase/backup/schema_contract.py:402-482 | A fragment is accepted, as a given text, exactly when it is not blank and at most 100000 characters long, that is its trimmed text, and the text is cut by the lexical grammar into pieces of which no bare word is forbidden, every name in front of `(` is unqualified and structural or on the allowlist, no catalog qualifier and no bare semicolon occurs, and, where a query is required, the first piece starts one |
| `SqlMeaning.TrimMeans` | ppbase/backup/schema_contract.py:415-417 | What trimming leaves: the white space at the end is cut off, then one semicolon if it stands there, then the white space before that |
| `SqlFragment.SemicolonsInside` | ppbase/backup/schema_contract.py:422-424 | In an accepted fragment a semicolon stands only inside a literal or a quoted identifier |
| `SqlFragment.ValidationIsIdempotent` | ppbase/backup/schema_contract.py:402-482 | Checking a captured fragment again accepts it and returns it unchanged |
| `SqlFragment.VerdictIgnoresConstants` | ppbase/backup/schema_contract.py:402-482 | For every plain quoted constant that the lexer cuts out of a text: the verdict on the text does not change when the inside of that constant is replaced, within the length limit, by any text whose quotes are doubled |
| `SchemaMeaning.SchemaMeans` | ppbase/backup/schema_contract.py:520-942 | A schema is constructed exactly when every name, column type, default, key, method, digest and version is one the contract lists, the parts refer to one another as they must, the segments tile the data within the ratio and 64 GiB, every view passes the check as a query and every predicate as an expression; and it differs from what was given only in the cut ends of those texts |
| `SchemaAccepts.TableMeans` | ppbase/backup/schema_contract.py:520-607 | A table is accepted exactly with plain distinct column names, listed types and defaults, and keys made of its columns |
| `SchemaAccepts.IndexMeans` | ppbase/backup/schema_contract.py:686-710 | An index is constructed exactly when its names are plain, its method is listed and its predicate, if there is one, passes as an expression |
| `SchemaAccepts.ViewMeans` | ppbase/backup/schema_contract.py:765-771 | A view is constructed exactly when its names are plain and its definition passes as a query |
| `SchemaContract.ConstructionIsIdempotent` | ppbase/backup/rebuild.py:146-155 | Every check passes again on a constructed schema and returns the captured definitions and predicates unchanged |
| `SchemaJson.DictRoundTrip` | ppbase/backup/schema_contract.py:945-995 | Any constructed schema comes back equal from its dictionary |
| `SchemaDictionary.SchemaIsDictionary` | ppbase/backup/schema_contract.py:945-957 | `schema.json` has exactly these ten entries |
| `SchemaDictionary.TableDictionary` | ppbase/backup/schema_contract.py:609-616 | The dictionary of a table, entry by entry |
| `SchemaDictionary.IndexDictionary` | ppbase/backup/schema_contract.py:711-721 | The dictionary of an index, entry by entry |
| `SchemaDictionary.SegmentDictionary` | ppbase/backup/copy_format.py:180-192 | The dictionary of a segment, entry by entry |
| `SchemaBytes.SchemaRoundTrip` | ppbase/backup/schema_contract.py:945-1015 | A constructed schema whose strings are in NFC has canonical bytes, and loading them gives an equal schema |
| `SchemaLoads.LoadedIsStorable` | ppbase/backup/schema_contract.py:996-998 | Whatever the payload, a loaded schema has only NFC strings and 64-bit integers |
| `SchemaLoading.LoadMeans` | ppbase/backup/schema_contract.py:959-998 | Any payload: it loads as a schema exactly when it is the canonical form of a dictionary, with the schema's entries and no others, from which that schema is constructed |
| `SchemaLoading.ArchiveLoadMeans` | ppbase/backup/schema_contract.py:1001-1015 | It loads as a restorable archive exactly when every table has its segment, too |
| `SchemaReads.SchemaReadsAs` | ppbase/backup/schema_contract.py:969-995 | A JSON value is read as a schema exactly when it is that dictionary, every entry of its type; a string or dictionary passes for `included` and an empty one for `unique_constraints`, because those are merely iterated |
| `SchemaLoads.RoundTripIffStorable` | ppbase/backup/schema_contract.py:945-1015 | The round trip succeeds if and only if the schema's strings are in NFC and its integers fit |
| `SchemaForms.LoadsComposed` | ppbase/backup/schema_contract.py:945-1015 | The bytes of any constructed schema load as what construction makes of that schema with its free strings in NFC, or fail exactly when construction refuses it |
| `ForeignForms.ForeignFormIsLost` | ppbase/backup/schema_contract.py:959-960 | A migration file named by a Greek question mark is stored without complaint and comes back named by a semicolon, everything else equal |
| `SchemaBytes.SegmentsCoverTables` | ppbase/backup/schema_contract.py:893-942 | In a complete archive segments and tables correspond one to one, with the same columns in the same order |
| `ViewOrder.OrderMeaning` | ppbase/backup/rebuild.py:158-192 | An order is found exactly when the view-only needs without self-loops have no cycle; it lists every view once, behind all it needs; what is reported otherwise hold each other up |
| `ViewRanks.OrderIsRanked` | ppbase/backup/rebuild.py:158-192 | The order exactly: by rank and within a rank by name, where a view's rank is the first pass in which it can follow everything it depends on (the same pass as a dependency of a smaller name, else the next); an order exists if and only if ranks do |
| `ViewOrder.OrderIgnoresListing` | ppbase/backup/rebuild.py:158-192 | The order depends on which views there are, not on how they are listed |
| `ViewOrder.OrderViews` | ppbase/backup/rebuild.py:158-192 | The multi-pass loops compute that order and terminate |
| `Ordering.SortBy` | ppbase/backup/rebuild.py:329-339 | Sorting by a key without repetitions |
| `NativeRebuild.RebuildGivesBack` | ppbase/backup/rebuild.py:328-346 | Rebuilding a snapshot of a live database from segments that read as its rows succeeds at every statement (so each CREATE finds what it needs and each table is imported once) and ends in that database |
| `RebuildMeaning.RebuildMeans` | ppbase/backup/rebuild.py:328-417 | For any archive, not only an exported one: the rebuild succeeds with a database exactly when that is one the server would hold, with exactly the tables, indexes and views the archive lists and in each table the rows its segment reads as, as many as recorded |
| `RebuildMeaning.ReplacementMeans` | ppbase/backup/rebuild.py:359-417 | A destructive restore has a result exactly under an identifier of 32 lower-case hexadecimal digits and a complete archive, and then it is that one database with the identifier as its marker |
| `NativeArchive.ExportTables` | ppbase/backup/native.py:302-327 | The export loop leaves segments of the tables in name order and their container, unless the file stalls or a name is bad |
| `NativeArchive.ExportRebuilds` | ppbase/backup/native.py:302-328 | Rebuilding an export gives the exported tables, column orders, rows, indexes and views |
| `ArchiveForms.EndToEnd` | ppbase/backup/native.py:257-370 | After a successful export, loading `schema.json` and rebuilding from `data.copy` gives exactly the exported database if and only if its column types, defaults, view definitions and predicates are in NFC and the migration file names stay distinct in NFC; and the schema loads equal if and only if all its strings are in NFC |
| `ForeignForms.ForeignViewComesBackChanged` | ppbase/backup/schema_contract.py:959-960 | A live database whose view selects a Greek question mark is exported without complaint and restored without complaint as a different database, whose view selects a semicolon |
| `AuthCollection.AuthCollectionComesBack` | ppbase/db/schema_manager.py:341 | The live database of an auth collection, whatever its rows, with the partial index on non-empty addresses, has a constructible schema, and its export loads and rebuilds as exactly that database |
| `NativeArchive.ImportSegment` | ppbase/backup/copy_format.py:588-629 | A segment is imported exactly when it reads, fits and has the recorded row count |
| `NativeArchive.LoadTables` | ppbase/backup/rebuild.py:328-339 | Tables, rows and indexes are created in the specified order, stopping at the first failure |
| `NativeArchive.RunNativeDestructiveRestore` | ppbase/backup/rebuild.py:359-417 | One transaction leaves the rebuilt database with its marker, or the prior state; it fails only when the connection fails or there is no valid replacement; a commit whose answer was lost may have happened, and then its marker is there, exactly |
| `NativeDatabase.LinesInvert` | ppbase/backup/copy_format.py:548-629 | COPY text of rows reads back as those rows |
| `ZipDirectory.PrevalidateZipDirectory` | ppbase/backup/transport.py:632-829 | Accepts exactly the archives whose last end record that closes the file names a single-disk directory within the limits that exactly `entries_total` headers tile |
| `ZipWriter.AcceptedIffWritten` | ppbase/backup/transport.py:632-829 | A file is accepted exactly when a writer of archives produces it: any bytes, n well-formed headers, the ZIP64 record and locator or neither, and the end record with its comment, within the limits and with no later end record |
| `ZipWriter.WrittenIsAccepted` | ppbase/backup/transport.py:632-829 | A written archive, ZIP64 or not, is accepted exactly within the limits |
| `ZipDirectory.FindEndRecord` | ppbase/backup/transport.py:638-660 | The backward search over the tail window finds the last end record whose comment reaches the end of the file, and misses none |
| `ZipDirectory.ReadDirectory` | ppbase/backup/transport.py:662-767 | Legacy and ZIP64 records are read as the writers of `AcceptedIffWritten` lay them out |
| `ZipDirectory.WalkHeaders` | ppbase/backup/transport.py:793-828 | The walk succeeds exactly when the headers from the offset to the end number `entries_total` |
| `ZipDirectory.TilingCounts` | ppbase/backup/transport.py:793-828 | Positions that tile the directory are counted by the walk |
| `ZipDirectory.HeadersTile` | ppbase/backup/transport.py:793-828 | A successful walk has visited positions that tile the directory |
| `ZipDirectory.SignaturesApart` | ppbase/backup/transport.py:645-660 | Two end signatures never overlap |
| `ArchiveStore.WriteAll` | ppbase/backup/archive_store.py:239-246 | All bytes are written whatever short writes happen; it fails only with a fault, after a prefix |
| `ArchiveStore.Publish` | ppbase/backup/archive_store.py:258-386 | Whatever step fails, no name the call did not make is overwritten or removed; once published both names hold the whole content; otherwise, unless an unlink of one of its names failed, the directory is as before; and without a fault or a clash of random names its error names the reason: a taken name, a source too large, empty, or without a ZIP signature |
| `ArchiveStore.Delete` | ppbase/backup/archive_store.py:455-469 | Only the key and its sidecar can go, the key first; it reports a missing archive exactly when there is none, and otherwise fails only with a fault |
| `ArchiveStore.NamesForOk` | ppbase/backup/archive_store.py:263-266 | The four names of one publication never coincide |
| `FileReferences.KeyIsTupleOrder` | ppbase/backup/destructive.py:86 | The sort key orders references as Python orders the tuples |
| `FileReferences.CanonicalIsSortedSet` | ppbase/backup/destructive.py:86 | The hashed list is the set of references in tuple order |
| `FileReferences.FramesInjective` | ppbase/backup/destructive.py:88-91 | The length-prefixed concatenation determines the list of encodings |
| `FileReferences.InventoriesAgreeIffSetsDo` | ppbase/backup/destructive.py:82-96 | Two inventories of NFC references are equal exactly when the references are equal as sets |
| `FileReferences.BuildFileReferenceInventory` | ppbase/backup/destructive.py:82-96 | The digest loop hashes exactly that preimage |
| `InventoryFormat.InventoryMeans` | ppbase/backup/destructive.py:82-96 | The hashed bytes are the label, a zero byte and, for the sorted set in order, each reference as `[collection,record,file]` in NFC and UTF-8 behind its length in eight bytes, most significant first |
| `InventoryFormat.InventoriesAgreeIff` | ppbase/backup/destructive.py:82-96 | Two inventories of any references are equal exactly when their sorted sets are the same lists once brought to NFC |
| `StorageNames.NamesStayDistinct` | ppbase/core/storage_safety.py:96-105 | Distinct valid identifiers have names that stay distinct after case folding |
| `StorageNames.NamesArePlain` | ppbase/core/storage_safety.py:96-105 | Names consist of lower-case letters, digits and underscores |
| `StorageNames.NameMeans` | ppbase/core/storage_safety.py:37-105 | A name exists exactly for a path component of at most fifteen characters; identifiers of lower-case letters, digits and underscores keep their own, others become the prefix and their UTF-8 bytes in lower-case hexadecimal |
| `Leases.LockTable.Acquire` | ppbase/backup/operations.py:258-305 | A lease is granted exactly when everything held goes together with it, and only readers go together; it adds one holder and nothing else; without a fault it is refused only as busy; every failure gives descriptor and lock back; the busy error follows the scope |
| `Leases.Lease.Close` | ppbase/backup/operations.py:157-171 | Closing drops the holder and nothing else; closing twice does nothing |
| `Leases.LockLaws` | ppbase/backup/operations.py:258-305 | Granting keeps the lock sound and dropping undoes it |
| `LeaseRuns.LeaseSafety` | ppbase/backup/operations.py:307-367 | In every run of many processes at most one mutation lease is held, and a shared backup lease never stands beside an exclusive one |
| `LeaseRuns.PinnedArchivesStay` | ppbase/backup/service.py:1033-1068 | A published archive stays under its key for as long as anyone has it pinned |
| `LeaseRuns.EveryKindCompletes` | ppbase/backup/operations.py:307-367 | On an idle system every kind of operation runs through with its effect and leaves no lease behind |
| `LeaseRuns.OnlyRollbackUnlinksPinned` | ppbase/backup/archive_store.py:373-386 | Exactly one kind of step unlinks an archive under a reader: a publication that failed after its link takes it back |
| `LeaseRuns.UnlinkUnderPin` | ppbase/backup/archive_store.py:321-386 | A run in which that happens |
| `SettingsRuns.SettingsAgree` | ppbase/api/settings.py:432-463 | Live and durable storage settings agree whenever no commit has landed since the runtime was last set from them; and once all requests and reconciliations have finished, that fails only behind a reconciliation that failed |
| `SettingsRuns.DirtyIffSomeSettingsDisagree` | ppbase/api/settings.py:432-463 | The condition is exact: for one and the same course of events (backups, which change no settings, left out), some settings end in disagreement if and only if a commit has landed since the runtime was last set |
| `SettingsRuns.FailedReconciliationDisagrees` | ppbase/api/settings.py:247-276 | A run in which a failed reconciliation leaves them different |
| `SettingsRuns.BackupNeedsAgreement` | ppbase/backup/service.py:817-831 | A backup is taken exactly when the two configurations are equal, and refused otherwise |
| `SettingsRuns.BackupStaysConsistent` | ppbase/backup/service.py:732-831 | As long as the backup keeps the barrier they stay equal |
| `SettingsUpdates.NoUpdateIsLost` | ppbase/api/settings.py:432-463 | Whatever the interleaving, the failures and the lost barriers, the durable settings are the first ones with every landed patch merged over them in commit order |
| `SettingsUpdates.LastLandedPatchWins` | ppbase/api/settings.py:124-132 | Path by path: what the settings show is what the last landed patch that touches the path put there, and what they showed at the start if none does; empty settings stand for the defaults |
| `SettingsMerge.DeepMerge` | ppbase/api/settings.py:124-132 | The recursive loop computes that merge, in whatever order the items come |
| `SettingsMerge.MergeMeans` | ppbase/api/settings.py:124-132 | A merge path by path: the patch wins wherever it says something, everything else stays |

## Left out

- Descriptor, owner, mode, link-count and symlink checks: facts about the operating system.
- Catalog introspection and the live-database contract: the modelled database stands for their result, and what PostgreSQL decides by itself (types, constraints, how it prints a query back) is a parameter.
- The exact DDL text: statements are modelled by what they create, with the checks that run again when the text is emitted.
- `BackupManifest`, its metadata filter and its resource list: field checks over the canonical JSON that is modelled.
- `_validate_archive_infos` and ZIP extraction: per-member flags and sums over what the ZIP library reports.
- Cron, retention, disk checks, doctor report, routes, authentication, hooks, realtime and the command line: plumbing or easy.
- Recovery's reading of a journal that another program wrote: the journal is either the protocol's own record or torn.
- Removal of the workspace is one step in the live rollback and two in recovery; a workspace half removed has no reader.
- RestoreProgram.RestoreUnderLease: starts when the guard is up and no marker of this restore exists; preparing the workspace and acquiring barrier and leases are steps of the transition system only.
- Several server processes: the settings model has one. Validation of a patch (cron expression, retention) is left out; lists in settings are values that are replaced whole.
- JSON and schema functions are specifications on values; they are not compiled, because printing sorts keys by a choice function. The two loops of `models.py` are methods in `JsonLoops`.
- LeaseRuns.PinnedArchivesStay: says nothing about an archive whose publication failed, for the reason given in point 3 above.
- FileReferences.InventoriesAgreeIffSetsDo: speaks of NFC references only; `InventoryFormat.InventoriesAgreeIff` has the exact condition for all.
- The Greek question mark example uses an NFC that acts on that one character, not the Unicode tables.
