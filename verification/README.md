# The haex-vault sync engine in Dafny

haex-vault keeps its data in SQLite tables that merge column by column: every row carries its values, a
row timestamp `haex_hlc` and a map `haex_column_hlcs` with one hybrid-logical-clock timestamp per column.
Local writes are stamped by triggers, a scanner turns rows into column changes, and
`apply_remote_changes_to_db` merges batches of such changes, newest column wins. This project models that
engine and proves what it guarantees over every batch, every run and every reachable state. It also models
three small protocols around it: the transaction-scoped timestamp, the single-flight event listener and
the critical-notification table.

`dafny verify dfyconfig.toml` checks everything.

## How the model is built

| file | what it holds |
|---|---|
| `HlcText.dfy` | timestamp strings: parsing, printing, the three orders laid over them, node origin |
| `Store.dfy`, `Triggers.dfy` | the database value, and every INSERT, UPDATE and DELETE with the trigger it fires |
| `Keys.dfy` | WHERE clauses from key objects, and the key an INSERT ends up with |
| `Grouping.dfy`, `RowMerge.dfy`, `Apply.dfy` | the apply path as functions: grouping, the column loop, what one batch does |
| `Convergence.dfy`, `Idempotence.dfy`, `Deletes.dfy` | what committed batches do, alone and in runs |
| `Progress.dfy`, `Transaction.dfy` | which batches commit, and the call with its transaction (`Vault`) |
| `Scanner.dfy`, `AntiEntropy.dfy`, `DeleteSync.dfy` | the scanning loops, two replicas exchanging scans, and a delete that travels with one |
| `LocalRuns.dfy`, `PingPong.dfy`, `OwnScans.dfy`, `MixedRuns.dfy` | runs of local statements, and runs mixed with remote batches and cursor scans |
| `Counterexamples.dfy` | concrete rows, batches and runs on which a promise fails |
| `TxHlc.dfy`, `OnceListener.dfy`, `InsertTransformer.dfy`, `CriticalSink.dfy`, `Retention.dfy` | the protocols and helpers around the engine |

Loops and mutable objects of the original are methods and classes, proved against functions or predicates;
the theorems are about those. `Apply.Commits` is the relation every successful call of
`Vault.ApplyRemoteChanges` is proved to satisfy, and convergence, idempotence, the delete rule and the run
theorems start from it. A cell after a batch is characterised by `RowMerge.Settled`: it is the newest of
the old cell and the changes to it. That relation composes along runs and has one solution, so order,
batching and repetition drop out.

Code outside the repository enters by what it promises. SQLite's freedom (a UNIQUE violation, which of
several matching rows comes first, a DELETE that fails, whether any other statement may fail) is the
`World` parameter. uhlc hands out strictly increasing timestamps and either rejects a remote timestamp or moves past
it. `serde_json` text is a `JsonText`: the object it holds and its spelling, so two texts may hold one object.
Of SQLite it is assumed that a column assigned twice in an UPDATE keeps the rightmost value and a column
listed twice in an INSERT the leftmost.

## Where the code falls short of its promise

Each of these has a lemma exhibiting the failure and a theorem with the condition under which it does not
occur.

- A batch with two writes to one column of a row that is not there yet stores the older value under the
  newer timestamp (`RowMerge.InsertKeepsStaleValue`); the newest value is stored if and only if the oldest
  and the newest write to each column agree (`RowMerge.InsertKeepsNewest`).
- An INSERT pairs key columns with the key values that are present, so a missing key column shifts the
  others (`Keys.InsertedKeyElsewhere`); the inserted row is the one the WHERE clause looks for if and only
  if every key column before a non-NULL one is named (`Keys.InsertedKey`).
- A column without its own timestamp is scanned under the row's, so this node can push a value under its own
  timestamp that it did not write. It happens through a local update of a row that arrived in part
  (`Counterexamples.PartialRowIsVouchedFor`) and, without any local update, through an echo of one column
  onto a row we no longer have (`Counterexamples.EchoRevivesPartOfRow`). `OwnScans.LocalShows` says exactly
  which local statements do it, `OwnScans.GroupShows` and `OwnScans.EchoVouches` exactly which row groups of a
  batch; foreign changes never do (`OwnScans.ForeignGroupIsQuiet`), and runs without such steps push own
  writes only (`OwnScans.QuietRunsPushOwnWrites`).
- The triggers look rows up with `=`, so rows with a NULL key are never stamped (`LocalRuns.LocalRunRow`),
  and a NULL-key row that came with timestamps keeps them through local updates
  (`LocalRuns.NullKeyWriteIsUnstamped`). An echo of our own write to such a row can therefore go stale
  (`Counterexamples.NullKeyEchoGoesStale`). Throughout a run columns with our timestamp hold what we wrote
  under it if and only if no local update gives such a stamped column another value
  (`PingPong.CellsStayOurs`).
- A column without its own timestamp yields to any change, also to one older than the row
  (`Counterexamples.OlderChangeOverwritesUnstamped`). `AntiEntropy.ShownJoin` says exactly when applying a
  scan joins what both replicas show; after a scan back they agree all the same
  (`AntiEntropy.AntiEntropyRound`).
- Exchanging one space in both directions does not reconcile a row that one replica has moved to another
  space (`Counterexamples.MovedRowDisagrees`). `AntiEntropy.AntiEntropyRound` says exactly for which rows a
  round succeeds; without a space filter it always does (`AntiEntropy.AllSpacesMeet`).
- The SQL prefilter of the scanner compares timestamps as text (`HlcText.LexDisagreesAcrossWidths`), so a
  cursor scan can drop a new row (`Counterexamples.PrefilterDropsNewRow`). `HlcText.TextOrderIsNumeric` says
  exactly for which timestamps the two orders agree, and `Scanner.PrefilterLosesNothing` for which row
  timestamp and cursor a scan loses nothing.
- TypeScript compares node ids as text; `HlcText.CrossLanguageOrder` says exactly when it agrees with Rust.
- Applying a change to a lagging column can pull the row timestamp back, and a delete that was refused
  before then takes the row (`Counterexamples.RowHlcFallsBack`). `Deletes.RowHlcHolds` says exactly when it
  does not fall. Pulled below the push cursor, the row is skipped by the prefilter, and an unpushed local
  write on it is lost (`Counterexamples.LoweredRowIsSkipped`). `MixedRuns.MixedRunLosesNothing` says exactly
  when a run loses none, and `MixedRuns.OrderlyIsVisible` that dominated rows are enough.
- A deleted row comes back with any later batch that stamps one of its columns
  (`Deletes.LateChangeResurrects`; `Convergence.CommitJoins` says exactly which rows a batch creates). The
  delete rule therefore holds per batch.
- A read-only `current_hlc()` probe before a remote timestamp arrives can be what a later write is pinned
  to (`TxHlc.StaleProbe`); `TxHlc.BeyondRemote` says exactly when a draw is beyond the remote timestamp.
- After a batch only its newest timestamp is offered to the clock. If that one is more than a second ahead it is
  rejected, and the next local timestamp can be older than what was just applied
  (`TxHlc.FarTimestampBlocksBatch`); `TxHlc.AdvancePastBatch` says exactly when the clock moves.
- The rejection handler of a setup clears the in-flight slot, whoever is in it. A setup that was disposed of
  and then rejects can leave its successor uninstalled (`OnceListener.LateRejectionEvictsSuccessor`), or
  installed and torn down, so that every later `initAsync` returns without listeners
  (`OnceListener.LateRejectionDeadensInstalled`). `OnceListener.InstallsUnlessDisturbed` says exactly when a
  caller installs, and `OnceListener.InstalledNeverTornDown` exactly when no installed set is torn down.
- A failure that was acknowledged, came up again and is acknowledged again violates the unique index, until a
  cleanup removes the first row (`CriticalSink.SecondAcknowledgeFails`; such a run is
  `CriticalSink.BannerCannotBeDismissedTwice`). `CriticalSink.Sink.Acknowledge` fails exactly in that case.
- An INSERT without a column list gets its first value overwritten by the timestamp
  (`InsertTransformer.ColumnlessInsertLosesFirstValue`); `InsertTransformer.LosesValueOnlyColumnless` says
  that nothing else does.

## Model

| member | source | states |
|---|---|---|
| HlcText.CompareIsRank | src-tauri/src/crdt/hlc.rs:327-355 | on all strings, malformed ones included, the comparison is the order of one number per string, hence a total preorder, and newer means compares greater |
| HlcText.MalformedCountsAsZero | src-tauri/src/crdt/hlc.rs:327-350 | on all strings a time or node that is no number of its width counts as zero, as does the node of a string without a slash; a leading plus and leading zeros are read over |
| HlcText.OrderIsomorphism | src-tauri/src/crdt/hlc.rs:327-350 | on printed timestamps the comparison is the lexicographic order of (u64, u128), and printing is injective |
| HlcText.HlcMax | src-tauri/src/crdt/hlc.rs:358-360 | the result is an element no other element is newer than, the last of those that tie; none exactly for no elements |
| HlcText.HlcMin | src-tauri/src/crdt/hlc.rs:367-369 | the result is an element that is newer than no other, the first of those that tie; none exactly for no elements |
| HlcText.LexIsCompare | src-tauri/src/crdt/scanner.rs:183-190 | for printed timestamps with equally wide time and node parts, SQLite's text order is the numeric order |
| HlcText.TextOrderIsNumeric | src-tauri/src/crdt/scanner.rs:183-190 | SQLite's text order of two printed timestamps is the numeric order if and only if the deciding parts, the times or on equal times the nodes, are equally wide or the narrower does not exceed the leading digits of the wider |
| HlcText.LexDisagreesAcrossWidths | src-tauri/src/crdt/scanner.rs:183-190 | the failing pair: 100/1 is newer than 99/1 and smaller as text |
| HlcText.CrossLanguageOrder | src/utils/hlc.ts:5-17 | TypeScript agrees with Rust on two printed timestamps if and only if the times differ or the node suffixes are equally wide or the shorter one does not exceed the leading digits of the longer |
| HlcText.CrossLanguageDisagreement | src/utils/hlc.ts:5-17 | nodes 0x9 and 0x10 at one time come out in opposite orders |
| HlcText.TsOrderExactly | src/utils/hlc.ts:5-17 | on any two strings with plain digits before the slash TypeScript orders by the number, then by the text after the slash; a missing slash is an empty node |
| HlcText.OriginIsExact | src-tauri/src/crdt/hlc.rs:373-403 | the origin filter accepts a timestamp printed with the node whose byte i is byte i of a device's UUID if and only if that device is this one |
| HlcText.LittleEndianBytes | src-tauri/src/crdt/hlc.rs:385-394 | the node number of a device is the one number of 16 bytes whose byte i, counted from the least significant, is byte i of its UUID |
| HlcText.OriginOfAnyText | src-tauri/src/crdt/hlc.rs:372-403 | on every string the origin is the hexadecimal number after the first slash, and there is none without a slash or with anything else there |
| Keys.BuildPkWhereClause | src-tauri/src/crdt/commands.rs:39-61 | the clause with its positional parameters accepts a row if and only if it equals the key object null-safely on every key column |
| Keys.BuildPkWhereFromMap | src-tauri/src/crdt/commands.rs:390-413 | no clause if and only if the map is empty or names an unsafe column; otherwise null-safe equality on every named column |
| Keys.InsertedKey | src-tauri/src/crdt/commands.rs:841-850 | the inserted key is the looked-up key if and only if every key column before a non-NULL one is named |
| Keys.KeyValueLands | src-tauri/src/crdt/commands.rs:841-850 | each key value lands as many key columns in as named ones precede its own column, and the columns left over are NULL |
| Keys.InsertedKeyElsewhere | src-tauri/src/crdt/commands.rs:841-850 | for key (a, b) and an object naming only b, the lookup and the insert concern different rows |
| Grouping.GroupByTransactionHlc | src-tauri/src/crdt/commands.rs:289-303 | the groups partition the batch by timestamp keeping its order, flattening them is a permutation, and it is ascending |
| Grouping.GroupRowChangesInHlcOrder | src-tauri/src/crdt/commands.rs:321-343 | the groups partition the list by (table, row), by ascending least timestamp; on an ascending list each group is ascending and flattening is a permutation |
| Grouping.GroupBatch | src-tauri/src/crdt/commands.rs:563-637 | both groupings together permute the batch into distinct rows by ascending least timestamp, each row's list ascending |
| RowMerge.UpdateSettles | src-tauri/src/crdt/commands.rs:737-835 | for an existing row every known column ends with the newest of its old cell and its changes, in any order and however often a column repeats |
| RowMerge.MergeFacts | src-tauri/src/crdt/commands.rs:733-788 | what the column loop accepts; that the row timestamp is the newest of the first change's and the accepted ones'; the exact pending columns; that nothing is accepted if and only if no known change is newer |
| RowMerge.UnknownColumnEntry | src-tauri/src/crdt/commands.rs:748-763 | an unknown column's timestamp entry becomes that of its last change, and it is never accepted |
| RowMerge.SettledUnique | src-tauri/src/crdt/commands.rs:766-788 | with one value per timestamp the join of a cell and a set of changes is unique |
| RowMerge.InsertKeepsNewest | src-tauri/src/crdt/commands.rs:836-881 | a new row holds the newest value of every column if and only if the oldest and newest change to each column agree |
| RowMerge.InsertKeepsStaleValue | src-tauri/src/crdt/commands.rs:852-881 | two writes to a column of an absent row store the older value under the newer timestamp |
| Transaction.Vault.ApplyRowChanges | src-tauri/src/crdt/commands.rs:640-967 | on success the database is the row merge of the group, on failure it is unchanged; a group for a table this vault does not have succeeds and changes nothing; without statement errors every group that can be applied is |
| Transaction.Vault.PropagateDeletedRows | src-tauri/src/crdt/commands.rs:442-548 | on success the inbound entries were propagated once each, in some order of the set, failed DELETEs passed over; without statement errors it succeeds on a readable delete log |
| Transaction.Vault.ApplyInTransaction | src-tauri/src/crdt/commands.rs:599-1016 | commits the batch, or fails at any statement and leaves the database as it was; without statement errors every committable batch commits |
| Transaction.Vault.ApplyRemoteChanges | src-tauri/src/crdt/commands.rs:550-1038 | success commits the batch; failure changes nothing; unsafe names are rejected exactly; without statement errors a committable batch with safe names succeeds; foreign keys are on afterwards |
| Progress.CommittableCommits | src-tauri/src/crdt/commands.rs:637-978 | a batch whose changes to tables of this vault have key objects and keyed tables, and which keeps the delete log readable, can commit, whatever UNIQUE violations and failing DELETEs come up |
| Progress.CommitsExactly | src-tauri/src/crdt/commands.rs:637-968 | a batch without delete-log changes can commit if and only if its changes to tables of this vault have key objects and keyed tables |
| Progress.AbsentTablesAreSkipped | src-tauri/src/crdt/commands.rs:645-655 | in a vault with a delete log a batch commits to a database if and only if it does so without its changes to tables this vault does not have |
| Convergence.CommitJoins | src-tauri/src/crdt/commands.rs:637-968 | a committed batch without deletes joins its changes into every known column of every row, and a row exists afterwards if and only if it did or a change stamps it |
| Convergence.GroupNotes | src-tauri/src/crdt/commands.rs:745-948 | a row group leaves exactly one conflict, under its table and newest timestamp and with no row touched, if its INSERT hits a taken key or a UNIQUE constraint, and none otherwise; its unknown columns, and nothing else, become pending |
| Convergence.GroupRowIsNewest | src-tauri/src/crdt/commands.rs:735-881 | the row a group writes carries the newest timestamp of its first change and the changes with news, whether the row was there or not |
| Convergence.GroupRowKeepsUnknown | src-tauri/src/crdt/commands.rs:748-763 | the row a group writes has, for a column this vault does not know, the timestamp of the group's last change to it |
| Convergence.StrongConvergence | src-tauri/src/crdt/commands.rs:563-968 | two replicas that start alike and receive the same changes in any order, batching and repetition have the same rows, values and column timestamps |
| Idempotence.ReapplyIsIdentity | src-tauri/src/crdt/commands.rs:737-791 | committing a batch a second time leaves the whole database as it is, row timestamps and pending columns included |
| Idempotence.CommitNeverDirties | src-tauri/src/crdt/commands.rs:604-1001 | every committed batch, deletes and conflicts included, keeps the dirty set and leaves triggers on |
| Idempotence.RunNeverDirties | src-tauri/src/crdt/commands.rs:599-1016 | in every run of applies that may fail anywhere the dirty set never changes and triggers stay on |
| Idempotence.MetadataUpdateIsClean | src-tauri/src/crdt/trigger.rs:368-394 | a local update dirties a clean table if and only if a tracked column changed |
| Deletes.BatchDeletes | src-tauri/src/crdt/commands.rs:442-548 | for entries naming full keys, exactly the rows are gone that some log row the batch has a change for names, with a working DELETE and no later write; the delete log gains and loses nothing |
| Deletes.DeletedOrNewer | src-tauri/src/crdt/commands.rs:423-434 | if a batch has a change to a delete-log row, the row that entry names is afterwards absent or strictly newer than the entry, unless the entry's DELETE failed |
| Deletes.InboundAreAnnounced | src-tauri/src/crdt/commands.rs:612-629 | the ids collected for propagation are exactly those of the log rows the batch has changes for |
| Deletes.EntryRemovesAgreeing | src-tauri/src/crdt/commands.rs:442-548 | an entry of any shape, also one naming part of a key or other columns, removes exactly the rows that have its value in every column it names, if the one SQLite returns first is not strictly newer; one that names an unknown column removes none |
| Deletes.MalformedEntryIsSkipped | src-tauri/src/crdt/commands.rs:442-548 | an entry with an unsafe table or column name, or whose key text is no object or an empty one, changes nothing, like an id without a log row |
| Deletes.UnreadableEntryAborts | src-tauri/src/crdt/commands.rs:442-548 | a log row aborts the batch if and only if its table name or key is no text or it has no timestamp |
| Deletes.DeleteOrderIrrelevant | src-tauri/src/crdt/commands.rs:446-546 | any two iteration orders of the id set leave the same rows |
| Deletes.LoggedDeleteNamesRow | src-tauri/src/crdt/trigger.rs:409-431 | the log row a local delete writes reads back as an entry naming exactly the deleted row under the delete's timestamp, NULL keys included |
| Deletes.LoggedDeleteStays | src-tauri/src/crdt/trigger.rs:409-431 | whatever is written and deleted later, the entry of a local delete stays in the log and names the deleted row under the delete's timestamp |
| DeleteSync.DeleteReachesReplica | src-tauri/src/crdt/trigger.rs:409-431 | a row deleted at one replica, whose scan with the delete log is applied at another, is absent there afterwards or strictly newer than the delete, unless its DELETE failed |
| Deletes.LateChangeResurrects | src-tauri/src/crdt/commands.rs:836-881 | a stamped change older than the logged delete brings the row back in a later batch |
| Deletes.RowHlcHolds | src-tauri/src/crdt/commands.rs:735-835 | a committed batch that spells a row's key one way does not lower its timestamp if and only if no change to it is newer than its column, or one that is, is as new as the row timestamp |
| Deletes.GroupHlcHolds | src-tauri/src/crdt/commands.rs:735-835 | the same for one row group, where the group's first change counts too |
| Counterexamples.RowHlcFallsBack | src-tauri/src/crdt/commands.rs:735-835 | a row at 5/1 falls to 2/2 by a change of its lagging column, and a delete of 4/2 that was refused before is then honoured |
| Scanner.TrackedIsScanned | src-tauri/src/crdt/trigger.rs:149-161 | for every schema the triggers track exactly the scanner's data columns |
| Scanner.DataColumnsAreOrdinary | src-tauri/src/crdt/scanner.rs:95-107 | scanned columns exist and are neither key nor CRDT metadata columns |
| Scanner.DataColumnsExactly | src-tauri/src/crdt/scanner.rs:95-107 | a column is scanned if and only if it is no key column and none of the six metadata columns |
| Scanner.KeyRoundTrip | src-tauri/src/crdt/scanner.rs:231-240 | the key text the scanner writes names the same row when applied, NULL keys included |
| Scanner.ScanTable | src-tauri/src/crdt/scanner.rs:131-291 | emits exactly the changes of the rows and columns that pass the prefilter, the space filter, the cursor and the origin filter, each once; errors exactly without a primary key |
| Scanner.ScanSpace | src-tauri/src/crdt/scanner.rs:303-332 | emits exactly the whitelisted tables' changes for the space, each once, in ascending timestamp order; fails if and only if a whitelisted table has no primary key |
| Scanner.ScanMembership | src-tauri/src/crdt/scanner.rs:340-355 | emits exactly what the space scan emits apart from `haex_peer_shares`, each once, ascending; fails where the space scan fails |
| Scanner.MembershipIsWhitelisted | src-tauri/src/crdt/scanner.rs:44-61 | the membership tables are the whitelisted ones apart from `haex_peer_shares` |
| Scanner.SharedTables | src-tauri/src/crdt/scanner.rs:25-38 | exactly five tables may cross a space, so nothing of identities, backends, settings, tokens or the delete log does |
| Scanner.EmittedRowIsInSpace | src-tauri/src/crdt/scanner.rs:192-205 | every change of a space scan is of a row whose `space_id`, key column or not, is that space |
| Scanner.PrefilterIsSafe | src-tauri/src/crdt/scanner.rs:183-205 | on dominated rows with equally wide timestamps the prefiltered scan emits what the column filter alone emits |
| Scanner.PrefilterLosesNothing | src-tauri/src/crdt/scanner.rs:183-205 | for printed row timestamp and cursor the prefilter loses nothing of a row if and only if being newer and agreeing as text go together, or there is nothing to emit; on dominated rows if and only if they agree as text, or there is nothing to emit |
| Scanner.NullRowNeverPasses | src-tauri/src/crdt/scanner.rs:183-205 | a row without a timestamp is never emitted by a cursor scan, whatever its columns carry |
| Counterexamples.PrefilterDropsNewRow | src-tauri/src/crdt/scanner.rs:183-205 | a scan at cursor 99/1 emits nothing of a row written at 100/1 |
| AntiEntropy.ScanAppliedIsJoin | src-tauri/src/crdt/scanner.rs:303-332 | A's full scan of some tables, and of one space or all, applied at B gives B those rows and makes every scanned cell of them the join of B's cell and what A shows, own timestamp or row fallback; leaves every other row untouched; and leaves B scannable |
| AntiEntropy.ShownJoin | src-tauri/src/crdt/commands.rs:766-777 | what B shows of an exchanged row afterwards is the join of what both showed if and only if B's column has its own timestamp, or A's is newer or equal, or only one has the row |
| AntiEntropy.AntiEntropyRound | src-tauri/src/crdt/scanner.rs:303-332 | after a scan there and a scan back over the same tables and space both replicas have the same rows in scope and show the same value and timestamp in every scanned column of them, NULL-key and partly received rows included, if and only if each row both had, in scope at one only, was decided by newer cells |
| AntiEntropy.AllSpacesMeet | src-tauri/src/crdt/scanner.rs:216-288 | without a space filter that condition holds of every row |
| AntiEntropy.WhitelistSendsNoDeletes | src-tauri/src/crdt/scanner.rs:32-38 | the whitelisted tables include no delete log, so what a vault has deleted does not matter |
| Counterexamples.MovedRowDisagrees | src-tauri/src/crdt/scanner.rs:192-205 | every round over one space leaves a row that B moved out of it in that space at A only |
| Counterexamples.OlderChangeOverwritesUnstamped | src-tauri/src/crdt/commands.rs:766-777 | a NULL-key row written at 3/1 is overwritten by a scanned change of 2/2 |
| LocalRuns.LocalRunRow | src-tauri/src/crdt/trigger.rs:282-396 | after any local run a row's timestamp map has exactly the tracked columns, each with the last statement that changed it, and the row timestamp is the last statement's; NULL-key rows keep an empty map |
| LocalRuns.LocalRunDominates | src-tauri/src/crdt/trigger.rs:282-396 | with non-decreasing transaction timestamps the row timestamp dominates every column |
| LocalRuns.WrittenTablesAreDirty | src-tauri/src/crdt/trigger.rs:317-394 | a statement that creates a row or changes a scanned value leaves its table dirty |
| LocalRuns.OnlyWrittenTablesAreDirty | src-tauri/src/crdt/trigger.rs:317-431 | a statement newly dirties its own table only by creating a row or changing a scanned value, and the delete log only by a delete |
| LocalRuns.NullKeyWriteIsUnstamped | src-tauri/src/crdt/trigger.rs:344-364 | a local update of a NULL-key row changes the value and leaves the column timestamp |
| LocalRuns.CursorLosesNothing | src-tauri/src/crdt/scanner.rs:183-262 | in every local run of writes and cursor scans, right after each scan every cell has been pushed with its current value and timestamp |
| LocalRuns.SecondScanIsEmpty | src-tauri/src/crdt/scanner.rs:183-262 | right after a cursor scan another one emits nothing |
| PingPong.NoPingPong | src-tauri/src/crdt/scanner.rs:242-287 | in every mixed run a change emitted under the origin filter carries a timestamp this node issued, and, where the column has its own timestamp and no update made one stale, the value it wrote under it; foreign changes are unrestricted |
| PingPong.CellsStayOurs | src-tauri/src/crdt/trigger.rs:344-364 | throughout a mixed run every column with our timestamp holds what we wrote under it if and only if no local update gives such a column of a NULL-key row another value |
| OwnScans.LocalShows | src-tauri/src/crdt/trigger.rs:317-394 | a local statement keeps everything an own scan shows among our writes if and only if it is no update that makes a stamp stale or leaves a column without its own timestamp as it is |
| OwnScans.GroupShows | src-tauri/src/crdt/commands.rs:733-881 | a row group keeps everything an own scan shows among our writes if and only if it does not write our timestamp as the row's over a column that stays without one and holds a value not written under it |
| OwnScans.GroupsStayShown | src-tauri/src/crdt/commands.rs:640-967 | after every group of a batch everything shown is among our writes if and only if no group vouches |
| OwnScans.EchoVouches | src-tauri/src/crdt/commands.rs:836-881 | an echo of one column onto an absent row vouches if and only if some other data column was not written as NULL under its timestamp |
| OwnScans.ForeignGroupIsQuiet | src-tauri/src/crdt/commands.rs:733-788 | a group of foreign changes never makes this node vouch for a value |
| OwnScans.QuietRunsPushOwnWrites | src-tauri/src/crdt/scanner.rs:242-287 | in every mixed run of such steps each change emitted under the origin filter, row fallback included, is a write of this node |
| OwnScans.CompleteRunsOnlyPushOwnWrites | src-tauri/src/crdt/scanner.rs:249-287 | in every mixed run without stale stamps, whenever all rows are complete, each such change is a write of this node |
| Counterexamples.PartialRowIsVouchedFor | src-tauri/src/crdt/scanner.rs:242-256 | a run from an empty device: a batch brings one column, a local update changes it, and the own scan emits the other column with NULL under our timestamp, which is not among our writes |
| Counterexamples.EchoRevivesPartOfRow | src-tauri/src/crdt/commands.rs:836-881 | a run from an empty device without updates: an insert, a delete, an echo of one column, and the own scan emits the other column with NULL under our timestamp, which is not among our writes |
| Counterexamples.NullKeyEchoGoesStale | src-tauri/src/crdt/trigger.rs:344-364 | a run from an empty device: a NULL-key insert, its echo, a local update, and the own scan emits the new value under the old timestamp, which is not among our writes |
| MixedRuns.MixedRunLosesNothing | src-tauri/src/crdt/scanner.rs:183-262 | in every run of local statements, remote batches and own cursor scans, right after each scan every column carrying our timestamp has been pushed, if and only if at each scan every row with a waiting column passes the prefilter |
| MixedRuns.OrderlyIsVisible | src-tauri/src/crdt/scanner.rs:183-205 | rows with a waiting column pass if their timestamp dominates their columns and compares with the cursor as text as it does as a number |
| Counterexamples.LoweredRowIsSkipped | src-tauri/src/crdt/scanner.rs:183-205 | a run from an empty vault in which a remote change lowers the row timestamp below the cursor and the next scan loses our newer write to the row |
| TxHlc.HlcService.NewTimestamp | src-tauri/src/crdt/hlc.rs:230-235 | strictly increases and is not behind the physical clock, or fails and changes nothing while uninitialised |
| TxHlc.HlcService.AdvancePastRemote | src-tauri/src/crdt/hlc.rs:252-272 | an accepted remote timestamp is passed, a rejected one is swallowed without effect |
| TxHlc.RejectedAdvanceIsIgnored | src-tauri/src/crdt/hlc.rs:252-272 | a remote timestamp more than a second ahead of the physical clock changes nothing |
| TxHlc.ConnectionContext.CurrentOrNewTxHlc | src-tauri/src/database/connection_context.rs:38-58 | result and new state are those of the slot state machine |
| TxHlc.ConnectionContext.MarkWritePending | src-tauri/src/database/connection_context.rs:64-68 | the new state is that of the slot state machine |
| TxHlc.ConnectionContext.ResetTxSlot | src-tauri/src/database/connection_context.rs:74-81 | the new state is that of the slot state machine |
| TxHlc.OneHlcPerTransaction | src-tauri/src/database/connection_context.rs:38-81 | in every run all draws between a write mark and the next reset return one timestamp |
| TxHlc.PinsTheLastDraw | src-tauri/src/database/connection_context.rs:32-58 | if the transaction drew before its first write, later draws return that last draw |
| TxHlc.TransactionsIncrease | src-tauri/src/database/connection_context.rs:38-81 | whatever is returned after a reset is newer than everything returned before it, with any probes and remote advances between |
| TxHlc.UnmarkedDrawIsFresh | src-tauri/src/database/connection_context.rs:38-81 | a draw with no write mark since the last reset, or since a start without one, is newer than everything returned before, so read-only probes never repeat |
| TxHlc.BeyondRemote | src-tauri/src/database/connection_context.rs:38-58 | after an accepted remote timestamp, in every run, a draw returns a timestamp beyond it if and only if some draw since then was not pinned or the slot was beyond it already |
| TxHlc.AdvancePastBatch | src-tauri/src/crdt/commands.rs:1020-1034 | after a batch of printed timestamps the clock has reached every one of them, if none is too far ahead of the physical clock, and has not moved at all otherwise; a timestamp reported by the sync backend is used instead |
| TxHlc.NewestDecides | src-tauri/src/crdt/hlc.rs:358-360 | the newest timestamp of a batch bounds the times of all, and is accepted if and only if all are |
| TxHlc.NewDrawsStayBeyond | src-tauri/src/crdt/hlc.rs:246-272 | once the clock has reached a timestamp, every new draw of every later run is newer |
| TxHlc.FarTimestampBlocksBatch | src-tauri/src/crdt/commands.rs:1020-1034 | the failing batch: with one timestamp too far ahead the next draw is older than another, acceptable one |
| TxHlc.StaleProbe | src-tauri/src/database/connection_context.rs:50-57 | a probe, a remote advance, a write and a draw return a timestamp older than the remote one |
| OnceListener.Listener.InitAsync | src/lib/once-listener.ts:37-49 | joins the installed or in-flight setup or starts one; nothing leaks |
| OnceListener.Listener.ResumeInit | src/lib/once-listener.ts:49-54 | installs the resolved set exactly when its promise is still in flight, otherwise tears it down; nothing leaks |
| OnceListener.Listener.OnRejected | src/lib/once-listener.ts:44-46 | clears the slot; nothing leaks |
| OnceListener.Listener.Dispose | src/lib/once-listener.ts:56-62 | clears both variables and tears the installed set down; nothing leaks |
| OnceListener.NothingLeaks | src/lib/once-listener.ts:30-64 | in every interleaving each completed setup's set is installed, torn down, or held by a suspended caller |
| OnceListener.QuiescentIsClean | src/lib/once-listener.ts:30-64 | with no caller suspended, every setup rejected, was torn down, or is the installed one, and the installed one was torn down only after a late rejection |
| OnceListener.InstalledNeverTornDown | src/lib/once-listener.ts:44-62 | throughout a run no installed set is torn down if and only if no rejection handler runs under an installed set with another of its callers resuming before the next dispose |
| OnceListener.InstalledStaysLive | src/lib/once-listener.ts:44-62 | throughout a run what is installed is also in flight and not torn down if and only if no rejection handler runs while a set is installed |
| OnceListener.InstallsUnlessDisturbed | src/lib/once-listener.ts:37-62 | the caller of a resolved setup ends with its listeners installed and live if and only if since the setup started nothing was disposed of and no rejection handler ran |
| OnceListener.InstallsOnlyInflight | src/lib/once-listener.ts:48-54 | a set is installed only by a resuming caller whose promise is in flight, and only into an empty place |
| OnceListener.LateRejectionEvictsSuccessor | src/lib/once-listener.ts:44-53 | a run from the start in which the late rejection of an old setup makes the resolved successor tear itself down, leaving nothing installed |
| OnceListener.LateRejectionDeadensInstalled | src/lib/once-listener.ts:44-53 | a run from the start that ends with the installed set torn down and further calls returning at once |
| InsertTransformer.InsertStatement.TransformInsert | src-tauri/src/crdt/insert_transformer.rs:62-106 | the new columns, rows or projection, and failure exactly for other sources; with distinct columns and matching widths every row and projection keeps what it assigns to other columns and gives `haex_hlc` the timestamp |
| InsertTransformer.RewritePreservesMeaning | src-tauri/src/crdt/insert_transformer.rs:25-106 | for distinct columns and a row of matching width every other column keeps its expression, `haex_hlc` gets the timestamp, widths stay equal, and a second rewrite changes nothing |
| InsertTransformer.QualifierDoesNotCount | src-tauri/src/crdt/insert_transformer.rs:21-39 | a qualified timestamp column is found like a plain one, and a column is one by the last part of its name only |
| InsertTransformer.LosesValueOnlyColumnless | src-tauri/src/crdt/insert_transformer.rs:25-60 | of the rows SQL accepts a value of another column is lost if and only if there is no column list and the first value is not the timestamp; the result fits its columns if and only if there was a list or at most one value |
| InsertTransformer.ColumnlessInsertLosesFirstValue | src-tauri/src/crdt/insert_transformer.rs:41-49 | the failing statement: a single value without a column list is replaced by the timestamp |
| CriticalSink.Sink.Emit | src-tauri/src/critical/sink.rs:159-202 | the UPSERT's new table, keeping the unique index |
| CriticalSink.Sink.NewestUnacked | src-tauri/src/critical/sink.rs:206-220 | an unacknowledged row seen last, or none exactly when all are acknowledged |
| CriticalSink.Sink.Acknowledge | src-tauri/src/critical/sink.rs:226-233 | fails exactly when the pair has another acknowledged row; otherwise marks the row and counts it (`CriticalSink.AcknowledgedRowStays` says what becomes of it) |
| CriticalSink.Sink.Cleanup | src-tauri/src/critical/sink.rs:238-253 | removes exactly the rows last seen before the cutoff, leaves the others as they are, and counts the removed |
| CriticalSink.RunFollowsLedger | src-tauri/src/critical/sink.rs:159-253 | over every run the index holds, and a pair's unacknowledged row counts the emits since it was last acknowledged or cleaned, with the first one's id and time |
| CriticalSink.AcknowledgedRowStays | src-tauri/src/critical/sink.rs:226-253 | in every run an acknowledged row stays, with nothing but the flag changed, until a cleanup goes beyond its last sighting, whatever else happens |
| CriticalSink.SecondAcknowledgeFails | src-tauri/src/critical/sink.rs:226-233 | in every run in which an acknowledged row has not been cleaned up, acknowledging another row of the same pair fails |
| CriticalSink.BannerCannotBeDismissedTwice | src-tauri/src/critical/sink.rs:159-233 | such a run: emit, acknowledge, emit again, and the second acknowledge fails and leaves the row unacknowledged |
| Retention.CutoffIsExact | src-tauri/src/crdt/cleanup.rs:227-232 | the saturating steps give exactly max(0, current - days in nanoseconds), or nothing if and only if that exceeds i64::MAX |
| Retention.KeptExactly | src-tauri/src/crdt/cleanup.rs:249-300 | an entry is kept if and only if it has no timestamp, or its time is at least the clock's minus the retention, or that bound exceeds i64::MAX; zero days keep nothing, and without a persisted clock everything is kept |
| Retention.LongerKeepsMore | src-tauri/src/crdt/cleanup.rs:249-300 | where the shorter retention has a cutoff so has the longer, and it keeps everything the shorter keeps |
| Retention.OverflowKeepsAll | src-tauri/src/crdt/cleanup.rs:278-291 | no cutoff if and only if current exceeds i64::MAX plus the retention, and then nothing is deleted |

## Left out

- Transaction.Vault.ApplyRowChanges: does not model the upgrade of tables without CRDT columns, and keeps a change that names a key or CRDT metadata column like any other value, where the code would change the key or be overwritten; the scanner emits no such change (`Scanner.DataColumnsAreOrdinary`).
- Transaction.Vault.ApplyRemoteChanges: does not model the `last_push_hlc_timestamp` update of a sync backend, or a failing `PRAGMA foreign_keys = ON`.
- Convergence.StrongConvergence: has no UNIQUE conflicts and no deletes in the batches, because the code does not merge either (`Deletes.LateChangeResurrects`); columns a replica does not know are outside the claim.
- AntiEntropy.AntiEntropyRound: exchanges no delete-log rows, because the code does not merge deletes across batches (`Deletes.LateChangeResurrects`); the scanner's whitelist has none.
- MixedRuns.MixedRunLosesNothing: concerns columns with their own timestamp; a NULL-key row whose timestamp a remote change replaces is no longer scanned as ours.
- Deletes.RowHlcHolds: a batch that spells one row's key in two ways is applied as two groups, for which `Deletes.GroupHlcHolds` holds one after the other.
- HlcText.CrossLanguageOrder: `BigInt` inputs other than plain digits are not modelled.
- Two rows of one table with NULL in the same key columns: a table is a map from key values to rows.
- Rust's Unicode letters and digits in identifiers; only the ASCII ones count as safe.
- Conversion between JSON and SQL values, and blobs and reals: values are NULL, integers, texts and JSON texts.
- Local updates that change a key column, and statements with row sets other than one row.
- A missing `triggers_enabled` configuration row: the switch is a boolean.
- Poisoned mutexes, and the persisted clock row.
- The rest of the SQL transformer and executor, the network side of sync, migrations, encryption, MLS, UCAN and the user interface.
- SQL text, locking, SQLCipher and sqlparser: statements are modelled by what they do to rows.
