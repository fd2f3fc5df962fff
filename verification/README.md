# NodusDB: a verified model

This project models parts of NodusDB, a PostgreSQL-compatible database, in Dafny and proves
what they promise. `dafny verify dfyconfig.toml` checks all of it.

**Backup and point-in-time recovery.** `Mvcc` is the storage engine's version chains and the
in-memory engine over them. `Wal` gives a write-ahead log its meaning: which versions a list
of records commits. `WalPlan` indexes archived segments and plans which of them a restore
needs, walking the segments' predecessor links. `BaseRestore` loads a backup's rows, `Pitr`
replays the planned segments, and `PointInTime` puts plan, base restore and replay together
(`RestoreToPoint`): from honest indexes of a conflict-free log the restore succeeds if the archive
holds the segments, and whatever the archive holds, a restore that succeeds rebuilds exactly the
source's history up to the target. `Retention` decides which segments
and versions may be removed, and shows that none of them is needed. `Repository` is the state
machine of full and incremental backups, deletions and recovery generations, cut off after
any single object write; every reachable repository has sound backup chains, so `Restore`
terminates and returns them root first. `RepositoryRuns` follows whole runs: a backup that is
undamaged at some point restores to the same objects until it is deleted, and the generation
published is one the source had when it was synced.

**ANALYZE statistics.** `SampleOrder` (sort order and correlation), `McvTrack` (the bounded
list of most common values), `McvList` (the distinct estimate and the significance cut),
`Collapse` and `Histograms` (the histogram of the rest) come together in `ScalarStats`, whose
`Analyze` states what a column's statistics say about the sample itself. `ArrayRangeStats`
covers element-count and range histograms; `RangeEnds` orders and counts the ends of ranges, and
`RangePairs` says when the bounds of a range histogram are ranges.

**Aggregates.** `Moments` relates the one-pass Youngs-Cramer step to the textbook's two
passes and proves the Cauchy-Schwarz inequality and the least-squares property; `Aggregates`
is `spread` and `regression` over them.

**Intervals.** `Intervals` has the normal forms; `IntervalText`, `IntervalParse` and
`IntervalRoundTrip` print an interval, read one, and show exactly when reading undoes printing;
`IsoIntervals` says what ISO 8601 text denotes, fractions included. `Floats` is rounding to 53 bits, which reading
goes through; `Decimals` and `Words` hold the number and word handling.

**Codecs, locks, cursors, authorization, audit.** `Bytea` and `Base64` are the `bytea` text
forms; `Advisory` the advisory locks; `Cursors` the cursor moves; `Roles` and `Authz` the role
closure and the authorization decision; `Audit` the rotating audit log.

## How the source is read

- Code that updates state in place is a class or a method with a loop, proved against a
  specification function; pure case expressions are functions.
- In reading intervals every f64 operation is the real one rounded to the nearest number of 53
  significant bits, halves to even (`Floats.F64`). The exponent is unbounded: amounts beyond f64's
  range are clamped to 64 bits either way, and those below it round to zero, except that negative
  seconds too small for any float are refused in a clock where f64 takes them as zero.
- In statistics and aggregates f64 and numeric arithmetic is exact, over `real`. A square root
  stays symbolic: `Root` and `OverRoot` in `Aggregates.Answer`, and a comparison
  of squares in `McvList.Exceeds`, which `McvList.ExceedsIsRoot` shows to be the same.
- Column values in statistics are their rank in the column type's order, and so are the values of
  range ends; whether an end is inclusive or unbounded is kept.
- SHA-256 is injective, JSON decoding inverts encoding, and object keys are structured
  values, so that keys built from different ids never meet. Object names hold no '/', so the
  generation record of a backup is the object of that name.
- A crash is a budget of object writes: an operation stops with `Crashed` when it is used up.
- Where code and documentation differ, the code is followed. The LSM engine logs a write
  before it checks for a conflict (crates/nodus_storage_lsm/src/lib.rs:1170-1200), so a log can
  hold a write that was refused; replay then fails, and `Pitr.ReplayPitrWalSegments` states
  that it succeeds exactly on conflict-free windows.

Results that name an exception:

- `Repository.UploadSafeExactly`: objects are uploaded before the manifest is looked for, so a
  reused backup id can damage the backup it names; the lemma gives the exact condition, and
  `Repository.ReusedIdDamages` an example.
- `Retention.DeletingKeepsPermission`: deleting backups never turns a permission into a denial,
  but does turn it into an error exactly when backups remain and none is protected;
  `Retention.LastProtectedDeleted` is an example.
- `RangePairs.PairsAreRangesExactly`: an unbounded upper end sorts before the bounded ones, and an
  exclusive lower end before an inclusive one, so a range histogram can print an empty pair; the
  lemma gives the exact condition. `RangePairs.UnboundedUpperBreaksPairs` and
  `RangePairs.MeetingEndsBreakPairs` are examples.
- `Advisory.RunBalancedExactly`: counts stay balanced exactly when sessions give back only holds of
  their own, since `unlock` does not tell them from the transaction's;
  `Advisory.UnlockTakesTransactionHold` is an example.
- `IntervalRoundTrip.RoundTrip`: text reads back as its interval exactly when 53 bits hold the days
  (or the days are the largest 64-bit number) and the months of the whole years, and the time part
  is not -2^63 microseconds. `IntervalRoundTrip.FirstLostDay` and
  `IntervalRoundTrip.SmallestClockFails` are examples.

## Model

| member | source | states |
|---|---|---|
| `Mvcc.WriteChainMeaning` | crates/nodus_mvcc/src/lib.rs:132-166 | a write is refused exactly when another transaction's intent is on the key; otherwise it is the key's one intent and no committed version changes |
| `Mvcc.CommitChainMeaning` | crates/nodus_mvcc/src/lib.rs:168-184 | committing turns the transaction's intent into a version at the commit timestamp and changes nothing else |
| `Mvcc.AbortChainMeaning` | crates/nodus_mvcc/src/lib.rs:186-196 | aborting removes the transaction's intent and changes nothing else |
| `Mvcc.NewestVisible` | crates/nodus_mvcc/src/lib.rs:102-115 | the version a read sees is committed, at or before the read timestamp, and no visible version is newer |
| `Mvcc.MemKvEngine.Get` | crates/nodus_storage_mem/src/lib.rs:183-192 | a read gives the newest visible value, and nothing for a tombstone |
| `Mvcc.MemKvEngine.WriteIntent` | crates/nodus_storage_mem/src/lib.rs:263-291 | a write fails exactly when another transaction holds the key, and then changes no chain |
| `Mvcc.MemKvEngine.Commit` | crates/nodus_storage_mem/src/lib.rs:375-394 | every intent of the transaction becomes a version, every other key keeps its chain, and the intent lists stay consistent with the chains |
| `Mvcc.MemKvEngine.Abort` | crates/nodus_storage_mem/src/lib.rs:396-409 | every intent of the transaction is dropped and no version changes |
| `BackupKeys.ExclusionFollowsTheNamespace` | crates/nodus_backup/src/lib.rs:183-211 | a namespaced key is excluded from backups exactly when the record under the namespace is a control record |
| `Wal.WindowConflictFree` | crates/nodus_backup/src/lib.rs:1346-1363 | a window of a conflict-free log is conflict-free |
| `Wal.WindowCommitsOnlyTruth` | crates/nodus_backup/src/lib.rs:1294-1402 | a window of a log commits no version the whole log does not |
| `Wal.WindowCommitsWholeTxns` | crates/nodus_backup/src/lib.rs:1294-1402 | a window that holds all writes of a transaction and its commit commits what the whole log commits |
| `WalPlan.IndexRecords` | crates/nodus_server/src/lib.rs:204-249 | the index lists every transaction that writes in the segment, and exactly its commits |
| `WalPlan.IndexSeesWrites` | crates/nodus_server/src/lib.rs:226-230 | a transaction with a write in the records is listed |
| `WalPlan.IndexSeesCommits` | crates/nodus_server/src/lib.rs:231-244 | a commit is listed exactly when the records hold it, alone or in a batch |
| `WalPlan.NeededTxns` | crates/nodus_backup/src/lib.rs:1139-1144 | the needed transactions are exactly those that commit in the window |
| `WalPlan.Collect` | crates/nodus_backup/src/lib.rs:1146-1165 | finds exactly the needed segments, and a duplicate exactly when two indexes share an id |
| `WalPlan.WalkLineage` | crates/nodus_backup/src/lib.rs:1187-1209 | the draining loop terminates on any predecessor links, even cyclic, and selects exactly what following them selects |
| `WalPlan.SelectedCovers` | crates/nodus_backup/src/lib.rs:1187-1222 | a plan that succeeds holds every needed segment, none below the first of them, in ascending order |
| `WalPlan.PlanLive` | crates/nodus_backup/src/lib.rs:1139-1222 | each failure (duplicate, broken walk, off the lineage) is reported exactly when it occurs, and success lists the walked segments |
| `WalPlan.PlanWalSegments` | crates/nodus_backup/src/lib.rs:1111-1254 | refuses an unsupported index, considers the timeline's uploaded segments above the floor, fails exactly as the selection does or when a selected object is missing or of another size or checksum, and covers the window on success |
| `Pitr.Resolve` | crates/nodus_backup/src/lib.rs:1364-1390 | a commit at or before the target is applied, a later one or an abort drops the intents |
| `Pitr.ReplayWrite` | crates/nodus_backup/src/lib.rs:1346-1363 | an excluded key is skipped, another is written, and it fails exactly on another transaction's outstanding write |
| `Pitr.ReplayRecord` | crates/nodus_backup/src/lib.rs:1339-1394 | one record keeps store, active transactions and report equal to what the operations so far mean |
| `Pitr.ReplaySegment` | crates/nodus_backup/src/lib.rs:1337-1395 | the same for a segment's records in order |
| `Pitr.AbortAll` | crates/nodus_backup/src/lib.rs:1397-1400 | the leftover transactions lose their intents and nothing else changes, in any order |
| `Pitr.ReplayPitrWalSegments` | crates/nodus_backup/src/lib.rs:1294-1402 | replay succeeds exactly when the loaded segments match the plan in count, order, size and checksum and the window is conflict-free; it leaves no intent, adds exactly the versions committed by the target, keeps excluded keys, and reports exact counts |
| `BaseRestore.RestoreRow` | crates/nodus_backup/src/lib.rs:1456-1480 | a row is skipped or becomes exactly one version |
| `BaseRestore.RestoreBackupObjects` | crates/nodus_backup/src/lib.rs:1440-1483 | adds exactly the versions the dumps hold of restorable keys and keeps excluded keys; fails exactly on a malformed dump |
| `PointInTime.HonestWalkSucceeds` | crates/nodus_backup/src/lib.rs:1187-1209 | on an honest lineage the walk succeeds however sparse the ids, and visits the whole stretch |
| `PointInTime.PlanSucceeds` | crates/nodus_backup/src/lib.rs:1111-1222 | planning over an honest, complete archive always succeeds and selects an unbroken stretch of the log |
| `PointInTime.PlannedWindowIsEnough` | crates/nodus_backup/src/lib.rs:1139-1165 | the planned stretch commits every version of the replay interval that the whole log commits, and no other |
| `PointInTime.LoadSegments` | crates/nodus_backup/src/lib.rs:1256-1292 | loads the planned segments in order, and fails exactly when one is missing or of another size or checksum |
| `PointInTime.LoadedOps` | crates/nodus_backup/src/lib.rs:1256-1292 | whatever the archive holds, what matches an honest plan is the log itself |
| `PointInTime.RestoresHistory` | crates/nodus_backup/src/lib.rs:1294-1483 | from a base with the whole history, the restored versions are exactly the history up to the target |
| `PointInTime.RestoresReads` | crates/nodus_backup/src/lib.rs:1294-1483 | from a base with only the visible versions, every read at or after the snapshot is the source's read as of the target |
| `PointInTime.RestoreToPoint` | crates/nodus_backup/src/lib.rs:1048-1402 | plan, load, base restore and replay: with the segments archived the restore succeeds, and whenever it succeeds it leaves no intent, keeps excluded keys, and rebuilds the history and the reads |
| `Retention.GcWatermark` | crates/nodus_backup/src/lib.rs:1816-1830 | the watermark is the least protected snapshot, absent exactly when none is protected, and zero while a manifest is unreadable |
| `Retention.WalSegmentCleanupAllowed` | crates/nodus_backup/src/lib.rs:1842-1897 | the loops compute the retention decision, the upload state and its errors included |
| `Retention.CleanupNeverTakesANeededSegment` | crates/nodus_backup/src/lib.rs:1842-1896 | a segment cleanup allows is needed by no plan from any protected backup to any target |
| `Retention.DeletingKeepsPermission` | crates/nodus_backup/src/lib.rs:1842-1896 | deleting backups never turns allowed into denied, and into an error exactly when only unprotected backups remain |
| `Retention.LastProtectedDeleted` | crates/nodus_backup/src/lib.rs:1842-1896 | deleting the one protected backup of two turns an allowed cleanup into an error |
| `Retention.CollectPreservesReads` | crates/nodus_mvcc/src/lib.rs:202-250 | garbage collection changes no read at or after the watermark, and a layered chain keeps hiding older sources |
| `Retention.CollectKeepsNewer` | crates/nodus_mvcc/src/lib.rs:202-250 | garbage collection keeps every version above the watermark |
| `Retention.ProtectedHistorySurvives` | crates/nodus_backup/src/lib.rs:1816-1830 | collecting at retention's watermark keeps every version an incremental on a protected backup exports |
| `Repository.ChainIsSound` | crates/nodus_backup/src/lib.rs:1092-1109 | under the invariant a backup's ancestry is finite, starts at a full backup, rises in snapshot, and stays in one cluster and generation |
| `Repository.UploadSafeExactly` | crates/nodus_backup/src/lib.rs:813-863 | no completed backup is damaged at any crash point of an upload exactly when the backup of that id, if undamaged, already has the same data wherever it lists an uploaded object; the repository then stays sound |
| `Repository.ReusedIdDamages` | crates/nodus_backup/src/lib.rs:813-863 | one upload of other data under the id of a completed backup damages it |
| `Repository.PublishKeepsInv` | crates/nodus_backup/src/lib.rs:717-740 | publishing a well-formed manifest on a sound parent keeps the repository sound |
| `Repository.DeletionKeepsInv` | crates/nodus_backup/src/lib.rs:1507-1530 | removing any part of a backup nothing depends on keeps every other backup whole |
| `Repository.Orchestrator.SyncRecoveryGeneration` | crates/nodus_backup/src/recovery.rs:87-111 | publishes the source's generation, refuses a conflicting one, and touches nothing else |
| `Repository.Orchestrator.ValidateExport` | crates/nodus_backup/src/recovery.rs:113-120 | accepts exactly objects that carry the generation now current |
| `Repository.Orchestrator.UploadObjects` | crates/nodus_backup/src/lib.rs:756-772 | writes the objects in order, as many as the budget allows, and returns their keys and checksums |
| `Repository.Orchestrator.Publish` | crates/nodus_backup/src/lib.rs:717-754 | pending manifest, checks, final manifest, cleanup: keeps the repository sound wherever it stops, touches nothing but the two manifests, and never replaces a manifest |
| `Repository.Orchestrator.CreateFullBackup` | crates/nodus_backup/src/lib.rs:813-863 | completes exactly under matching generation and unused id, with exactly this backup added, verified; wherever it stops, other backups are untouched, and under a safe id every undamaged backup stays so |
| `Repository.Orchestrator.CreateIncrementalBackup` | crates/nodus_backup/src/lib.rs:924-1000 | as a full backup, and stands on its parent: same cluster, later snapshot, same generation |
| `Repository.Orchestrator.DeleteBackup` | crates/nodus_backup/src/lib.rs:1507-1530 | refused with no change while a backup depends on it; otherwise removes exactly its objects, and a crash leaves the rest whole |
| `Repository.Orchestrator.Restore` | crates/nodus_backup/src/lib.rs:1004-1042 | succeeds exactly for an undamaged backup, terminates, and returns the chain's objects root first |
| `Repository.Orchestrator.BackupChainForRestore` | crates/nodus_backup/src/lib.rs:1092-1109 | returns the backup's chain from the root |
| `Repository.Orchestrator.ChooseBase` | crates/nodus_backup/src/lib.rs:1048-1090 | chooses the newest eligible snapshot at or before the target, verified and of the current generation, and fails exactly without one |
| `RepositoryRuns.RestoredKept` | crates/nodus_backup/src/lib.rs:1004-1042 | a backup restores to the same objects once it and every backup another stands on is kept |
| `RepositoryRuns.OthersSurviveDeletion` | crates/nodus_backup/src/lib.rs:1507-1530 | a deletion, wherever it stops, leaves every other undamaged backup restoring to the same objects |
| `RepositoryRuns.ComesThrough` | crates/nodus_backup/src/lib.rs:813-1042 | from any point of a run to any later one, an undamaged backup that is not deleted between is undamaged and restores to the same objects |
| `RepositoryRuns.GenerationFollows` | crates/nodus_backup/src/recovery.rs:87-111 | once a sync has gone through, the published generation is the one the source had at that step or at a later one that synced |
| `RepositoryRuns.Take` | crates/nodus_backup/src/lib.rs:813-1530 | one step has its effect, success condition and published generation included, and spares every undamaged backup it does not delete |
| `RepositoryRuns.Run` | crates/nodus_backup/src/lib.rs:813-1530 | any run of backups under fresh ids, deletions, checkpoints and syncs, each cut off anywhere: every state is sound and follows from the one before, undamaged backups come through until deleted, and the published generation is one the source had when synced |
| `SampleOrder.SortOrderSorts` | crates/nodus_executor/src/column_stats.rs:385-386 | the order is a permutation of the sample positions, by value and then by position |
| `SampleOrder.ClosedForms` | crates/nodus_executor/src/column_stats.rs:538-539 | the sums of 0..n-1 and of their squares have the closed forms the code uses |
| `SampleOrder.CorrelationSum` | crates/nodus_executor/src/column_stats.rs:396-398 | the loop accumulates the sum of products of sorted and sample position |
| `SampleOrder.CorrelationMeaning` | crates/nodus_executor/src/column_stats.rs:536-549 | the correlation lies in [-1, 1], and is 1 exactly when the sample was in order |
| `McvTrack.StableDescSorts` | crates/nodus_executor/src/column_stats.rs:392-394 | the reference order is a permutation, descending by count, ties in order of position |
| `McvTrack.Insert` | crates/nodus_executor/src/column_stats.rs:407-420 | the insertion in place puts an item into the bounded list where a stable sort would |
| `McvTrack.ScanSorted` | crates/nodus_executor/src/column_stats.rs:389-424 | the track is the first `target` items of a stable descending sort of all repeated runs; the counters are the numbers of runs and of repeated runs |
| `McvTrack.RunsAreMaximal` | crates/nodus_executor/src/column_stats.rs:396-404 | the runs are exactly the maximal stretches of equal values, with their true starts, in order |
| `McvTrack.CountIsMultiplicity` | crates/nodus_executor/src/column_stats.rs:399-422 | an item's count is how often its value occurs in the sample |
| `McvList.DistinctInRange` | crates/nodus_executor/src/column_stats.rs:427-449 | the distinct estimate stands for at least the distinct values seen and at most the table's non-null rows, rounded |
| `McvList.ExceedsIsRoot` | crates/nodus_executor/src/column_stats.rs:586-588 | comparing squares is comparing with twice the standard deviation |
| `McvList.AnalyzeMcvList` | crates/nodus_executor/src/column_stats.rs:556-598 | keeps the longest prefix whose last count is significant, with the running sum exact at every round; a full sample keeps everything |
| `Collapse.Collapse` | crates/nodus_executor/src/column_stats.rs:493-510 | the loop terminates and keeps exactly the positions outside the chosen runs |
| `Collapse.OutsideMeaning` | crates/nodus_executor/src/column_stats.rs:493-510 | those positions rise, and are exactly the ones in no chosen run |
| `Collapse.ByPositionApart` | crates/nodus_executor/src/column_stats.rs:491-492 | sorted by position, the chosen runs do not overlap |
| `Collapse.EnoughKept` | crates/nodus_executor/src/column_stats.rs:484-511 | at least as many positions are kept as there are values not chosen |
| `Histograms.EvenlySpaced` | crates/nodus_executor/src/column_stats.rs:511-525 | bound i is at position floor(i(n-1)/(h-1)), by integer steps with a carried remainder |
| `Histograms.SpacingRises` | crates/nodus_executor/src/column_stats.rs:511-525 | positions never fall, and start and end at the extremes |
| `Histograms.SpacingIsStrict` | crates/nodus_executor/src/column_stats.rs:511-525 | with at least as many values as bounds, no position repeats |
| `Histograms.RunLengths` | crates/nodus_executor/src/column_stats.rs:726-734 | the runs spell out the sorted counts |
| `Histograms.CountHistogram` | crates/nodus_executor/src/column_stats.rs:735-748 | the run-length walk never passes the last run, and entry i is the sorted count at floor(i(n-1)/(h-1)) |
| `ScalarStats.CountersMean` | crates/nodus_executor/src/column_stats.rs:403-406 | the counters are the numbers of distinct and of repeated values |
| `ScalarStats.PrefixIsMostCommon` | crates/nodus_executor/src/column_stats.rs:465-481 | any prefix of the ranking lists true frequencies, and nothing left out precedes anything listed |
| `ScalarStats.ChooseCommon` | crates/nodus_executor/src/column_stats.rs:452-463 | a complete list is kept whole, any other is cut at significance |
| `ScalarStats.DrawHistogram` | crates/nodus_executor/src/column_stats.rs:484-525 | the bounds lie evenly in the sorted sample without the listed values, of which there are enough |
| `ScalarStats.HistogramMeaning` | crates/nodus_executor/src/column_stats.rs:484-533 | bounds never fall, are sampled values not listed as common, and start and end at the smallest and largest of them |
| `ScalarStats.Analyze` | crates/nodus_executor/src/column_stats.rs:371-552 | the whole column: distinct estimate, most common values, histogram and correlation, stated about the sample |
| `ArrayRangeStats.ElementCounts` | crates/nodus_executor/src/column_stats.rs:723-750 | the element-count histogram reads the sorted counts at even positions, and the last number is their average |
| `ArrayRangeStats.RangeHistograms` | crates/nodus_executor/src/column_stats.rs:763-856 | the paired sorted ends and the sorted lengths of the non-empty ranges are read at even positions, once there are two; the empty fraction is exact |
| `ArrayRangeStats.SpacedMeaning` | crates/nodus_executor/src/column_stats.rs:821-843 | such a histogram never falls and starts and ends at the extremes |
| `RangeEnds.SortAscends` | crates/nodus_executor/src/column_stats.rs:876-885 | sorting puts the ends in the order of `cmp_end` |
| `RangeEnds.CountSorted` | crates/nodus_executor/src/column_stats.rs:788-791 | the first sorted ends are those under a cut, as many as the sample has |
| `RangePairs.PairsAreRangesExactly` | crates/nodus_executor/src/column_stats.rs:788-812 | the i-th sorted lower end makes a non-empty range with the i-th sorted upper end, for all i, exactly when at every bounded upper end enough ranges have begun |
| `RangePairs.BoundedRangesPair` | crates/nodus_executor/src/column_stats.rs:788-812 | of non-empty ranges that all end, every pair is a range exactly when, wherever an inclusive upper end meets an exclusive lower one, as many ranges begin below that value as end by it |
| `RangePairs.ExclusiveEndsPair` | crates/nodus_executor/src/ranges.rs:310-328 | with exclusive upper ends, as the discrete subtypes have them, every pair is a range |
| `RangePairs.MeetingEndsBreakPairs` | crates/nodus_executor/src/ranges.rs:329-335 | the ranges [5,5] and (5,7) print the empty (5,5] |
| `RangePairs.UnboundedUpperBreaksPairs` | crates/nodus_executor/src/column_stats.rs:876-885 | the non-empty ranges (5,) and [1,5) print the empty (5,5), since an unbounded upper end sorts first |
| `RangePairs.PrintedBoundsAreRanges` | crates/nodus_executor/src/column_stats.rs:800-812 | under that condition every printed bound is a range |
| `Moments.YoungsCramer` | crates/nodus_executor/src/aggregates.rs:85-90 | the one-pass step reaches the two-pass sum of products about the means, for every list |
| `Moments.CoClosed` | crates/nodus_executor/src/aggregates.rs:102-110 | n times that sum is n·Σuv - Σu·Σv |
| `Moments.CauchySchwarz` | crates/nodus_executor/src/aggregates.rs:270-279 | sxy² ≤ sxx·syy, and both factors are non-negative |
| `Moments.LeastSquares` | crates/nodus_executor/src/aggregates.rs:302-305 | no line is closer to the pairs than the one with slope sxy/sxx through the means |
| `Aggregates.FloatSquares` | crates/nodus_executor/src/aggregates.rs:80-91 | the float loop yields the two-pass sum of squares, and fails exactly on a non-number |
| `Aggregates.ExactSums` | crates/nodus_executor/src/aggregates.rs:95-104 | the exact loop yields Σx and Σx², and fails exactly on a non-number |
| `Aggregates.ExactVarianceIs` | crates/nodus_executor/src/aggregates.rs:108-120 | the exact path's quotient is the two-pass variance |
| `Aggregates.Spread` | crates/nodus_executor/src/aggregates.rs:71-128 | both paths give the textbook variance (or its root); null on too few values, an error on a non-number |
| `Aggregates.VarianceMeaning` | crates/nodus_executor/src/aggregates.rs:71-128 | a variance is never negative, and zero exactly when all values are equal |
| `Aggregates.AccumulateIsTwoPass` | crates/nodus_executor/src/aggregates.rs:270-279 | accumulating a pair keeps all totals equal to the two-pass ones |
| `Aggregates.Regression` | crates/nodus_executor/src/aggregates.rs:260-308 | every answer is that of the two-pass totals over the pairs without nulls; an error exactly on a non-number |
| `Aggregates.CorrWithinOne` | crates/nodus_executor/src/aggregates.rs:297-298 | a correlation lies in [-1, 1] |
| `Aggregates.R2WithinOne` | crates/nodus_executor/src/aggregates.rs:299-301 | the coefficient of determination lies in [0, 1] |
| `Aggregates.RegressionLineIsBest` | crates/nodus_executor/src/aggregates.rs:302-305 | slope and intercept give the line closest to the pairs |
| `Intervals.JustifyHours` | crates/nodus_executor/src/datetime.rs:209-220 | keeps span and months, leaves less than a day of time, of the days' sign |
| `Intervals.JustifyDays` | crates/nodus_executor/src/datetime.rs:223-234 | keeps span and time, leaves under thirty days, of the months' sign |
| `Intervals.Justify` | crates/nodus_executor/src/datetime.rs:237-260 | the step-by-step method keeps the span, yields the canonical form, and computes `Justified` |
| `Intervals.JustifyMeaning` | crates/nodus_executor/src/datetime.rs:203-260 | justifying keeps the span and yields the canonical form |
| `Intervals.CanonicalUnique` | crates/nodus_executor/src/datetime.rs:203-260 | no two canonical intervals have the same span |
| `Intervals.JustifyEqualIffSpan` | crates/nodus_executor/src/datetime.rs:203-260 | two intervals justify equally exactly when their spans are equal |
| `Intervals.JustifyFixedPoints` | crates/nodus_executor/src/datetime.rs:237-260 | canonical intervals are exactly the fixed points, and justifying is idempotent |
| `IntervalText.Writer.Part` | crates/nodus_executor/src/datetime.rs:267-283 | a nonzero part writes its two words with the forced plus sign, a zero part nothing |
| `IntervalText.Writer.Clock` | crates/nodus_executor/src/datetime.rs:287-303 | the clock is written when time is nonzero or nothing else was |
| `IntervalText.Format` | crates/nodus_executor/src/datetime.rs:263-305 | the printed text is the interval's words with single spaces |
| `IntervalParse.Tokenize` | crates/nodus_executor/src/datetime.rs:50-64 | words split into tokens, a number glued to a unit into two |
| `IntervalParse.ReadTokens` | crates/nodus_executor/src/datetime.rs:68-99 | the token loop computes `ReadFrom`, which adds up what each token takes, in f64 where the source does |
| `IntervalParse.ParseIso` | crates/nodus_executor/src/datetime.rs:369-395 | the ISO 8601 loop computes `IsoResult`, whose meaning the next rows give |
| `IsoIntervals.IsoReads` | crates/nodus_executor/src/datetime.rs:369-395 | text put together from numbers and unit letters, in any order on either side of the T, reads as those amounts added one by one |
| `IsoIntervals.DaysCarry` | crates/nodus_executor/src/datetime.rs:145-152 | a fraction of a day becomes at most a day of time, of the same length to half a microsecond and a little |
| `IsoIntervals.MonthsCarry` | crates/nodus_executor/src/datetime.rs:117-122 | a fraction of a month becomes at most thirty days and a day of time, of the same length to half a microsecond and a little |
| `IsoIntervals.IsoSpans` | crates/nodus_executor/src/datetime.rs:369-395 | the interval read spans its amounts together, a month as thirty days, to half a microsecond and a little for each |
| `IsoIntervals.IsoSums` | crates/nodus_executor/src/datetime.rs:369-395 | whole amounts that floats hold once scaled, with running totals in 64 bits, read as their exact sum |
| `IntervalParse.Parse` | crates/nodus_executor/src/datetime.rs:36-101 | the whole reading: trimming, ISO form, `ago`, tokens |
| `Floats.Near` | crates/nodus_executor/src/datetime.rs:83 | rounding to f64 moves a number by at most one part in 2^53 |
| `Floats.WholeRounds` | crates/nodus_executor/src/datetime.rs:83 | an integer rounds to an integer of at most 53 significant bits, and to itself exactly when it is one |
| `Floats.SmallIsExact` | crates/nodus_executor/src/datetime.rs:83 | every integer up to 2^53 in size is a float |
| `Floats.MillionthsSurvive` | crates/nodus_executor/src/datetime.rs:336-345 | microseconds below a minute survive being read as a fraction of a second and scaled back |
| `IntervalRoundTrip.SecondsRead` | crates/nodus_executor/src/datetime.rs:314-347 | printed seconds, fraction trimmed, read back to the microsecond through f64 |
| `IntervalRoundTrip.ClockReads` | crates/nodus_executor/src/datetime.rs:287-347 | a printed clock reads back as its microseconds, sign included |
| `IntervalRoundTrip.SmallestClockFails` | crates/nodus_executor/src/datetime.rs:296-302 | the clock of -2^63 microseconds does not read back |
| `IntervalRoundTrip.DaysKept` | crates/nodus_executor/src/datetime.rs:145-152 | days read back exactly when 53 bits hold them, or they are the largest 64-bit number |
| `IntervalRoundTrip.MonthsKept` | crates/nodus_executor/src/datetime.rs:117-122 | months read back exactly when 53 bits hold twelve times the whole years |
| `IntervalRoundTrip.TextReadsBack` | crates/nodus_executor/src/datetime.rs:36-347 | what reading an interval's own text gives, for all 64-bit parts and sign mixes |
| `IntervalRoundTrip.RoundTrip` | crates/nodus_executor/src/datetime.rs:36-347 | parse(format(iv)) is iv exactly when 53 bits hold the days (or they are the largest) and the months of the years, and the time is not -2^63 |
| `IntervalRoundTrip.SmallIntervalsRoundTrip` | crates/nodus_executor/src/datetime.rs:36-347 | up to 2^53 months and days only a time part of -2^63 is lost |
| `IntervalRoundTrip.FirstLostDay` | crates/nodus_executor/src/datetime.rs:83 | 2^53 + 1 days print in full and read as 2^53 days |
| `IntervalRoundTrip.PrintAndRead` | crates/nodus_executor/src/datetime.rs:36-305 | the same of the two methods, one after the other |
| `Decimals.PrintReads` | crates/nodus_executor/src/datetime.rs:274-279 | a printed integer, with or without a plus sign, reads back as itself as an i64, and as the nearest float as an f64 |
| `Words.SplitJoin` | crates/nodus_executor/src/datetime.rs:50-52 | splitting at white space undoes joining words with spaces |
| `Bytea.Hex` | crates/nodus_executor/src/bytea.rs:66-74 | two digits for every byte |
| `Bytea.DecodeHex` | crates/nodus_executor/src/bytea.rs:39-56 | digit pairs with white space skipped; the first bad pair decides the error |
| `Bytea.Escape` | crates/nodus_executor/src/bytea.rs:78-88 | printable bytes as they are, a backslash doubled, any other byte as three octal digits |
| `Bytea.ParseInput` | crates/nodus_executor/src/bytea.rs:7-36 | hex after the prefix, the escape form otherwise, with its errors |
| `Bytea.EscapeRoundTrip` | crates/nodus_executor/src/bytea.rs:7-88 | escaped bytes read back as themselves, for every byte string |
| `Bytea.HexRoundTrip` | crates/nodus_executor/src/bytea.rs:254-258 | hex text reads back as itself, as input and from storage |
| `Base64.Encode` | crates/nodus_executor/src/bytea.rs:93-115 | line breaks aside, the text is the RFC 4648 encoding, and no line is longer than 76 characters |
| `Base64.ShortLinesMeaning` | crates/nodus_executor/src/bytea.rs:93-100 | any stretch of more than 76 characters holds a line break |
| `Base64.Decode` | crates/nodus_executor/src/bytea.rs:117-151 | the loop with its 32-bit accumulator computes `DecodeOf`, errors included |
| `Base64.RunsBack` | crates/nodus_executor/src/bytea.rs:124-145 | from any group boundary, whatever the truncated accumulator still holds, an encoding decodes to its bytes |
| `Base64.DecodesBack` | crates/nodus_executor/src/bytea.rs:117-151 | any text that encodes the bytes, white space aside, decodes to them |
| `Base64.RoundTrip` | crates/nodus_executor/src/bytea.rs:93-151 | encoding then decoding gives the bytes back, in short lines |
| `Advisory.ExclusiveIsAlone` | crates/nodus_executor/src/advisory.rs:54-83 | an exclusive holder excludes every other session in both modes |
| `Advisory.OpenByCounts` | crates/nodus_executor/src/advisory.rs:61-71 | a lock can be taken exactly when no other session's count conflicts |
| `Advisory.AdvisoryLocks.TryLock` | crates/nodus_executor/src/advisory.rs:54-83 | takes exactly one more hold if the lock is open, recorded for a transaction or else added to the session's own; otherwise changes nothing |
| `Advisory.AdvisoryLocks.Unlock` | crates/nodus_executor/src/advisory.rs:115-137 | gives back one hold if there is one, the session's own first; recordings stay |
| `Advisory.AdvisoryLocks.UnlockAll` | crates/nodus_executor/src/advisory.rs:141-150 | clears the session's holds and recordings and no others |
| `Advisory.AdvisoryLocks.EndTransaction` | crates/nodus_executor/src/advisory.rs:153-177 | gives back as many holds as were recorded; from balanced counts exactly the session's own remain |
| `Advisory.BalancedGive` | crates/nodus_executor/src/advisory.rs:115-137 | the balance survives an unlock exactly when the session has a hold of its own |
| `Advisory.BalancedEnd` | crates/nodus_executor/src/advisory.rs:153-177 | giving back what was recorded leaves exactly the session's own holds |
| `Advisory.CallMeaning` | crates/nodus_executor/src/advisory.rs:41-177 | every call keeps exclusion, no zero counts and no free entries, and moves the counts as it should |
| `Advisory.BalancedExactly` | crates/nodus_executor/src/advisory.rs:41-177 | a call keeps every count equal to the session's own plus the recorded holds exactly when it does not unlock without a hold of its own |
| `Advisory.RunBalancedExactly` | crates/nodus_executor/src/advisory.rs:41-177 | a run is balanced throughout exactly when sessions only ever unlock holds of their own |
| `Advisory.UnlockTakesTransactionHold` | crates/nodus_executor/src/advisory.rs:115-137 | lock for the transaction, then unlock: the recording outlives the hold |
| `Advisory.Run` | crates/nodus_executor/src/advisory.rs:41-177 | any interleaving ends in the table of its calls, sound, and balanced when it was disciplined |
| `Advisory.Lock` | crates/nodus_executor/src/advisory.rs:87-111 | takes exactly one hold on the first try that finds the lock open, or gives up with none once the waits are used up, whatever calls run meanwhile |
| `Cursors.PlanInRange` | crates/nodus_executor/src/cursors.rs:93-155 | a move ends in [0, n+1] and passes positions in [1, n] |
| `Cursors.ForwardAdvances` | crates/nodus_executor/src/cursors.rs:93-155 | a move that is not backward passes only rows beyond where it started, in order |
| `Cursors.ForwardAdds` | crates/nodus_executor/src/cursors.rs:108-118 | FORWARD a then b is FORWARD a+b, in rows and position |
| `Cursors.BackwardAdds` | crates/nodus_executor/src/cursors.rs:119-126 | BACKWARD a then b is BACKWARD a+b |
| `Cursors.RelativeIsAbsolute` | crates/nodus_executor/src/cursors.rs:127-153 | RELATIVE k goes where ABSOLUTE p+k goes |
| `Cursors.Cursor.Fetch` | crates/nodus_executor/src/cursors.rs:219-264 | FETCH and MOVE deliver the planned rows and move there; a backward move without SCROLL is refused with no change |
| `Cursors.Run` | crates/nodus_executor/src/cursors.rs:219-264 | each request is answered at the position the earlier ones left; the rows delivered are those at the planned positions of the accepted fetches, without SCROLL each at most once, in order |
| `Roles.EffectivePrincipals` | crates/nodus_catalog/src/memory_catalog.rs:403-418 | terminates on any membership graph and returns exactly the reachable principals, each once |
| `Roles.ReachesMore` | crates/nodus_catalog/src/memory_catalog.rs:403-418 | more memberships reach more |
| `Authz.Scoped` | crates/nodus_authz/src/lib.rs:172-189 | keeps exactly the principals unscoped or scoped to the request's database |
| `Authz.Acting` | crates/nodus_authz/src/lib.rs:139-155 | the principals a request acts as: those it reaches and PUBLIC, in scope |
| `Authz.FindMatchingGrant` | crates/nodus_authz/src/lib.rs:156-170 | finds the first public grant on the resource, of the privilege or ALL, to an acting principal, exactly when there is one |
| `Authz.IsSuperuser` | crates/nodus_authz/src/lib.rs:193-198 | true exactly when an acting principal has ALL on the system |
| `Authz.Authorize` | crates/nodus_authz/src/lib.rs:230-284 | allows exactly when an acting principal is a superuser, the owner or a matching grantee, with that reason; a reported grant is the first that answers the request for a principal it acts as |
| `Authz.AllowedMonotone` | crates/nodus_authz/src/lib.rs:230-284 | more grants, memberships and principals allow more |
| `Authz.OtherDatabasesIrrelevant` | crates/nodus_authz/src/lib.rs:172-189 | grants to principals scoped to another database make no difference |
| `Authz.MemoryCatalog.GrantPrivilege` | crates/nodus_catalog/src/memory_catalog.rs:854-874 | adds the grant; nothing that was allowed is lost |
| `Authz.MemoryCatalog.RevokePrivilege` | crates/nodus_catalog/src/memory_catalog.rs:876-888 | removes exactly the matching grants; nothing becomes allowed |
| `Authz.MemoryCatalog.AddRoleMember` | crates/nodus_catalog/src/memory_catalog.rs:890-906 | adds the membership or updates its admin option and grantor; nothing that was allowed is lost |
| `Authz.MemoryCatalog.RemoveRoleMember` | crates/nodus_catalog/src/memory_catalog.rs:908-920 | removes exactly the membership; nothing becomes allowed |
| `Authz.MemoryCatalog.DropPrincipal` | crates/nodus_catalog/src/memory_catalog.rs:922-929 | nobody acts as the dropped principal, it acts only as PUBLIC, and nothing becomes allowed |
| `Audit.Rotate` | crates/nodus_audit/src/lib.rs:162-177 | the renames move every file one slot up and lose the last slot's |
| `Audit.ShiftedTrail` | crates/nodus_audit/src/lib.rs:162-177 | rotating loses the last slot's events and nothing else |
| `Audit.Apply` | crates/nodus_audit/src/lib.rs:67-73 | the matching events in order, cut at the limit |
| `Audit.FileAuditSink.RecordEvent` | crates/nodus_audit/src/lib.rs:194-214 | appends the event; retained events stay the newest recorded ones in order, segments contiguous, the live file within the cap or one line |
| `Audit.FileAuditSink.Query` | crates/nodus_audit/src/lib.rs:218-231 | reads the retained events oldest first and filters them |
| `Audit.RecordAll` | crates/nodus_audit/src/lib.rs:194-231 | after any records an unfiltered query returns an in-order suffix: everything, or at least keep+1 events, and every file is within the cap or holds one line |

## Left out

- `PlanWalSegments`: segment ids are numbers, so names that are not numeric do not occur; an archived object is its size and the records its bytes decode to.
- `ReplayPitrWalSegments`: does not model the version of a plan or decoding the bytes of a segment.
- `IndexRecords`: does not sort and deduplicate the index lists, which only changes their order.
- `LoadSegments`: does not validate the recovery generation again, as `Repository.ChooseBase` does when planning.
- `RestoreToPoint`: takes the base as given, where `Repository.ChooseBase` models its choice and generation; does not model how a full export is written; the base is any set of dumps that hold the history, or the visible versions, at the snapshot. The watermark row of the hybrid clock, which may lie above the snapshot, is outside its premise.
- `RepositoryRuns.Run`: creates backups under fresh ids only, since `Repository.UploadSafeExactly` shows what others risk; does not model two orchestrators racing on one repository; calls are sequential, with a crash allowed at every write.
- `Analyze`: does not model f32 and f64 rounding, value widths or operator identifiers.
- `RangeHistograms`: does not model the text of an end or the subtype's difference; the values of ends and the lengths are ranks, and the fraction is not rounded to f32.
- `Spread`: does not model the result scale of exact quotients and roots, nor infinite and not-a-number numerics.
- `ParseDecimal`: does not read exponents, infinities or not-a-number, which f64 parsing accepts.
- `Justify`: does not model 64-bit overflow of the sums.
- `ParseClock`: does not model 64-bit overflow of the hours, and `YearMonth` not that of the years.
- `TryLock`: does not model the 32-bit width of a hold count.
- `Authorize`: does not model `authorize_grant`, `explain` and the catalog version in a decision.
- `MemoryCatalog`: principals are keyed by id; creating, renaming and persisting descriptors is not modelled.
- `FileAuditSink`: does not model JSON, file errors or a crash between two renames.
- Object storage on S3 and the file system, encryption, and decoding WAL bytes from temporary files.
- Coverage validation of a backup and merging of replay reports: bookkeeping over the parts modelled here.
- The LSM storage engine, Raft, sharding, the SQL front end and the wire protocol.
- Interval multiplication and division, time zones, date formatting and `age`.
- Ordered-set and hypothetical-set aggregates, and the lexeme and element statistics of tsvector and array columns.
- Encoding names, character-set conversion and checksums of `bytea`.
- Declaring, closing and listing cursors, and the parsing of fetch directions.
