# stellar-rpc: a verified model of its storage and query core

stellar-rpc keeps a sliding window of Stellar ledgers in SQLite and serves paged queries over it.
This project models that core in Dafny and proves properties that span its operations: what every
interleaving of the ledger-range cache keeps, what a database looks like after any schedule of
backfills, live ingestion and crashes, and what a client sees that follows the cursors of
`getEvents` or `getTransactions`. `dafny verify dfyconfig.toml` checks all of it.

## Modules

| file | what it models |
|---|---|
| `Words`, `Wrappers` | Go's uint32 arithmetic with its wrap-around; optional values, errors, facts about collections |
| `BucketWindow`, `FeeStats`, `FeeWindow` | the circular buffer of ledger buckets, the fee statistics, the two fee windows |
| `Backlog` | the backlog limiter as atomic steps of any number of threads |
| `RangeCache`, `CacheProtocol` | the cached ledger range, used by one thread, and by readers and a writer interleaved |
| `LedgerSets`, `BackfillPlan`, `Backfill` | sets of ledgers, the backfill planner and its coverage, ingestion, restarts and the cache they leave |
| `Cursors` | TOIDs (SEP-0035, Operation IDs, Specification section) and printed event cursors |
| `BatchWriter` | batched INSERTs with the in-place shift |
| `Ledgers`, `EventOrder`, `EventContent`, `EventIngest`, `TxIndex` | ledgers with transactions and events, event identity, order and content, the hash index |
| `Store` | the three tables, write transactions with their trims, lookup by hash |
| `EventFilter`, `EventPages`, `EventHistory` | event filters and their pushdown, pages of events, the table as history |
| `TransactionPages` | pages of transactions |
| `BulkLoad` | the schema during a bulk load, with crashes |

SQLite is finite maps with atomic commits. Whatever lies outside (a failing statement, a crash, the
datastore tip, checkpoints) is an oracle indexed by a clock, so every theorem holds for all of its
behaviours. A crash leaves the last committed state behind, exactly as a failed call does.

## Where the code does not do what it says

Each of these is a lemma with a concrete run or the exact condition under which the promise holds.

- `RunBackfill` promises the whole retention window (backfill.go:102-103). If an iteration of the forward
  phase finds one single ledger, it is not filled (line 214) and the next iteration starts above it
  (line 224). The last check refuses such a run, and every later backfill refuses the hole:
  `Backfill.SkipsOneLedger`, `Backfill.BackfillMeta.SucceedsIff`, `BackfillPlan.FrontfillGapIff`,
  `BackfillPlan.CoverageIff`, `Backfill.BackfillMeta.LiveOnce`.
- The bound that `backfillChunks` refreshes (lines 312-318) uses the window size of the old tip. On a chain
  that is younger than the window it moves up although nothing may be trimmed, and a run succeeds without
  the ledgers below: `Backfill.StopsShort`, `BackfillPlan.StopsAboveIff`,
  `Backfill.BackfillMeta.WindowIsStoredIff`. Startup runs a second backfill from the newer tip, which stores
  what is missing when that is at most eleven chunks: `Backfill.BackfillMeta.BackfillTwice`,
  `Backfill.SecondRunCatchesUp`.
- The comment in `GetLedgerRange` says that a commit always advances the latest ledger
  (db/ledger.go:233-240). A backward chunk does not. It leaves a stale oldest ledger in a warm cache and a
  low latest ledger in a cold one, so that the last check of `RunBackfill` may see less than everything:
  `RangeCache.BackwardCommitLeavesStaleOldest`, `RangeCache.BackwardCommitIntoColdCacheLowersLatest`,
  `RangeCache.CommitAgreesIff`, `BackfillPlan.CacheAfterBoth`.
- The comment there also says that the returned range is correct as of the query. With a cached latest ledger
  the two ends are of different moments, and when a whole window of ledgers is committed in between, the
  first lies above the last: `CacheProtocol.RangeFromSixToFive`, `CacheProtocol.RangeIsTurnedIff`,
  `CacheProtocol.AnswersAreOfTheTable`.
- `ResetCache` (db/db.go:73-80) waits for no reader. It is harmless at startup; under a reader inside
  `getLatestLedgerSequence` that was overtaken by a commit it is not:
  `CacheProtocol.ResetUnderAReaderBreaksTheCache`, `CacheProtocol.ResetIsHarmlessIff`.
- `getEvents` asks for the ledger range and reads the rows at two moments, outside of a transaction
  (get_events.go:138 and 207). A commit in between can trim events of a start ledger that passed the check,
  and the page silently lacks them: `EventPages.GetEvents`, `EventPages.PageOfLaterTable`.
- `getEvents` with an end ledger at or below the start ledger returns an empty page and a cursor before the
  start, and the next page can hold events from before the start that were not asked for:
  `EventPages.EarlierEventDelivered`, `EventPages.EarlierEventsOfLedgersIff`, `EventPages.CursorRegressesIff`.
- `getTransactions` at an exhausted, non-empty latest ledger returns a cursor before that ledger's
  transactions, and the next page repeats them: `TransactionPages.RepeatedDelivery`,
  `TransactionPages.CursorRegressesIff`, `TransactionPages.ExhaustedTipRepeatsLedger`.

## Assumptions

- Ledger numbers fit a positive int32, as a TOID requires; a ledger has fewer than 2^20 - 1
  transactions, a transaction at most 2^12 - 1 operations, and event indices fit uint32.
- Outer and inner transaction hashes are all distinct.
- The tip of the datastore never goes back; `PrevCheckpoint(x) <= x`; the backfill context is never
  cancelled.
- A read transaction sees the table as it is when it begins.
- The cache is reset only while no reader inside `getLatestLedgerSequence` holds an overtaken latest ledger, as
  at startup.

## Model

| member | source | states |
|---|---|---|
| BucketWindow.Window.Append | cmd/stellar-rpc/internal/ledgerbucketwindow/ledgerbucketwindow.go:33-62 | accepts exactly the next ledger (or any ledger when empty); the new contents are the last `capacity` buckets of the old ones plus the new one; a full window evicts and returns its oldest bucket; a rejected bucket changes nothing |
| BucketWindow.Window.OverwriteHead | cmd/stellar-rpc/internal/ledgerbucketwindow/ledgerbucketwindow.go:52-59 | overwriting the head cell and moving the head on drops the oldest bucket and adds the new one at the end |
| BucketWindow.RotateIsPush | cmd/stellar-rpc/internal/ledgerbucketwindow/ledgerbucketwindow.go:55-58 | the circular buffer with one cell overwritten, read from the next head, is the queue without its first element and with the new one last |
| BucketWindow.HeadPlusLength | cmd/stellar-rpc/internal/ledgerbucketwindow/ledgerbucketwindow.go:36-37 | in uint32 arithmetic the head's sequence plus the length is the successor of the tail's sequence |
| BucketWindow.Window.Get | cmd/stellar-rpc/internal/ledgerbucketwindow/ledgerbucketwindow.go:107-114 | `Get(i)` is the i-th oldest bucket, whatever the head |
| BucketWindow.Window.GetLedgerRange | cmd/stellar-rpc/internal/ledgerbucketwindow/ledgerbucketwindow.go:87-104 | the range runs from the oldest to the newest bucket and spans `len` ledgers; zeros when empty |
| BucketWindow.WindowIsSuffixOfHistory | cmd/stellar-rpc/internal/ledgerbucketwindow/ledgerbucketwindow.go:33-62 | after any run of appends and resets a window of any capacity holds exactly the last `capacity` buckets of the contiguous history of accepted ledgers |
| FeeStats.FindMode | cmd/stellar-rpc/internal/feewindow/feewindow.go:80-103 | the scan of the sorted fees finds the smallest value of maximum multiplicity |
| FeeStats.PercentileAtRank | cmd/stellar-rpc/internal/feewindow/feewindow.go:105-112 | the element at rank ceiling(p*n/100) is in bounds, at least p percent of the fees are at most it and fewer than p percent are below it |
| FeeStats.ComputeFeeDistribution | cmd/stellar-rpc/internal/feewindow/feewindow.go:75-132 | max, min, mode, all percentiles and counts describe the fees as given, and the slice is left sorted |
| FeeStats.DistributionIsUnique | cmd/stellar-rpc/internal/feewindow/feewindow.go:75-132 | the distribution is determined by the multiset of the fees; their order does not matter |
| FeeStats.DistributionIsOrdered | cmd/stellar-rpc/internal/feewindow/feewindow.go:113-131 | Min <= P10 <= ... <= P99 <= Max, and Min <= Mode <= Max |
| FeeWindow.FeeWindow.AppendLedgerFees | cmd/stellar-rpc/internal/feewindow/feewindow.go:50-65 | the cached distribution describes all fees of the retained ledgers after every append, and a rejected ledger leaves it alone |
| FeeWindow.FeeWindows.IngestFees | cmd/stellar-rpc/internal/feewindow/feewindow.go:220-231 | a ledger enters both windows or neither, the classic window with its classic fees and the Soroban window with its Soroban fees |
| FeeWindow.StepInStep | cmd/stellar-rpc/internal/feewindow/feewindow.go:220-231 | if both windows end in the same ledger they accept the same ledger and end in the same ledger again, whatever their capacities |
| FeeWindow.WindowsAcceptInLockstep | cmd/stellar-rpc/internal/feewindow/feewindow.go:220-239 | over every run of ledgers and resets the classic and the Soroban window accept the same next ledger |
| FeeWindow.ClassicWindowHoldsClassicFees | cmd/stellar-rpc/internal/feewindow/feewindow.go:220-227 | after any run every bucket of the classic window holds the classic fees of its own ledger |
| FeeWindow.SorobanWindowHoldsSorobanFees | cmd/stellar-rpc/internal/feewindow/feewindow.go:228-231 | and every bucket of the Soroban window its Soroban fees |
| FeeWindow.AllFeesLayout | cmd/stellar-rpc/internal/feewindow/feewindow.go:57-62 | the fees that are summarized are those of every bucket in the window, one bucket after the other, and no others |
| Backlog.StepKeepsInvariant | cmd/stellar-rpc/internal/network/backlogQ.go:109-143 | every atomic operation of every thread keeps: pending and gauge equal the numbers of threads in the respective stages, and at most `limit` requests are admitted |
| Backlog.HandlerNeverExceedsLimit | cmd/stellar-rpc/internal/network/backlogQ.go:115-142 | in every interleaving of any number of threads at most `limit` requests are inside the downstream handler |
| Backlog.CountersAreExact | cmd/stellar-rpc/internal/network/backlogQ.go:115-140 | the gauge counts the requests whose `Inc` has run and `Dec` has not; `pending` counts admitted requests plus refused ones not yet undone; the uint64 never wraps |
| Backlog.CountersReturnToZero | cmd/stellar-rpc/internal/network/backlogQ.go:134-140 | when no request is under way both counters are zero |
| Backlog.AdmissionIsExact | cmd/stellar-rpc/internal/network/backlogQ.go:115-129 | an arriving request is admitted exactly when fewer than `limit` are counted |
| Backlog.OneLogUntilServed | cmd/stellar-rpc/internal/network/backlogQ.go:115-126 | until a served request takes the flag down, refusals log one line if the flag was down and none otherwise |
| Backlog.ServedResetsFlag | cmd/stellar-rpc/internal/network/backlogQ.go:134-140 | the end of a served request takes the flag down and logs nothing |
| RangeCache.DbCache.UpdateAfterCommit | cmd/stellar-rpc/internal/db/db.go:472-488 | on a cache that agrees with the table, the in-place update after an ascending commit agrees with the trimmed table again and knows the new latest ledger |
| RangeCache.DbCache.MemoizeOldest | cmd/stellar-rpc/internal/db/ledger.go:232-245 | a queried oldest ledger that is current unless a commit came in between is memoized without harm, and is memoized when none came |
| RangeCache.DbCache.AddMissingLatest | cmd/stellar-rpc/internal/db/db.go:312-319 | a latest ledger that was queried before the last commit never replaces a newer one; afterwards MAX is cached |
| RangeCache.LedgerDb.GetLedgerRange | cmd/stellar-rpc/internal/db/ledger.go:200-249 | whatever of the two ends is cached, the answer is MIN and MAX of the table with their close times, or the empty-database error exactly on an empty table |
| RangeCache.LedgerDb.GetLatestLedgerSequence | cmd/stellar-rpc/internal/db/db.go:296-322 | the answer is MAX of the table, which is cached from then on |
| RangeCache.LedgerDb.Commit | cmd/stellar-rpc/internal/db/db.go:451-490 | an ascending commit trims the table and keeps the cache in agreement, or changes neither |
| RangeCache.AscendingCommitAgrees | cmd/stellar-rpc/internal/db/db.go:463-490 | an ascending commit with a window of at least one ledger, followed by its cache update, leaves every known cached end equal to the table's MIN or MAX |
| RangeCache.CommitAgreesIff | cmd/stellar-rpc/internal/db/db.go:463-490 | for commits in any order the cache is right afterwards if and only if the latest was known or the commit is above everything, and no surviving new row lies below a memoized oldest ledger |
| RangeCache.BackwardCommitLeavesStaleOldest | cmd/stellar-rpc/internal/ingest/backfill.go:290-306 | a backward chunk below a memoized oldest ledger leaves that ledger cached although older ones are stored |
| RangeCache.BackwardCommitIntoColdCacheLowersLatest | cmd/stellar-rpc/internal/ingest/backfill.go:290-306 | a backward chunk committed to a cold cache becomes the cached latest ledger, below stored ones |
| RangeCache.TrimIsTrimmed | cmd/stellar-rpc/internal/db/ledger.go:370-381 | the trim of the table is the trim of its set of ledgers |
| RangeCache.ZeroWindowLosesEverything | cmd/stellar-rpc/internal/db/ledger.go:370-381 | why the other lemmas ask for a window of at least one, which configuration validates (config/options.go:321): a window of 0 would delete the ledger just committed while the cache reports it |
| CacheProtocol.StepKeepsInvariant | cmd/stellar-rpc/internal/db/ledger.go:200-249 | every step of every reader and of the writer keeps the invariant, which says of a reader in flight that an unchanged latest proves its queried oldest current, and that a queried latest below MAX implies a cached latest |
| CacheProtocol.CacheAgreesInEveryRun | cmd/stellar-rpc/internal/db/ledger.go:200-249 | in every interleaving, whenever the lock is free, a non-zero cached latest is MAX and a non-zero cached first is MIN, close times included |
| CacheProtocol.TransactionIsWithinReportedRange | cmd/stellar-rpc/internal/methods/get_transaction.go:51-63 | GetTransaction never reports a latest ledger below the ledger of the transaction it found, even when the rows were visible before the cache update |
| CacheProtocol.ReadTxReportsItsSnapshot | cmd/stellar-rpc/internal/db/ledger.go:64-69 | a read transaction reports exactly the MIN and MAX of the snapshot it reads |
| CacheProtocol.CachedAnswerIsCurrent | cmd/stellar-rpc/internal/db/ledger.go:211-222 | an answer taken from the cache alone is the table's range at that moment |
| CacheProtocol.AnswersAreOfTheTable | cmd/stellar-rpc/internal/db/ledger.go:200-249 | in every run from the start, whatever a reader is told after it asks is of the table: both ends of one moment since, or the latest of the moment of asking (when it was cached) and the oldest of a moment since, close times included; a read transaction sees the table of the moment it began; the empty-database error is given only if the table was empty |
| CacheProtocol.UndisturbedAnswerIsCurrent | cmd/stellar-rpc/internal/db/ledger.go:200-249 | if no commit became visible since, both ends are those of the current table |
| CacheProtocol.RangeIsTurnedIff | cmd/stellar-rpc/internal/db/ledger.go:224-246 | the first ledger told lies above the last one if and only if the last came from the cache and at least a whole window of ledgers was committed before the query for the first |
| CacheProtocol.RangeFromSixToFive | cmd/stellar-rpc/internal/db/ledger.go:224-246 | a run from the start with a window of one ledger in which a reader is told the range from 6 to 5 |
| CacheProtocol.CachedLatestIsCurrent | cmd/stellar-rpc/internal/db/db.go:296-303 | a latest ledger taken from the cache is MAX of the table at that moment |
| CacheProtocol.MemoizedIsCached | cmd/stellar-rpc/internal/db/ledger.go:232-245 | a queried oldest ledger is memoized if the latest has not changed since, and then the cache holds the whole range |
| CacheProtocol.ReaderGoesOn | cmd/stellar-rpc/internal/db/ledger.go:200-249 | while the lock is free every reader has a next step, and each step brings a call nearer to its answer |
| CacheProtocol.WriterGoesOn | cmd/stellar-rpc/internal/db/db.go:463-490 | a writer that holds the lock has a next step and frees the lock after at most two |
| CacheProtocol.ResetIsHarmlessIff | cmd/stellar-rpc/internal/db/db.go:73-80 | in every reachable state with the lock free, resetting the cache is harmless for all that can follow if and only if no reader inside getLatestLedgerSequence holds a latest ledger below MAX |
| CacheProtocol.ResetUnderAReaderBreaksTheCache | cmd/stellar-rpc/internal/db/db.go:73-80 | a run from the start: a reader is told ledger 5, ledger 6 is committed, the cache is reset, and the reader makes 5 the cached latest |
| LedgerSets.CountDetectsGaps | cmd/stellar-rpc/internal/ingest/backfill.go:258-266 | the count of stored ledgers in a range equals its length exactly when every ledger of the range is stored |
| LedgerSets.TrimTwice | cmd/stellar-rpc/internal/db/ledger.go:370-381 | trimming at every commit of a forward fill ends where one trim at the last commit would |
| BackfillPlan.SetBoundsExact | cmd/stellar-rpc/internal/ingest/backfill.go:145-179 | no uint32 arithmetic of setBounds wraps, the bounds are the edge of the window and the ends of the database, and the error is exactly a tip below a database that does not reach the edge |
| BackfillPlan.FrontfillGapIff | cmd/stellar-rpc/internal/ingest/backfill.go:201-229 | two iterations of runFrontfill leave a hole if and only if the first found one single ledger, the second filled beyond it, and the ledgers below were not all trimmed |
| BackfillPlan.PhaseGoesOn | cmd/stellar-rpc/internal/ingest/backfill.go:208-225 | every iteration of the forward phase keeps: all commits gapless unless a ledger was skipped, and a cache raised by the commits |
| BackfillPlan.CoverageIff | cmd/stellar-rpc/internal/ingest/backfill.go:201-229 | for any two checkpoints, everything from a ledger that no cutoff passes up to the last checkpoint is stored if and only if the stored ledgers reached down to it and no iteration left out the single ledger it found |
| BackfillPlan.CoverageForAnyTips | cmd/stellar-rpc/internal/ingest/backfill.go:105-132 | whatever the tip did: everything from the promised ledger up is stored if and only if nothing was left out, and the window at the last tip is stored if and only if also the run reached its edge |
| BackfillPlan.WindowIsCoveredWhen | cmd/stellar-rpc/internal/ingest/backfill.go:312-318 | the promise is the whole window at the last tip when the chain was at least as long as the window, the tip did not move, or the datastore starts above |
| BackfillPlan.ShortPhaseReaches | cmd/stellar-rpc/internal/ingest/backfill.go:272-322 | a backward phase of at most eleven chunks reaches the bound it began with |
| BackfillPlan.StopsAboveIff | cmd/stellar-rpc/internal/ingest/backfill.go:272-322 | for every history of a tip that never falls, the backward phase stops above a ledger at or above its first bound if and only if some refresh, made after chunk 10j while the chunks were still above that ledger, moved the bound above it; within eleven chunks none can |
| BackfillPlan.CheckOfReportedRange | cmd/stellar-rpc/internal/ingest/backfill.go:249-266 | the gap check on the range that the cache reports never raises a false alarm, and decides gaplessness when the cache is exact |
| BackfillPlan.ExactIsAgreement | cmd/stellar-rpc/internal/db/ledger.go:200-249 | an exact cache of ledger numbers with the right close times is one that agrees with the table |
| BackfillPlan.IngestedTwice | cmd/stellar-rpc/internal/ingest/service.go:160-171 | ingesting up to one ledger and then on to another, each commit trimming behind itself, is ingesting to the other |
| BackfillPlan.CacheAfterBoth | cmd/stellar-rpc/internal/ingest/backfill.go:126-131 | the range reported after both phases: from a memoized oldest ledger if it is still stored, and up to the top of the backward chunks if they met a cold cache and nothing was committed after them; otherwise everything |
| Backfill.StopsShort | cmd/stellar-rpc/internal/ingest/backfill.go:312-318 | a run of RunBackfill that succeeds without ledgers 1 to 500 of a window that starts at 1 |
| Backfill.SkipsOneLedger | cmd/stellar-rpc/internal/ingest/backfill.go:214-224 | a run of RunBackfill at the default checkpoint frequency: from ledgers 1 to 126, with the tip at 150 and then 200, it stores 128 to 191 and not 127; the last check refuses it, and the next life is refused too and leaves the hole |
| Backfill.SecondRunCatchesUp | cmd/stellar-rpc/internal/daemon/daemon.go:207-235 | the two backfills of a startup on the input of StopsShort: the second stores ledgers 1 to 500 as well |
| Backfill.BackfillMeta.IngestRange | cmd/stellar-rpc/internal/ingest/service.go:262-332 | one chunk is stored, trimmed and told to the cache as a whole or not at all; it fails exactly on a fault or on a ledger that is already stored |
| Backfill.BackfillMeta.GetLedgerRange | cmd/stellar-rpc/internal/db/ledger.go:200-249 | the reported range is the cached ends, or else the stored ones, and the oldest is memoized when the latest is cached |
| Backfill.BackfillMeta.VerifyDbGapless | cmd/stellar-rpc/internal/ingest/backfill.go:245-268 | the check passes exactly when every ledger of the reported range is stored, which is gaplessness when the cache is exact |
| Backfill.BackfillMeta.BackfillChunks | cmd/stellar-rpc/internal/ingest/backfill.go:272-322 | terminates; the committed chunks are adjacent, disjoint, descending, of at most 960 ledgers, together exactly [a, rBound]; a is computed for every history of the tip and lies at or below the returned bound; nothing is trimmed |
| Backfill.BackfillMeta.BackwardTrimsNothing | cmd/stellar-rpc/internal/db/ledger.go:370-381 | no commit of the backward phase trims a ledger of the window |
| Backfill.BackfillMeta.FrontfillChunks | cmd/stellar-rpc/internal/ingest/backfill.go:326-361 | ascending adjacent chunks of at most 960 ledgers; on success everything from the first ledger on is stored, trimmed at the last |
| Backfill.BackfillMeta.RunFrontfill | cmd/stellar-rpc/internal/ingest/backfill.go:201-229 | the stored ledgers after the iterations, for the checkpoints they used, the first of them asked for at once; from a gapless database every commit is gapless unless a ledger is skipped |
| Backfill.BackfillMeta.RunBackfill | cmd/stellar-rpc/internal/ingest/backfill.go:102-132 | every run is as `Ran` says: a database with a hole is refused untouched; no commit makes a hole unless the forward phase, with the checkpoints it used, skipped a ledger; success is reported exactly when both phases completed and there is no hole; a run that does not complete met a fault, a hole, or a tip below the database; a completed one has the coverage, the reach and the last check of `Completed` for every history of the tip |
| Backfill.BackfillMeta.WindowIsStoredIff | cmd/stellar-rpc/internal/ingest/backfill.go:102-132 | after a completed run the window at the last tip is stored up to the last checkpoint if and only if no refresh cut a backward phase short of its edge and no iteration left out the single ledger it found; without a backward phase, and within eleven chunks of the edge, the first is impossible |
| Backfill.BackfillMeta.SucceedsIff | cmd/stellar-rpc/internal/ingest/backfill.go:126-131 | a completed run reports success if and only if its forward phase did not skip a ledger, or all ledgers below the skipped one were trimmed |
| Backfill.BackfillMeta.MustBackfill | cmd/stellar-rpc/internal/daemon/daemon.go:534-552 | a run as `Ran` says, with its coverage, reach, last check and reasons for failure; the cache is empty after success |
| Backfill.BackfillMeta.BackfillTwice | cmd/stellar-rpc/internal/daemon/daemon.go:207-235 | two runs, the second from what the first left and at a newer tip, each as `Ran` says; success is that of both, and the window at the last tip is then stored unless a ledger was left out, if the first run left at most eleven chunks of it |
| Backfill.BackfillMeta.GetNextLedgerSequence | cmd/stellar-rpc/internal/ingest/service.go:173-191 | live ingestion starts right above the stored maximum, or at the archive's ledger for an empty database, whatever is cached |
| Backfill.BackfillMeta.Run | cmd/stellar-rpc/internal/ingest/service.go:160-171 | from the archive's ledger or above MAX, one ledger per commit up to the first failing call: the stored ledgers, the commits and the number of them; success means that all asked for were ingested, failure that the call for the next one failed; every commit gapless, the cache exact |
| Backfill.BackfillMeta.Start | cmd/stellar-rpc/internal/ingest/service.go:100-132 | over all retries of a life the same accumulated: n consecutive ledgers, all that were asked for unless a call failed |
| Backfill.ExactIsOpened | cmd/stellar-rpc/internal/daemon/daemon.go:192-213 | up to close times the caches a life may start with are all the exact ones |
| Backfill.BackfillMeta.LiveOnce | cmd/stellar-rpc/internal/daemon/daemon.go:192-235 | one life, from whatever the cache knows when the backfill starts: its backfills chained, and live ingestion of what was asked for on what they left, unless one of them failed; a hole is left as it is: with backfill the life ends with the rows it found, without it ledgers are only added above |
| Backfill.BackfillMeta.Lifetimes | cmd/stellar-rpc/internal/daemon/daemon.go:192-235 | every life of a sequence takes place, each on what the one before it left, with any cache it may start with, with or without backfill, with retries, ending at any external call, under a growing datastore tip: from gapless ledgers every committed state is gapless or one of the backfills skipped a ledger; a hole is never filled as long as there is one |
| Cursors.ToidOrder | cmd/stellar-rpc/internal/integrationtest/transaction_test.go:388-413 | the 64-bit TOID orders ledger, transaction and operation lexicographically and identifies them |
| Cursors.ToidRoundTrip | cmd/stellar-rpc/internal/integrationtest/transaction_test.go:388-413 | parsing a TOID gives back its three components |
| Cursors.PadOrder | cmd/stellar-rpc/internal/integrationtest/transaction_test.go:413-414 | fixed-width decimal printing preserves and reflects order and equality |
| Cursors.PrintOrder | cmd/stellar-rpc/internal/integrationtest/transaction_test.go:409-414 | the printed cursor is an order embedding: strings compare exactly as cursors do |
| Cursors.PrintParse | cmd/stellar-rpc/internal/db/event.go:424 | parsing a printed cursor gives it back |
| BatchWriters.BatchWriter.Append | cmd/stellar-rpc/internal/db/event.go:162-175 | the appended rows, written and waiting, grow by exactly the new row |
| BatchWriters.BatchWriter.Flush | cmd/stellar-rpc/internal/db/event.go:222-244 | one statement writes the first n waiting rows in order and shifts the rest to the front in place; rows written followed by rows waiting never change; no statement binds more than 30,000 variables |
| BatchWriters.ShiftDown | cmd/stellar-rpc/internal/db/transaction.go:148 | the in-place copy leaves exactly the rows after the first n, in order |
| BatchWriters.BatchWriter.FlushFullBatches | cmd/stellar-rpc/internal/db/transaction.go:126-130 | every statement writes one full batch, afterwards less than one batch is waiting, and it fails only on a failing statement |
| BatchWriters.BatchWriter.FlushPending | cmd/stellar-rpc/internal/db/db.go:513-525 | at commit nothing is left waiting and every appended row was written, in order, in at most one statement |
| EventIngest.TxEventIndices.NextCursor | cmd/stellar-rpc/internal/db/event.go:199-220 | each stage gets its place and its own counter; an unknown stage is an error |
| EventIngest.InsertEvents | cmd/stellar-rpc/internal/db/event.go:80-191 | the rows reach the writer in the order of the code with their cursors and contents (which events they are is EventContent.EmittedAreTheEvents); it fails only on an unknown stage or a failing INSERT |
| EventContent.EmittedAreTheEvents | cmd/stellar-rpc/internal/db/event.go:118-185 | the rows of a ledger are exactly its events: event k of operation j of transaction i under that place, each transaction-level event under its stage's place with the number counted from the ledger, every one with its own content, hash, success and close time; and as many rows as events |
| EventContent.OpEventIsEmitted | cmd/stellar-rpc/internal/db/event.go:159-180 | event k of operation j is emitted under its own cursor with its own content |
| EventContent.TxRowIsTxEvent | cmd/stellar-rpc/internal/db/event.go:141-157 | the counters of the code number the transaction-level events as counting them in the ledger does |
| EventOrder.StagesPartition | cmd/stellar-rpc/internal/db/event.go:143-157 | the transaction-level events of a transaction are those of the three stages, none lost or doubled |
| EventOrder.LedgerWideNumbers | cmd/stellar-rpc/internal/db/event.go:199-211 | the events before all and after all transactions are numbered 0, 1, 2, ... across the ledger |
| EventOrder.ApplyingAscends | cmd/stellar-rpc/internal/db/event.go:159-177 | operation events and post-apply events ascend by transaction, operation and index |
| EventOrder.ChronologicalOrder | cmd/stellar-rpc/internal/db/event.go:100-124 | the emitted events are the chronological ones in another order, and the chronological order is strictly ascending in the cursors, which stay below the special largest ones |
| EventOrder.SortingByIdIsChronological | cmd/stellar-rpc/internal/db/event.go:100-124 | sorting a ledger's rows by their string IDs yields exactly the chronological order |
| EventOrder.IdsAreDistinct | cmd/stellar-rpc/internal/db/event.go:111-124 | no two events of a ledger share an ID |
| TxIndex.LookupExact | cmd/stellar-rpc/internal/db/transaction.go:107-120 | the map built by the loop holds exactly the outer and inner hashes, each with its transaction's position |
| TxIndex.InsertTransactions | cmd/stellar-rpc/internal/db/transaction.go:78-137 | the rows handed to the writer list every hash of the ledger exactly once, in some order |
| Store.InsertTxsExact | cmd/stellar-rpc/internal/db/transaction.go:139-150 | inserting rows with new, pairwise different hashes succeeds and adds exactly those rows |
| Store.AddLedgerToIndex | cmd/stellar-rpc/internal/db/transaction.go:98-124 | a table that indexes exactly the stored ledgers does so again after one more ledger |
| Store.AddLedgerToEvents | cmd/stellar-rpc/internal/db/event.go:222-244 | a table with exactly the events of the stored ledgers accepts the next ledger's rows without a key violation and is exact again |
| Store.StoredAreTheEvents | cmd/stellar-rpc/internal/db/event.go:118-185 | a row is in the events table exactly when it is an event of a stored ledger, under its identity and with its content |
| Store.WithLedgersExact | cmd/stellar-rpc/internal/db/ledger.go:415-423 | a write transaction adds exactly its ledgers to the stored ones, each as it is |
| Store.TrimById | cmd/stellar-rpc/internal/db/event.go:302-315 | the string comparison of an event ID with the cutoff's cursor is the comparison of ledgers |
| Store.TrimKeepsConsistent | cmd/stellar-rpc/internal/db/db.go:527-552 | the three trims retain the same ledgers: no event or transaction row outlives or loses its ledger row |
| Store.RetainedIsTrimmed | cmd/stellar-rpc/internal/db/ledger.go:370-381 | the ledgers retained by a commit are the trimmed set of ledgers |
| Store.ConsistentIsUnique | cmd/stellar-rpc/internal/db/db.go:451-500 | the retained ledgers determine the transactions and the events table |
| Store.StageOneLedger | cmd/stellar-rpc/internal/ingest/service.go:334-361 | inside a write transaction the rows handed to the two writers stay exactly those of the ledgers inserted so far, and the next ledger violates no key |
| Store.Database.Stage | cmd/stellar-rpc/internal/ingest/service.go:299-308 | the loop over fetched ledgers hands both writers exactly the rows of all ledgers and leaves the committed tables alone |
| Store.Database.Commit | cmd/stellar-rpc/internal/db/db.go:451-490 | the trimmed tables become visible at once or not at all |
| Store.Database.Ingest | cmd/stellar-rpc/internal/ingest/service.go:262-332 | one write transaction over any list of new ledgers ends with the retained ledgers and consistent tables, or changes nothing; it fails only on a fault |
| Store.Database.GetTransactionByHash | cmd/stellar-rpc/internal/db/transaction.go:214-250 | a lookup finds a transaction exactly when the hash is an outer or inner hash in a stored ledger, and then returns that very transaction and ledger; seeking never fails |
| EventFilter.CombineContractIDs | cmd/stellar-rpc/internal/methods/get_events.go:36-59 | an error exactly when a malformed address is met before a filter without addresses; no restriction when some filter has no address; else every named contract once |
| EventFilter.CombineEventTypes | cmd/stellar-rpc/internal/methods/get_events.go:61-80 | no restriction when some filter has no type, else every named type once |
| EventFilter.ConditionsMean | cmd/stellar-rpc/internal/methods/get_events.go:94-107 | the conditions of a topic filter hold of a row exactly when the filter's values agree with the event's topics, position by position |
| EventFilter.CombineTopics | cmd/stellar-rpc/internal/methods/get_events.go:82-118 | no restriction exactly when some filter has no topics or some topic filter is all wildcards (or there is no filter); else the restriction holds exactly when the values of some topic filter agree |
| EventFilter.PushdownKeepsMatches | cmd/stellar-rpc/internal/db/event.go:342-371 | every event that the filters accept passes the WHERE clause built from the combined lists |
| EventFilter.TopicMatchesIff | cmd/stellar-rpc/internal/methods/get_events.go:198-203 | a topic filter accepts topics if and only if their number is that of its segments, or at least that before a last `**`, and every value stands at its place |
| EventFilter.FilterMatchesIff | cmd/stellar-rpc/internal/methods/get_events.go:198-203 | a filter accepts an event if and only if its contract, its type and its topics are each named or left open |
| EventFilter.MatchesIff | cmd/stellar-rpc/internal/methods/get_events.go:198-203 | a request accepts an event if and only if it has no filter or some filter accepts it |
| EventPages.QueryIsBetween | cmd/stellar-rpc/internal/db/event.go:335-341 | the string range of the query selects exactly the rows between the two cursors |
| EventPages.ScanFindsFirst | cmd/stellar-rpc/internal/methods/get_events.go:197-206 | the scan finds the first `limit` matching rows |
| EventPages.PushdownKeepsScan | cmd/stellar-rpc/internal/methods/get_events.go:197-210 | the limited scan over the pushed-down rows finds the same events as the limited scan over all rows |
| EventPages.FindEvents | cmd/stellar-rpc/internal/methods/get_events.go:180-215 | combining, querying and scanning yields the first `limit` matching events between start and end, or the contract ID error |
| EventPages.GetEvents | cmd/stellar-rpc/internal/methods/get_events.go:130-251 | a request is refused exactly when validation fails, the start was not stored, or a malformed address is met. In ledger numbers: the page is the first `limit` matching stored events from the start ledger on, or strictly after the cursor, within 10,000 ledgers, up to the latest and before the end ledger; the cursor is that of the last event of a full page, else behind the last ledger searched. The range and the rows are read at two moments, and the page is that of the chain exactly when none of its events was trimmed in between |
| EventPages.PageIsFirstWanted | cmd/stellar-rpc/internal/methods/get_events.go:145-163 | the first matching rows of the cursor interval are what the request asks for in ledger numbers |
| EventPages.HandedOutNeverWraps | cmd/stellar-rpc/internal/methods/get_events.go:145-152 | what follows a cursor that a page returned is strictly after it, although the event index of the largest cursor wraps |
| EventPages.PageOfLaterTable | cmd/stellar-rpc/internal/methods/get_events.go:138-207 | a page read from a table that was trimmed since holds the matching events that are left, and is the page of the earlier table if and only if all events of that one are left |
| EventPages.PageIsInterval | cmd/stellar-rpc/internal/methods/get_events.go:145-163 | a page holds exactly the matching events between its start and the start of the next page, including the wrap of `Event++` at the maximal cursor |
| EventPages.ChainDeliversExactlyOnce | cmd/stellar-rpc/internal/methods/get_events.go:229-240 | chained pages, while ledgers are added and trimmed in between and the resume ledger stays stored, deliver each matching event exactly once in ascending order |
| EventPages.PageAdvances | cmd/stellar-rpc/internal/methods/get_events.go:158-163 | a full page moves forward; a page that is not full moves to a later ledger or is a fixed point at the tip |
| EventPages.DrainsToTip | cmd/stellar-rpc/internal/methods/get_events.go:145-240 | with a fixed stored range at most one call per matching event and per ledger ahead, and one more, reach the fixed point with every matching event up to the tip delivered |
| EventPages.EarlierEventsIff | cmd/stellar-rpc/internal/methods/get_events.go:161-163 | after a cursor that points before the start, the next page holds an event from before the start if and only if a matching one lies between the two within the ledgers searched |
| EventPages.EarlierEventsOfLedgersIff | cmd/stellar-rpc/internal/methods/get_events.go:161-163 | for a request by ledger: if and only if a matching event lies in the ledgers from the end ledger to before the start ledger, within the scan limit |
| EventPages.EarlierEventDelivered | cmd/stellar-rpc/internal/methods/get_events.go:161-163 | start ledger 20 and end ledger 10: the page is empty and the page after its cursor delivers an event of ledger 15 |
| EventPages.CursorRegressesIff | cmd/stellar-rpc/internal/methods/get_events.go:161-163 | the returned cursor points before the start if and only if the end ledger is set at or below the start ledger, or a made-up start lies beyond the end of the last ledger searched |
| EventHistory.HistoryIsStorable | cmd/stellar-rpc/internal/db/event.go:100-124 | the events of consecutive ledgers, concatenated chronologically, have strictly ascending cursors below the special ones |
| EventHistory.TableIsHistory | cmd/stellar-rpc/internal/db/event.go:317-319 | reading the consistent events table by ID yields the chronological history of the stored ledgers |
| TransactionPages.ItemAtRank | cmd/stellar-rpc/internal/methods/get_transactions.go:113-213 | every transaction stands at its rank in the list of all transactions |
| TransactionPages.ItemsAscend | cmd/stellar-rpc/internal/methods/get_transactions.go:113-213 | that list is strictly ascending by ledger and application order |
| TransactionPages.CursorRoundTrip | cmd/stellar-rpc/internal/methods/get_transactions.go:50-62 | resuming from a returned cursor starts at the next transaction |
| TransactionPages.ProcessTransactionsInLedger | cmd/stellar-rpc/internal/methods/get_transactions.go:94-213 | appends the ledger's transactions from the start on, up to the limit, and returns the order of the last one read, 0 when none was read |
| TransactionPages.ReadLedgers | cmd/stellar-rpc/internal/methods/get_transactions.go:253-277 | the loop over ledgers reads exactly the page and its cursor; a start below the stored ledgers is an error, one above them yields cursor 0 |
| TransactionPages.GetTransactions | cmd/stellar-rpc/internal/methods/get_transactions.go:218-287 | which requests are refused; the page is the first `limit` (one if 0) stored transactions from the start ledger on, or strictly after the ledger and order of the cursor's number; the number returned is that of the last transaction of a full page, else of the end of the latest ledger, or of its beginning if nothing of it was read; and where the chain goes on |
| TransactionPages.PageIsFirstWanted | cmd/stellar-rpc/internal/methods/get_transactions.go:38-71 | the slice of all transactions from the rank of the start on is what the request asks for |
| TransactionPages.PageIsSlice | cmd/stellar-rpc/internal/methods/get_transactions.go:253-277 | outside the exhausted tip a page is the slice between its start and the next start, and a page that is not full reaches the tip |
| TransactionPages.ChainDeliversExactlyOnce | cmd/stellar-rpc/internal/methods/get_transactions.go:218-287 | chained pages deliver the consecutive slice of all transactions from the first start to the last, for every limit and every mix of empty and non-empty ledgers |
| TransactionPages.ChainCoversFromLedger | cmd/stellar-rpc/internal/methods/get_transactions.go:218-287 | a chain that begins at a start ledger delivers exactly the transactions of that ledger and the later ones, up to where its next page would start |
| TransactionPages.CursorRegressesIff | cmd/stellar-rpc/internal/methods/get_transactions.go:129-130 | the cursor goes back if and only if the start is past the end of a latest ledger that has transactions |
| TransactionPages.ExhaustedTipRepeatsLedger | cmd/stellar-rpc/internal/methods/get_transactions.go:129-130 | then the page is empty and the next one delivers the latest ledger again |
| TransactionPages.RepeatedDelivery | cmd/stellar-rpc/internal/methods/get_transactions.go:129-130 | a run in which one transaction is delivered by the first and the third call |
| BulkLoad.PrepareStmtsPrepare | cmd/stellar-rpc/internal/db/db.go:146-162 | the statements of the preparation never fail on a sound schema and lead to the empty bulk schema |
| BulkLoad.PrepareIsIdempotent | cmd/stellar-rpc/internal/db/db.go:130-133 | preparing twice is preparing once |
| BulkLoad.BulkDb.Prepare | cmd/stellar-rpc/internal/db/db.go:133-168 | happens entirely or not at all |
| BulkLoad.BulkDb.Finalize | cmd/stellar-rpc/internal/db/db.go:172-219 | success means that all deferred indexes exist and the record is gone; without a record nothing changes; indexes built before a failure stay; it fails only on a fault or on duplicate hashes |
| BulkLoad.NoRecordMeansRestored | cmd/stellar-rpc/internal/db/db.go:112-114 | in every reachable schema a deferred index that is missing is listed in the record, so no record means that nothing is missing |
| BulkLoad.TrimIsRetention | cmd/stellar-rpc/internal/db/transaction.go:165-177 | with the retention cutoff the rows kept are those of the ledgers that the trim keeps |
| BulkLoad.TrimKeepsRows | cmd/stellar-rpc/internal/db/transaction.go:165-177 | a trim loses no row of a kept ledger and doubles none |
| BulkLoad.NoLedgersNoRows | cmd/stellar-rpc/internal/daemon/daemon.go:208-213 | an empty ledger table means an empty transactions table, so the preparation drops no row |
| BulkLoad.BulkDb.CommitLedger | cmd/stellar-rpc/internal/ingest/service.go:262-332 | a commit of a load fails exactly on a failing step, a stored ledger, or a hash that something keeps unique, and then changes nothing; else it stores and trims the rows and the ledgers |
| BulkLoad.BulkDb.Load | cmd/stellar-rpc/internal/ingest/backfill.go:102-132 | the commits up to the first that fails, and why that one failed |
| BulkLoad.BulkDb.Startup | cmd/stellar-rpc/internal/daemon/daemon.go:207-235 | whenever startup gets to its end the canonical schema is back, whatever earlier lives left; only the load's own commits change what is stored; an empty database is prepared and no other; it stops only at a failing step, at hashes no index can keep unique, or at a rejected commit |
| BulkLoad.BulkDb.Lifetimes | cmd/stellar-rpc/internal/daemon/daemon.go:207-235 | the schema invariant holds over every schedule of starts, errors and crashes, every one of which takes place on what the one before it left |

## Left out

- The SDK functions behind cursors, TOIDs, topic matching and request validation are not part of this
  repository. They are modelled from SEP-0035, the tests and the changelog: OR over filters, AND within
  a filter, OR over topic filters, `**` only last, values only in the first four positions.
- XDR, JSON, base64 and strkey coding, HTTP and JSON-RPC wiring, metrics, logging, captive core, S3 and
  GCS access, the preflight worker pool and request timers.
- SQL text, pragmas, WAL checkpoints after commits, and read errors of queries.
- FeeWindow.FeeWindows.IngestFees: starts from the extracted fees; the extraction from transaction
  metadata is not modelled, and neither is a commit that fails after the windows took the ledger.
- FeeStats.ComputeFeeDistribution: `slices.Sort` is its result, the sorted permutation; the uint64
  product `p * count` is not wrapped, which would take 2^57 fees.
- BucketWindow.Window.Append: a capacity of 0, on which the original panics, is excluded; the empty bucket
  returned beside an error is not modelled.
- Backlog.HandlerNeverExceedsLimit: the pass-through for the largest uint64 limit and a missing gauge
  are left out.
- Backfill.BackfillMeta.RunBackfill: percentages, `fillCount` and the warning of `verifyBounds` only feed the
  log; timeouts are faults.
- Backfill.BackfillMeta.Run: runs for a given number of ledgers instead of forever; a failing checkpoint after a
  commit is a fault at the next call, and a failing archive before the first ledger is a run of no ledgers.
- EventPages.GetEvents: request validation is the SDK's; its outcome is a parameter, which implies well-placed topic
  filters. A configured default limit of 0, with which the original scans one row or panics
  on an empty page, is excluded.
- Store.Database.Ingest: the rows of a batch enter the model's table at commit, not at each INSERT, which
  no reader of another transaction can tell apart.
- BulkLoad.BulkDb.Load: what is loaded is any list of commits; planning it is the matter of `Backfill`. The
  JSON form of the record and the separate index-build session are not modelled.
- The data migrations at startup, `getLedgers`, `getHealth`, `getNetwork`, `getVersionInfo`,
  `sendTransaction` and `simulateTransaction` would add easy members only.
