# Verified model of a Hugo CMS server

The server edits, builds and publishes a Hugo site on behalf of remote clients. This
project models the parts of it whose correctness spans several functions, several
calls or a crash, and proves what they promise. Code that changes state in place is
modelled as classes and loops, each method proved equal to a function of the state it
found; the theorems are about those functions, over every input, every run and every
place where a run can break off.

| Files | What they model |
|---|---|
| `Recovery`, `RecoveryServer`, `RecoveryRuns` | start-up recovery of one journalled file mutation: verdict and repair, with a crash at any single file change, any number of times |
| `RecoveryOutcomes`, `RecoveryLimits`, `RecoveryOverlap` | what one attempt and one restart do, in bytes and paths; exactly when recovery removes files of a pending entry or changes files silently, and exactly when two pending entries disturb one another |
| `RecoveryJournal`, `RecoveryWorld`, `IdempotencyReplay` | journal, idempotency table and disk over every run of restarts: for any pending rows, and for rows that do not disturb one another; and what a retry is answered afterwards |
| `BuildLedger`, `LedgerHistory`, `LedgerReports` | the ledger of build runs and page facts, its meaning over every history of builds that complete, fail or die, and what it reports |
| `OutputSwap`, `OutputRuns` | rendering into a side directory, the source-stability check and the swap of the published tree, with failing renames and crashes |
| `PreviewSessions`, `PreviewAccess`, `PreviewStore`, `PreviewRestart` | one-time session exchange in every interleaving; entries, leases and directories with failing persistence; restart reconciliation |
| `HugoLink`, `HugoProvenance` | the managed Hugo symlink and its activation record, and where the active binary comes from |
| `TokenStores`, `TokenHistory`, `OAuth`, `OAuthRuns`, `OAuthTrace`, `OAuthAccess` | both token back ends, the authorization-code and refresh-token grants, their safety over every run, and the request behind every token |
| `SiteIndex`, `SourceIndex` | the two page indexes: deduplicating walk, position maps, in-place compaction |
| `Taxonomy`, `ContentRevision` | the two-row edit distance; the length-prefixed bundle encoding |
| `Common` | optional values, byte-wise string order, sorting |

Conventions. Tables are maps or sequences of rows. Times are integers, strictly
increasing where the code relies on it. Whatever the code takes from outside (which
system call fails, what a hash, a random source, Hugo or a directory walk returns, and
in which order a map is ranged over) is an arbitrary argument. A crash is modelled by
stopping after any one change, or by looking at any state in the trace.

## Where the code does less than its comments say

Each of these is proved, as a condition that is necessary and sufficient.

- A landed entry keeps its files through recovery if and only if its cleanup paths do
  not cover a file the mutation put in place (`LandedSurvivesCleanup`).
- A landed entry with a cleanup path outside its roots stays pending; files go if and
  only if one lies under a cleanup path before the first stray one
  (`StrayCleanupExactly`). The write tools journal at most one cleanup path
  (`internal/tools/write/tools.go:2189-2195`,
  `internal/tools/write/bundle_lifecycle.go:531-534`), and then none goes
  (`SingleStrayPathIsHarmless`).
- Recovery changes files without reporting a source change exactly in three situations:
  a landed bundle whose cleanup stops after some file went, a landed page whose first
  removal fails half-way, and a mixed bundle whose write-back stops after some file was
  restored (`SilentExactly`).
- Pending rows can disturb one another: rolling a bundle back, or removing a deleted
  bundle's directory, can change what is decided about another row, exactly when their
  paths meddle (`MeddlingIsExact`). A pending page update then looks landed
  (`OverlapBreaks`). Creates and updates of pages never do this (`PageWritesNeverMeddle`),
  nor do retries of the same work (`RetryMovesAlike`).
- Right after a build with unchanged facts, a page counts as drift and is not in the next
  build of the same source exactly when it is a draft or test page whose output is still
  public (`LeakedPageIsNotRepaired`).
- The occupant of a slug depends on the walk order unless the slug has one candidate
  (`OccupantIndependentOfOrder`).
- Restart reconciliation of previews leaves leases, entries and directories in
  correspondence exactly when no two leases clash over a directory in the order they are
  read (`CorrespondsExactly`). Directory names come from a call that makes them unique
  (`internal/previewstore/store.go:90-99`), so a clash needs leases written by hand.
- A failed activation or swap leaves things as they were unless the undo step fails too
  (`FailedActivateRestores`, `SwapIsAtomic`). After a swap that lost the root, the old
  output stays under its backup name, and no later build restores, moves or removes it
  (`LeftBackupsStay`).
- The two token stores test expiry differently exactly within the second in which a
  token expires (`ExpiryTestsAgree`).

## Model

| member | source | states |
|---|---|---|
| RecoveryServer.Disk.AtomicWriteChecked | internal/fileutil/atomic.go:50-77 | whichever step fails or dies, the target holds its old bytes or all of the new ones, and only a crash leaves the temporary file behind |
| RecoveryServer.Disk.Remove | internal/server/server.go:342-344 | a file goes, a missing file counts as gone, a directory does not go |
| RecoveryServer.RecoveryServer.ReconcileBundleFiles | internal/server/server.go:294-352 | the scan, cleanup and write-back loops compute verdict, files and change report of one bundle under any fault |
| RecoveryServer.RecoveryServer.RemoveCleanupPaths | internal/server/server.go:320-332 | cleanup removes paths in order, stops at the first one outside its roots, and reports a change as soon as one is gone |
| RecoveryServer.RecoveryServer.RestoreBefore | internal/server/server.go:333-351 | the write-back loop puts the first so many files back and succeeds only when all are |
| RecoveryServer.RecoveryServer.ReconcilePage | internal/server/server.go:395-427 | the single-file branch decides by revision alone, fails to read a directory, and cleans up only what landed |
| RecoveryServer.RecoveryServer.PrepareMutationRecovery | internal/server/server.go:359-431 | pending rows handled in order: files, rows ready to commit, and whether source changed |
| RecoveryServer.RecoveryServer.CommitRecoveryReconciliation | internal/server/server.go:433-455 | rows committed in order, result before journal mark, stopping at any write |
| RecoveryServer.ScanIsVerdict | internal/server/server.go:294-316 | the file-by-file scan decides the three cases "all before", "all after" and "mixture" |
| RecoveryRuns.RecoverStep | internal/server/server.go:258-431 | one attempt moves an entry only towards its end state, never across, writes only at its own files and cleanup trees, and leaves an entry with an unreadable path, a directory included, alone |
| RecoveryRuns.CleanUpEffect | internal/server/server.go:320-332 | cleanup removes exactly the covered files, and is done exactly when all paths are inside and nothing interrupts |
| RecoveryRuns.RollBackEffect | internal/server/server.go:333-351 | write-back restores exactly the first so many files of the list |
| RecoveryRuns.AllOrNothing | internal/server/server.go:294-352 | a resolved bundle is wholly at its before or wholly at its after bytes, a strict mixture always ends at before, and an undisturbed attempt resolves |
| RecoveryRuns.VerdictFixedByFirstCrash | internal/server/server.go:317-351 | over any number of interrupted attempts the verdict is the one of the first crash state, a mixture never becomes the after state, and one undisturbed attempt ends it |
| RecoveryRuns.LandedSurvivesCleanup | internal/server/server.go:320-332 | a landed entry keeps its files if and only if no cleanup path covers one |
| RecoveryLimits.CleanUpExactly | internal/server/server.go:320-332 | which files cleanup leaves, for every list, stray path and fault |
| RecoveryLimits.StrayCleanupExactly | internal/server/server.go:320-332 | a landed entry with a stray path stays pending, and keeps all files if and only if none lies under a cleanup path before the first stray one |
| RecoveryLimits.SingleStrayPathIsHarmless | internal/tools/write/tools.go:2189-2201 | with the single cleanup path a delete journals, a stray one costs no file |
| RecoveryLimits.StrayCleanupStillRemoves | internal/server/server.go:411-424 | a family of inputs on which a pending entry has lost a tree |
| RecoveryRuns.SettledReportsChanges | internal/server/server.go:294-431 | a settled entry that reports no change made none |
| RecoveryLimits.RollBackExactly | internal/server/server.go:337-351 | which bytes each path holds after a write-back that stops anywhere |
| RecoveryLimits.SilentExactly | internal/server/server.go:294-431 | files change unreported if and only if cleanup or write-back stops, in one of three ways, after something changed |
| RecoveryLimits.SilentRollBack | internal/server/server.go:337-351 | for a mixed bundle: exactly when the fault comes early and some file before it was not at its before state |
| RecoveryLimits.InterruptedRollBackIsSilent | internal/server/server.go:337-351 | a family of inputs on which that happens |
| RecoveryOutcomes.PageOutcome | internal/server/server.go:395-427 | in bytes and paths: a page outside the root, unreadable or at foreign bytes is left alone; at its bytes before nothing happens; at its bytes after exactly the trees under its cleanup paths go |
| RecoveryOutcomes.ForeignBundleIsLeft | internal/server/server.go:294-316 | a bundle with one file outside its roots, unreadable or at foreign bytes: nothing happens |
| RecoveryOutcomes.UntouchedBundle | internal/server/server.go:317-319 | wholly at its bytes before, a bundle is settled and nothing is written |
| RecoveryOutcomes.LandedBundle | internal/server/server.go:320-332 | wholly at its bytes after, exactly the trees under its cleanup paths go |
| RecoveryOutcomes.MixedBundle | internal/server/server.go:333-351 | a mixture: every file gets its bytes from before and no other file changes |
| RecoveryOutcomes.ReportsExactly | internal/server/server.go:294-427 | when one attempt reports a source change: a landed page after its first removal, a bundle only once all is done |
| RecoveryOutcomes.RestartReports | internal/server/server.go:359-431 | a restart reports a change if and only if one of its attempts does; files that change without a report go back to a silent attempt |
| RecoveryOutcomes.OnlyPendingRowsMove | internal/server/server.go:366-378 | over every run of restarts a row that changes was in one of the two pending states, of one of the two kinds and decodable, and only its state changes |
| RecoveryOutcomes.IdleRestart | internal/server/server.go:366-378 | a restart that lists no such row changes nothing |
| RecoveryOutcomes.CommitsExactly | internal/server/server.go:433-455 | what one commit stores and marks: caller, tool, key, request hash, result and time each in its place, nothing for an incomplete receipt or after a failing write |
| RecoveryOverlap.Undisturbed | internal/server/server.go:294-431 | entries that do not meddle: recovering one never changes the verdict on the other |
| RecoveryOverlap.MeddlingIsExact | internal/server/server.go:294-431 | two entries meddle if and only if some contents, files and faults over their paths let one change the verdict on the other |
| RecoveryOverlap.PageWritesNeverMeddle | internal/server/server.go:395-427 | recovering a page write disturbs no row, on the same path or not |
| RecoveryOverlap.RetryMovesAlike | internal/server/server.go:294-431 | a retry of the same work moves the other attempt as it moves itself |
| RecoveryOverlap.OverlapBreaks | internal/server/server.go:294-351 | an update pending below a half-written bundle on the same page looks landed once the bundle is rolled back |
| RecoveryJournal.AttemptMeans | internal/server/server.go:359-431 | a row is settled as landed only from its after state, as rolled back only from its before state or a mixture |
| RecoveryJournal.RestartFollowsVerdicts | internal/server/server.go:359-455 | one restart over any rows: marks follow the row's own verdict, a landed row's slot holds a landed row's result, slots gain nothing else |
| RecoveryJournal.JournalFollowsVerdicts | internal/server/server.go:359-455 | the same over every run of restarts, for any pending rows whatever |
| RecoveryWorld.PageWritesAreIndependent | internal/server/server.go:395-427 | any number of pending page writes, sharing paths and keys or not, satisfies what the following rows ask for |
| RecoveryWorld.StepKeepsWorld | internal/server/server.go:359-455 | over rows that do not meddle, one restart, crashing anywhere, keeps journal, results and disk in agreement with the first crash state |
| RecoveryWorld.JournalAgreesWithDisk | internal/server/server.go:359-455 | the same over every run of restarts |
| RecoveryWorld.FirstCrashAgrees | internal/server/server.go:226-248 | the state right after the first crash starts such a run |
| RecoveryJournal.CommitEffect | internal/db/db.go:616-625 | committing changes one journal row and one result slot; the row keeps its kind, and a reconciled landed row has its result stored |
| RecoveryWorld.NoResultWithoutLanding | internal/server/server.go:433-455 | a slot that no landed row claims never changes |
| RecoveryWorld.AmbiguousStaysPending | internal/server/server.go:258-316 | foreign bytes, an unreadable path or one outside its roots: the row stays pending, and its paths keep their bytes unless a row with a verdict writes there |
| RecoveryWorld.ReconciledBundleIsWhole | internal/server/server.go:433-455 | a reconciled bundle is wholly on disk with a landed row's result in its slot, its own unless the slot is shared, or wholly rolled back |
| RecoveryWorld.UndisturbedRestartSettles | internal/server/server.go:359-455 | after any crashed restarts, one undisturbed restart reconciles every row whose verdict is known |
| IdempotencyReplay.IdempotencyStore.LookupMutation | internal/db/db.go:720-742 | the stored result, unless it has outlived its time, and then the row goes |
| IdempotencyReplay.IdempotencyStore.Prune | internal/tools/write/idempotency.go:217-226 | exactly the results in memory that have outlived their time go |
| IdempotencyReplay.IdempotencyStore.Replay | internal/tools/write/idempotency.go:115-144 | the table before memory; the stored result for the same request hash, a conflict for another, nothing without a key |
| IdempotencyReplay.StoredResultsAreReceipts | internal/server/server.go:433-455 | over every run of restarts and any rows: a slot that has changed holds the request hash, the result and the time of a landed row with that caller, tool and key |
| IdempotencyReplay.RetryAfterRecovery | internal/tools/write/idempotency.go:115-144 | a marked row was rolled back, or a retry under its key is answered from a landed row with that key: its result for its request, a conflict for any other |
| IdempotencyReplay.UndisturbedRestartReplays | internal/tools/write/idempotency.go:115-144 | after any crashed restarts and one undisturbed one, the retry of a landed row with its own key gets exactly the result in its receipt, and another request a conflict |
| BuildLedger.BuildLedger.BeginBuildRun | internal/db/build_runs.go:111-185 | new run and page rows, and the list of changes that `LedgerReports.ReturnedChanges` describes |
| BuildLedger.BuildLedger.CompleteBuildRun | internal/db/build_runs.go:189-254 | status and every row of the run advance in one transaction; unknown runs change nothing |
| BuildLedger.BuildLedger.FailBuildRun | internal/db/build_runs.go:256-268 | only the status and time of that run change |
| BuildLedger.BuildLedger.LatestBuildRun | internal/db/build_runs.go:342-364 | some completed run that no completed run is newer than |
| BuildLedger.BuildLedger.ReconcileLatestBuild | internal/db/build_runs.go:272-340 | stores both drift counts on the newest completed run and changes nothing else; `LedgerReports.ReconciledDrift` says what they count |
| BuildLedger.CountBuilt | internal/db/build_runs.go:300-331 | the counting loop returns the sizes of the two drift sets over the run's rows |
| BuildLedger.CountUnseen | internal/db/build_runs.go:327-331 | the second loop counts the source pages without a row |
| BuildLedger.SourceDriftParts | internal/db/build_runs.go:300-331 | the two loops together count each drifting source identity once |
| BuildLedger.SnapshotSource | internal/db/build_runs.go:134-158 | the source loop writes each page's row and lists each changed page once |
| BuildLedger.SnapshotMissing | internal/db/build_runs.go:159-177 | the tombstone loop keeps every prior identity and lists each one not yet deleted |
| BuildLedger.AdvanceRow | internal/db/build_runs.go:230-247 | the state switch and the last built revision of one row |
| BuildLedger.AdvanceRows | internal/db/build_runs.go:228-252 | every row of the run advances once |
| BuildLedger.SnapshotPage | internal/db/build_runs.go:141-158 | row and change decision of one source page |
| LedgerHistory.LedgerRefinesHistory | internal/db/build_runs.go:82-102 | after every serial history the tables say exactly what its completed runs say |
| LedgerHistory.CompleteMeansAfterBuild | internal/db/build_runs.go:228-252 | completing what was begun gives the page facts of source and public output |
| LedgerHistory.NewestIsLatest | internal/db/build_runs.go:342-364 | with increasing times the run reported as latest is the one builds compare with |
| LedgerHistory.TrackedMeans | internal/db/build_runs.go:228-252 | the compared facts are the pages ever built, their last seen revision and the state of the last completed run |
| LedgerHistory.ChangesAreDiff | internal/db/build_runs.go:133-177 | a page is reported exactly when it differs from the last completed run or needs repair there |
| LedgerHistory.FailedBuildLosesNothing | internal/db/build_runs.go:256-268 | a build that fails or never ends changes nothing about what the next one reports |
| LedgerHistory.RunsKeepIdentities | internal/db/build_runs.go:159-177 | a run's identities are all pages ever built plus the current source |
| LedgerHistory.TombstonesArePermanent | internal/db/build_runs.go:230-247 | a page once built stays known for ever; as a tombstone it carries the revision of the last completed run that saw its source |
| LedgerHistory.IncompleteDeletionIsReported | internal/db/build_runs.go:159-177 | a deleted page is reported again exactly as long as public output was left |
| LedgerHistory.DriftIsExact | internal/db/build_runs.go:300-331 | right after completion with unchanged facts the counters count exactly missing, incomplete and leaked pages |
| LedgerHistory.ZeroDriftIffConverged | internal/db/build_runs.go:300-331 | both counters are zero if and only if output exists exactly for visible pages, and then the next build has no changes |
| LedgerHistory.LeakedPageIsNotRepaired | internal/db/build_runs.go:142-153 | with unchanged facts a page drifts and is not in the next change set if and only if it is hidden and has public output |
| LedgerReports.ReturnedChanges | internal/db/build_runs.go:133-185 | after every serial history: the returned list is in ascending order, has one element for exactly the pages that moved or were left incomplete, marks as deletions exactly those without source, and carries each page's own flags |
| LedgerReports.BegunRows | internal/db/build_runs.go:133-177 | the rows a new run starts with, field by field, from the builds before it |
| LedgerReports.DriftMeans | internal/db/build_runs.go:300-331 | for any current facts: which pages drift in source and which in public output, from the last completed run and the revisions last seen |
| LedgerReports.ReconciledDrift | internal/db/build_runs.go:272-340 | reconciliation against any facts: the newest completed run gets the sizes of those two sets, each in its own field, and nothing else changes |
| LedgerReports.RunsMean | internal/db/build_runs.go:111-268 | every run carries the status and the time of the last event about it |
| LedgerReports.EveryRunHasItsRow | internal/db/build_runs.go:121-131 | every run ever begun has a row |
| LedgerReports.RunsAreDistinct | internal/db/build_runs.go:121-131 | no two rows of the run table have the same id |
| OutputSwap.Publisher.SwapBuildOutput | internal/tools/admin/build.go:360-393 | the swap as a function of the disk and of which step fails, with every intermediate state recorded |
| OutputSwap.Publisher.PrepareBuild | internal/tools/admin/build.go:1063-1131 | refusals come in order and before anything is created; a late refusal removes the build directory |
| OutputSwap.Publisher.ExecuteBuild | internal/tools/admin/build.go:1133-1188 | prepare, callbacks, Hugo, stability check, swap, and the build directory removed on every path |
| OutputSwap.Publisher.ProduceOutput | internal/tools/admin/build.go:1161-1188 | the swap comes after a successful Hugo run and an unchanged source revision |
| OutputSwap.Publisher.RenameDir | internal/tools/admin/build.go:360-393 | a directory rename happens at once or not at all, and never onto a non-empty directory |
| OutputSwap.Publisher.RemoveTree | internal/tools/admin/build.go:386-391 | a removal deletes entries one at a time and reports success only when nothing is left |
| OutputSwap.Publisher.RunHugo | internal/tools/admin/build.go:911-930 | pages appear one at a time in the build directory only |
| OutputRuns.InstallIsAtomic | internal/tools/admin/build.go:380-393 | the new tree appears in one step, or the root is absent or restored; temp and backup are left accordingly |
| OutputRuns.SwapIsAtomic | internal/tools/admin/build.go:360-393 | at every step the root is the old tree, absent with the old tree whole at the backup, or the new tree; success exactly without faults; a failed swap loses the root exactly when install and restore both fail |
| OutputRuns.UnreadyTouchesNothing | internal/tools/admin/build.go:1133-1188 | a build stopped before the swap changes nothing but its own directory, at any step |
| OutputRuns.MovedSourceIsNotPublished | internal/tools/admin/build.go:884-900 | a source revision that moved or cannot be read again: the swap is never reached and the root is the same in every state |
| OutputRuns.BuildIsAtomic | internal/tools/admin/build.go:1133-1188 | the same three-way statement for the whole build, and success if and only if it is ready and the swap meets no fault |
| OutputRuns.ExpectationsAreMet | internal/tools/admin/build.go:1078-1104 | a published build found the source and public revisions its caller expected, the source one also at the end |
| OutputRuns.ReadyExactly | internal/tools/admin/build.go:1063-1188 | what a build needs to get to the swap, condition by condition |
| OutputRuns.PublishesExactly | internal/tools/admin/build.go:1063-1188 | a build is published if and only if every condition and every step of the swap holds; one refused at the start changes nothing at all |
| OutputRuns.RenderedOnly | internal/tools/admin/build.go:911-930 | a complete rendering holds no path Hugo did not write |
| OutputRuns.RenderedHolds | internal/tools/admin/build.go:911-930 | at each path a complete rendering holds the bytes written there last |
| OutputRuns.NothingIsLeftBehind | internal/tools/admin/build.go:1153 | whatever the outcome, the build directory is gone once its removal can delete what Hugo wrote |
| OutputRuns.ServedIsAlwaysWhole | internal/tools/admin/build.go:360-393 | over any run of builds cut off anywhere, every tree ever served is the first one or a complete rendering of a stable build, and the last one served is never lost |
| OutputRuns.LeftBackupsStay | internal/tools/admin/build.go:360-393 | what an earlier swap left under its backup name is the same after any later builds, cut off anywhere |
| PreviewSessions.StepKeeps | internal/previewstore/store.go:319-353 | one critical section never replaces a cookie nor takes activation back |
| PreviewSessions.OneSession | internal/previewstore/store.go:376-412 | in every interleaving all successful exchanges return the same session |
| PreviewSessions.SpentAfterActivation | internal/previewstore/store.go:319-353 | after a matched fetch has activated the entry no exchange succeeds |
| PreviewSessions.SpentExactlyWithCookie | internal/previewstore/store.go:376-412 | an activated entry can still be exchanged exactly when no cookie was ever set |
| PreviewSessions.EmptyCookieActivates | internal/previewstore/store.go:319-353 | a direct call with an empty cookie would activate an unexchanged entry; the handler rules it out |
| PreviewSessions.HandlerPresentsSecrets | internal/previewstore/store.go:732-779 | whatever requests arrive and interleave, the handler passes no empty cookie or token to the store |
| PreviewSessions.HandlerSessions | internal/previewstore/store.go:732-779 | so over every run of requests all exchanges return one session, and none succeeds after activation |
| PreviewSessions.RecoveredStaysClosed | internal/previewstore/store.go:732-779 | no run of requests opens an entry restored after a restart |
| PreviewSessions.RecoveredIsClosed | internal/previewstore/store.go:156-213 | called directly, a restored entry opens to the empty secret only |
| PreviewAccess.AnswersExactly | internal/previewstore/store.go:376-412 | in every interleaving: an act answers if and only if it presents the entry's token while the entry is there and unexpired, and there is a session not yet in use or a working random source |
| PreviewAccess.CookieExactly | internal/previewstore/store.go:376-412 | an entry has no cookie until the first answer, and then the one handed out there |
| PreviewAccess.MatchedExactly | internal/previewstore/store.go:319-353 | a fetch has matched if and only if it presented the cookie held at that moment, in time, and has not come back since |
| PreviewAccess.ActivatedExactly | internal/previewstore/store.go:319-353 | a session is in use if and only if such a fetch has come back |
| PreviewAccess.SpentExactly | internal/previewstore/store.go:376-412 | a new entry's token is answered if and only if it is presented in time and nobody was answered before, or nobody has come back with the cookie |
| PreviewAccess.ShownCookieWasHandedOut | internal/previewstore/store.go:319-353 | whoever puts a session to use presented a cookie that was handed out before |
| PreviewAccess.SecretsComeFromRequests | internal/previewstore/store.go:732-779 | every token and cookie the store is shown was carried by a request |
| PreviewAccess.OnlyHoldersGetIn | internal/previewstore/store.go:732-779 | through the handler: whoever is answered arrived with the token, whoever activates arrived with a cookie handed out before |
| PreviewAccess.HoldersAreAnswered | internal/previewstore/store.go:732-779 | whoever arrives in time with the token of an unspent entry is answered |
| PreviewAccess.CookiesAreCompared | internal/previewstore/store.go:732-779 | a request is let through at once if and only if it carries the cookie held, not blank, in time |
| PreviewAccess.LetThroughActivates | internal/previewstore/store.go:342-353 | a request that was let through puts the session to use, whatever happened to the entry in between |
| PreviewStore.Store.Put | internal/previewstore/store.go:228-245 | an entry is registered only with its durable lease; exactly when that is refused |
| PreviewStore.Store.RemoveExpired | internal/previewstore/store.go:254-261 | lease, entry and directory go in this order, and nothing goes when the lease cannot |
| PreviewStore.Store.EstablishSession | internal/previewstore/store.go:376-412 | one exchange on the entry found; other entries are untouched |
| PreviewStore.Store.BeginFetch | internal/previewstore/store.go:319-341 | the first section of a fetch returns the entry exactly when the cookie matches |
| PreviewStore.Store.FinishFetch | internal/previewstore/store.go:342-353 | the second section activates the entry it holds, whether still stored or not |
| PreviewStore.Store.ResetSessionForProbe | internal/previewstore/store.go:419-429 | cookie and activation of that entry are cleared, nothing else |
| PreviewStore.Store.SweepPersistent | internal/previewstore/store.go:441-460 | a finished sweep leaves no expired entry; a failed one names an entry whose lease would not go and removes no directory |
| PreviewStore.Store.ListOwned | internal/previewstore/store.go:462-528 | exactly the owner's unexpired entries are listed; expired ones go if their lease does |
| PreviewStore.Store.RevokeOwnedPersistent | internal/previewstore/store.go:625-644 | revokes only the owner's entry, entirely or not at all |
| PreviewStore.Store.RevokeAllOwnedPersistent | internal/previewstore/store.go:664-692 | all the owner's entries and leases go together, or none when the database fails |
| PreviewStore.Store.Reconcile | internal/previewstore/store.go:156-213 | restart rebuilds entries from leases and then removes orphaned directories; when it succeeds every entry mirrors a lease and carries no secret |
| PreviewStore.Store.RestoreLeases | internal/previewstore/store.go:164-195 | the loop over the leases restores or drops each one and stops at a failing deletion |
| PreviewStore.Store.RemoveOrphans | internal/previewstore/store.go:196-213 | exactly the managed directories without a lease are removed, or an error is reported |
| PreviewRestart.ReconcileAllEffect | internal/previewstore/store.go:156-213 | every lease ends restored or deleted, as the state found at start-up says, in any order |
| PreviewRestart.RestartCorresponds | internal/previewstore/store.go:156-213 | after a successful restart leases, entries and managed directories correspond one to one; foreign directories stay |
| PreviewRestart.ReconcileAllExactly | internal/previewstore/store.go:156-213 | for any leases and order: which leases are restored and which directories are left |
| PreviewRestart.CorrespondsExactly | internal/previewstore/store.go:156-213 | the correspondence holds if and only if no restored lease shares its directory with a later one that is restored or sweeps it |
| PreviewRestart.RestartKeepsExactly | internal/previewstore/store.go:156-213 | which leases and which directories a restart leaves, by name, expiry and what is on disk; every directory of another name stays |
| PreviewRestart.SharedDirectoryIsLost | internal/previewstore/store.go:156-213 | an input on which it does not |
| HugoLink.HugoUpgradeManager.SwapManagedLink | internal/tools/admin/hugo_upgrade.go:1003-1031 | the link points to an existing target afterwards or has not moved |
| HugoLink.HugoUpgradeManager.RestoreManagedLink | internal/tools/admin/hugo_upgrade.go:1033-1038 | back to the target, or removed where there was none |
| HugoLink.HugoUpgradeManager.ActivateLocked | internal/tools/admin/hugo_upgrade.go:524-589 | link and record after an activation under any failure or crash |
| HugoLink.HugoUpgradeManager.RollbackHugo | internal/tools/admin/hugo_upgrade.go:647-697 | link and record after a rollback under any failure or crash |
| HugoLink.HugoUpgradeManager.BootstrapHugo | internal/tools/admin/hugo_upgrade.go:606-645 | refusals in order, then stage and activate the installed version, on a host without a managed link only |
| HugoLink.HugoUpgradeManager.StageLocked | internal/tools/admin/hugo_upgrade.go:405-513 | policy, downgrade, release, checksum and binary refusals in order; a genuine binary is staged, never over another one |
| HugoLink.StagedIsGenuine | internal/tools/admin/hugo_upgrade.go:405-513 | what is staged is permitted, matches the manifest, can be activated, and replaces nothing |
| HugoLink.FailedActivateRestores | internal/tools/admin/hugo_upgrade.go:573-589 | a failed activation changes nothing, exactly unless record write and restore both fail |
| HugoLink.UpgradeCanBeRolledBack | internal/tools/admin/hugo_upgrade.go:647-697 | rollback undoes an activation completely |
| HugoLink.BootstrapEnablesRollback | internal/tools/admin/hugo_upgrade.go:591-645 | whatever happens between bootstrap and the first finished upgrade, that upgrade rolls back to the bootstrapped version |
| HugoLink.FirstActivationHasNoWayBack | internal/tools/admin/hugo_upgrade.go:1040-1055 | without a bootstrap it does not |
| HugoLink.RunKeepsTruth | internal/tools/admin/hugo_upgrade.go:524-697 | over every history the record names the target live just before it was written |
| HugoLink.ActivateWritesTruth | internal/tools/admin/hugo_upgrade.go:573-589 | a finished activation records exactly the link and binary it replaced; any other leaves the record |
| HugoLink.RollbackIsExact | internal/tools/admin/hugo_upgrade.go:647-697 | after any history with crashes and tampering a successful rollback moves the link exactly from the recorded version to that target, with the same binary; a failed one changes nothing if its restore succeeds |
| HugoLink.CrashedActivationBlocksRollback | internal/tools/admin/hugo_upgrade.go:573-589 | a crash between link and record is noticed by the next rollback |
| HugoProvenance.StagesExactly | internal/tools/admin/hugo_upgrade.go:405-513 | a version is staged if and only if policy, bounds, release, checksum, binary and an empty place all allow it; what is then recorded |
| HugoProvenance.ActivatesExactly | internal/tools/admin/hugo_upgrade.go:524-589 | an activation finishes if and only if the staged binary is in place unchanged, the version in place reports itself and no step fails; exactly what it records |
| HugoProvenance.RollsBackExactly | internal/tools/admin/hugo_upgrade.go:647-697 | a rollback finishes if and only if the link leads to the recorded version and the recorded predecessor is in place unchanged; where the link then leads |
| HugoProvenance.BootstrapsExactly | internal/tools/admin/hugo_upgrade.go:606-645 | a bootstrap finishes if and only if the host has no link, the installed version is of the right edition and both steps succeed; what it leaves |
| HugoProvenance.StagedIsVouched | internal/tools/admin/hugo_upgrade.go:405-513 | over every history, tampering included: each staged hash was checked against its manifest and the policy by some event |
| HugoProvenance.ActivatedIsVouched | internal/tools/admin/hugo_upgrade.go:524-589 | when an activation or bootstrap finishes, the binary behind the link has exactly such a hash |
| TokenStores.MemoryStore.ExchangeRefreshToken | internal/storage/store.go:101-116 | the old refresh token goes and a pair of the same scope comes, or nothing changes |
| TokenStores.MemoryStore.PurgeExpiredTokens | internal/storage/store.go:118-133 | exactly the expired tokens go |
| TokenStores.MemoryStore.ValidateRefreshToken | internal/storage/store.go:91-99 | valid for its own client before expiry only |
| TokenStores.MemoryStore.AddAccessToken | internal/storage/store.go:49-54 | stores or replaces that access token only |
| TokenStores.MemoryStore.AddRefreshToken | internal/storage/store.go:80-89 | stores or replaces that refresh token only |
| TokenStores.MemoryStore.ValidateAccessToken | internal/storage/store.go:56-64 | the scope before expiry, nothing afterwards |
| TokenStores.MemoryStore.ValidateAccessTokenDetails | internal/storage/store.go:66-78 | principal, scope and expiry before expiry, nothing afterwards |
| TokenStores.DropExpired | internal/storage/json.go:179-194 | the deletion loop keeps exactly what has not expired |
| TokenStores.Copy | internal/storage/json.go:146-177 | the copy loop yields an equal map |
| TokenStores.JsonStore.SaveState | internal/storage/json.go:82-96 | the file is the whole new state or unchanged |
| TokenStores.JsonStore.AddAccessToken | internal/storage/json.go:98-103 | memory changes before the save, so a failed save leaves it ahead of the file |
| TokenStores.JsonStore.AddRefreshToken | internal/storage/json.go:129-134 | the same for refresh tokens |
| TokenStores.JsonStore.ValidateAccessToken | internal/storage/json.go:105-113 | valid while the second of expiry lies ahead |
| TokenStores.JsonStore.ValidateAccessTokenDetails | internal/storage/json.go:115-127 | the same with the second of expiry as the time |
| TokenStores.JsonStore.ValidateRefreshToken | internal/storage/json.go:136-144 | the same, and for its own client only |
| TokenStores.JsonStore.ExchangeRefreshToken | internal/storage/json.go:146-177 | copied maps are installed only after the save |
| TokenStores.JsonStore.PurgeExpiredTokens | internal/storage/json.go:179-194 | purge, then save |
| TokenStores.ExpiryTestsAgree | internal/storage/json.go:105-113 | the two expiry tests differ exactly within the second of expiry |
| TokenStores.StepCommutes | internal/storage/store.go:49-133 | cutting times to seconds commutes with every operation |
| TokenStores.StepSimulates | internal/storage/json.go:98-194 | every JSON operation simulates the memory operation while saves succeed |
| TokenStores.SavedLoads | internal/storage/json.go:48-80 | loading a saved file restores the same maps |
| TokenStores.LayoutsLoad | internal/storage/json.go:48-80 | files of every layout ever written load, and nothing else does |
| TokenStores.SameAnswers | internal/storage/json.go:36-194 | any operations get the same answers from both stores, with restarts anywhere |
| TokenStores.FailedSave | internal/storage/json.go:146-177 | a failed save inside an exchange changes neither memory nor file |
| TokenStores.JsonExpiresBySecond | internal/storage/json.go:98-144 | a token is valid until the second of its expiry begins, and that second is reported |
| TokenStores.SaveErrorExactly | internal/storage/json.go:98-194 | which calls report a failing save |
| TokenHistory.LiveDecides | internal/storage/store.go:49-116 | unexpired tokens alone decide every answer and what is unexpired afterwards |
| TokenHistory.PurgesAreInvisible | internal/storage/store.go:118-133 | on a clock that does not run backwards no purge ever changes an answer |
| TokenHistory.OnlyLiveTokensMatter | internal/storage/store.go:49-133 | stores with the same unexpired tokens answer alike from then on |
| TokenHistory.JsonRefreshOnce | internal/storage/json.go:146-177 | through any calls, failing saves and restarts, a refresh token exchanged once is refused ever after |
| TokenHistory.GrantsAreLive | internal/storage/store.go:49-133 | on a clock that does not run backwards, the live tokens are what was added or exchanged last and has not expired |
| TokenHistory.AnswersFollowGrants | internal/storage/store.go:49-133 | scope, client and expiry in every answer follow from the history of additions and exchanges alone |
| OAuth.HighestRank | internal/oauth/scope_config.go:95-120 | the rank returned is attained and no recognised token ranks higher |
| OAuth.RequestedScope | internal/oauth/scope_config.go:95-120 | the loop returns the highest recognised scope, or an error when none is |
| OAuth.HighestConfiguredScope | internal/oauth/scope_config.go:67-83 | the result is one of the scopes and ranks highest |
| OAuth.OAuthService.ResolveClientScope | internal/oauth/oauth.go:275-301 | unknown and disabled clients are refused; the request is clamped |
| OAuth.OAuthService.IssueAuthCode | internal/oauth/oauth.go:415-458 | a code is stored only after every check, bound to client, redirect and challenge |
| OAuth.OAuthService.ExchangeAuthorizationCode | internal/oauth/oauth.go:460-489 | the code is spent once found, whatever fails later |
| OAuth.OAuthService.IssueBearerPair | internal/oauth/oauth.go:540-565 | access token, then refresh token; a random failure in between leaves the first |
| OAuth.OAuthService.ExchangeRefresh | internal/oauth/oauth.go:491-538 | both random strings before the store is touched |
| OAuth.OAuthService.PurgeExpired | internal/oauth/oauth.go:199-219 | exactly the expired codes go |
| OAuth.OAuthService.ValidateBearerInfo | internal/oauth/oauth.go:254-265 | the stored token, unexpired and with a principal, its scope canonical |
| OAuth.OAuthService.RegisterClient | internal/oauth/oauth.go:303-344 | refusals in order; a new client gets the lowest scope and exactly the redirects it sent |
| OAuthRuns.ResolveIsClamped | internal/oauth/oauth.go:275-301 | the granted rank is the lower of the request's and the client's maximum |
| OAuthRuns.RedeemEffect | internal/oauth/oauth.go:460-489 | redeeming spends the code and stores tokens only for a matching request |
| OAuthRuns.RenewEffect | internal/storage/store.go:101-116 | renewing replaces one live refresh token of the same client and scope, or changes nothing |
| OAuthRuns.StepKeeps | internal/oauth/oauth.go:275-565 | one request, in any state, keeps every token bound to one spent grant, its client and its scope |
| OAuthRuns.GrantsAreSafe | internal/oauth/oauth.go:415-565 | so does any run; no grant ever has two live refresh tokens |
| OAuthRuns.CodeOnce | internal/oauth/oauth.go:460-489 | an authorization code yields at most one token response (section 4.1.2 of RFC 6749) |
| OAuthRuns.RefreshOnce | internal/oauth/oauth.go:491-538 | a refresh token is exchanged at most once (section 6 of RFC 6749) |
| OAuthRuns.RedeemIsBound | internal/oauth/oauth.go:460-489 | a redeemed code was issued to this client and redirect, is unexpired, and its challenge is answered (section 4.6 of RFC 7636) |
| OAuthRuns.NeverReturns | internal/oauth/oauth.go:460-538 | a spent code or refresh token never becomes usable again, whatever follows |
| OAuthTrace.IssuesExactlyAccepted | internal/oauth/oauth.go:415-458 | a code is issued if and only if source, response type, state, client, redirect, challenge and scope pass and randomness works |
| OAuthTrace.IssuedCodeIsBound | internal/oauth/oauth.go:275-301 | an issued code carries the request's client, redirect and challenge, and no more scope than requested and than the client's maximum |
| OAuthTrace.CodesHaveOrigins | internal/oauth/oauth.go:415-458 | every stored code comes from one authorization request of the run |
| OAuthTrace.RedeemTracesToRequest | internal/oauth/oauth.go:415-489 | whoever redeems a code matches an earlier accepted request for it in client, redirect and verifier, within its lifetime and its scope (section 4.1.3 of RFC 6749, section 4.6 of RFC 7636) |
| OAuthAccess.RecognisedScopes | internal/oauth/scope_alias.go:14-25 | the scope strings that are recognised, old and new, and what each is worth |
| OAuthAccess.ResolvesExactly | internal/oauth/oauth.go:275-301 | a scope is found if and only if the client is registered and enabled and the request names none or a recognised one |
| OAuthAccess.RedeemAnswersExactly | internal/oauth/oauth.go:460-489 | a redemption answers if and only if client, secret, code, expiry, redirect, verifier and randomness all hold; the code goes whenever the client is authentic |
| OAuthAccess.RenewAnswersExactly | internal/oauth/oauth.go:491-538 | the same for a renewal, which otherwise changes nothing |
| OAuthAccess.AnsweredIsAuthentic | internal/oauth/oauth.go:460-503 | in any run, whoever gets a token response is a registered and enabled client that presented its secret if it has one |
| OAuthAccess.HeldIsRedeemed | internal/oauth/oauth.go:460-538 | every grant with a stored token was redeemed by an authentic client with a matching request |
| OAuthAccess.BearerTracesToRequest | internal/oauth/oauth.go:254-265 | an accepted bearer goes back to an accepted authorization request and its redemption, in client, redirect, verifier and scope |
| OAuthAccess.RegistersExactly | internal/oauth/oauth.go:303-344 | when registration succeeds, and exactly the client it adds |
| OAuthAccess.ClientsOfRun | internal/oauth/oauth.go:303-344 | every client of a run was there before or registered itself with its redirects, public and limited to the lowest scope |
| OAuthAccess.SelfRegisteredOnlyRead | internal/oauth/oauth.go:318-333 | no bearer of a client that registered itself is worth more than the lowest scope |
| OAuthAccess.PurgedCodesWereDead | internal/oauth/oauth.go:199-206 | purging removes exactly the expired codes, and no later redemption can tell |
| SiteIndex.VisitFile | internal/site/index.go:345-397 | one step of the walk keeps every slot held by the first owner, else the first claimant |
| SiteIndex.VisitTaken | internal/site/index.go:355-381 | a taken slug: the alias stays an alias, loses, or is demoted |
| SiteIndex.SiteIndex.Load | internal/site/index.go:295-429 | one entry per declared slug held by its occupant, sorted; the alias keys are exactly the own slugs of alias files; over the limit nothing changes |
| SiteIndex.EntryCount | internal/site/index.go:295-397 | as many entries as distinct declared slugs |
| SiteIndex.EntriesCarry | internal/site/index.go:345-397 | the entries are those of the first genuine owners, else first claimants, with that file's path, title and date |
| SiteIndex.OccupantIsCandidate | internal/site/index.go:345-397 | a declared slug is held by a genuine owner if it has any |
| SiteIndex.OccupantIndependentOfOrder | internal/site/index.go:345-397 | every walk order gives the same occupant if and only if there is one candidate |
| SiteIndex.SiteIndex.RemoveBySlug | internal/site/index.go:102-120 | removes that entry in order; positions stay the exact inverse |
| SiteIndex.SiteIndex.UpsertPage | internal/site/index.go:124-139 | replaces in place or appends; positions stay the exact inverse |
| SiteIndex.WithoutAt | internal/site/index.go:102-120 | removal takes out that position and keeps the order |
| SiteIndex.WithAt | internal/site/index.go:124-139 | an update changes the page at its position and keeps the date |
| SiteIndex.WithAbsent | internal/site/index.go:124-139 | a new page goes to the end, undated |
| SiteIndex.SiteIndex.GetBySlug | internal/site/index.go:431-444 | answers as a scan of the entries |
| SiteIndex.SiteIndex.ResolveAlias | internal/site/index.go:451-459 | an answer exactly for the own slug of a walked file that declares another slug, and then one that such a file declares |
| SiteIndex.ShiftDown | internal/site/index.go:102-120 | moving later positions down by one restores the inverse |
| SiteIndex.Reposition | internal/site/index.go:102-120 | the loop rewrites exactly the positions behind the removed entry |
| SiteIndex.Positions | internal/site/index.go:398-429 | the position map rebuilt after sorting is the inverse of the entries |
| SiteIndex.IndexRefinesMap | internal/site/index.go:102-139 | after any updates a scan finds what a plain map would hold |
| SourceIndex.SourceIndex.RebuildMaps | internal/hugosite/source_index.go:396-417 | the three maps answer every lookup with the last match |
| SourceIndex.SourceIndex.GetBySlug | internal/hugosite/source_index.go:127-134 | the last page with the slug |
| SourceIndex.SourceIndex.GetBySlugLang | internal/hugosite/source_index.go:136-146 | the last page with slug and language |
| SourceIndex.SourceIndex.GetDefaultBySlug | internal/hugosite/source_index.go:164-174 | the last page with the slug and no language |
| SourceIndex.SourceIndex.Upsert | internal/hugosite/source_index.go:248-265 | replaces the page of its slot or appends, in the same or a larger buffer |
| SourceIndex.SourceIndex.Append | internal/hugosite/source_index.go:248-265 | the page goes to the end, in place or into a larger copy |
| SourceIndex.SourceIndex.Compact | internal/hugosite/source_index.go:273-304 | in-place compaction keeps exactly the other pages in order |
| SourceIndex.SourceIndex.Delete | internal/hugosite/source_index.go:273-286 | exactly the pages of the slug go |
| SourceIndex.SourceIndex.DeleteLang | internal/hugosite/source_index.go:291-304 | exactly the page of slug and language go |
| SourceIndex.DeleteAndScan | internal/hugosite/source_index.go:273-304 | deletion empties the lookups it covers and changes no disjoint one |
| SourceIndex.DeleteLangKeepsOthers | internal/hugosite/source_index.go:291-304 | other languages of the slug remain and stay reachable |
| SourceIndex.UpsertAndScan | internal/hugosite/source_index.go:248-265 | an upsert answers its own lookup and changes no other slot |
| SourceIndex.LookupsFind | internal/hugosite/source_index.go:127-174 | each lookup finds the last page of its kind |
| SourceIndex.LookupsMiss | internal/hugosite/source_index.go:127-174 | a lookup finds nothing if and only if there is no page of its kind |
| SourceIndex.DeletionsKeepOrder | internal/hugosite/source_index.go:273-304 | a deletion keeps, in their order, the pages at exactly the positions it does not cover |
| SourceIndex.UpsertPlaces | internal/hugosite/source_index.go:248-265 | an upsert takes the last position of its slug and language, or the end |
| SourceIndex.IndexRefinesMap | internal/hugosite/source_index.go:248-304 | after any updates each (slug, language) lookup answers as a plain map |
| Taxonomy.Levenshtein | internal/taxonomy/taxonomy.go:291-320 | the two swapped rows compute the edit distance, for all inputs |
| Taxonomy.FillRow | internal/taxonomy/taxonomy.go:305-317 | the inner loop turns one row of distances into the next |
| Taxonomy.NoCheaperScript | internal/taxonomy/taxonomy.go:291-320 | no edit script is cheaper than the distance |
| Taxonomy.CheapestScript | internal/taxonomy/taxonomy.go:291-320 | some edit script costs exactly the distance |
| Taxonomy.LevenshteinIsLeastCost | internal/taxonomy/taxonomy.go:291-320 | the result is characterised as the least cost of all scripts |
| Taxonomy.ZeroIffEqual | internal/taxonomy/taxonomy.go:291-320 | distance zero if and only if equal |
| Taxonomy.Symmetric | internal/taxonomy/taxonomy.go:291-320 | symmetry |
| Taxonomy.Triangle | internal/taxonomy/taxonomy.go:291-320 | triangle inequality |
| Taxonomy.LengthBounds | internal/taxonomy/taxonomy.go:291-320 | bounds by the lengths, from both sides |
| Taxonomy.Examine | internal/taxonomy/taxonomy.go:272-285 | one turn of the inner loop adds exactly the pair it should |
| Taxonomy.FindSimilarPairs | internal/taxonomy/taxonomy.go:264-288 | exactly the pairs of positions long enough, not alias-linked and within the distance band, each once and in order |
| Taxonomy.SimilarMeans | internal/taxonomy/taxonomy.go:264-288 | similar means: different, long enough, neither an alias of the other, and at most so many edits apart |
| Taxonomy.FoundPairs | internal/taxonomy/taxonomy.go:264-288 | the result has one element for exactly such pairs of positions, in their order, each in ascending order inside |
| ContentRevision.DecodeEncode | internal/contentmodel/revision.go:69-83 | a decoder recovers every list of paths and contents from the stream, decimal lengths included |
| ContentRevision.EncodeInjective | internal/contentmodel/revision.go:69-83 | equal streams if and only if equal lists |
| ContentRevision.BundleRevision | internal/contentmodel/revision.go:46-84 | the loop feeds the hash exactly that stream, sorted by path, and fails exactly on an unreadable file |
| ContentRevision.Feed | internal/contentmodel/revision.go:77-81 | the three writes of one file add up to its frame |
| ContentRevision.SameStreamIffSameBundle | internal/contentmodel/revision.go:46-84 | two directory walks feed the same bytes if and only if the bundles are equal |
| ContentRevision.RevisionMovesWithBundle | internal/contentmodel/revision.go:46-84 | with a collision-free hash the revision moves on every change and only then |

## Left out

- HTTP handlers, except which secrets the preview handler passes on; discovery documents, MCP registration, logging, metrics and command-line wrappers.
- SQL text and parsing of JSON, YAML, TOML and HTML; tables are maps or row sequences, decoded values are inputs.
- The Hugo subprocess, image rendering and network calls; their results are arbitrary inputs.
- Hash functions and randomness: hashes are arbitrary functions, collision free only where a lemma requires it; random strings are fresh inputs. Nothing is claimed about the tree hash of a build, which is an opaque revision.
- Timestamp text: times are integers, and histories of the ledger complete in increasing order. The text order of timestamps is not modelled.
- The write tools' own journalling: a mutation is any subset of its files already replaced when the process dies.
- Symbolic links, modes, ownership and creation of parent directories during recovery and builds; temporary files of atomic writes live apart because their names are fresh.
- What becomes of the files of pending rows that meddle, row by row: `RecoveryOverlap` says exactly when they can, `RecoveryJournal` what holds for journal and results all the same.
- RecoveryServer.RecoveryServer.ReconcilePage: directories exist only through the files below them, so a path with an empty directory reads as absent, where the code's read fails and the row stays pending; the same holds for every recovery result.
- Retention pruning of journal rows, and trimming of the results in memory to a maximum number.
- IdempotencyReplay.IdempotencyStore.Replay: database and decoding errors are not modelled; the in-memory key is the triple of caller, tool and key, where the code joins the three with a NUL character.
- OAuth.OAuthService.ValidateBearerInfo: the principal is returned as stored, where the code trims white space around it; the deprecation flag is left out.
- The mapping from rendered URL to source page: the ledger takes public facts keyed by identity.
- Slug normalisation, tag and category collection, search and backlinks in the site index.
- Soft caps, disk usage and per-owner counts of previews; concurrent creation while another call revokes. Methods of the preview store run one at a time, only the two sections of a fetch interleave.
- Redirect-URI matching and well-formedness, which are parameters of the OAuth model; the HTTP side of its errors; grants other than authorization code and refresh token.
- OAuth runs over the JSON store: the runs use the memory store, to which `TokenStores.SameAnswers` reduces the other while saves succeed; with failing saves there is `TokenHistory.JsonRefreshOnce`.
- Build callbacks: whether they fail before the build is an input, what they report after the swap only adds warnings; permission repair of the published tree likewise.
- Backup and build directories other than the ones of the build at hand are never removed by the code and stay on the modelled disk.
- Delays, timeouts and cancellation of Hugo: a failed run is one that stops after any of its pages.
- RecoveryServer.RecoveryServer.PrepareMutationRecovery: the log messages and the reload of the source index that follow a reported change are not modelled.
- BuildLedger.BuildLedger.LatestBuildRun: ties between equal times are broken freely, as the query does; `LedgerHistory.NewestIsLatest` needs increasing times.
- OutputSwap.Publisher.SwapBuildOutput: renames act on sibling directories of one file system, whose names do not contain one another.
- HugoLink.HugoUpgradeManager.ActivateLocked: the configuration switch that makes activation and rollback refuse everything is not modelled.
- HugoLink.HugoUpgradeManager.StageLocked: temporary directories, size limits and the audit log are not modelled; a failing step before the final rename is one flag.
