# Verified model of the group cloud storage core

This project models the core of a plugin that keeps a local index of files held in chat
groups, and proves properties of it with Dafny 4.11. `dafny verify dfyconfig.toml` checks
everything.

The system, in its own terms:

- **The metadata index.** A cloud file's session handle changes every session, so a row's
  `resource_id` is not stable; its logical key `group:type:name` is. An upsert batch has two
  conflict targets, plans a chase of the volume parts, upserts, lets composition parents whose
  handle vanished hand over their identity, and then chases the parts, all in one transaction.
  A sweep follows a complete listing. `StatusPolicy`, `ResourceTable`, `ResourceBatch`,
  `ResourceSync`, `RepeatedNames`, `CommitCondition`, `CompositionIdentity`, `StoredRows`,
  `PartMoves`, `RegisteredParts` and `IndexHistory` hold the transformation and the theorems;
  `MetaIndex` is the store whose methods are proved to perform it.
- **The connection pool** (`ConnectionPool`, `PoolProgress`): any number of calls, `close` and
  `drain` as atomic steps in every interleaving; what it keeps, and what it gives its callers.
- **The task ledger** (`Outbox`): racing writes through a guarded upsert, restart
  reconciliation, and the operation log.
- **Two string cores**: LIKE escaping against SQLite's matcher (`Like`), and file type
  classification against the SQL suffix filter (`FileType`, `NestedSuffixes`,
  `FileTypeCasing`); `Texts` is the `strip` they and others share.
- **The download server**: range headers and the streaming loop (`ServeRange`), paging
  (`Paging`), bounded cache eviction (`CacheSweep`), concurrent openers of one cached file
  (`CacheMaterialize`).
- **The netdisk deep index** (`NetdiskTree`, `Netdisk`): a worklist walk over a paged remote
  tree into an insert-or-ignore table.
- **Group visibility** (`GroupVisibility`): the liveness sweep, the startup heal, scans and
  user requests over the `managed` and `removed` flags; and the bot registry that feeds the
  sweep (`PlatformBots`).
- **Durations** (`Units`) and **bounded task cancellation** (`TaskCancel`).

## How to read it

Code that changes state step by step is a class or a method with loops; each such method is
tied by its `ensures` to a specification function, and the theorems are lemmas about those
functions. Concurrent protocols are state machines over runs: a theorem about "every
reachable state" quantifies over all step sequences. Callbacks into code outside the model
(remote listings, probes, unlinks, short reads, Python's `str.lower`, `int()` and white
space) are function parameters, so results hold for any behaviour of theirs.

The index theorems share three hypotheses, which the code needs. (1) Every stored key equals
`group:type:name`. (2) Within a batch, resource ids and logical files are distinct and session
handles are non-empty. (3) An item whose `resource_id` is stored names the same logical file
as that row; `ResourceBatch.NameIsEnough` reduces this to the name.
`ResourceTable.OneUpsertKeepsKeysIff` and `ResourceTable.RenameKeepsKeysIff` say exactly when
(1) survives an upsert or a rename, and `ResourceTable.RenamedHandleLeavesStaleKey` shows the
conflict body leaving a stale key behind. `RepeatedNames.RepeatedNamesIff` drops the distinct
names of (2) and says exactly when the parts of a file survive without them.
`PartMoves.WhereThePartsGo` says when a batch that meets the hypotheses commits and where the
parts go then, and `StoredRows.WhatABatchStores` what is in every row.

Where the code does not do what its comments say, the model follows the code:

- `adapters/persistence/sqlite/connection.py:140-142` says no connection outlives `close()`.
  One can: `ConnectionPool.ConnectionCanOutliveClose`. `ConnectionPool.NoneOutlivesCloseIff`
  gives the exact condition, and `ConnectionPool.DrainedMeansQuiet` is what `close` and `drain`
  do give.
- `core/domain/file_type.py:199-200` says display and filter agree on the same file.
  `FileTypeCasing.AgreesUnderOverridesIff` says for which letters and tables of overrides they
  do; without overrides the Kelvin sign already breaks it (`FileTypeCasing.KelvinSignBreaksMkv`).
- `core/runtime/lifecycle.py:236-251` restores the groups its own sweep hid. A group hidden by a
  scan, or rebound to another account while hidden, is outside its books:
  `GroupVisibility.StepKeepsSoundIff` says exactly which steps do that, and
  `GroupVisibility.UnlistedGroupStaysHidden` that no sweep brings such a group back.
- `webapi/groups.py:338-341` removes a group in two calls. `GroupVisibility.SplitRemovalHidesIff`
  says exactly which steps between them leave the group in view.
- `core/platform.py:162-170` refreshes account bindings, but an account nobody answers for can
  keep a connection that is now logged in as another: `PlatformBots.MisroutedIff`.
- `core/units.py:151` accepts a fraction of seconds in the compound form and drops it:
  `Units.FractionIsDroppedIff` and `Units.FractionAfterMinutesIff` give the exact conditions.
- `adapters/persistence/sqlite/resources_write.py:48-60` looks for composition parents of any
  status, so a deleted one imposes its meta on the live file of its name again in every batch:
  `CompositionIdentity.GhostsImposeTheirMeta`.
- `core/task_cancel.py:66-79` cancels again at every slice, but only the first task still alive:
  `TaskCancel.EventLoop.CancelTasks`.

## Model

| member | source | states |
|---|---|---|
| StatusPolicy.PairViewsAgreeIff | adapters/persistence/sqlite/status_policy.py:61-113 | for any transition table the generated resources CASE equals `_resolve` on all resolvable pairs, exactly if each entry adopts the incoming status or is a rendered pair |
| StatusPolicy.OldViewsAgreeIff | adapters/persistence/sqlite/status_policy.py:61-124 | the same for the volumes CASE: exactly if its sticky statuses stick on every pair the table resolves |
| StatusPolicy.ShippedTablesAgree | adapters/persistence/sqlite/status_policy.py:33-58 | both shipped tables qualify, so the Python and SQL views never differ |
| StatusPolicy.ResourceStatusValue | adapters/persistence/sqlite/status_policy.py:101-113 | the only existing status a re-listing cannot overwrite is archived, and only against active |
| StatusPolicy.VolumeStatusValue | adapters/persistence/sqlite/status_policy.py:116-124 | uploaded is terminal, any other part status adopts |
| ResourceTable.KeyDeterminesName | adapters/persistence/sqlite/row_identity.py:11-20 | within a group and type, equal logical keys mean equal names |
| ResourceTable.IdDeterminesParts | core/domain/resource.py:88-90 | with colon-free group ids a resource id fixes group, type and session handle |
| ResourceTable.MergeStatusIsTheSql | adapters/persistence/sqlite/resources.py:39 | the enum form of the conflict body's status is the rendered SQL for every pair |
| ResourceTable.UpsertRowKeepsTableOk | adapters/persistence/sqlite/resources_write.py:120-138 | any single upsert that does not abort keeps `resource_id` unique and at most one live row per logical key, for any item |
| ResourceTable.OneUpsertKeepsKeysIff | adapters/persistence/sqlite/resources.py:29-48 | an upsert keeps every key equal to group:type:name exactly when it does not re-list a known id under another name |
| ResourceTable.RenamedHandleLeavesStaleKey | adapters/persistence/sqlite/resources.py:29-48 | the concrete re-listing that leaves a stale key |
| ResourceTable.RenameKeepsKeysIff | adapters/persistence/sqlite/resources.py:50-62 | a rename never violates the index and leaves a stale key exactly when it takes another live row's name |
| ResourceBatch.ChunksCompose | adapters/persistence/sqlite/resources_write.py:179-181 | 500-row chunks are the whole batch: chunking changes neither the result nor whether it aborts |
| ResourceBatch.NameIsEnough | core/domain/resource.py:88-90 | with derived ids only the name has to be kept for the batch hypotheses |
| ResourceBatch.CommittedBatch | adapters/persistence/sqlite/resources_write.py:141-187 | a committed batch keeps both constraints and every key, and leaves exactly one row per item id, carrying the item's logical file and handle |
| ResourceBatch.PartsStayAttached | adapters/persistence/sqlite/resources_write.py:28-187 | after a committed batch every part of a known file row still has a parent row, and it is the same logical file, through key collapse, inheritance and chase |
| ResourceBatch.PartStaysAttachedIff | adapters/persistence/sqlite/resources_write.py:28-187 | for every part with a parent row, of any type: it stays with a row of the same logical file exactly if that is a file or the batch does not list it under another id |
| ResourceBatch.OtherPartsAreNotChased | adapters/persistence/sqlite/resources.py:86-88 | a part under a non-file row is never moved, so it stays exactly when the batch does not list that row under another id |
| ResourceBatch.CollapsedIffRelisted | adapters/persistence/sqlite/resources.py:76-96 | which rows a batch gives another id can be read off the old table and the batch |
| RepeatedNames.RepeatedNamesIff | adapters/persistence/sqlite/resources_write.py:64-78 | without distinct names: a part of a live file stays with it exactly if every item naming the file, but the last, carries the id the row has |
| RepeatedNames.NewIdsMayNotRepeatNames | adapters/persistence/sqlite/resources.py:76-118 | when every id of the listing is new, exactly if at most one item names the file |
| RepeatedNames.HeirOfTombstone | adapters/persistence/sqlite/resources_write.py:71-79 | in an active listing only a row deleted before the batch hands anything over |
| ResourceBatch.SameNameTwiceOrphansParts | adapters/persistence/sqlite/resources.py:76-96 | the input: two new items of one name send the parts to an id no row has |
| CommitCondition.BatchCommitsIff | adapters/persistence/sqlite/resources_write.py:193-208 | an active batch commits exactly if no item brings back a deleted row whose name a live row has, and the repointings bring no two parts of one number under one parent |
| CommitCondition.UpsertCommitsIff | adapters/persistence/sqlite/resources_write.py:120-138 | the upserts of any batch go through exactly under the first of these conditions |
| CommitCondition.ChaseCommitsIff | adapters/persistence/sqlite/resources.py:99-118 | any run of repointings goes through exactly if it keeps parts of one number apart, and then takes each part to the composed destination |
| PartMoves.WhereThePartsGo | adapters/persistence/sqlite/resources_write.py:28-208 | for items of any status: a batch commits exactly if no item brings back a deleted row whose name a live row has and no two parts of one number come under one parent; then every part is as it was but for its parent, which is the id of the item that lists its file under another id if that file's row is live or hands over, and the old one otherwise |
| IndexHistory.HistoryKeepsTheIndex | adapters/persistence/sqlite/resources_write.py:110-326 | over any run of batches, committed or rolled back, sweeps, part registrations and renames: both constraints and every key hold, no row is lost, and what a row stands for changes by its own renames only |
| IndexHistory.PartsStayAttachedForEver | adapters/persistence/sqlite/resources_write.py:28-326 | over any such run a part stays with its file, under the row that stands for it now, keeping number and handle, and uploaded stays uploaded |
| IndexHistory.FilesKeepTheirParts | adapters/persistence/sqlite/resources.py:86-88 | for parts of files that needs no hypothesis on handles |
| IndexHistory.ArchivedSurvivesEveryRelisting | adapters/persistence/sqlite/status_policy.py:33-58 | over any run of active re-listings, sweeps, registrations and renames an archived row stays archived |
| CompositionIdentity.OnlyGhostsHandOver | adapters/persistence/sqlite/resources_write.py:48-79 | in an active batch exactly the deleted, unlisted composition parents whose name is listed hand over, to the last item of that name |
| CompositionIdentity.GhostsImposeTheirMeta | adapters/persistence/sqlite/resources_write.py:80-99 | the row of a listed file carries the meta of such a parent exactly if there is one, in every batch anew, and what the upsert gave it otherwise |
| CompositionIdentity.CompositionSurvivesRelisting | adapters/persistence/sqlite/resources_write.py:48-99 | a plain re-listing never loses a composition: every composed row stays composed, and a parent that hands over is retired in favour of a composed heir |
| CompositionIdentity.InheritHandsOver | adapters/persistence/sqlite/resources_write.py:71-99 | each parent the loop has passed has handed over to its heir, whatever the later ones do |
| StoredRows.WhatABatchStores | adapters/persistence/sqlite/resources_write.py:28-187 | the whole table after a committed batch, told from the old table and the items: each item is stored on the row with its id, else on the live row of its file, else on a new one, with its name, handle and key, its status unless that row was archived and the item is active, and its meta unless a vanished parent of the file imposes its own (the last in table order) or the row was composed, which takes each flag from the item where present; every other row is as it was, except that exactly the parents that hand over are retired |
| StoredRows.HandsOverIff | adapters/persistence/sqlite/resources_write.py:48-79 | for items of any status: which rows hand over, and to whom, is told from the old table and the items |
| StoredRows.HandlelessIsInert | adapters/persistence/sqlite/resources.py:86-88 | an item without a session handle, anywhere in a batch, plans no move and changes nobody's heir |
| ResourceSync.CompleteSyncAgreesWithTheCloud | adapters/persistence/sqlite/resources_write.py:271-326 | after a complete listing every active non-parent file row is listed and every listed file has a row that is active or was archived before |
| ResourceSync.SweepKeepsTheIndex | adapters/persistence/sqlite/resources_write.py:281-313 | the sweep changes exactly the rows it must: no other group, nothing for an incomplete listing |
| ResourceSync.ActiveBatchKeepsArchived | adapters/persistence/sqlite/resources_write.py:141-187 | one active batch, inheritance included, never undoes archived |
| RegisteredParts.RegistrationsStore | adapters/persistence/sqlite/volumes.py:24-59 | all that any run of registrations stores: a part nobody names is as it was; otherwise the last name given, uploaded if the stored part or any registration was and the last status given if not, and the handle the part had or first came with; every registered part has one row |
| RegisteredParts.UploadedIsNeverDemoted | adapters/persistence/sqlite/volumes.py:24-59 | over any run of registrations parts stay unique, known parts keep parent, number and handle, and uploaded is never demoted |
| MetaIndex.MetaIndex.PlanReparents | adapters/persistence/sqlite/resources.py:76-96 | the planning loop yields exactly the moves of the specification |
| MetaIndex.MetaIndex.ReparentVolumes | adapters/persistence/sqlite/resources.py:99-118 | the chase fails exactly when two parts would collide, and counts the parts it moved |
| MetaIndex.MetaIndex.Successors | adapters/persistence/sqlite/resources_write.py:65-70 | the dictionary holds the newest listed file per group and name |
| MetaIndex.MetaIndex.InheritCompositionIdentity | adapters/persistence/sqlite/resources_write.py:28-99 | the loop over vanished parents performs the specified hand-over or fails |
| MetaIndex.MetaIndex.ApplyRowChunk | adapters/persistence/sqlite/resources_write.py:110-138 | one executemany upserts row by row and reports the first violation |
| MetaIndex.MetaIndex.UpsertChunks | adapters/persistence/sqlite/resources_write.py:179-181 | the chunk loop equals one upsert of the whole batch |
| MetaIndex.MetaIndex.ApplyUpsert | adapters/persistence/sqlite/resources_write.py:141-187 | plan, upsert, inherit, chase in this order, on both tables |
| MetaIndex.MetaIndex.UpsertResources | adapters/persistence/sqlite/resources_write.py:193-211 | commits the batch, or leaves both tables exactly as they were; under the hypotheses it commits exactly under the conditions of `PartMoves.WhereThePartsGo`, and then both tables are the ones that lemma and `StoredRows.WhatABatchStores` describe |
| MetaIndex.MetaIndex.MarkMissingAsDeleted | adapters/persistence/sqlite/resources_write.py:271-326 | row by row, exactly the active unlisted files of the group that are not volume parents are retired, nothing else about any row changes, the count is the number of rows changed, and an incomplete listing changes none |
| MetaIndex.MetaIndex.SyncListing | core/application/sync/resource_sync.py:110-115 | upsert then sweep leaves an index that agrees with the listing, or nothing changes |
| MetaIndex.MetaIndex.RenameResource | adapters/persistence/sqlite/resources_write.py:235-262 | sets the name and refreshes the key unless another live row has that name; fails without a trace exactly if a live row under another name holds the new key; keeps the constraints |
| MetaIndex.MetaIndex.InsertVolumes | adapters/persistence/sqlite/volumes.py:24-59 | the registration loop performs the upserts in order, and so leaves what `RegisteredParts.RegistrationsStore` says |
| ConnectionPool.DrainedMeansQuiet | adapters/persistence/sqlite/connection.py:83-152 | once `drain` returned True after `close`, no call is running or will ever run its function, in every interleaving |
| PoolProgress.DrainAnswersAtOnceIff | adapters/persistence/sqlite/connection.py:122-137 | in every reachable state `drain` answers True at once exactly if no call is in flight, and waits otherwise |
| PoolProgress.WaitingDrain | adapters/persistence/sqlite/connection.py:122-137 | a waiting drain goes on waiting until it wakes up, which answers True, or times out, which answers False |
| PoolProgress.OnlyTimeOutFailsDrain | adapters/persistence/sqlite/connection.py:128-137 | over every run, a drain that comes to answer False was waiting and timed out |
| PoolProgress.WakesIff | adapters/persistence/sqlite/connection.py:110-113 | with the lock free a waiting drain can wake up exactly if no call is in flight |
| PoolProgress.WaitingDrainCanSucceed | adapters/persistence/sqlite/connection.py:110-137 | no schedule traps a waiting drain: every run that has one waiting has a continuation that answers True |
| PoolProgress.WaitingDrainCanGiveUp | adapters/persistence/sqlite/connection.py:128-137 | a waiting drain can answer False at any moment: it never keeps its caller |
| PoolProgress.DrainCanSucceed | adapters/persistence/sqlite/connection.py:122-137 | and on a closed manager every run, whatever drain answered before, has a continuation where it has answered True |
| PoolProgress.CloseCanEnd | adapters/persistence/sqlite/connection.py:139-152 | every run has a continuation in which close has ended |
| PoolProgress.RefusalHasReason | adapters/persistence/sqlite/connection.py:52-81 | a call that is over and never ran its function read the flag raised, failed to connect or waited in vain |
| PoolProgress.OpenManagerServes | adapters/persistence/sqlite/connection.py:52-113 | from every reachable state of an open manager any call yet to come can be run: no slot and no connection is ever lost |
| PoolProgress.PoolIsFilledIff | adapters/persistence/sqlite/connection.py:52-113 | with all others through, an open manager has its connections in the pool: it is empty exactly if none was ever opened |
| PoolProgress.WaitingCallCanBeServed | adapters/persistence/sqlite/connection.py:75-81 | a call waiting on an open manager that ever opened a connection can be served once the others come to their end |
| ConnectionPool.PoolIsSound | adapters/persistence/sqlite/connection.py:52-113 | in every reachable state: at most pool-size connections, each in exactly one place, no two calls on one, `_idle` set exactly when `_inflight` is 0 outside the lock |
| ConnectionPool.ConnectionCanOutliveClose | adapters/persistence/sqlite/connection.py:101-109 | the interleaving that leaves an open connection pooled after `close` |
| ConnectionPool.NoneOutlivesCloseIff | adapters/persistence/sqlite/connection.py:139-152 | where close's loop ends: in every continuation every connection is shut once all calls are through, exactly if no call is between its flag read and its put |
| ConnectionPool.ClosedForGood | adapters/persistence/sqlite/connection.py:101-113 | for one continuation: with no call between the two all is shut; with no call past the closed check either, all is shut exactly then |
| ConnectionPool.LastTurnEndsLoop | adapters/persistence/sqlite/connection.py:143-148 | the last turn of close's loop leaves the state the condition speaks of: closed, pool empty |
| Like.ChainedReplacesEscapeEachChar | adapters/persistence/sqlite/like.py:14-25 | the three chained replaces are one escape per character |
| Like.ContainsPattern | adapters/persistence/sqlite/like.py:28-30 | LIKE matches exactly the strings containing the text, ASCII case aside |
| Like.PrefixPattern | adapters/persistence/sqlite/like.py:33-35 | exactly the strings starting with it |
| Like.SuffixPattern | adapters/persistence/sqlite/like.py:38-40 | exactly the strings ending with it |
| Like.UnescapedFragmentWidens | adapters/persistence/sqlite/like.py:14-25 | without the escape a fragment matches strings that do not contain it |
| FileType.FilterAgreesWithClassification | core/domain/file_type.py:186-211 | a name shown under any type but other is accepted by that type's filter, whether overridden, plain, or reached by stripping suffixes |
| FileTypeCasing.AgreesUnderOverridesIff | core/domain/file_type.py:186-211 | for one table of overrides that hides no known extension, display and filter agree on all names exactly if an empty key does no harm and no typed extension contains what Python makes of a letter SQLite leaves alone |
| FileTypeCasing.KelvinSignBreaksMkv | adapters/persistence/sqlite/resources_query.py:121-136 | the input without overrides: the Kelvin sign in an mkv suffix |
| FileType.UnlikeCaseDisagrees | adapters/persistence/sqlite/resources_query.py:131-135 | any character the two sides case differently yields a name the filter misses |
| FileType.EmptyKeyDisagrees | core/domain/file_type.py:190-192 | an empty override key types names without a suffix, which no filter finds |
| FileType.AcceptsExtMeaning | adapters/persistence/sqlite/resources_query.py:121-136 | the two LIKE patterns accept exactly the names that end with the extension or contain it before a dot |
| FileType.Classify | core/domain/file_type.py:112-123 | the strip loop of at most six rounds computes the recursive classification |
| NestedSuffixes.SixSuffixesAreSeenThrough | core/domain/file_type.py:98-123 | a name keeps the type of its own suffix behind up to six transient or volume suffixes, and is other behind seven |
| NestedSuffixes.StrangeSuffixEndsTheSearch | core/domain/file_type.py:112-123 | a suffix that no type lists and that is neither transient nor a volume's makes the name other, whatever is stripped before it |
| FileType.TypeExtsWithOverrides | core/domain/file_type.py:196-211 | the loop yields the static extensions and the dotted override keys of the type, without repetition |
| Outbox.LastOfGreatestRankWins | adapters/persistence/sqlite/outbox.py:26-45 | the ledger holds state, payload and retries of the last write of greatest rank, and kind and target of the first |
| Outbox.GuardComparesRanks | adapters/persistence/sqlite/outbox.py:39-44 | the three-armed guard is one comparison of ranks |
| Outbox.OrderDoesNotMatter | adapters/persistence/sqlite/outbox.py:16-25 | the final rank is the same for every permutation of the writes |
| Outbox.CancelledWins | adapters/persistence/sqlite/outbox.py:22-24 | a cancelled write wins wherever it arrives |
| Outbox.RankAfter | adapters/persistence/sqlite/outbox.py:26-45 | on an existing row the rank only rises, to the greatest written |
| Outbox.LastErrorStays | adapters/persistence/sqlite/outbox.py:26-45 | the stored error is that of the last write that was accepted and carries one or ends its task without one; with none there is no error |
| Outbox.ReconcileSettlesIff | adapters/persistence/sqlite/outbox.py:148-168 | only terminal rows and pending breakpoint tasks are left, exactly if every stored state is one the queue writes |
| Outbox.ReconciledRow | adapters/persistence/sqlite/outbox.py:148-168 | both updates together: an unfinished task of the three breakpoint kinds is pending, any other unfinished one has failed with its own error or the default one, and no other row changes |
| Outbox.ReconcileKeepsTerminals | adapters/persistence/sqlite/outbox.py:148-168 | terminal rows and recorded errors are untouched |
| Outbox.ReconcileIsIdempotent | adapters/persistence/sqlite/outbox.py:148-168 | a second reconciliation finds nothing to do |
| Outbox.AppendKeepsNumbering | adapters/persistence/sqlite/outbox.py:170-195 | each task's operations stay numbered 1, 2, 3 without gap or repetition |
| Outbox.Outbox.LedgerUpsert | adapters/persistence/sqlite/outbox.py:68-96 | one write performs the guarded upsert and touches no other task |
| Outbox.Outbox.Deliver | adapters/persistence/sqlite/outbox.py:68-96 | any sequence of writes to one task folds to the specification |
| Outbox.Outbox.LedgerReconcile | adapters/persistence/sqlite/outbox.py:148-168 | both bulk updates, and the count of the rows they matched |
| Outbox.Outbox.OpsAppend | adapters/persistence/sqlite/outbox.py:170-195 | appends the next number of the task |
| CacheSweep.SortSorts | core/application/download_cache.py:45-70 | the entries come out least recently used first and are a permutation of what is on disk |
| CacheSweep.SweepIsOk | core/application/download_cache.py:73-95 | nothing inside the grace window goes; whatever stays past it and could be unlinked is neither idle nor over quota; evicted and kept make up the whole |
| CacheSweep.EvictsAPrefix | core/application/download_cache.py:73-95 | with successful unlinks the evicted entries are a prefix of the order and the last was idle or needed for the quota |
| CacheSweep.CacheDir.SweepCache | core/application/download_cache.py:73-95 | the loop leaves the specified files on disk, which with the evicted ones are those there were, and reports exactly the bytes removed |
| CacheMaterialize.OneDownloadAtATime | core/application/download_server_io.py:216-274 | in every interleaving of openers of one path at most one download runs and every opener that returned found a file that is not empty and as long as recorded |
| CacheMaterialize.NoDownloadAfterPublish | core/application/download_server_io.py:191-274 | once a complete file is there no download runs or starts, and the file stays complete |
| CacheMaterialize.HitIsServed | core/application/download_server_io.py:227-230 | an opener that looks at a whole file is served at once and touches no lock |
| CacheMaterialize.RaisedByItsDownload | core/application/download_server_io.py:242-260 | over every run an opener raises only if a download of its own failed |
| CacheMaterialize.FailureFreesTheLock | core/application/download_server_io.py:238-258 | a failed download raises for its own opener only, leaves the file as it was and the lock free |
| CacheMaterialize.EveryoneCanBeServed | core/application/download_server_io.py:216-260 | no deadlock: every run has a continuation in which every opener comes to its end, served unless its own download has failed |
| Paging.OrderIsUnique | adapters/persistence/sqlite/resources_query.py:155-163 | ordering by key and id leaves no choice: two queries over the same rows see one sequence |
| Paging.PagesAreDisjointSlices | adapters/persistence/sqlite/resources_query.py:143-175 | different pages share no row and consecutive pages are consecutive slices |
| Paging.CollectResources | core/application/download_server_io.py:163-185 | returns exactly the first min(total, page size times pages) rows in order, sorted by key in the given direction and then by id, with no other row before any of them, and terminates |
| ServeRange.SpansAreInside | core/application/download_server_io.py:52-81 | any span lies inside the body, for every header and body length |
| ServeRange.RangeForms | core/application/download_server_io.py:52-81 | every header that asks for a range, unit in any case and blanks anywhere: closed, open and suffix ranges mean what section 14.1.2 of RFC 9110 says for all numbers, and a number that does not parse means the whole body |
| ServeRange.WholeAndUnsatisfiableIff | core/application/download_server_io.py:52-81 | for every header: the whole body is sent exactly unless it asks for a range with numbers that parse, and the range is refused exactly if these lie outside the body |
| ServeRange.NoRangeAsked | core/application/download_server_io.py:60-67 | an absent or empty header, one without the unit, with a comma or without a dash means the whole body |
| ServeRange.WrittenHeaderAsks | core/application/download_server_io.py:60-69 | the header `bytes=first-last`, in any case, with blanks around it and after the unit, asks for those two bounds |
| ServeRange.Stream | core/application/download_server_io.py:145-155 | the chunk loop sends exactly the bytes asked for under any pattern of short reads |
| ServeRange.ServeLocalFile | core/application/download_server_io.py:108-157 | status, length and body are those of the parsed range, the body is as long as announced, and without a header it is the whole file under status 200 |
| NetdiskTree.DirPrefixIsCanonical | core/application/netdisk.py:30-32 | any spelling ends with one slash at each end, a fixed point; the root exactly for texts of slashes only |
| NetdiskTree.DirPrefixKeepsThePath | core/application/netdisk.py:30-32 | which directory a path means: slashes at its ends aside, every component is kept; the root for slashes only |
| NetdiskTree.PathParts | core/application/netdisk.py:30-32 | every path is of that form |
| Texts.StripIff | core/application/netdisk.py:31 | what `strip` leaves of a text is its one core: bare at both ends, with strippable characters only around it |
| NetdiskTree.BelowIsCounted | core/application/netdisk.py:146-167 | no two entries below a directory share a path: the set has as many members as the tree has nodes |
| NetdiskTree.BelowShape | core/application/netdisk.py:148-153 | everything below a directory has that directory's path as a proper prefix and its own name last |
| NetdiskTree.BelowIff | core/application/netdisk.py:146-167 | what is below a directory is exactly what some trail of names leads to in the tree, with the path the trail spells, a slash at its end for directories, and the last name of the trail |
| Netdisk.InsertRowsAt | adapters/persistence/sqlite/netdisk.py:19-42 | an existing row is ignored by an insert; otherwise the first of the new rows for a path stays |
| Netdisk.IndexAppend | core/application/netdisk.py:168-172 | upserting and marking page by page is doing it for the whole listing |
| Netdisk.IndexRegisters | adapters/persistence/sqlite/netdisk.py:19-42 | insert-or-ignore then mark gives every entry a row, marks the files, and leaves every other column of an old row |
| Netdisk.ReplayChangesNothing | core/application/netdisk.py:126-129 | replaying the walk over the same tree changes nothing |
| Netdisk.WalkEnds | core/application/netdisk.py:135-188 | when the worklist is empty every descendant was visited once and every directory listed once |
| Netdisk.Metadata.HandleIndex | core/application/netdisk.py:123-192 | from the directory `NetdiskTree.DirPrefixKeepsThePath` names, for any page split the walk terminates, registers exactly the descendants, counts each once, and lists each directory exactly once |
| Netdisk.Metadata.IndexDirectory | core/application/netdisk.py:141-188 | the page loop stops at the last page and has indexed the whole directory |
| Netdisk.Metadata.UpsertRows | adapters/persistence/sqlite/netdisk.py:19-42 | insert-or-ignore row by row, returning the number of new rows |
| Netdisk.Metadata.MarkRows | adapters/persistence/sqlite/netdisk.py:77-86 | marks exactly the given paths that have a row |
| Netdisk.Metadata.SetTags | adapters/persistence/sqlite/netdisk.py:56-75 | writes the tag of one path only, inserting an unindexed placeholder if it has no row |
| PlatformBots.Resolver.PurgeStaleBots | core/platform.py:162-233 | after a purge the registry holds the connections that answered; an account is bound to the last that answered for it, or cut off as stale, or as it was; the stale ones are those of silent connections; preferred and last bot are still registered |
| PlatformBots.RoutedRightIff | core/platform.py:141-144 | after a purge an account is routed to a connection logged in as it exactly if some connection answered for it, and then to the last that did |
| PlatformBots.MisroutedIff | core/platform.py:141-144 | told before the purge: an account is misrouted exactly if it is bound to a connection that answers for another account and none answers for it |
| PlatformBots.SecondLoginMisroutes | core/platform.py:175-185 | the input: one connection bound to two accounts and logged in as the second |
| PlatformBots.SilenceSettles | core/platform.py:209-218 | a silent connection cannot take down an account another has just answered for |
| PlatformBots.Resolver.BotForAccount | core/platform.py:141-144 | a binding counts exactly while its connection is registered |
| PlatformBots.Resolver.AddBot | core/platform.py:107-111 | registration keeps connections distinct |
| GroupVisibility.StepKeepsSoundIff | core/runtime/lifecycle.py:236-281 | a step keeps "a hidden group the user did not remove has an account the sweep will restore" exactly when it neither unlists nor rebinds a group outside the sweep's books |
| GroupVisibility.EveryRunIsSound | core/runtime/lifecycle.py:68-86 | so it holds in every run of harmless steps, restarts and steps between an update and its note included |
| GroupVisibility.FixedBindingsAreHarmless | adapters/persistence/sqlite/groups.py:86 | with bindings fixed and no scan unlisting a group every run is harmless |
| GroupVisibility.UserRemovedStaysHidden | adapters/persistence/sqlite/groups.py:187-240 | a group the user removed stays removed and hidden through every run until the user restores it |
| GroupVisibility.AliveAccountIsRestored | core/runtime/lifecycle.py:247-251 | the first sweep that sees a hidden account alive shows its groups and touches no other |
| GroupVisibility.ThreeSilentSweepsHide | core/runtime/lifecycle.py:263-281 | an account no sweep hears from shows nothing after three sweeps, and all it showed before through two |
| GroupVisibility.UnlistedGroupStaysHidden | core/runtime/lifecycle.py:247-251 | a hidden group off the sweep's books stays hidden over every run in which its account is not hidden or found anew, nobody restarts, and neither user nor scan touches it, however often sweeps see the account alive |
| GroupVisibility.ScanTakesOffTheBooks | core/application/sync/group_scan/scan.py:471-481 | a scan that unlists a group of an account that is not hidden puts it there |
| GroupVisibility.ShownAfterRunIff | adapters/persistence/sqlite/groups.py:187-240 | after any run a group is in view exactly if some step showed it and none hid it later, or it was in view and none hid it |
| GroupVisibility.SplitRemovalHidesIff | webapi/groups.py:338-341 | whatever runs between its two calls, a removal hides a group exactly if no step between them shows it without a later one hiding it |
| GroupVisibility.SplitRemovalStaysVisible | webapi/groups.py:338-341 | the shortest spoiled removal: a restore of the account in between |
| GroupVisibility.UpsertGroupsRow | adapters/persistence/sqlite/groups.py:57-103 | the table holds the known groups and those listed with an id, no other; a known row keeps both flags, a new one is visible, and either ends with the last non-empty account it was listed under |
| GroupVisibility.PhasesGiveSweptTable | core/runtime/lifecycle.py:236-281 | the three phases give each group what its account's liveness, stale mark and misses say |
| GroupVisibility.PhasesGiveSweptHidden | core/runtime/lifecycle.py:236-281 | after a sweep the books hold the hidden accounts that did not answer and no other |
| GroupVisibility.SilentSweep | core/runtime/lifecycle.py:263-281 | an unheard account either counts a miss and keeps its groups or loses all of them |
| GroupVisibility.Runtime.constructor | core/runtime/lifecycle.py:68-86 | the startup heal shows every group that is not removed; the books are right exactly if no stored removed row is in view |
| GroupVisibility.Runtime.Sweep | core/runtime/lifecycle.py:232-281 | one sweep leaves the table, the miss counters and `_hidden_accounts` exactly as the accounts' liveness, stale marks and misses say |
| GroupVisibility.Runtime.MarkAccountGroupsManaged | adapters/persistence/sqlite/groups.py:187-202 | hides all rows of an account or shows those not removed, and counts the rows changed |
| GroupVisibility.Runtime.MarkGroupsRemoved | adapters/persistence/sqlite/groups.py:207-228 | sets the flag of exactly the given groups and counts the rows changed |
| GroupVisibility.Runtime.UpsertRows | adapters/persistence/sqlite/groups.py:57-112 | performs the upserts in order; the books stay right exactly if they are harmless |
| GroupVisibility.Runtime.RemoveGroups | webapi/groups.py:323-342 | a removal taken as one step keeps the books right |
| GroupVisibility.Runtime.RestoreGroups | webapi/groups.py:101-110 | a restore taken as one step keeps the books right |
| Units.DurationRoundTripIff | core/units.py:150-212 | parsing a printed duration gives it back exactly below 360000000 seconds, and is rejected from there on |
| Units.PrintedShape | core/units.py:195-212 | hours are printed from 3600 seconds on, minutes from 60 on, seconds unless the rest is zero below an hour, and two digits for what follows a larger unit |
| Units.ThreeComponents | core/units.py:150-180 | three components of at most five digits are read as hours, minutes and seconds |
| Units.LongComponent | core/units.py:150-153 | a six-digit component is no compound form |
| Units.FractionIsDroppedIff | core/units.py:150-192 | for all digit texts: one to three digits after the dot of a seconds text are dropped and longer fractions kept, so parsing gives the written number exactly if a short fraction is zero or a long one is in range |
| Units.FractionAfterMinutesIff | core/units.py:150-192 | after hours or minutes a longer fraction is rejected; the text means what it says exactly if its fraction is at most three zeros |
| Units.FractionOfSecondsIsDropped | core/units.py:150-180 | the input: one and a half seconds are read as one |
| Units.SingleUnits | core/units.py:68-92 | any number, with or without a fraction, and any one of the eight units or none, in any case and with blanks around and between, is read as their product, and rejected exactly above the length or the value limit |
| Units.BlankIsZero | core/units.py:171-173 | a text of white space is zero seconds |
| TaskCancel.EventLoop.CancelTasks | core/task_cancel.py:47-80 | returns by the deadline whatever the tasks do, with exactly the tasks alive, and abandons only at the deadline; after one cancel to each, at every slice the first task still alive is cancelled again, and no other |

## Left out

- MetaIndex: the columns path, ext, size, mime, uploader, busid, folder, tags and the time stamps are not modelled; `meta` keeps the two flags the code reads, so deep merges and null removal of `json_patch`, and the `text_split` kind, are not.
- MetaIndex: album and essence reconciliation (`upsert_album_essence`) is not modelled; it reuses the modelled upsert after deleting rows.
- MetaIndex: the SELECT of the chase may return any matching row where several live rows share a name; the model takes the last. Under the hypotheses there is one.
- MetaIndex: the volume listing queries only read and are left out.
- ConnectionPool: modelled as atomic steps on a state value instead of methods of a class, because its properties are about interleavings; rollback and errors of the function run are not distinguished from its end.
- CacheMaterialize: modelled as atomic steps for the same reason; assumes no sweep of the path, one recorded size for all openers, and downloads that deliver at least that size.
- CacheSweep: the once-per-interval throttle (`maybe_sweep`) and pruning of empty directories are left out.
- FileType.FilterAgreesWithClassification: `str.lower` is taken one character at a time, so the final form of sigma is not captured, and the volume suffix pattern is a parameter; suffixes follow POSIX paths of Python up to 3.13 for names without a slash, and the error newer versions raise for a bare transient name is not modelled.
- Like: SQLite's limits on pattern length and its treatment of NUL characters are not modelled.
- Units: parsed numbers are exact instead of floating point, the printer takes whole seconds (its rounding of fractions and its answer for non-numbers are not modelled); white space is limited to space, tab, newline and carriage return; sizes and rates are left out because their rounding has no clean statement.
- TaskCancel: time is counted in whole milliseconds and a bounded wait is assumed not to overrun.
- Netdisk.Metadata.HandleIndex: assumes a remote tree that does not change during the walk and names that are non-empty, contain no slash and are unique per kind in a directory; pause checks, progress events, sizes, types and failures of the remote are left out.
- NetdiskTree: browsing a single page and keyword search are left out.
- GroupVisibility: display columns, the `hidden` flag, ordering and labels are left out; the two database calls of a removal or a restore are one step, except where their interleaving is the point.
- PlatformBots: discovery and polling are left out, and connections registered while a purge is probing are not modelled.
- CommitCondition.BatchCommitsIff: stated for active listings in terms of the statements; `PartMoves.WhereThePartsGo` is the form for items of any status.
- FileTypeCasing.AgreesUnderOverridesIff: assumes that no override turns an extension of the dictionary into other, and what every character's lower case is like: never empty, no new dot or slash, and itself lower case.
- IndexHistory.PartsStayAttachedForEver: batches meet the hypotheses above, and renames onto a name another live row has are excluded, because they leave a stale key (`ResourceTable.RenameKeepsKeysIff`).
- Outbox: time stamps and the read-only queries are left out.
- Paging: the filter conditions other than the suffix filter are represented by the set of rows they select.
- ServeRange: header text beyond status and Content-Length, and write errors, are left out.
- The chat platform adapters, the OpenList client, SFTP and SMB servers, the web handlers, full-text search, the bridge ledger, the task queue, the splitter and reassembler and the configuration schema are not modelled.
