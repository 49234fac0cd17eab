# MarketGuard and Training Hub: verified model

MarketGuard serves a market index, price history and player queries. The Training Hub keeps a table of
training cases derived from uploads. Both keep derived state (indexes, aggregates, caches, counters,
quotas) that has to agree with something simpler, and both change it in concurrent protocols. This
project models that state and proves the agreement, for every input, every run and every interleaving.

`dafny verify dfyconfig.toml` checks everything. Each source component has its own module. What the
source changes in place is a class whose methods follow the source statement by statement and are
proved against specification functions; what the source promises is then proved about those functions.
Concurrent code is a state machine: asyncio code steps from one `await` to the next, and a database
transaction is one step, except in the MariaDB rate limiter, where every statement is a step. Those
steps, and a plain list of them as a run, quantify over all interleavings.

| files | what they model |
|---|---|
| `training_tables.dfy`, `training_theorems.dfy`, `training_hub.dfy` | uploads, their case index, the case table; ingest, purge, tombstoning; the tables, the theorems over runs, and the transactions themselves |
| `nbt_format.dfy`, `nbt_theorems.dfy`, `nbt_reader.dfy`, `nbt_answers.dfy` | the binary NBT format with a reference encoder, its round trips, the cursor-based reader, and what it answers |
| `snapshot_stream.dfy` | the worker pool that streams one consistent auction snapshot, and its retries |
| `lowestbin_index.dfy` | folding auction pages into the index of lowest prices |
| `lowestbin_storage.dfy` | the price history: daily aggregates, deduplication, pruning, 7-day and 30-day means |
| `snapshot_service.dfy` | readers without a lock, inline refreshes with it, and the background refresher |
| `single_flight.dfy` | coalesced player queries and their load counters |
| `local_cache.dfy`, `response_cache.dfy` | the in-process LRU cache with expiry, and the chain of it with Redis |
| `live_metrics.dfy`, `persistent_metrics.dfy` | request counters in memory against a full log, and their flushes to the database |
| `rolling_windows.dfy`, `key_rate_limiter.dfy` | the rolling quota on the Hypixel API key |
| `fixed_windows.dfy`, `rate_limiters.dfy`, `mariadb_rate_limiter.dfy` | the fixed-window limiters: in memory, on SQLite, on MariaDB |
| `login_lockout.dfy` | failed logins and the lockout |
| `options.dfy`, `sets.dfy` | helpers |

## What turned out to be conditional

These hold exactly under a condition, and the model keeps the code as it is:

- The case table equals a replay of the surviving uploads exactly as long as every ingest is *in order*: no
  later surviving upload already holds one of its cases (`RunAgreesExactlyInOrder`). Inserting an upload and
  ingesting its cases are two transactions, so two concurrent uploads can cross (`CrossedIngestsDisagree`).
- After a purge the first surviving upload of a payload can be marked as a duplicate of itself
  (`PurgeMakesSelfReference`); the reference is still the smallest surviving id of that payload.
- A snapshot attempt that returns normally is complete exactly if the worker pool is not empty or page 0 is
  the only page (`ReturnedIsComplete`); with `max_parallel_pages` 0 it would silently return page 0 alone. The
  bound on pages in memory, page 0 included, needs at least one parallel page as well (`MemoryIsBounded`).
- The in-memory and the SQLite limiter take the same decisions exactly if no call that allows zero requests
  opens a bucket: SQLite lets the first request of a bucket through unconditionally (`LimitersAgreeExactly`).
- A limiter that prunes decides as the complete log would, in every run, exactly if its windows may share a
  table (`PruningIsUnseenExactly`), that is if `w' - gcd(w, w') <= 12 w` for all of them
  (`PrunesSafelyExactly`); the windows 60, 300 and 600 may.
- On MariaDB a call can be overtaken by another that prunes while it is under way. The per-bucket bound holds in
  every interleaving exactly if such a call is older by at most `12 w + gcd(w, w') - w'` seconds, for any two of
  the windows (`BoundHoldsExactly`). For the windows in use that is 180 seconds (`ThreeMinutesExactly`); one
  second more, and some run admits one request too many, whatever the limit (`OneTooMany`).
- A `get` of the cache chain takes no lock, so it can copy an outdated Redis answer over a newer local entry.
  All answers are the latest ones exactly if no `get` was overtaken by a `set` of its key in that way
  (`ServesTheLatestExactly`), which can happen in every configuration (`OvertakenGetServesOutdated`); calls one
  after the other always give the latest (`SerialCallsServeTheLatest`).
- A cached response can be served for up to the sum of both times to live plus two Redis reply times: the
  time for its own write to arrive and the time for a read to come back. That bound is exact
  (`OldestAnswerExactly`), so the sum of the times to live alone holds exactly if replies take no time
  (`SumOfTtlsExactly`).
- The bound of five wrong passwords in fifteen minutes holds in every interleaving exactly if attempts on one
  account do not overlap: two that read the same counter count as one (`FiveHoldExactly`).

## Model

| member | source | states |
|---|---|---|
| TrainingTheorems.EveryRunEqualsReplay | app/training_hub/core/account_ops.py:403-653 | over any run of uploads, ingests, purges, content deletions, status changes and relinking whose ingests are in order, the stored case table is at every moment what the surviving uploads derive |
| TrainingTheorems.RunAgreesExactlyInOrder | app/training_hub/core/training_data.py:193-328 | a run agrees with the replay at every moment if and only if all of its ingests are in order |
| TrainingTheorems.NextAgreesExactlyInOrder | app/training_hub/core/training_data.py:193-328 | from an agreeing table, a transaction leads to an agreeing table if and only if it is not an out-of-order ingest |
| TrainingTheorems.IngestAgreesExactlyInOrder | app/training_hub/core/training_data.py:226-274 | an ingest keeps the agreement if and only if no later surviving upload already holds one of its cases |
| TrainingTheorems.CrossedIngestsDisagree | app/training_hub/core/training_data.py:193-274 | for any two contents, a run in which two uploads of a case are ingested the other way round: the tables agree up to the second ingest, and after it the case keeps the first upload's content and source although the second upload is its latest holder |
| TrainingTheorems.NewestUploadIsInOrder | app/training_hub/core/upload_workflow.py:150-203 | ingesting an upload before a later one is accepted is always in order |
| TrainingTheorems.PurgeKeepsAgreement | app/training_hub/core/account_ops.py:403-436 | removing uploads and rebuilding only the affected cases leaves every case, affected or not, equal to its derivation |
| TrainingTheorems.CaseTableIsReplay | app/training_hub/core/account_ops.py:597-653 | in an agreeing state the live part of the case table is exactly the replay from scratch of the surviving uploads in (created_at, id) order |
| TrainingTheorems.ReplayDerives | app/training_hub/core/account_ops.py:620-653 | replaying uploads in order gives a case the creator of its earliest holder and the content and source of its latest |
| TrainingTheorems.EveryRunKeepsReferences | app/training_hub/core/account_ops.py:483-517 | in every run, in order or not, no index row, case source or duplicate reference names a deleted upload, every duplicate reference is the smallest surviving id of its payload, and tombstones are blank and unindexed |
| TrainingTheorems.PurgeMakesSelfReference | app/training_hub/core/account_ops.py:491-517 | a purge turns a survivor into its own duplicate if and only if it is the smallest survivor of its payload |
| TrainingTheorems.TombstonesStay | app/training_hub/core/admin_ops.py:548-587 | a case whose content was deleted stays blank, rejected, sourceless and held by no upload for the rest of any run |
| TrainingTheorems.TombstoneIsUnaffected | app/training_hub/core/account_ops.py:439-480 | no purge counts a tombstoned case as affected |
| TrainingTheorems.NextKeepsTombstone | app/training_hub/core/training_data.py:208-226 | no transaction, ingest included, changes a tombstoned row |
| TrainingTheorems.StatusSetKeepsAgreement | app/training_hub/core/admin_ops.py:450-501 | approving or rejecting a case does not disturb the agreement |
| TrainingTheorems.ContentDeletedKeepsAgreement | app/training_hub/core/admin_ops.py:548-587 | blanking rejected cases together with their index rows keeps the agreement |
| TrainingHub.HubDatabase.AcceptTrainingUpload | app/training_hub/core/upload_workflow.py:150-203 | refused exactly if the same user, or without a user the same client identity, has the payload already; otherwise stored with the next id and the smallest upload of its payload as duplicate reference |
| TrainingHub.HubDatabase.IngestCasesFromUpload | app/training_hub/core/training_data.py:193-274 | all or nothing: fails exactly for a missing case id, a vanished upload or a new case that occurs twice, told apart. Otherwise every parsed case that is not a rejected one with deleted content is held by the upload with its last content, and its row has that content and this source; a new case is the uploader's and submitted, a known one keeps creator and status; nothing else changes; skipped counts exactly the payloads of rejected cases with deleted content |
| TrainingHub.HubDatabase.SplitTombstoned | app/training_hub/core/training_data.py:206-224 | keeps, in order, exactly the payloads whose case is not rejected with its content deleted |
| TrainingHub.HubDatabase.UpsertUploadCaseEntries | app/training_hub/core/training_data.py:277-328 | the upload holds exactly its kept cases, each with its last content; other rows are untouched |
| TrainingHub.HubDatabase.ApplyCases | app/training_hub/core/training_data.py:227-272 | new cases are created by the uploader, known ones change content and source only, and a repeated new case fails |
| TrainingHub.HubDatabase.PurgeUploads | app/training_hub/core/account_ops.py:403-436 | cases that no purged upload holds, whose source is not purged and that neither the user nor a linked client identity created keep their rows, status included; all others are gone if no surviving upload holds them and otherwise submitted again, and the two counts count exactly these; duplicate references to purged uploads move to the smallest survivor of the payload; the cleanup list has, once each, exactly the paths no survivor uses |
| TrainingTheorems.PurgeLeavesOthers | app/training_hub/core/account_ops.py:439-480 | a purge changes nothing about a case that no purged upload holds, whose source is not purged, and that neither the user nor a linked client identity created |
| TrainingTheorems.PurgeRemovesOrResubmits | app/training_hub/core/account_ops.py:520-594 | a case that a purge concerns is gone if no surviving upload holds it, and otherwise submitted again |
| TrainingTheorems.PurgeRederives | app/training_hub/core/account_ops.py:520-653 | a case that a purge concerns gets the creator of the first surviving upload that holds it, the content and source of the last, and the status submitted |
| TrainingHub.HubDatabase.RemoveUploads | app/training_hub/core/account_ops.py:423-426 | clears sources, repoints duplicates and removes uploads with their index rows |
| TrainingHub.HubDatabase.RepointDuplicateReferences | app/training_hub/core/account_ops.py:491-517 | the loop with its table of replacements repoints every reference to a deleted upload to the smallest survivor of the payload |
| TrainingHub.HubDatabase.RemainingCaseVersions | app/training_hub/core/account_ops.py:597-653 | the one pass over the ordered join finds exactly the derived version of every affected case that is still held |
| TrainingHub.HubDatabase.RebuildTrainingCases | app/training_hub/core/account_ops.py:520-594 | affected cases are rebuilt or deleted exactly as derived, all others untouched, both counts exact |
| TrainingHub.HubDatabase.CollectUnreferencedPaths | app/training_hub/core/account_ops.py:656-669 | collects, once each, exactly the in-directory paths of purged uploads that no survivor uses |
| TrainingHub.HubDatabase.DeleteRejectedContent | app/training_hub/core/admin_ops.py:548-587 | exactly the rejected cases whose content is not deleted yet become blank, sourceless and without a creator, nobody holds them any more, and they are counted; all else stays |
| TrainingHub.HubDatabase.UpdateCaseStatus | app/training_hub/core/admin_ops.py:450-501 | a submitted case gets the status, and nothing else changes |
| NbtTheorems.RoundTrip | app/marketguard_api/nbt.py:50-95 | reading the encoding of any well-formed tree within the node budget, followed by any bytes, gives exactly that tree, stops at the suffix, and counts its payloads |
| NbtTheorems.Accepted | app/marketguard_api/nbt.py:50-102 | conversely, whatever the reader accepts is the encoding of the well-formed tree it returns followed by what it left, with an exact node count |
| NbtTheorems.RootReadsExactlyDocuments | app/marketguard_api/nbt.py:40-48 | a byte string is read as a tree if and only if it is a document carrying that tree within the node budget |
| NbtFormat.SignedInverse | app/marketguard_api/nbt.py:108-116 | big-endian two's complement encoding and decoding are inverse on every in-range integer |
| NbtReading.NbtReader.ReadRootCompound | app/marketguard_api/nbt.py:40-48 | the cursor-moving reader gives the answer of the whole payload, errors included, of which the rows on `NbtAnswers` say what it is |
| NbtReading.NbtReader.ReadPayload | app/marketguard_api/nbt.py:50-95 | one payload: the answer of `NbtAnswers`, the cursor right after it, and the node counter; terminates although items of tag 0 consume no bytes |
| NbtReading.NbtReader.ReadItems | app/marketguard_api/nbt.py:74-78 | the items of a list, in order |
| NbtReading.NbtReader.ReadEntries | app/marketguard_api/nbt.py:79-86 | the entries of a compound up to its end marker |
| NbtReading.NbtReader.ReadLength | app/marketguard_api/nbt.py:97-102 | a signed length, rejected when negative or over the limit |
| NbtReading.NbtReader.ReadExact | app/marketguard_api/nbt.py:118-124 | the next bytes and the moved cursor, or a truncation error |
| NbtReading.CompoundIsDictionary | app/marketguard_api/nbt.py:79-86 | in the returned dictionary every name occurs once and has the value of its last entry |
| NbtReading.ResultIsBounded | app/marketguard_api/nbt.py:50-102 | every byte string is rejected or read as at most 100000 payloads, and the result holds at most payloads plus bytes consumed objects |
| NbtAnswers.NumberIsRead | app/marketguard_api/nbt.py:56-63 | a number in the range of 1, 2, 4 or 8 bytes is answered with exactly that number |
| NbtAnswers.FloatIsRead | app/marketguard_api/nbt.py:64-67 | a float is answered with its width and bit pattern |
| NbtAnswers.TextIsRead | app/marketguard_api/nbt.py:72-73 | text is answered with exactly its bytes |
| NbtAnswers.BytesAreRead | app/marketguard_api/nbt.py:68-71 | a byte array is answered with the list of its bytes, in order |
| NbtAnswers.NumbersAreRead | app/marketguard_api/nbt.py:87-94 | an integer array is answered with the list of its numbers, in order |
| NbtAnswers.ListIsRead | app/marketguard_api/nbt.py:74-78 | a list is answered with the answers to its items, in order |
| NbtAnswers.CompoundIsRead | app/marketguard_api/nbt.py:79-86 | a compound is answered with a dictionary of exactly the names of its entries, each once, with the answer to the last entry of that name |
| NbtAnswers.RootIsRead | app/marketguard_api/nbt.py:40-48 | a document is answered with what its root compound is, whatever the root is called |
| NbtAnswers.LimitsAreEnforced | app/marketguard_api/nbt.py:50-102 | a collection length that is negative or above 100000, a tag above 12, and a payload after 100000 others are refused |
| NbtAnswers.EndIsRead | app/marketguard_api/nbt.py:54-55 | the end tag, as a list may hold it, is answered with nothing, takes no input and counts as a payload |
| NbtAnswers.BigEndian | app/marketguard_api/nbt.py:114-116 | numbers and lengths are encoded in two's complement, the most significant byte first |
| NbtAnswers.CountOf64IsRead | app/marketguard_api/nbt.py:40-86 | the document with the byte entry "C" = 64 is answered with exactly that |
| SnapshotStream.ReturnedIsComplete | app/marketguard_api/client.py:161-216 | in every interleaving, an attempt that returns normally requested and consumed every page exactly once, all of page 0's snapshot and all counted, if and only if the pool has a worker or page 0 is alone |
| SnapshotStream.InterleavingInv | app/marketguard_api/client.py:178-210 | what every interleaving keeps: each page number with one worker or consumed, totals exact, one consumer at a time |
| SnapshotStream.MemoryIsBounded | app/marketguard_api/client.py:162-201 | at no moment of any attempt, page 0 included, are more pages held than the configured parallelism, if and only if that is at least one |
| SnapshotStream.FirstErrorDecides | app/marketguard_api/client.py:183-210 | in every interleaving the first error decides how the attempt ends: a page whose last_updated differs from page 0's with drift, a failed fetch with its own error, a failed hand-over with an upstream error, and without any of these there is no failure |
| SnapshotStream.ConsumedWasReceived | app/marketguard_api/client.py:162-196 | every page consumed in any interleaving is page 0 or came, with just these auctions, in some response |
| SnapshotStream.AuctionClient.StreamSnapshot | app/marketguard_api/client.py:126-149 | at most snapshot_retries attempts; another one is made exactly if the first error of the last was drift, a page of another snapshot or a fetch that reported it; a summary is returned exactly if the last had no error, every attempt adds to the consumer and only the reset before it leaves it with the last attempt's pages, which the summary describes exactly |
| LowestBinIndex.FoldIsExact | app/marketguard_api/service.py:71-105 | each key has the minimum unit price over all listed auctions, the three maps share one domain, seller and name come from the first auction that attains the minimum, and the count is exact |
| LowestBinIndex.PagesFoldAsOne | app/marketguard_api/service.py:36-68 | folding page by page equals folding the concatenation |
| LowestBinIndex.ArrivalOrderDoesNotMatter | app/marketguard_api/service.py:108-136 | for every split and arrival order, streamed prices and count equal those of indexing the complete list at once |
| LowestBinIndex.LowestBinIndexBuilder.AddPage | app/marketguard_api/service.py:71-105 | the loop over a page updates the four fields exactly as the fold |
| LowestBinIndex.LowestBinIndexBuilder.Reset | app/marketguard_api/service.py:51-55 | forgets everything |
| LowestBinStorage.Storage.WriteLowestBinSnapshot | app/marketguard_api/storage.py:53-178 | keeps the history invariant; a repeated timestamp changes no history; a new one is counted once and prunes by its own day |
| LowestBinStorage.Storage.GetAverages | app/marketguard_api/storage.py:232-283 | the means over the counted snapshots of the 7 and 30 days, and over all distinct snapshots ever written when the anchor is the latest day written |
| LowestBinStorage.MeanIsMean | app/marketguard_api/storage.py:252-283 | there is a mean exactly if a snapshot of these days records the item with a price that is not negative, and times the number of such snapshots it is the sum of their prices |
| LowestBinStorage.MeanIsWithin | app/marketguard_api/storage.py:252-283 | a mean lies between the lowest and the highest of the prices recorded on its days |
| LowestBinStorage.DistinctAreFirsts | app/marketguard_api/storage.py:134-150 | of all snapshots written, the distinct ones are the first of each timestamp, once each |
| LowestBinStorage.Storage.AddRows | app/marketguard_api/storage.py:492-509 | one row per recorded item, added to its day's aggregate |
| LowestBinStorage.Storage.NormalizedKeys | app/marketguard_api/storage.py:238-240 | the non-blank keys, once each |
| LowestBinStorage.Storage.BatchAverages | app/marketguard_api/storage.py:252-283 | one batch of keys gets its exact means |
| LowestBinStorage.WindowIsComplete | app/marketguard_api/storage.py:81-82 | pruning with a retention of at least 31 days never reaches a window of at most 30 days that ends with the latest day written |
| LowestBinStorage.RowsStayExact | app/marketguard_api/storage.py:134-175 | after a new snapshot and the pruning, every (item, day) row equals the sum and number of the counted snapshots of that day |
| LowestBinStorage.ProcessedStayExact | app/marketguard_api/storage.py:134-171 | the processed timestamps are those of the counted snapshots |
| LowestBinStorage.NewSnapshotKeepsHistory | app/marketguard_api/storage.py:134-175 | the counted snapshots stay the distinct snapshots ever written from the horizon on |
| SnapshotService.EveryInterleaving | app/marketguard_api/service.py:208-305 | in every interleaving of readers, inline refreshes, cancellations and the refresher: one upstream fetch at most, stored time never backwards, fresh answers young or fetched during the call, stale ones within the stale limit, nobody goes upstream with something servable, inline refreshes on without a refresher |
| SnapshotService.FreshReadIsServed | app/marketguard_api/service.py:226-231 | in every run, a call that has read a fresh snapshot ends only with exactly that snapshot, not stale, or by its cancellation |
| SnapshotService.ServedWasStored | app/marketguard_api/service.py:219-266 | in every run, every served snapshot was stored before, and every fetched one was stored, its time cut by less than a millisecond |
| SnapshotService.RaisedHasCause | app/marketguard_api/service.py:252-266 | in every run, a call ends without a snapshot only by its cancellation, a failed write, another upstream error, or a failed fetch, which by `EveryInterleaving` left nothing servable |
| SnapshotService.StepKeepsValid | app/marketguard_api/refresher.py:79-131 | every single step keeps the invariant and never moves the stored time backwards |
| SnapshotService.StoringIsExclusive | app/marketguard_api/service.py:214-217 | when a snapshot is stored nobody else is about to store one |
| SnapshotService.LowestBinService.LoadSnapshot | app/marketguard_api/service.py:219-266 | a call amid any others, whatever they do at its awaits: all that happens is a run of the protocol. A fresh snapshot is served as it was read at a moment of that run; with inline refreshes off a servable one is served as stale; otherwise a fresh one found under the lock is served, or the fetched one after its write, or after a failed fetch the servable fallback; it raises exactly when there is nothing servable then, another upstream error, or a failed write; or it still waits for the lock |
| SnapshotService.LowestBinService.Others | app/marketguard_api/service.py:219-266 | any list of steps of the other parties is a run of the protocol that leaves this call's own state alone |
| SnapshotService.LowestBinService.DecideWithoutLock | app/marketguard_api/service.py:226-240 | a fresh snapshot is served as read, not stale; with inline refreshes off a servable one as stale; otherwise the call asks for the lock |
| SnapshotService.LowestBinService.RecheckStore | app/marketguard_api/service.py:241-252 | a snapshot found fresh under the lock is served and the lock is free again; otherwise the fetch begins, with what was found now, or else before, as its fallback |
| SnapshotService.LowestBinService.UpstreamFailed | app/marketguard_api/service.py:252-263 | after a failed fetch the fallback is served as stale if it is servable, and only otherwise the call raises; the lock is free |
| SnapshotService.LowestBinService.WriteFinished | app/marketguard_api/service.py:265-305 | a loaded snapshot is returned and stored, its time cut by less than a millisecond, or the write failed and nothing is stored; the lock is free |
| SnapshotService.LowestBinService.RefresherWriteFinished | app/marketguard_api/refresher.py:113-131 | a background refresh that stores its snapshot switches inline refreshes off; one whose write failed changes neither |
| SnapshotService.LowestBinService.StopRefreshing | app/marketguard_api/refresher.py:79-93 | stopping the refresher switches inline refreshes on and frees its lock |
| SingleFlight.EveryInterleaving | app/marketguard_api/routes.py:105-133 | in every interleaving of requests, completions, late cleanups and cancelled waiters: one load per key, every answered waiter got the payload its key's load was completed with, misses equal loads, active loads equal flights, the peak is the most flights at any moment, misses plus coalesced waiters equal calls |
| SingleFlight.CleanupFindsItsFlight | app/marketguard_api/routes.py:117-127 | a cleanup, however late, removes exactly its own flight, and the clamp of the active count never fires |
| SingleFlight.RunKeepsValid | app/marketguard_api/routes.py:105-133 | every run keeps the invariant and counts its calls |
| SingleFlight.PlayersRoute.LoadPlayersQueryPayload | app/marketguard_api/routes.py:105-133 | a request joins the flight of its key if there is one and otherwise starts a load, as the protocol's step |
| SingleFlight.PlayersRoute.ClearCompletedFlight | app/marketguard_api/routes.py:121-127 | the critical section of a cleanup is the protocol's step |
| SingleFlight.PlayerQueryMetrics.StartUpstreamLoad | app/marketguard_api/player_metrics.py:33-39 | counts a started load; the peak is the larger of its old value and the active loads |
| SingleFlight.PlayerQueryMetrics.FinishUpstreamLoad | app/marketguard_api/player_metrics.py:41-43 | counts a finished load, clamped at zero |
| LocalCache.LeastRecentlyUsedExactly | app/marketguard_api/cache.py:32-54 | in any cache, while nothing expires, the entry of a key just set or hit is still there if and only if fewer than max_entries distinct other keys were set or hit since |
| LocalCache.RecentEntrySurvives | app/marketguard_api/cache.py:32-54 | an unexpired entry survives until at least max_entries distinct other keys were set or hit, whatever expires meanwhile |
| LocalCache.SetKeepsValid | app/marketguard_api/cache.py:46-54 | after a set no key occurs twice and the limit holds |
| LocalCache.SetAddsOne | app/marketguard_api/cache.py:46-62 | after a set there is nothing new but the entry set, nothing expired, and no older entry of its key |
| LocalCache.GetAddsNothing | app/marketguard_api/cache.py:32-44 | after a get there is nothing that was not there, and nothing expired |
| LocalCache.HitIsExact | app/marketguard_api/cache.py:32-44 | a hit is the unexpired value of the key, and there is one whenever the key has one |
| LocalCache.LocalResponseCache.Lookup | app/marketguard_api/cache.py:32-44 | answers exactly with the unexpired entry of the key, drops exactly what has expired, and moves the entry to the end |
| LocalCache.LocalResponseCache.Store | app/marketguard_api/cache.py:46-54 | the new entry is last; all others are unexpired older ones of other keys, and none of those is missing unless the cache is full; the limit holds |
| LocalCache.LocalResponseCache.PruneExpired | app/marketguard_api/cache.py:59-62 | keeps exactly the unexpired entries, in order |
| ResponseCache.NothingOldIsServed | app/marketguard_api/cache.py:121-140 | in every interleaving, whatever Redis loses or fails, a response is served only under its own key and less than both times to live plus two reply times after its set began, and the local level stays bounded |
| ResponseCache.OldestAnswerExactly | app/marketguard_api/cache.py:121-140 | no run serves a response at or beyond an age if and only if the age is at least both times to live plus two reply times |
| ResponseCache.EveryAgeIsServed | app/marketguard_api/cache.py:121-140 | every age below that is served by some run, even without a lost write |
| ResponseCache.SumOfTtlsExactly | app/marketguard_api/cache.py:121-140 | the sum of both times to live bounds the age of every answer if and only if replies take no time |
| ResponseCache.ServesTheLatestExactly | app/marketguard_api/cache.py:121-140 | while Redis loses no write, every answer is the latest response set if and only if no get warmed the local level after a set of its key had overtaken it |
| ResponseCache.OvertakenGetServesOutdated | app/marketguard_api/cache.py:121-140 | in every configuration, without a lost write, a run in which an overtaken get answers with an outdated response and leaves it in the local level |
| ResponseCache.SerialCallsServeTheLatest | app/marketguard_api/cache.py:121-140 | calls one after the other always serve the latest response set |
| ResponseCache.StepCurrent | app/marketguard_api/cache.py:121-140 | what every step without a lost write keeps: Redis lags only during a store, and outdated warmings are exactly the overtaken ones |
| ResponseCache.ResponseCacheChain.Lookup | app/marketguard_api/cache.py:121-133 | a get amid any other calls: all that happens is a run of the protocol, in which it answers with the unexpired local entry if there is one, and otherwise with the unexpired row that Redis has at a moment of that run, unless Redis does not reply or is late |
| ResponseCache.ResponseCacheChain.Store | app/marketguard_api/cache.py:135-140 | a set amid any other calls: all that happens is a run of the protocol, in which the set ends |
| ResponseCache.ResponseCacheChain.WarmLocal | app/marketguard_api/cache.py:130-132 | warming answers with the response read and leaves it last in the local level with a fresh time to live, as the protocol's step |
| ResponseCache.ResponseCacheChain.Others | app/marketguard_api/cache.py:121-140 | any list of steps of other calls and of Redis is a run of the protocol that at most marks this call as overtaken |
| ResponseCache.Redis.Lookup | app/marketguard_api/cache.py:78-94 | an unexpired row, or nothing on a failed read |
| ResponseCache.Redis.Store | app/marketguard_api/cache.py:96-104 | stores with a fresh time to live, or loses the write silently |
| LiveMetrics.LiveApiRequestMetrics.Snapshot | app/training_hub/http/live_api_metrics.py:66-164 | every figure of a snapshot (10 s, 60 s, today, total, active; per bucket, summed, and per endpoint and agent) is the number of such starts in the full log |
| LiveMetrics.LiveApiRequestMetrics.BucketsSnapshot | app/training_hub/http/live_api_metrics.py:66-82 | the part under the lock: exact bucket figures and exact sums |
| LiveMetrics.LiveApiRequestMetrics.EntriesSnapshot | app/training_hub/http/live_api_metrics.py:131-164 | the part after the lock, whatever has started since: exact figures as far back as times are retained |
| LiveMetrics.LiveApiRequestMetrics.StartRequest | app/training_hub/http/live_api_metrics.py:37-56 | logs exactly the starts of counted paths and keeps every counter exact |
| LiveMetrics.LiveApiRequestMetrics.FinishRequest | app/training_hub/http/live_api_metrics.py:58-64 | active stays starts minus finishes, where a finish with nothing active counts as none |
| LiveMetrics.EveryPathHasItsBucket | app/training_hub/http/live_api_metrics.py:167-177 | exactly which paths are client calls, internal calls, and not counted; all others are public |
| LiveMetrics.LiveApiRequestMetrics.Prune | app/training_hub/http/live_api_metrics.py:103-118 | drops old times only; no entry is ever dropped as stale |
| LiveMetrics.LiveApiRequestMetrics.RolloverDay | app/training_hub/http/live_api_metrics.py:120-126 | a new day starts today's figures afresh |
| LiveMetrics.RowsSumToBucket | app/training_hub/http/live_api_metrics.py:131-164 | over any period the endpoint and agent figures add up to the bucket's |
| LiveMetrics.DropIsLaterCutoff | app/training_hub/http/live_api_metrics.py:103-118 | popping old times off the front equals counting the log from the later cutoff |
| LiveMetrics.TimesCount | app/training_hub/http/live_api_metrics.py:85-101 | counting retained times gives the log's figure for every threshold not before the cutoff |
| PersistentMetrics.EveryRunConserves | app/training_hub/http/persistent_api_metrics.py:26-88 | over any run of requests and concurrent flushes that commit or roll back, recorded = persisted + pending + held by flushes, per bucket, per entry, and per day until the day is deleted |
| PersistentMetrics.PersistedTotalsAgree | app/training_hub/http/persistent_api_metrics.py:54-79 | persisted bucket totals always equal the sum of their persisted endpoint totals |
| PersistentMetrics.NextConserves | app/training_hub/infra/db.py:146-153 | each single step, commit and rollback included, conserves every figure |
| PersistentMetrics.LogIsCounted | app/training_hub/http/persistent_api_metrics.py:26-37 | what a figure should be is the number of recorded requests that count towards it |
| PersistentMetrics.PersistentApiMetricsRecorder.RecordRequest | app/training_hub/http/persistent_api_metrics.py:26-37 | a request of one of the three buckets with an endpoint and an agent adds one to its bucket's and its entry's pending count of the day, and nothing else; any other changes nothing |
| PersistentMetrics.PersistentApiMetricsRecorder.Flush | app/training_hub/http/persistent_api_metrics.py:39-88 | a flush amid any requests and other flushes: all that happens is a run of the protocol in which it commits or restores what it took out; alone it commits exactly what was pending or changes nothing |
| PersistentMetrics.PersistentApiMetricsRecorder.Restore | app/training_hub/http/persistent_api_metrics.py:83-87 | adds the held counts back to what has been recorded meanwhile, as the protocol's step |
| PersistentMetrics.MetricTables.Persist | app/training_hub/http/persistent_api_metrics.py:52-79 | every total grows by what was held, every daily figure from the current day on too, and past days are deleted |
| KeyRateLimiter.EveryWindowIsBounded | app/marketguard_api/client.py:42-58 | over any run every half-open window holds at most max_requests admitted requests |
| KeyRateLimiter.HypixelKeyRateLimiter.Acquire | app/marketguard_api/client.py:42-58 | admits if and only if fewer than max_requests of the admitted requests lie in the window ending now; a refusal names the shortest whole number of seconds, at least one, after which a lone retry is admitted |
| KeyRateLimiter.RetryFindsRoom | app/marketguard_api/client.py:49-54 | the rounded-up wait is long enough and a second less is not |
| KeyRateLimiter.TailIsWindow | app/marketguard_api/client.py:45-47 | after popping, the deque is exactly the window ending now |
| FixedWindows.PrunesSafelyExactly | app/training_hub/http/rate_limit.py:18-22 | a call with window w never prunes a bucket that a call with window w', now or later, counts in, if and only if w' - gcd(w, w') <= 12 w |
| FixedWindows.PrunesWithinExactly | app/training_hub/http/rate_limit.py:18-22 | a call with window w' that is at most some seconds older than a pruning call with window w keeps its bucket, if and only if those seconds are at most 12 w + gcd(w, w') - w' |
| FixedWindows.CloseWindowsShare | app/training_hub/http/rate_limit.py:18-22 | windows of at most twelve times another plus one share safely |
| FixedWindows.RuleWindowsShare | app/training_hub/http/rate_limit.py:153-197 | the windows of the rules, 60, 300 and 600 seconds, share one table |
| FixedWindows.RetryStartsNextBucket | app/training_hub/http/rate_limit.py:19-21 | the retry time is exactly when the next bucket starts |
| RateLimiters.InMemoryRateLimiter.Allow | app/marketguard_api/rate_limit.py:12-29 | decides by its bucket's row, drops exactly the buckets older than twelve windows, and, as long as the windows of all calls may share a table, admits exactly if the complete log has fewer requests in the bucket than allowed |
| RateLimiters.SqliteRateLimiter.Allow | app/training_hub/http/rate_limit.py:28-74 | the same for the table on SQLite, where the first request in a bucket is always admitted |
| RateLimiters.PruningIsUnseenExactly | app/training_hub/http/rate_limit.py:37-47 | the pruned table decides as the complete log would in every run, for either limiter, if and only if the windows may share a table |
| RateLimiters.LimitersAgreeExactly | app/training_hub/http/rate_limit.py:49-63 | the two limiters take the same decisions over a whole run if and only if no call that allows no requests opens a bucket |
| RateLimiters.PositiveLimitsAgree | app/marketguard_api/rate_limit.py:23-29 | with limits of at least one they decide the same and admit the same requests |
| RateLimiters.BucketsAreBounded | app/marketguard_api/rate_limit.py:12-29 | at most the largest limit of a key is admitted per key and bucket |
| RateLimiters.TableCountsLog | app/training_hub/http/rate_limit.py:37-73 | over any run with windows that may share a table, the table counts the complete log from the pruning horizon on |
| MariaDbRateLimiter.EveryInterleaving | app/training_hub/http/rate_limit.py:76-132 | in every interleaving of the statements of prompt calls, rollbacks included, at most the limit is admitted per key and bucket, and a call told its bucket is full was told the truth |
| MariaDbRateLimiter.StepKeepsValid | app/training_hub/http/rate_limit.py:86-130 | each single statement keeps the counters equal to the log from the horizon on |
| MariaDbRateLimiter.LostThreeAttempts | app/training_hub/http/rate_limit.py:76-132 | a call that gives up has begun exactly three attempts, in every interleaving |
| MariaDbRateLimiter.BoundHoldsExactly | app/training_hub/http/rate_limit.py:76-132 | the bound holds in every run within a lag if and only if the lag is at most 12 w + gcd(w, w') - w' for any two of the windows |
| MariaDbRateLimiter.ThreeMinutesExactly | app/training_hub/http/rate_limit.py:153-197 | with the windows of the rules it holds if and only if the lag is at most 180 seconds |
| MariaDbRateLimiter.OneTooMany | app/training_hub/http/rate_limit.py:85-130 | for any windows, lag beyond the slack and limit, a run that admits one request more than the limit into a bucket |
| LoginLockout.SixWrongChecksSpanTheLockout | app/training_hub/core/session_auth_login.py:40-87 | for any attempt sequence the stored counter stays below five, and any six wrong-password checks without a success between them span at least fifteen minutes |
| LoginLockout.EveryFifthLocks | app/training_hub/core/session_auth_login.py:40-86 | a user who starts without failures is locked for fifteen minutes by every fifth wrong check since the last success, and in between the counter is the number of wrong checks since the last lock |
| LoginLockout.WindowHoldsFive | app/training_hub/core/session_auth_login.py:51-76 | no half-open window of fifteen minutes holds more than five of them |
| LoginLockout.FiveHoldExactly | app/training_hub/core/session_auth_login.py:25-86 | when the read and the update of simultaneous attempts interleave, the bound of five holds in every run if and only if at most one attempt is under way at a time |
| LoginLockout.UserTable.ConsumeLoginAttempt | app/training_hub/core/session_auth_login.py:17-87 | a success clears the row, the fifth wrong password in a row locks it for fifteen minutes, a locked row does not change, and no other row does; the status is right, and a locked answer names a time at which the account is open again, and two seconds earlier is not |

## Left out

- HTTP, SQL text, JSON, hashing, base64 and zlib: payloads, hashes and decoded items are opaque values, and the lookup of a user by name or address and the outcome of a password check are parameters.
- Clocks are parameters, read in nondecreasing order; the live metrics, the key limiter and the bucket limiters rely on that where the source reads its clock outside its lock.
- NBT text stays raw bytes (the source decodes it as UTF-8 with replacement, which may merge names), floats stay bit patterns, and Python's recursion limit is not part of the model.
- Float rounding: prices and sums are real numbers, and non-finite prices are excluded.
- The current-snapshot tables of the price history and the trimming of item keys, which could merge two keys of one snapshot.
- Item decoding and seller parsing in the index: an auction comes with its decoded keys, price, seller and name, or without.
- Cancellation of a page worker, a reader or the refresher while a thread is still folding or writing; those steps are not interrupted.
- SnapshotService.EveryInterleaving: several server processes that share one database are not modelled, because the lock and the inline switch are per process.
- The player-finance flight (app/marketguard_api/routes.py:135-158): the same protocol as the player query without its metrics.
- A cache chain of one level only, Redis value decoding, and the asyncio scheduling of waiters for the chain's lock.
- LiveMetrics.LiveApiRequestMetrics.Snapshot: the sort of the entries, the limit of 80 rows and the agent classification; the reading of one entry is not interrupted by a start.
- LoginLockout.UserTable.ConsumeLoginAttempt: the class takes an attempt in one step; the steps of simultaneous attempts are the state machine of `LoginLockout.FiveHoldExactly`.
- A failure after a successful database commit, which a flush cannot tell from a rollback, and the read side of the persistent metrics with its query limits.
- Foreign keys are modelled as MariaDB enforces them: an ingest whose upload was purged fails. SQLite without enforcement would keep orphaned index rows.
- Case timestamps, label edits, manual deletion of a case, the retention cleanup, and the backfill of the case index, which would index again an upload whose rows were all removed.
- Batching of id lists in purge statements, audit logs, bundles and the deletion of the files themselves.
- Upload quotas: they check the raw payload size but record the size of the serialised one, so no clean invariant follows.
- MariaDB's row locks and isolation levels: each statement acts at once on one shared table, which allows more interleavings than the database does, except that reads never see an older state than the current one.
- Settings parsing, readiness screens, profile shaping, templates, mail and deployment: no invariant beyond one body.
