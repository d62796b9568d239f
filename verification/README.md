# Verified model of nebula-mnemosina

nebula-mnemosina polls Nebula lighthouses over SSH, stores what they report in PostgreSQL (optionally
TimescaleDB), prunes old history, and serves the present peers to Prometheus. This project models the
parts where several steps, several processes or several functions have to agree, and proves what they
agree on. `dafny verify dfyconfig.toml` checks everything.

## What is modelled

- **The history tables** (`History`, `Batches`): poll runs and their four kinds of child rows, with each
  SQL statement as a function on them. `After` says what retention is for: a run survives iff it is live,
  a raw payload iff it and its run are, any other child iff its run is.
- **Retention** (`Retention`, `RetentionExact`, `RetentionReaders`, `RetentionProgress`, `RetentionRace`,
  `RetentionLatest`): a transition system in which any number of prunes and saves interleave one statement
  at a time, batches breaking ties as they like and prunes stopping anywhere. Choosing a batch and deleting
  it are two steps, for runs (two statements) and for raw payloads (a subquery and its delete, which skips
  what others have deleted since).
  `Pruning.Pruner` is the code itself, with its loops, on top of `Storage.Store`.
- **Saving a poll** (`PollLighthouse`, `SavedPoll`, `Storage`): six commands whose failures are collected,
  then one transaction that may fail at any statement. `Recorded` reads the poll back from its rows, and
  `Represented` follows it to the peers that are returned.
- **Present peers and views** (`Ranking`, `Presence`, `Views`): `row_number() = 1` with ties left open,
  the query that lists present peers, and the five materialized views with their refresh order.
- **The poll round** (`PollRound`): goroutines, buffered channel, wait group, jitter and cancellation.
- **Known hosts** (`KnownHosts`): the learn-on-first-use callback, its snapshot and its file.
- **Lighthouse addresses and service discovery** (`HostPort`, `Lighthouses`, `Accepted`, `RoundTrip`,
  `TargetGroups`, `Discovery`): `net.SplitHostPort` and `net.JoinHostPort` (the bracketed form is that of section 3.2.2
  of RFC 3986), the lighthouse parser, its printer, and the target groups built from both ends.

## What the model shows to be false, and exactly when it holds

- `user@[host]` without a port, and hosts with stray brackets, are accepted, but the stored address does
  not give back the host that was parsed (`HostRecoveredIffPlain`); for most of them splitting it fails,
  and then service discovery returns an error for every peer (`StoredAddressSplitsIff`, `TargetsBuildIff`).
  `BracketedHostIsStoredBare` and `StrayBracketIsStoredUnsplittable` give inputs.
- A parsed lighthouse prints and parses back to itself only if its name holds no `=` and is trimmed (or
  stood in blank for the host) and its address was plain (`PrintParsesBackIff`); `EqualsInHostBreaks` gives an
  input.
- The repository's own README (lines 54-56) promises that a changed host key fails. That holds while
  appending and reloading the file succeed. After a failed reload the callback still has the old snapshot,
  in which the host is unknown, and accepts a different key (`SecondKeyIffForgotten`, `ChangedKeyAccepted`).
- Between two delete batches an older poll can become a lighthouse's latest one. For a batch of n that is
  so exactly when the expired latest poll shares its start time with another successful poll of its
  lighthouse and the batch ends among the runs of that time: fewer than n runs are strictly older, more than
  n are no newer (`BatchResurrectsIffTied`, at 1000 `CodeBatchResurrectsIffTied`, input
  `CodeBatchResurrects`). With distinct start times it never happens, at any step of any number of prunes
  (`LatestIsNeverReplaced`).
- A short batch means "nothing expired is left" for a prune that runs alone. With others at work its loop
  ends with something expired left exactly when something it had chosen was already gone, which left it with a
  short count, and something expired was not chosen (`LoopEndsEarlyIffOvertaken`). Two prunes with 2001 runs
  can both stop so (`CodePrunesCanLeaveExpiredRuns`), and of two that match the same 1000 of 1001 raw payloads
  one does (`CodePrunesCanLeaveExpiredRaws`). A prune that is never overtaken in this way is exact
  (`PruneIsExactUnlessOvertaken`), and nothing unexpired is ever lost either way.
- Dropping a table's chunks at the run cutoff is exact for every cutoff exactly when no child's chunk ends
  before its run starts (`DropIsExactIffChunksReachRuns`). Saving guarantees that for every table but the raw
  payloads (`PollOfIsStamped`), and with a raw period those are dropped at their own cutoff, so by default
  no clock is trusted. Only with TimescaleDB and no raw period must clocks run forward inside a poll
  (`PollOfIsOrderedIffClockForward`, input `DropChunksNeedsClock`).

## Assumptions

Ids from `bigserial` columns are fresh. Times are whole microseconds. One-day chunks start on whole days.
Clock behaviour is a hypothesis (`Ordered`, `ClockForward`, the `forward` of a system) where it matters. The
number of concurrent prunes is one where a lemma says `Idle`, arbitrary elsewhere. Statements
take effect at one instant, except that a raw delete matches its rows at one and deletes them at another. An
error from the database may hide a statement or a commit that took effect.

## Model

Source paths, `README.md` among them, are those of the modelled repository.

| member | source | states |
|---|---|---|
| `History.AddPollKeeps` | internal/storage/storage.go:31-103 | adding one committed poll keeps foreign keys and copied lighthouse names, the times of child rows, unique entry indexes, and every existing row |
| `History.AfterIsPart` | db/migrations/core/001_schema.sql:1-95 | what retention leaves is part of the tables and still linked, ordered, stamped and indexed |
| `History.AfterAbsorbs` | internal/retention/retention.go:71-107 | a prune with later cutoffs erases every trace of an earlier one |
| `History.AfterOfLive` | internal/retention/retention.go:71-107 | tables with nothing expired are left alone |
| `History.AfterHasNoneExpired` | internal/retention/retention.go:71-107 | after retention nothing expired is left |
| `Retention.KeptIff` | README.md:129-133 | a run is kept iff its period is 0 or it started at or after now minus the period; a raw payload iff its run is and its own period is 0 or it is no older; any other row iff its run is |
| `Retention.DropsIff` | internal/retention/retention.go:76-103 | which chunk drops a prune makes: raw payloads at their own cutoff, or at that of the runs when they have none; the other three tables at that of the runs; none without TimescaleDB |
| `History.DeleteRunsKeepsAfter` | db/queries/retention.sql:8-10 | deleting any expired runs with their children, even ids that are already gone, does not change what retention leaves |
| `History.DeleteRawsKeepsAfter` | db/queries/retention.sql:12-21 | deleting raw payloads older than the cutoff by id does not change what retention leaves |
| `History.DropChunksKeepsAfter` | internal/storage/storage.go:121-132 | dropping whole one-day chunks before the cutoff does not change what retention leaves; only raw chunks dropped at the run cutoff need clocks that run forward |
| `History.DropChunksRemainder` | db/migrations/timescale/001_hypertables.sql:9-12 | expired rows that survive a drop all lie in the chunk of the cutoff, less than a day before it |
| `History.ChunkHolds` | db/migrations/timescale/001_hypertables.sql:9-12 | a chunk is one day, starts on a whole day and holds the times of its rows |
| `History.DropIsExactIffChunksReachRuns` | internal/retention/retention.go:90-101 | dropping a table's chunks at the run cutoff is exact for every cutoff iff no child's chunk ends before its run starts |
| `SavedPoll.DropChunksNeedsClock` | internal/retention/retention.go:90-101 | a saved poll of six commands whose clock ran backwards, and a run cutoff at which dropping raw chunks deletes a payload of a run that stays |
| `SavedPoll.PollOfIsStamped` | internal/storage/storage.go:56-83 | every saved row but a raw payload carries the start time of its poll |
| `History.DeletesKeepShape` | db/migrations/core/001_schema.sql:19-95 | every deleting statement keeps links, order and indexes |
| `History.AddPollKeepsAfterEqual` | internal/storage/storage.go:31-103 | saving commutes with pruning: tables that agree after retention still agree after the same save |
| `Batches.ShortBatchIsAll` | internal/retention/retention.go:122-137 | a batch shorter than its limit is the whole expired set |
| `Batches.OldestExists` | db/queries/retention.sql:1-6 | an oldest-first batch always exists, for every tie |
| `Batches.BatchesAreOldest` | db/queries/retention.sql:1-21 | a batch holds every run that started, and every raw payload observed, before one of its own |
| `Batches.RawBatchExact` | db/queries/retention.sql:12-21 | even with repeated ids, a raw delete removes at least its batch and only expired rows, and a short count leaves none expired |
| `Batches.RawBatchWithUniqueIds` | db/queries/retention.sql:12-21 | with unique ids the raw delete removes exactly its batch |
| `Batches.MatchedHoldsBatch` | db/queries/retention.sql:12-21 | what a raw delete matches is expired and holds its batch; fewer matches than the limit are everything expired |
| `History.DeleteRawsIsMatched` | db/queries/retention.sql:12-21 | deleting by id at once is deleting the matched rows |
| `Batches.RunBatchExact` | db/queries/retention.sql:1-10 | a run delete removes exactly its batch from the expired runs, and a short one leaves none |
| `Retention.StepKeepsListed` | internal/storage/storage.go:134-152 | across the gap between listing and deleting, a listed id that still names a run names an expired one, with any number of prunes and saves |
| `Retention.StepDeletesOnlyExpired` | internal/retention/retention.go:71-142 | a run vanishes only when it has expired for the prune that deletes it; a child only with its run, as an expired raw payload, or in a chunk wholly before the cutoff; no run is ever changed |
| `Retention.StepLeaves` | internal/storage/storage.go:121-164 | what each deleting statement leaves: a drop all but the table's chunks before the cutoff, a raw delete all but its matched rows, a run delete all but the listed runs and their children |
| `Retention.LoopGoesOnIff` | internal/retention/retention.go:127-137 | a delete loop goes on iff its batch came out full |
| `Retention.RunKeepsInv` | internal/retention/retention.go:71-142 | foreign keys, order, indexes and listed ids stay right over every interleaving |
| `Retention.PruningIsAbsorbed` | internal/retention/retention.go:71-142 | what a prune would leave is the same before and after any history of interrupted, repeated and concurrent prunes with earlier cutoffs |
| `Retention.LiveRowsStay` | internal/retention/retention.go:71-142 | every row that is live at some moment of a run is still there at its end, for any number of prunes |
| `RetentionExact.PruneIsExact` | internal/retention/retention.go:71-107 | a lone prune nobody stops, interleaved step by step with saves of unexpired polls, ends in exactly what "all saves first, then prune" leaves, in all four configurations |
| `RetentionExact.RunKeepsSolo` | internal/retention/retention.go:122-142 | a lone prune clears each delete loop before it goes on, whatever is saved meanwhile |
| `RetentionExact.PoppedIsCleared` | internal/retention/retention.go:122-137 | when a delete loop ends nothing expired for it is left |
| `RetentionReaders.PresentPeersUndisturbed` | db/queries/poll_runs.sql:99-143 | while every lighthouse's newest successful poll is unexpired, readers get the same present rows at every step of every run, with or without chunk dropping |
| `RetentionReaders.JoinedAfterPrune` | db/queries/poll_runs.sql:99-130 | a completed prune removes from the present rows exactly those of expired polls |
| `RetentionReaders.WholePruneIsAfter` | README.md:129-138 | a whole undisturbed prune ends in what retention keeps, however its batches break ties |
| `RetentionReaders.ChunkDroppingRefines` | internal/retention/retention.go:76-107 | with and without chunk dropping a prune ends with the same five tables; with a raw period, as by default, whatever the clocks did |
| `RetentionProgress.RunsAreBounded` | internal/retention/retention.go:122-142 | with any number of prunes and under every schedule, only a bounded number of steps can be taken before something is saved or a prune starts |
| `RetentionProgress.NeverStuck` | internal/retention/retention.go:122-142 | a prune with something left to do can always take its next step |
| `RetentionProgress.EveryPruneCanFinish` | internal/retention/retention.go:71-107 | from any tables, in all four configurations, a prune alone does reach its end, and so what retention keeps |
| `RetentionRace.LoopEndsEarlyIffOvertaken` | internal/retention/retention.go:122-137 | in any history of any number of prunes and of saves of unexpired polls, a delete loop, of runs or of raw payloads, ends with something expired left iff something chosen was already gone, the count came out short, and something expired was not chosen |
| `RetentionRace.MatchesFitBatch` | db/queries/retention.sql:12-21 | with unique ids a raw delete matches exactly its batch, so any row lost to another statement makes its count short |
| `RetentionRace.StartAfterHistory` | internal/retention/retention.go:71-107 | every prune that starts after a history of saves and of prunes that deleted no more than it does is ready in the sense of the next row, and what was ever saved is all saves |
| `RetentionRace.PruneIsExactUnlessOvertaken` | internal/retention/retention.go:71-107 | a ready prune that finishes without being stopped or overtaken leaves exactly "all saves first, then prune", beside any number of other prunes |
| `RetentionRace.TwoPrunesCanLeaveExpiredRuns` | internal/retention/retention.go:122-137 | for every batch size from two, a run of two prunes in which both stop at a short batch while a run is still expired |
| `RetentionRace.CodePrunesCanLeaveExpiredRuns` | internal/retention/retention.go:14-14 | the same for the code's batches of 1000, with 2001 runs |
| `RetentionRace.TwoPrunesCanLeaveExpiredRaws` | db/queries/retention.sql:12-21 | for every batch size, two raw deletes that match the same batch: the second counts 0 and ends its loop with a payload still expired |
| `RetentionRace.CodePrunesCanLeaveExpiredRaws` | internal/retention/retention.go:14-14 | the same for the code's batches of 1000, with 1001 payloads |
| `RetentionLatest.LatestIsNeverReplaced` | db/queries/retention.sql:1-10 | with distinct start times, at every step of any number of prunes beside saves of unexpired polls, a lighthouse's latest poll is the latest one ever saved as long as that is there: no older run takes its place, also between listing and deleting |
| `RetentionLatest.CodeBatchResurrectsIffTied` | internal/retention/retention.go:14-14 | for batches of 1000, the exact condition under which one batch resurrects an older run |
| `RetentionLatest.CodeBatchResurrects` | internal/retention/retention.go:14-14 | 1001 polls of one lighthouse that started together, and a batch of 1000 that resurrects one |
| `Pruning.AbsorbedByLater` | internal/retention/retention.go:71-107 | what an earlier prune did, even cut short, a later one would have done |
| `Pruning.ProgramCalls` | internal/retention/retention.go:76-107 | the order of drops and delete loops in the four configurations is the program of the transition system |
| `Pruning.Pruner.DeleteBatch` | internal/retention/retention.go:127-137 | one batch deletes min(1000, n) of n expired rows and leaves n minus that |
| `Pruning.Pruner.DeleteBatches` | internal/retention/retention.go:122-142 | terminates; on success nothing expired is left after exactly n/1000 + 1 calls; stopped early it deleted only expired rows |
| `Pruning.Pruner.Prune` | internal/retention/retention.go:71-108 | on success exactly the retained rows are left, exactly the configured calls were made in order, and each delete loop made n/1000 + 1 of them for the n rows expired when it began; on failure nothing retained is lost; only the configuration with TimescaleDB and no raw period needs payloads no older than their run |
| `Pruning.Pruner.Run` | internal/retention/retention.go:50-69 | over many passes, some failing, each pass that succeeds leaves what it alone would have left of the first tables, and each that fails loses nothing it would have kept |
| `SavedPoll.PollOfIsOrderedIffClockForward` | internal/storage/storage.go:42-83 | children are observed no earlier than their run iff no command started before the poll |
| `SavedPoll.PollOfIsIndexed` | internal/storage/storage.go:192-245 | entry indexes are unique within a run and source |
| `SavedPoll.SavedRowCounts` | internal/storage/storage.go:42-83 | exact number of rows per table: commands, hostmap plus pending, max(1, reporters) per addrmap entry, at most one relay row |
| `SavedPoll.MapOrderDoesNotMatter` | internal/storage/storage.go:247-283 | the rows written do not depend on the order in which reporter maps are walked |
| `SavedPoll.PayloadAt` | internal/storage/storage.go:56-83 | a row's table, source and entry index follow from its place in the insertion order, and the other way round |
| `Storage.SavedPollIsSound` | db/migrations/core/001_schema.sql:1-95 | a committed save keeps the schema's guarantees and fresh, unique ids |
| `Storage.Store.InsertRawCommands` | internal/storage/storage.go:42-83 | one raw row per command, in order |
| `Storage.Store.InsertHostmapEntries` | internal/storage/storage.go:192-245 | one row per entry with its index, empty text stored as NULL |
| `Storage.Store.InsertLighthouseAddrmap` | internal/storage/storage.go:247-283 | one row per reporter, or a single empty row, in any map order |
| `Storage.Store.SavePollResult` | internal/storage/storage.go:31-103 | all or nothing at every failure point: either no table changed or exactly this poll was added; success means it was added |
| `Recorded.RunRecordsPoll` | internal/storage/storage.go:31-103 | the run row is successful iff the poll had no error, and holds its error, times, lighthouse, target and version |
| `Recorded.CommandsAreRecorded` | internal/storage/storage.go:50-63 | each command has a raw row with its text, output, error and success, and each raw row is one of them |
| `Recorded.EntryIsRecorded` | internal/storage/storage.go:192-245 | each hostmap and pending entry has a row of its source at its index, with its own addresses, indexes and certificate |
| `Recorded.HostRowIsEntry` | internal/storage/storage.go:192-245 | and each such row is that of the entry at its index |
| `Recorded.ReportsAreRecorded` | internal/storage/storage.go:247-283 | the address rows are exactly those of the reports, or the empty one of an address nobody reports |
| `Recorded.RelaysAreRecorded` | internal/storage/storage.go:74-83 | a relay row holds the relays iff there are any |
| `Represented.SaveIsEnabled` | internal/storage/storage.go:31-103 | beside any prunes, a poll can be committed under a fresh id, and that step is this save |
| `Storage.Store.DropChunksOf` | internal/storage/storage.go:121-132 | drops exactly the chunks wholly before the cutoff, or fails |
| `Storage.Store.DeleteExpiredPollRuns` | internal/storage/storage.go:134-152 | deletes an oldest batch of expired runs with their children and reports its size; a failure deletes nothing or a batch of expired runs |
| `Storage.Store.DeleteExpiredRawCommandPayloads` | internal/storage/storage.go:154-164 | deletes the expired rows that share an id with an oldest batch and reports how many |
| `PollLighthouse.Poll` | internal/collector/collector.go:146-238 | six commands, by name, in order and none before the poll starts; each field is what its own command and decoder gave, or empty if either failed; the poll is without error iff all six went well |
| `PollLighthouse.RunDecoded` | internal/collector/collector.go:146-238 | the collected errors stay and get exactly the one of the command or of its decoder, if either failed |
| `PollLighthouse.Problems` | internal/collector/collector.go:146-238 | a command leaves no error iff it and its decoder succeeded |
| `Ranking.RankOneIsUnique` | db/queries/poll_runs.sql:110-130 | with an order that is total within keys, row_number() = 1 has one answer |
| `Ranking.RankOneExists` | db/queries/poll_runs.sql:110-130 | it always has some answer |
| `Ranking.TextLessIff` | db/queries/poll_runs.sql:118-119 | texts are ordered by their first difference, a prefix before the longer text |
| `Presence.LatestIsUnique` | db/queries/poll_runs.sql:100-109 | a lighthouse has at most one latest successful poll |
| `Presence.LatestAfterPrune` | db/queries/poll_runs.sql:100-109 | after a completed prune the latest poll is the old one iff that is unexpired; no older run is resurrected |
| `Presence.BatchResurrectsIffTied` | db/queries/retention.sql:1-10 | some oldest-first batch of a given size resurrects an older run iff the latest poll is expired and tied on its start time, fewer rows than the batch are strictly older, and more are no newer |
| `Presence.RanksBeforeIsTotal` | db/queries/poll_runs.sql:120-125 | on the joined rows the tie-break by observed_at, lighthouse and entry index is total |
| `Presence.PresentRowsAreDetermined` | db/queries/poll_runs.sql:99-143 | the present rows are a function of the table contents: one answer, and only one |
| `Presence.PeerKeyIs` | db/queries/poll_runs.sql:112-113 | a peer is known by its fingerprint, else by its address, else by its indexes; equal fingerprints are one peer |
| `Presence.PresentRowIsFirst` | db/queries/poll_runs.sql:100-130 | a present row is a hostmap entry with an address, of a successful poll that none of its lighthouse started after, and comes first of its key by time, lighthouse name and index |
| `Presence.EveryPeerIsRepresented` | db/queries/poll_runs.sql:110-142 | every entry with a primary address in a latest successful poll has a present row of its key at least as new |
| `Represented.FailedPollIsNeverLatest` | db/queries/poll_runs.sql:100-109 | a poll saved with an error is never the latest one of its lighthouse |
| `Represented.NewestPollIsLatest` | db/queries/poll_runs.sql:100-109 | a poll saved without one, after all others of its lighthouse, is |
| `Represented.PeerIsEntry` | db/queries/poll_runs.sql:126-142 | each peer returned from a saved poll is an entry of its hostmap, never one only pending, with that entry's own fields |
| `Represented.EntryIsReturned` | README.md:169-174 | after a lighthouse's newest successful poll is saved, each entry of its hostmap with an address is represented among the peers returned |
| `Represented.OneCertificateOnePeer` | db/queries/poll_runs.sql:110-130 | two returned rows never have the same certificate |
| `Represented.ListedByName` | db/queries/poll_runs.sql:143-143 | peers are listed by the name their target shows, and by address within a name |
| `Discovery.ListPresentHostmapPeers` | internal/storage/storage.go:170-190 | the peers returned are a sorted listing of the present rows, in order, NULL read as empty text |
| `Discovery.PresentRows` | db/queries/poll_runs.sql:99-143 | the query yields the present rows, each once, sorted, for every choice among equal sort keys |
| `Discovery.ListingExists` | db/queries/poll_runs.sql:131-143 | the sorted listing always exists |
| `Discovery.DiscoveredIff` | internal/httpserver/prometheus_sd.go:52-127 | a target is served iff a listed row or a lighthouse has its address; no listed row is skipped for want of an address |
| `Discovery.EveryPeerIsDiscovered` | README.md:169-174 | every entry with a primary address in a latest successful poll leads to a served target of its peer key, at least as new |
| `Discovery.TargetsUndisturbed` | README.md:169-174 | while newest polls are unexpired, the served targets are the same at every step of every prune |
| `Views.HealthCounts` | db/migrations/views/001_grafana_views.sql:70-82 | a bucket counts the successful and the failed polls of one lighthouse within one span of five minutes |
| `Views.HealthAddsUp` | db/migrations/views/001_grafana_views.sql:70-82 | in every bucket, polls are successful plus failed ones, and there is at least one |
| `Views.HealthLatest` | db/migrations/views/001_grafana_views.sql:70-82 | a bucket's latest poll is one of its own and none is later |
| `Views.HealthCountsEveryRun` | db/migrations/views/001_grafana_views.sql:70-82 | the buckets together count every run exactly once |
| `Views.RankOneAfterPrune` | db/migrations/views/001_grafana_views.sql:7-111 | for any key and any newest-first order, the top rows that a prune leaves are the top rows of what it leaves |
| `Views.CurrentViewsAfterPrune` | db/migrations/views/001_grafana_views.sql:7-111 | a refresh of the three ranked views after a prune finds what they held before it less the deleted rows: no older row comes back |
| `Views.DisputedIff` | db/migrations/views/001_grafana_views.sql:113-125 | more than one lighthouse and more than one learned set iff two different lighthouses have different learned sets |
| `Views.DisputeReportedIff` | db/migrations/views/001_grafana_views.sql:113-125 | after a refresh an address is reported iff two lighthouses' current rows for it differ |
| `Views.DisputeSays` | db/migrations/views/001_grafana_views.sql:113-123 | with the numbers of lighthouses and of learned sets that report it, who learned what, and the time of the newest row |
| `Views.CurrentPeersShow` | db/migrations/views/001_grafana_views.sql:7-40 | per lighthouse and peer the newest hostmap entry, the first of several, and nothing but hostmap entries |
| `Views.CurrentAddrmapShows` | db/migrations/views/001_grafana_views.sql:46-65 | per lighthouse, address and reporter one newest row, no reporter being the same as an empty one |
| `Views.CertInventoryShows` | db/migrations/views/001_grafana_views.sql:84-111 | per certificate, or address without one, one newest hostmap entry |
| `Views.RefreshKeepsUniqueIndexes` | db/migrations/views/001_grafana_views.sql:42-111 | no refresh can break a unique index of a view |
| `Views.RefreshMakesFresh` | internal/storage/storage.go:105-119 | refreshing in the coded order leaves every view so far valid for the tables, the derived one included |
| `Views.GrafanaViews.RefreshGrafanaViews` | internal/storage/storage.go:105-119 | on success all five views are valid; on failure those before the failing one are, and those after it are untouched |
| `PollRound.SendNeverBlocks` | internal/collector/collector.go:79-105 | whenever a worker has a result the channel is not closed and holds fewer results than it has room for |
| `PollRound.RunsAreBounded` | internal/collector/collector.go:74-144 | every run of the protocol is finite, with a bound |
| `PollRound.NeverStuck` | internal/collector/collector.go:74-144 | until the round is over some goroutine can move, given that polls return |
| `PollRound.OutcomesAddUp` | internal/collector/collector.go:107-123 | saved and failed results are counted by how their saves went |
| `PollRound.ReceivedInOrder` | internal/collector/collector.go:79-112 | results are received in the order in which they were sent |
| `PollRound.FinishedRound` | internal/collector/collector.go:105-144 | each target yields at most one result, exactly one without a cancelled jitter; each is saved or an error; a refresh is made iff that is on and a save succeeded; the round fails iff a save or the refresh failed |
| `KnownHosts.SnapshotAgrees` | internal/sshclient/client.go:208-234 | while file operations succeed the snapshot equals the file after any calls and restarts |
| `KnownHosts.HostKeepsFirstKey` | README.md:54-56 | a host keeps exactly the key of its first call (or those on file), for all later calls and restarts |
| `KnownHosts.AcceptedIffFirstKey` | README.md:79-87 | after any history a key is accepted iff the host is new or the key is its trusted one, and is a mismatch otherwise |
| `KnownHosts.FailuresAreReported` | internal/sshclient/client.go:216-233 | a failed append or reload is reported as such, and only for a host the snapshot does not know |
| `KnownHosts.HostsAreIndependent` | internal/sshclient/client.go:208-234 | what is on file for a host depends on its own calls only |
| `KnownHosts.SnapshotIsPrefix` | internal/sshclient/client.go:237-251 | the file only grows and the snapshot is always an earlier version of it |
| `KnownHosts.AcceptedIsOnFile` | internal/sshclient/client.go:208-234 | whatever fails, an accepted key is in the file and stays there |
| `KnownHosts.SecondKeyIffForgotten` | internal/sshclient/client.go:215-233 | a host on file can be given a second, different key iff the snapshot has no line for it |
| `KnownHosts.ForgottenNeedsFailure` | internal/sshclient/client.go:226-233 | that happens only after a failed reload or a failed write that reached the file |
| `KnownHosts.RestartRemembers` | internal/sshclient/client.go:202-206 | after a restart no host on file is forgotten |
| `KnownHosts.ChangedKeyAccepted` | README.md:54-56 | the run in which a changed key is accepted after a failed reload |
| `KnownHosts.HostKeyCallback.Check` | internal/sshclient/client.go:208-234 | the callback answers and changes file and snapshot as specified, for some outcome of its file operations |
| `KnownHosts.HostKeyCallback.AppendKnownHost` | internal/sshclient/client.go:237-251 | appends one line; an error leaves the file unchanged or with that line |
| `HostPort.SplitIffSpelled` | internal/config/config.go:187-196 | net.SplitHostPort succeeds on exactly `host:port` and `[host]:port` spellings and returns what was spelled |
| `HostPort.SplitByColons` | internal/config/config.go:187-196 | without a bracket in front net.SplitHostPort succeeds with one colon and no brackets, misses a port without a colon, and tells too many colons from stray brackets |
| `HostPort.SplitBracketed` | internal/config/config.go:187-196 | behind a bracketed host the port needs exactly one colon in front and no brackets, and each other ending has its own error |
| `HostPort.UnclosedBracket` | internal/config/config.go:187-196 | an unclosed bracket is refused as such |
| `HostPort.SplitOfJoin` | internal/httpserver/prometheus_sd.go:96-102 | splitting undoes joining iff the host has no brackets and the port no colon or bracket |
| `HostPort.JoinIsInjective` | internal/httpserver/prometheus_sd.go:62-66 | for one port, different hosts join to different targets |
| `HostPort.JoinIsInjectiveInBoth` | internal/config/config.go:138-142 | with colon-free ports, joining is injective in host and port |
| `Accepted.NameHostAndPort` | internal/config/config.go:116-162 | `name=user@host:port`, with or without brackets, is accepted with its own name, user, host and port |
| `Accepted.NameAndHost` | internal/config/config.go:138-155 | a host without a port gets port 4222 |
| `Accepted.HostIsName` | internal/config/config.go:143-145 | without a name the host is the name |
| `Accepted.HostAloneIsName` | internal/config/config.go:138-145 | `user@host` is named by its host and gets port 4222 |
| `Accepted.BareIPv6IsRefused` | internal/config/config.go:187-196 | an address with two colons and no brackets is refused |
| `Accepted.MalformedIff` | internal/config/config.go:132-136 | a text without a name is malformed iff nothing stands before, or after, its first `@` |
| `Lighthouses.TrimSpaceCuts` | internal/config/config.go:121-131 | trimming cuts spaces off both ends and nothing else |
| `Lighthouses.AsciiSpaces` | internal/config/config.go:121-131 | the ASCII characters that are cut are the blank and the five controls from tab to carriage return |
| `Lighthouses.HostRecoveredIffPlain` | internal/config/config.go:138-155 | the stored address gives back the parsed host and port iff the address was bracket-free or `[host]:port` |
| `Lighthouses.StoredAddressSplitsIff` | internal/httpserver/prometheus_sd.go:96-100 | splitting a stored address succeeds iff the address was plain or a bracketed host without colon or port |
| `Lighthouses.BracketedHostIsStoredBare` | internal/config/config.go:187-196 | `u@[h]` is accepted and stored so that it splits to `h`, not `[h]` |
| `Lighthouses.StrayBracketIsStoredUnsplittable` | internal/config/config.go:187-196 | `u@a]b` is accepted and stored so that it does not split |
| `RoundTrip.StoredAddressIsStableIffPlain` | internal/config/config.go:138-142 | normalising an address again changes nothing iff it was plain |
| `RoundTrip.EqualsInNameBreaks` | internal/config/config.go:126-131 | a lighthouse whose name holds `=` never prints and parses back to itself |
| `RoundTrip.EqualsInNameIsAccepted` | internal/config/config.go:126-145 | a host that stands in for an empty name is accepted whether or not it holds `=` |
| `RoundTrip.EqualsInHostBreaks` | internal/config/config.go:126-145 | `=u@a=b` is accepted and its printed form is not read back |
| `RoundTrip.PrintParsesBackIff` | internal/config/config.go:116-162 | an accepted lighthouse prints and parses back to itself iff its name is stable and its address was plain |
| `RoundTrip.ParseLighthouses` | internal/config/config.go:116-162 | one lighthouse per non-blank value, in order, names pairwise distinct; otherwise the error of the first value that cannot be taken, or that there is none |
| `RoundTrip.FailingRejects` | internal/config/config.go:116-162 | after such an error no list of lighthouses would have been right for the values |
| `RoundTrip.AcceptsIsUnique` | internal/config/config.go:116-162 | the accepted list is determined by the values |
| `RoundTrip.ConfigurationRoundTripIff` | internal/config/config.go:116-162 | printing a whole configuration and parsing it again gives the identical list iff every name is stable and every address plain |
| `TargetGroups.FirstOccurrencesCover` | internal/httpserver/prometheus_sd.go:57-124 | dropping repeats keeps every target exactly once |
| `TargetGroups.FirstOccurrencesAreFirst` | internal/httpserver/prometheus_sd.go:57-124 | each kept group is the first of its target, and the order is kept |
| `TargetGroups.PeersWin` | README.md:169-174 | a present peer's group wins over a lighthouse at the same address |
| `TargetGroups.OptionalLabelIffGiven` | internal/httpserver/prometheus_sd.go:80-89 | an optional label is present, with the peer's own value, iff that value is not empty |
| `TargetGroups.SourceTellsPeers` | internal/httpserver/prometheus_sd.go:72-118 | the source label says whether a present peer has the address, and the address label is the target |
| `TargetGroups.PeerLabelsShow` | internal/httpserver/prometheus_sd.go:80-86 | each optional label of a peer shows that very field of the peer, and is left out when it is empty |
| `TargetGroups.PeerIdentityShows` | internal/httpserver/prometheus_sd.go:68-79 | a peer's name is that of its certificate or its address; its address and the metrics path are its own |
| `TargetGroups.ListsReadBack` | internal/httpserver/prometheus_sd.go:81-89 | a peer's addresses and certificate groups can be read back from its labels |
| `TargetGroups.LighthouseLabelsShow` | internal/httpserver/prometheus_sd.go:96-124 | a lighthouse's labels show its own host, name, user, address and target |
| `TargetGroups.ServedTargetReads` | internal/httpserver/prometheus_sd.go:54-102 | every served target splits into the address of a peer or lighthouse and a text that reads as the configured port, if the address has no brackets |
| `TargetGroups.TargetSplitsIff` | README.md:176-179 | a served target splits back to its address iff that has no brackets |
| `TargetGroups.TargetPerAddress` | internal/httpserver/prometheus_sd.go:52-127 | there is a group for an address iff a peer or lighthouse has it: deduplication by target is deduplication by address |
| `TargetGroups.AddPeers` | internal/httpserver/prometheus_sd.go:57-94 | the first loop yields the first occurrences of the peer groups and remembers exactly their targets |
| `TargetGroups.PrometheusTargetGroups` | internal/httpserver/prometheus_sd.go:52-127 | succeeds iff every lighthouse address splits, and is then the first occurrences of peer groups followed by lighthouse groups; otherwise the error of the first address that does not split |
| `TargetGroups.TargetsBuildIff` | internal/httpserver/prometheus_sd.go:96-100 | for an accepted configuration all addresses split iff each was plain or a bracketed host without a port |

## Left out

- SSH dialing, sessions and key parsing: a command returns an arbitrary result.
- JSON decoding: each decoder is an arbitrary partial function of the command's output.
- SQL text, pgx, connection pool and generated scanning code: each statement is its effect on the tables.
- Columns that no modelled query or property reads: durations, device id, remote addresses, message counters, certificate keys, networks and dates, raw JSON.
- Narrowing to int32 or int64 of entry indexes, counters and indexes, and times finer than a microsecond.
- The four child tables draw row ids from one sequence here; only uniqueness within a table is used.
- The known_hosts format (hashed names, wildcards, revocation, torn lines): a line maps a host to a key, and a check may also refuse for other reasons. The strict and insecure modes are one-line choices.
- The percentile of the health view, and the concatenated text in the disagreement view, which is a set of pairs here.
- Text is compared by code point, and labels are constructors rather than their spellings.
- Dropped-chunk counts, metrics, logs, traces, HTTP handlers, flag parsing, range checks and the migrator.
- Ticker loops: `Run` is a sequence of passes at given times, and a poll round is one round.
- Storage.Store.DeleteExpiredPollRuns: one call is atomic in the class; the gap between its two statements is in `Retention`.
- Storage.Store.DeleteExpiredRawCommandPayloads: one call is atomic in the class; the gap between its subquery and its delete is in `Retention`.
- RetentionExact.PruneIsExact: requires that no other prune is at work; `PruneIsExactUnlessOvertaken` does not.
- KnownHosts.HostKeyCallback.Check: calls are sequential, as the mutex makes them.
