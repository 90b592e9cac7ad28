# ModelExpress in Dafny

A model of the parts of ModelExpress where a mistake is hard to see: a server streams model
files to clients in chunks, replicas share one registry of downloads, a cache evicts what is no
longer used, artifacts are described by checksummed manifests, and an operator keeps the cluster
in step. Each part is modelled in the form it has in Rust (loops and mutable fields as methods
and classes, protocols with several actors as state machines over their steps) and proved against
a description that does not follow the code.

`dafny verify dfyconfig.toml` checks the whole project. Automatic induction is switched off in
every lemma, so each inductive step is written out.

- `StreamProtocol`, `StreamReceiver`, `StreamSender`: the chunk stream. The client accepts exactly
  the well-formed streams; the transfer succeeds exactly when every file was delivered.
- `Lru`, `Eviction`: which models a cycle removes, and what no run of evictions can delete.
- `Registry`, `Claims`: download claims on many replicas, in every interleaving.
- `Checksum`, `ManifestChunks`, `ArtifactManifest`: CRC-32C (section 13.1 of RFC 7143), tiling and
  the manifest of a directory tree.
- `Finalizer`, `Status`: the operator's role binding with its finalizer, and the status it writes.
- `Dns`, `Allowlist`, `EntryKeys`: text formats that two components must agree on
  (DNS names as in section 2.1 of RFC 1123).
- `TokenCache`, `ConnectRetry`: the client's token cache and its first connection.
- `Prelude`, `Text`: shared value types, splitting, joining and trimming.

Results that say where a promise of the code ends:

- Success does not mean that what was read arrived. A listed file that is empty when it is read is
  skipped without any error (`VanishedFileGoesUnnoticed`), and a file listed as empty arrives empty
  whatever it holds by then (`ListedEmptyFileArrivesEmpty`). `TransferTheorem` gives the exact
  condition for success and `EverythingArrivesIff` the exact condition for everything to arrive.
- An advertised size of `u64::MAX` admits a longer file (`SaturationAdmitsOverlongFile`); below it
  `SegmentSize` is exact.
- A record that arrives between an eviction's listing and its deletion is not protected;
  `LateRecordLosesItsFilesIff` says exactly when it loses a snapshot, and every listed record is safe
  (`ListedRecordsAreSafe`).
- A task that has published but not yet notified can empty the waiting list of a download that
  claimed the entry since; `LateNotificationIff` says exactly when.
- A caller that found a downloaded entry's files missing deletes its record without looking again,
  and with it a claim granted since: `ClearDropsClaimIff` says when, `SecondClearDropsTheClaim` that
  it happens, and `ClearedTaskIsFenced` what becomes of the download.
- A download looks at no record while it writes. One that is still at work when its entry is evicted
  leaves files and a manifest that no record accounts for (`LateDownloadIsOrphaned`,
  `LateDownloadStillRecords`). `SnapshotOutlivesItsRecordsIff` and `ManifestOutlivesItsRecordIff` say
  of every run exactly which snapshots and manifests outlive their records: late writes, cleared
  records and, for manifests, a removal that failed in an eviction that went through.
- A server resource deleted between the operator's read and its finalizer patch leaves an orphaned
  role binding (`DeletionDuringApplyLeavesAnOrphan`); `ApplyIsSafeIff` gives the exact condition.
- The operator deletes a role binding that is not its own if and only if it read its own there and
  others have replaced it since (`ForeignBindingGoesIff`, `ReplacedBindingIsDeleted`).
- A token file rewritten with another token under the very modification time that is cached is
  served stale, and only then: `RewriteServedStaleIff` and `WriteIsHarmlessIff` are equivalences, and
  `ReturnedTokensAreFresh` holds of every run without such a write, whether times go up or down.
- A revision with a colon, or an empty one, is misread out of a registry key
  (`UnencodableIsMisread`); `KeyRoundTrip` is an equivalence and no valid revision is affected.

## Model

| member | source | states |
|---|---|---|
| StreamProtocol.ResolveNames | modelexpress_client/src/lib.rs:434-444 | A path of names leads to those names below the model directory, in that order |
| StreamProtocol.CurDirChangesNothing | modelexpress_client/src/lib.rs:434-444 | Current-directory components change nothing, wherever they stand |
| StreamProtocol.SafeIff | modelexpress_client/src/lib.rs:73-82 | A path is safe if and only if, but for current-directory components, it spells one or more names |
| StreamProtocol.SafePathStaysBelow | modelexpress_client/src/lib.rs:73-82 | From every directory, walking a safe path component by component leads below it, to the names it resolves to |
| StreamProtocol.PreparedDirectory | modelexpress_client/src/lib.rs:84-107 | A missing commit is refused exactly for Hugging Face, a present one exactly when it is no valid revision, and a valid one has no part that leads elsewhere |
| StreamReceiver.StepTracksParse | modelexpress_client/src/lib.rs:405-590 | One loop iteration succeeds exactly when the chunks so far still parse, and leaves the variables the parse dictates |
| StreamReceiver.RunTracksParse | modelexpress_client/src/lib.rs:405-590 | After any chunks the loop is still running exactly when they parse well |
| StreamReceiver.AcceptsExactlyValidStreams | modelexpress_client/src/lib.rs:405-617 | The client accepts a chunk sequence if and only if it is whole files, contiguous from zero to one constant size, flagged once at the end, with the stream marker on the last file only |
| StreamReceiver.AcceptedStreamInstalls | modelexpress_client/src/lib.rs:405-617 | On acceptance each file holds its segment's bytes and the first chunk's commit is returned |
| StreamReceiver.UniqueSegmentation | modelexpress_client/src/lib.rs:405-617 | A chunk sequence splits into files in at most one way |
| StreamReceiver.AcceptedStreamsArePrefixFree | modelexpress_client/src/lib.rs:405-412 | No proper extension or prefix of an accepted stream is accepted, so truncated and over-long streams fail |
| StreamReceiver.InstalledFile | modelexpress_client/src/lib.rs:480-583 | A path finally holds the bytes of the last segment for it |
| StreamReceiver.OtherFilesUntouched | modelexpress_client/src/lib.rs:480-583 | Paths the stream does not mention keep their contents |
| StreamReceiver.SegmentSize | modelexpress_client/src/lib.rs:547-565 | An accepted file carries exactly its advertised size, unless that size is `u64::MAX` |
| StreamReceiver.SaturationAdmitsOverlongFile | modelexpress_client/src/lib.rs:547-565 | At `u64::MAX` a file longer than advertised is accepted |
| StreamReceiver.AppendChunk | modelexpress_client/src/lib.rs:523-583 | The per-file checks and the write, tied to the specification step; the exact disk after success and after each refusal |
| StreamReceiver.ReceiveChunk | modelexpress_client/src/lib.rs:405-590 | The loop body equals the specification step; a refused chunk leaves the disk as it was, but for a file just created and for data written before the refusal |
| StreamReceiver.ReceiveChunks | modelexpress_client/src/lib.rs:395-617 | The loop and the final checks equal the specification run |
| StreamReceiver.ReceiveStream | modelexpress_client/src/lib.rs:353-617 | Success exactly on well-formed streams, with every segment in place; no path outside the stream is touched either way |
| StreamSender.StreamFile | modelexpress_server/src/services.rs:638-702 | One file's chunks for every schedule of short reads: its bytes in order, right offsets and flags, commit on the stream's first chunk |
| StreamSender.ReadLengths | modelexpress_server/src/services.rs:665-676 | The read schedules are all schedules of short reads: every amount that fits, and no other |
| StreamSender.StreamFiles | modelexpress_server/src/services.rs:615-706 | The producer sends the parts of the listed files in order |
| StreamSender.SentFileIsSegment | modelexpress_server/src/services.rs:638-702 | A file listed as empty or still of its listed size becomes a valid segment, which carries the bytes read exactly if the size is unchanged |
| StreamSender.ShrunkFileRefused | modelexpress_server/src/services.rs:665-702 | A file that shrank between listing and reading makes the client refuse the stream, unless nothing is left of it: then it sends no chunk at all |
| StreamSender.GrownFileRefused | modelexpress_server/src/services.rs:641-702 | A file that grew between listing and reading makes the client refuse the stream, unless it was listed as empty: then an empty file is sent in its place |
| StreamSender.TransferTheorem | modelexpress_server/src/services.rs:615-706 | However files change after listing, the client accepts if and only if the commit names a directory and each file was listed as empty, has its listed size or vanished before the last one; its disk then holds exactly what was sent |
| StreamSender.EverythingArrivesIff | modelexpress_server/src/services.rs:615-706 | The stream is accepted and the client holds every file as it was read, if and only if the commit names a directory and every file has its listed size, but for a vanished one where an empty file was already |
| StreamSender.EverythingArrivesOnFreshDiskIff | modelexpress_server/src/services.rs:615-706 | On a disk with none of the listed paths: if and only if the commit names a directory and no file changed its size since it was listed |
| StreamSender.VanishedFileGoesUnnoticed | modelexpress_server/src/services.rs:665-676 | A listed file read as empty is absent from an accepted stream |
| StreamSender.ListedEmptyFileArrivesEmpty | modelexpress_server/src/services.rs:641-663 | Every file listed as empty that has bytes when it is read is accepted and arrives empty |
| StreamSender.Transfer | modelexpress_server/src/services.rs:602-706 | Round trip: any listing, chunk size and read schedule; the client ends with exactly those files, a path of names under those names, and nothing else changed |
| Lru.SortSorts | modelexpress_server/src/cache.rs:195-197 | Sorting by last use gives an ordered permutation |
| Lru.SortIsStable | modelexpress_server/src/cache.rs:195-197 | Records last used at one instant keep their order |
| Lru.SelectExpired | modelexpress_server/src/cache.rs:168-181 | The age rule selects exactly the downloaded models unused since the cutoff |
| Lru.SelectOverLimit | modelexpress_server/src/cache.rs:183-211 | The count rule adds the oldest remaining models up to the excess |
| Lru.SelectedNames | modelexpress_server/src/cache.rs:148-229 | The candidates are exactly the first max(expired, excess) downloaded models in last-used order |
| Lru.SelectedHasNoDuplicates | modelexpress_server/src/cache.rs:148-229 | No model is selected by both rules |
| Lru.SelectedReasons | modelexpress_server/src/cache.rs:148-229 | The reason is the age rule exactly for the expired models |
| Lru.SelectedIsPrefix | modelexpress_server/src/cache.rs:148-229 | On a listing in last-used order the candidates are a prefix of it, in order |
| Lru.SelectForEviction | modelexpress_server/src/cache.rs:148-229 | The selection loops compute that characterisation |
| Eviction.EvictStaysWithinModel | modelexpress_server/src/cache.rs:388-453 | An eviction touches only files of its own tenant and model |
| Eviction.EvictSucceedsIff | modelexpress_server/src/cache.rs:388-453 | An eviction goes through, dropping its record and no other, exactly when each call it makes succeeds and files are deleted only if some are to go |
| Eviction.EvictKeepsCoveredSnapshots | modelexpress_server/src/cache.rs:402-443 | No eviction, failed or not, removes a snapshot another record covers |
| Eviction.LastEvictionReclaims | modelexpress_server/src/cache.rs:405-450 | Evicting a model's last record removes all its snapshots |
| Eviction.ApplyKeepsReclaimableIff | modelexpress_server/src/cache.rs:405-450 | Each event keeps every snapshot reclaimable, except exactly a write for a model without a record and the clearing of a model's last record; no eviction is an exception |
| Eviction.RunsKeepReclaimable | modelexpress_server/src/cache.rs:405-450 | In every run that never orphans a snapshot, through any faults, each snapshot keeps a record of its model |
| Eviction.NoSnapshotOutlivesItsRecords | modelexpress_server/src/cache.rs:405-450 | Over every such run: with no record of a model left, none of its snapshots is left |
| Eviction.SnapshotOutlivesItsRecordsIff | modelexpress_server/src/cache.rs:388-453 | Over every run: a snapshot whose model has no record is on disk if and only if it was written, or a record of its model cleared under it, and its model has had no record since |
| Eviction.LateDownloadIsOrphaned | modelexpress_server/src/services.rs:1084-1127 | For every entry and with no fault: a download still at work when its entry is evicted leaves files and manifest with an empty registry |
| Eviction.RecordProtectsItsSnapshots | modelexpress_server/src/cache.rs:388-453 | Over every run: a record that is not itself evicted or cleared keeps every snapshot it covers |
| Eviction.DeletedOnListingIff | modelexpress_server/src/cache.rs:402-443 | Exactly which snapshots go when an eviction decided on records listed earlier: all of the model if no other entry of it was listed, else those of its own revision that no other listed entry covers |
| Eviction.ListedRecordsAreSafe | modelexpress_server/src/cache.rs:402-443 | Deciding on an earlier listing is safe for every record listed |
| Eviction.LateRecordLosesItsFilesIff | modelexpress_server/src/cache.rs:402-443 | A record that arrives after the listing loses a snapshot that it covers if and only if no listed sibling saves it |
| Eviction.EvictDeletesIff | modelexpress_server/src/cache.rs:388-453 | A successful eviction deletes exactly those snapshots, judged by the registry itself |
| Eviction.EvictKeepsManifestsRecordedIff | modelexpress_server/src/cache.rs:445-450 | An eviction touches no other manifest, and leaves its own without a record exactly when it goes through although removing the manifest fails |
| Eviction.ApplyKeepsManifestsRecordedIff | modelexpress_server/src/cache.rs:445-450 | Each event keeps every manifest recorded, except exactly when it writes one without a record, clears the record of one, or is such an eviction |
| Eviction.ManifestOutlivesItsRecordIff | modelexpress_server/src/cache.rs:445-450 | Over every run: an entry without a record has a manifest if and only if one of these left it and the entry has had no record since |
| Eviction.NoManifestOutlivesItsRecord | modelexpress_server/src/cache.rs:445-450 | In every run whose manifests are written under their records, whose records are not cleared and whose manifest removals succeed, no manifest outlives its record |
| Eviction.RecordKeepsItsManifest | modelexpress_server/src/cache.rs:388-453 | Over every run: a record that is not itself evicted or cleared keeps its manifest |
| Eviction.CacheEvictionService.EvictModel | modelexpress_server/src/cache.rs:388-453 | Files, then manifest, then record, with a failure possible at each call: the new state is the specified one |
| Eviction.CacheEvictionService.EvictCandidates | modelexpress_server/src/cache.rs:334-360 | The whole state after the loop is that of the evictions one after the other; a failed one does not stop the others |
| Eviction.CacheEvictionService.RunEvictionCycle | modelexpress_server/src/cache.rs:295-382 | A cycle evicts only the selected models; every other record keeps its manifest and the files it covers, other models are untouched; without faults exactly min(not expired, limit) downloaded models are left and exactly the snapshots endangered in turn are gone |
| Eviction.EvictionsLeaveOthersAlone | modelexpress_server/src/cache.rs:334-360 | Any run of evictions, through any faults, keeps other records and manifests, what other records cover, and other models |
| Eviction.EvictionsDeleteIff | modelexpress_server/src/cache.rs:334-360 | Without faults a run of evictions deletes exactly the snapshots endangered at some turn, judged by the records left then |
| Eviction.CycleLeaves | modelexpress_server/src/cache.rs:168-211 | After the selected records are removed, the downloaded models that have not expired are left, or as many as the limit allows |
| Registry.ClaimIsExclusive | modelexpress_server/src/registry/backend.rs:102-150 | A granted claim excludes others until it expires, is finished or is deleted |
| Registry.ClaimOutcomes | modelexpress_server/src/registry/backend/memory.rs:138-189 | Claimed exactly if there is no record, taken over exactly if downloading with no live lease, otherwise left as it is |
| Registry.RefreshDefersTakeover | modelexpress_server/src/registry/backend/memory.rs:220-252 | A refresh moves the expiry: takeover from one lease duration after it and not before, and the old owner is then fenced |
| Registry.FinishPublishes | modelexpress_server/src/registry/backend/memory.rs:254-284 | Finishing leaves exactly the published status and no lease; an errored entry, and no other, can be reset |
| Registry.InMemoryRegistryBackend.constructor | modelexpress_server/src/registry/backend/memory.rs:35-38 | Starts empty |
| Registry.InMemoryRegistryBackend.TryClaimForDownload | modelexpress_server/src/registry/backend/memory.rs:138-189 | Claims an absent or expired entry, otherwise reports its status |
| Registry.InMemoryRegistryBackend.TryResetErrorForRetry | modelexpress_server/src/registry/backend/memory.rs:191-218 | Turns an errored entry into a claimed one, and only that |
| Registry.InMemoryRegistryBackend.RefreshDownloadClaim | modelexpress_server/src/registry/backend/memory.rs:220-252 | Extends the lease of a claim still held and refuses others |
| Registry.InMemoryRegistryBackend.FinishDownloadClaim | modelexpress_server/src/registry/backend/memory.rs:254-284 | Publishes a terminal status under a held claim only |
| Registry.InMemoryRegistryBackend.Delete | modelexpress_server/src/registry/backend/memory.rs:104-109 | Removes the record |
| Claims.ApplyKeepsInv | modelexpress_server/src/services.rs:1066-1377 | Every step of callers, tasks, heartbeats and deletions keeps claim ids apart |
| Claims.EachClaimHasOneTask | modelexpress_server/src/services.rs:1257-1377 | In every run each claim id is handed to at most one download task |
| Claims.TargetsHaveTheirOwnEntries | modelexpress_server/src/services.rs:116-135 | Two targets share an entry only if tenant, model, revision and weight mode agree |
| Claims.StartsDownloadIff | modelexpress_server/src/services.rs:1260-1350 | A call goes on to start a download if and only if its request was answered and the entry had no record, was errored and reset, or had let its lease run out; it then holds the entry under its own claim id |
| Claims.StartingSpawnsOneTask | modelexpress_server/src/services.rs:1334-1360 | Starting adds one running task for that target, replica and claim id, and the call waits under a fresh id |
| Claims.EveryDownloadWasGranted | modelexpress_server/src/services.rs:1233-1381 | In every run each download task has a position at which its claim id was granted on its entry under that condition |
| Claims.AbandonedDownloadIsRestarted | modelexpress_server/src/services.rs:1347-1360 | In every run, if a download is heard of no more, whoever waits for it starts it again once one lease duration has passed |
| Claims.CallBeginsByClaiming | modelexpress_server/src/services.rs:1256-1265 | A new call begins by claiming, under a claim id nobody has had |
| Claims.ReturnsIff | modelexpress_server/src/services.rs:1260-1381 | A call returns DOWNLOADED exactly when it checks the files and finds them or has no cache directory, ERROR exactly when it gives up, and nothing else |
| Claims.GoesOn | modelexpress_server/src/services.rs:1260-1381 | Otherwise it goes on by what the registry says: checks, resets, waits, or claims again what it cleared |
| Claims.AtMostTwoClaims | modelexpress_server/src/services.rs:1256-1280 | In every run no call claims its entry more than twice before it waits or returns |
| Claims.WaitersJoin | modelexpress_server/src/services.rs:967-984 | Whoever waits joins the end of the replica's list, owner or not |
| Claims.DownloadEndIsRecorded | modelexpress_server/src/services.rs:1120-1146 | The end of a download is recorded as it was, and a failed one leaves no manifest |
| Claims.FinishPublishesIff | modelexpress_server/src/services.rs:1156-1179 | The recorded status is published exactly if the call takes effect under the claim, and the task notifies exactly if it is told so |
| Claims.LostStaysLost | modelexpress_server/src/services.rs:1066-1181 | A lost claim is never regained |
| Claims.LostTaskIsFencedForever | modelexpress_server/src/services.rs:1120-1181 | Nothing a task does after losing its claim changes the registry or a waiting list, in any continuation |
| Claims.TakeoverFencesTheOldTask | modelexpress_server/src/services.rs:1066-1118 | A takeover of its entry makes a task lose its claim |
| Claims.WonTaskHoldsNothing | modelexpress_server/src/services.rs:1156-1172 | In every run a task that has published holds no claim, whatever happens before it notifies |
| Claims.WonTaskOnlyNotifies | modelexpress_server/src/services.rs:942-964 | All it still does is to empty its own waiting list, once |
| Claims.LateNotificationIff | modelexpress_server/src/services.rs:1156-1172 | In every run a notification empties the list of an entry someone else is downloading, if and only if its task has published, the list is there and the entry has been claimed again |
| Claims.LateNotificationDropsNewWaiter | modelexpress_server/src/services.rs:942-964 | From every state with a task between publishing and notifying: delete, reclaim and notify drop the new waiter while its download holds the claim |
| Claims.DeletingDropsTheEntry | modelexpress_server/src/services.rs:988-1012 | A clear or an eviction drops record and lease exactly if it takes effect, a clear the waiting list in any case, and exactly the holder loses its claim |
| Claims.ClearDropsClaimIff | modelexpress_server/src/services.rs:1196-1204 | Clearing a stale record takes a task's claim if and only if it is the task's entry and the delete takes effect; the waiting list goes in any case |
| Claims.ClearedTaskIsFenced | modelexpress_server/src/services.rs:1196-1204 | In every run the task whose claim a clear takes is fenced forever |
| Claims.SecondClearDropsTheClaim | modelexpress_server/src/services.rs:1260-1281 | From every state in which two callers are about to clear one entry, the slower takes the faster one's fresh claim and waiter |
| Claims.RecordsWithoutRecordIff | modelexpress_server/src/services.rs:1120-1127 | The end of a download writes its manifest; it is then without a record if and only if the entry has none at that moment |
| Claims.LateDownloadStillRecords | modelexpress_server/src/services.rs:1084-1127 | From every state with a running download: with its record deleted it still writes its manifest, having lost its claim |
| Claims.HeartbeatStopsIff | modelexpress_server/src/services.rs:1091-1118 | A heartbeat stops a download exactly when it is answered and the claim is gone, and from then on the download records nothing, whatever happens |
| Claims.DownloadedIsHonest | modelexpress_server/src/services.rs:1184-1381 | A call that returned DOWNLOADED was in progress at a moment when exactly its entry's manifest was satisfied in its tenant's partition |
| Claims.EarningTakesEffect | modelexpress_server/src/services.rs:94-108 | Recording leaves the manifest on a replica with a cache directory, and publishing leaves DOWNLOADED in the registry |
| Claims.BroadcastIsHonest | modelexpress_server/src/services.rs:1120-1172 | A DOWNLOADED broadcast follows the recording of that entry's files on that replica and publication under a held claim |
| Claims.RegistryIsHonest | modelexpress_server/src/services.rs:1066-1181 | An entry recorded as DOWNLOADED was recorded and published by a task for exactly that entry |
| Checksum.AppendConcat | modelexpress_common/src/artifact_manifest.rs:304-322 | Appending in two pieces is appending once |
| Checksum.PiecesDoNotMatter | modelexpress_common/src/artifact_manifest.rs:304-322 | However reads split a file, the folded checksum is that of the whole |
| Checksum.KnownChecksums | modelexpress_common/src/artifact_manifest.rs:334-385 | The bitwise definition gives the values the repository's tests expect |
| Checksum.BurstIsDetected | modelexpress_common/src/artifact_manifest.rs:276-322 | A change confined to four consecutive bytes changes the checksum |
| Checksum.FileChecksum | modelexpress_common/src/artifact_manifest.rs:304-322 | The read loop returns the CRC-32C of the file for every schedule of reads |
| ManifestChunks.SpansTile | modelexpress_common/src/artifact_manifest.rs:270-300 | A file's spans are contiguous, cover it, and are full except possibly the last |
| ManifestChunks.SpansSum | modelexpress_common/src/artifact_manifest.rs:270-300 | Their lengths add up to the file's size |
| ManifestChunks.SpansCount | modelexpress_common/src/artifact_manifest.rs:270-300 | There are ceil(size / chunk size) of them |
| ManifestChunks.SpansReassemble | modelexpress_common/src/artifact_manifest.rs:270-300 | The pieces put together are the file |
| ManifestChunks.SpansTileFile | modelexpress_common/src/artifact_manifest.rs:258-302 | The computed chunks of a file tile it: dense numbers, contiguous offsets, full but for the last, ceil(size / chunk size) of them, each with the checksum of its bytes, together the file |
| ManifestChunks.ChunkwiseChecksum | modelexpress_common/src/artifact_manifest.rs:276-322 | Folding the checksum over the chunks gives the file's checksum |
| ManifestChunks.ChunkLoop | modelexpress_common/src/artifact_manifest.rs:270-302 | The loop emits one chunk per span, or fails exactly when an index exceeds 32 bits |
| ManifestChunks.ChunksForFile | modelexpress_common/src/artifact_manifest.rs:258-302 | One file's chunks, empty files included, with the exact failure condition |
| ManifestChunks.ChunkIndicesAreDense | modelexpress_common/src/artifact_manifest.rs:87-107 | Chunk indices count up from zero across files |
| ManifestChunks.ChunksOfFile | modelexpress_common/src/artifact_manifest.rs:87-107 | Each file's chunks stand together in file order |
| ManifestChunks.ChunkLengthsSum | modelexpress_common/src/artifact_manifest.rs:87-133 | Chunk lengths add up to the bytes of the files |
| ArtifactManifest.LessIff | modelexpress_common/src/artifact_manifest.rs:85-85 | The canonical order is the lexicographic one: at the first difference the smaller character, or the end, comes first |
| ArtifactManifest.ManifestPathSplits | modelexpress_common/src/artifact_manifest.rs:233-256 | A manifest path is a slash before each of the path's names, in order |
| ArtifactManifest.ManifestPathIsInjective | modelexpress_common/src/artifact_manifest.rs:233-256 | Different files get different manifest paths |
| ArtifactManifest.ReadDirectory | modelexpress_common/src/artifact_manifest.rs:194-203 | Enumerates a directory's entries once each, in any order |
| ArtifactManifest.CollectRegularFiles | modelexpress_common/src/artifact_manifest.rs:194-231 | The walk finds every regular file below the directory once, and follows no symbolic link |
| ArtifactManifest.SortedWalkIsListing | modelexpress_common/src/artifact_manifest.rs:79-85 | Sorting what any walk found gives the listing: strictly increasing paths of exactly the regular files |
| ArtifactManifest.ListingIsUnique | modelexpress_common/src/artifact_manifest.rs:79-85 | A tree has one listing |
| ArtifactManifest.BuildManifest | modelexpress_common/src/artifact_manifest.rs:87-115 | The loop over sorted files gives dense file indices, sizes, checksums and all chunks, or the first index error |
| ArtifactManifest.FromDirectory | modelexpress_common/src/artifact_manifest.rs:55-116 | The result is determined by the tree, including every refusal |
| ArtifactManifest.ManifestIsDeterministic | modelexpress_common/src/artifact_manifest.rs:55-116 | Two builds of a tree agree whatever order its directories are enumerated in |
| ArtifactManifest.ManifestDescribesTree | modelexpress_common/src/artifact_manifest.rs:55-116 | A built manifest lists exactly the regular files of its tree, numbered in strictly increasing path order, each with its size and CRC-32C |
| ArtifactManifest.ManifestTilesTree | modelexpress_common/src/artifact_manifest.rs:55-116 | In a built manifest the chunks of each file stand where the sizes say and tile a regular file of the tree in that sense, and there are no other chunks |
| ArtifactManifest.BuildSucceedsIff | modelexpress_common/src/artifact_manifest.rs:87-107 | A build succeeds exactly when 32-bit indices suffice for files and chunks |
| ArtifactManifest.TotalSize | modelexpress_common/src/artifact_manifest.rs:127-133 | The sum of the sizes, or an error exactly when it exceeds 64 bits |
| ArtifactManifest.ManifestAccounts | modelexpress_common/src/artifact_manifest.rs:87-133 | File sizes and chunk lengths add up to the same total and chunks are numbered in order |
| ArtifactManifest.ChunkCountFailsIff | modelexpress_common/src/artifact_manifest.rs:135-137 | On a built manifest the chunk count fails at exactly one size, 2^32 |
| Finalizer.ApplyKeepsInv | operator/src/controller.rs:336-414 | Every step keeps the finalizer invariant unless the finalizer patch finds no server |
| Finalizer.NoBindingOutlivesItsServer | operator/src/controller.rs:336-414 | In every interleaving with failures and crashes a managed binding exists only while its server exists and holds the finalizer |
| Finalizer.ApplyIsSafeIff | operator/src/controller.rs:374-414 | From the finalizer step on the apply is safe precisely when the server is still there |
| Finalizer.DeletionDuringApplyLeavesAnOrphan | operator/src/controller.rs:402-413 | A run in which the missing-server branch leaves an orphaned binding |
| Finalizer.ReconcileConverges | operator/src/controller.rs:164-177 | An undisturbed reconcile reaches the target state, and the target is a fixpoint |
| Finalizer.EveryRunIsRecoverable | operator/src/controller.rs:164-177 | After any run cut short anywhere, one undisturbed reconcile reaches the target |
| Finalizer.ReleaseCompletes | operator/src/controller.rs:362-372 | Releasing a deleted server lets it go, removes our binding and keeps a foreign one |
| Finalizer.ServerGoesIff | operator/src/controller.rs:362-414 | A server goes exactly when it is marked for deletion and its last finalizer is dropped, by whoever holds it |
| Finalizer.OnlyTheOperatorMovesItsFinalizer | operator/src/controller.rs:374-414 | Our finalizer moves exactly by the operator's own patches, those of others never by them, and a server marked for deletion takes none |
| Finalizer.DeletePendingIff | operator/src/controller.rs:418-439 | In every run a delete is pending if and only if the reconcile at work read the binding as ours and has made no call since |
| Finalizer.ForeignBindingGoesIff | operator/src/controller.rs:418-439 | In every run the next call deletes a binding that is not ours if and only if it gets through, one of ours was read there, and others have replaced it since |
| Finalizer.ReplacedBindingIsDeleted | operator/src/controller.rs:418-439 | A run from an empty cluster in which that happens |
| Finalizer.CutShortKeepsTarget | operator/src/controller.rs:336-414 | Failing at any call keeps the invariant and does not move the target |
| Finalizer.Operator.SetFinalizer | operator/src/controller.rs:374-414 | Skips when the snapshot already agrees; otherwise patches only our finalizer, with the 404 branch reporting success |
| Finalizer.Operator.DeleteIfManaged | operator/src/controller.rs:418-439 | Removes the binding only when it is managed; success means no managed binding is left |
| Finalizer.Operator.ApplyAuthDelegator | operator/src/controller.rs:336-358 | Makes the calls of the state machine in order; exactly when it succeeds; success means the binding exists exactly when wanted |
| Finalizer.Operator.ReleaseAuthDelegator | operator/src/controller.rs:362-372 | Binding first, finalizer second, as in the state machine; exactly when it succeeds |
| Finalizer.Operator.ReconcileServer | operator/src/controller.rs:164-177 | A reconcile takes the state machine's path and keeps the cluster safe |
| Status.WrittenConditions | operator/src/controller.rs:547-626 | A written status holds exactly the conditions its reconcile reports |
| Status.ReadySaysWhetherApplied | operator/src/controller.rs:576-626 | Ready is True exactly if the apply went through and False exactly if it failed, with the reason and message of either |
| Status.NetworkPolicySaysWhoseItIs | operator/src/controller.rs:583-604 | NetworkPolicyReady is there exactly if the apply went through, True exactly if the policy is the operator's, with its reasons and messages |
| Status.EndpointOnlyIfApplied | operator/src/controller.rs:605-626 | The endpoint is given and the generation moves on exactly if the apply went through; there are no other conditions |
| Status.FirstOfKindCounts | operator/src/controller.rs:554-557 | Of several conditions of a kind the first counts |
| Status.TransitionTimeIsRunStart | operator/src/controller.rs:547-573 | Over any written reconciles a condition's time is that of the first in its current unbroken run of equal reports |
| Status.TransitionTimes | operator/src/controller.rs:547-649 | The same for runs in which status writes may be lost |
| Status.ObservedGenerationIsLastApplied | operator/src/controller.rs:576-626 | The observed generation is that of the last applied spec, never of a failed one |
| Status.WriteIsNoOpIff | operator/src/controller.rs:543-573 | A write leaves the status exactly as it was, whatever the clock, precisely when generation, reports and endpoint are unchanged |
| Status.RepeatsComeToRest | operator/src/controller.rs:543-626 | Repeating an unchanged result reproduces the status any number of times |
| Dns.LabelCheckIsLabelRegex | modelexpress_server/src/config.rs:24-32 | The server's label check accepts exactly the language of the label pattern |
| Dns.SubdomainCheckIsSubdomainRegex | modelexpress_server/src/config.rs:38-41 | The server's subdomain check accepts exactly the language of the pattern in the resource definition |
| Allowlist.AdmittedIsValid | operator/src/crd.rs:445-457 | The resource definition and the server admit the same entries |
| Allowlist.RefRoundTrip | modelexpress_server/src/config.rs:107-148 | A printed reference parses back, also inside a list |
| Allowlist.ParsedRefsAreValid | modelexpress_server/src/config.rs:115-173 | Whatever the server parses is a list of valid references |
| Allowlist.AllowlistRoundTrip | operator/src/env.rs:135-146 | The server reads back the operator's list if and only if every entry is admitted |
| Allowlist.AllowlistMeaningPreserved | operator/src/env.rs:135-146 | The callers the server lets in are the callers the resource names |
| Allowlist.ParseRefIff | modelexpress_server/src/config.rs:115-148 | A reference parses if and only if the trimmed texts around its first colon are a valid namespace and account |
| Allowlist.PartsAreTrimmed | modelexpress_server/src/config.rs:161-173 | White space around the parts of a list changes nothing |
| Allowlist.BlankPartsAreSkipped | modelexpress_server/src/config.rs:161-173 | Blank parts of a list change nothing, wherever they stand |
| Allowlist.FirstBadPartDecides | modelexpress_server/src/config.rs:161-173 | The first part that does not parse decides the error |
| EntryKeys.KeyRoundTrip | modelexpress_server/src/registry/entry_key.rs:128-202 | A key string parses back exactly when its revision is absent, or non-empty and free of colons |
| EntryKeys.KeysNeverCollide | modelexpress_server/src/registry/entry_key.rs:117-202 | Two entries never share a key: no name impersonates another encoding |
| EntryKeys.ValidRevisionIsEncodable | modelexpress_common/src/providers.rs:52-66 | Every revision a request may name can be encoded |
| EntryKeys.UnencodableIsMisread | modelexpress_server/src/registry/entry_key.rs:128-202 | Outside that condition the key is read back as another entry |
| EntryKeys.KeySpelling | modelexpress_server/src/registry/entry_key.rs:177-202 | The spelling of every key, and that a name which begins like a prefix is never bare |
| EntryKeys.MalformedKeysAreNames | modelexpress_server/src/registry/entry_key.rs:128-162 | A key without all fields, or with a tenant that is none, is read as a bare model name |
| EntryKeys.RefusedRevisions | modelexpress_common/src/providers.rs:52-66 | What no revision may be or contain, whatever stands around it |
| EntryKeys.RefusedParts | modelexpress_common/src/providers.rs:62-64 | No part between slashes may be empty, begin with a dot or end in ".lock" |
| EntryKeys.PlainRevisions | modelexpress_common/src/providers.rs:52-66 | Every commit hash and every plain word is a revision |
| TokenCache.TokenProvider.constructor | modelexpress_client/src/auth.rs:33-48 | Starts with nothing cached |
| TokenCache.TokenProvider.Token | modelexpress_client/src/auth.rs:50-95 | Age, then modification time, then contents: the new cache and the result in each case, failures included |
| TokenCache.StepsAreOneCall | modelexpress_client/src/auth.rs:50-95 | The steps of the interleavings, taken one after the other, leave the cache and return the token that the call does |
| Text.TrimSplits | modelexpress_client/src/auth.rs:70-71 | A string is white space, then its trimming, then white space |
| Text.TrimPadded | modelexpress_client/src/auth.rs:70-71 | White space around a string does not change its trimming |
| TokenCache.TokenProvider.WarnOnce | modelexpress_client/src/auth.rs:97-102 | Warns only when no warning is pending |
| TokenCache.RunsKeepInv | modelexpress_client/src/auth.rs:50-95 | Every interleaving in which no write puts another token under the cached modification time keeps the invariant |
| TokenCache.ReturnedTokensAreFresh | modelexpress_client/src/auth.rs:50-95 | In every such run a returned token was the file's token at some instant no earlier than the caller's clock reading less the time to live |
| TokenCache.FreshMtimesAreNoticeable | modelexpress_client/src/auth.rs:62-68 | Modification times that never repeat, increasing ones among them, meet that condition in every run |
| TokenCache.RewriteServedStaleIff | modelexpress_client/src/auth.rs:62-68 | After a rewrite with another token the next caller past the time to live gets the old one, out of bounds, exactly when the new modification time equals the cached one; otherwise it reads the new token |
| TokenCache.FreshWhileUnwrittenIff | modelexpress_client/src/auth.rs:50-95 | Between calls, everything served until the next write is fresh if and only if the cache agrees with the file under the same modification time |
| TokenCache.WriteIsHarmlessIff | modelexpress_client/src/auth.rs:50-95 | A write leaves everything served until the next write fresh if and only if it does not put another token under the cached modification time |
| ConnectRetry.Connect | modelexpress_client/src/lib.rs:884-921 | Pauses total at most the budget, attempts are bounded, a retryable failure is given up on only once the budget has elapsed, all elapsed time is accounted for, and a silent server is tried exactly as often as the pauses need, which over 1750 ms is the bound |
| ConnectRetry.AttemptsWithin | modelexpress_client/src/lib.rs:895-921 | At most 4 + ceil(max(0, W - 1750 ms) / 2000 ms) attempts |
| ConnectRetry.SilentAttempts | modelexpress_client/src/lib.rs:895-921 | Against a server that never answers and costs no time the pauses use up the budget, and over 1750 ms the attempts are exactly the bound |

## Left out

- gRPC, TLS, tokio scheduling, logging, metrics and configuration loading: only atomic steps and their results are modelled.
- Failures of the client's disk, a file and a directory contending for one path, canonicalisation and symbolic links below the model directory.
- Names that are not valid UTF-8, and I/O errors while a manifest is built; the tree does not change during a build.
- SHA-256, JSON serialisation, sealing and the wire form of manifests.
- The Redis and Kubernetes registry backends; the in-memory one gives the contract that the download protocol uses, with fresh claim ids.
- Hugging Face blob sharing between snapshots, and more than one provider for one tenant and model.
- `set_status_and_notify`, which only tests call, and the contents of the waiters' channels.
- The whole-call concurrency of evictions: a run interleaves complete evictions, and `DeleteOnListing` covers the one gap between listing and deletion.
- The classes of the download protocol and of the token file's writers: their interleavings are modelled on values, so aliasing between replicas is not an issue there.
- Stale reads in the operator: each reconcile reads the live resource. With an older snapshot that still shows the finalizer the patch is skipped, and the finalizer results then say nothing.
- Several cache directories in `Eviction`: it has one disk beside the registry, where `Claims` has one for each replica, so an eviction's effect on other replicas' files is not modelled.
- Other resources the operator applies, apart from whether applying them succeeded; a patch of a missing server answers 404, as the code expects.
- Lease timing margins, and agreement between the first terminal message of a status stream and the final status.
- Peer-to-peer transfer, refit, provider downloaders, TLS profiles and the schema of the custom resources.
- Lru.SelectForEviction: takes one cutoff, where the source reads the clock once per model.
