# SMB client and server: a verified model

This project models the stateful core of a Go SMB2/3 client and server and proves what it keeps over
whole runs. `dafny verify dfyconfig.toml` checks the whole project.

* **Client connection pool.** `ConnectionPool` holds the locked sections of get, put, createConnection,
  Close and cleanup with their in-place slice edits. `PoolProtocol` lets any number of callers interleave
  at those sections, with one-slot waiter channels, creations in flight, timeouts and cancellations.
* **Metadata cache over a file system.** `MetadataCache` (maps, order list, eviction), `Backend` (the
  share's file map), `Paths` (path normalisation), and `CachedFileSystem`, where every answer given
  through the cache is compared with the answer given without it.
* **Server.** `HandleMap` (open files, their index by path, sharing), `HandleRelease` (releases that
  interleave), `OpenRace` (CREATEs that interleave), `ShareFiles` (CREATE, CLOSE, WRITE, SET_INFO on one
  share), `Server` (sessions, trees, logoff, expiry), `ServerLaws` (what each request means), `ServerRace` (file commands that interleave with
  other requests) and `ServerRuns` (runs in which the server's promises end).
* **Wire formats.** `Bytes`, `Utf16`, `Spnego`, `Cmac`, `Preauth`, `Framing`, `DirectoryChain`,
  `Directory`, `DirectoryIndex`. The block cipher and the hash functions are arbitrary functions.

State that the program updates in place is held by classes (`SharedPool`, `Store`, `FileSystem`,
`FileHandleMap`, `ServedShare`, `SmbServer`, `DirectoryHandle`, `Connection`, `ByteWriter`); each method is proved equal
to a step function, and the theorems over runs are about those functions. Interleavings and failures of
the outside world (iteration order of Go maps, the clock, random identifiers, failing file system calls,
the authenticator's verdict) are parameters of the steps, so every theorem holds for all of them.

## Where the code and its description differ

The code is followed, and the difference is proved.

* `get` removes from the slice it ranges over. `SweepPanicsIff` gives the exact condition under which it
  slices out of range, `SweepPanicRun` a run of ordinary calls that does; `PoolIsSafe` shows it is the
  only way a step of the pool goes wrong.
* For the same reason `get` can overlook a usable idle connection and create another (`SweepFoundIff`,
  `GetOverlooksRun`).
* `put` counts the returned connection among the idle ones, so at most MaxIdle - 1 connections stay idle
  (`KeptIdleIff`, and `Balanced` in `PoolProtocol`).
* A timed-out caller stays queued, and a connection sent to it is lost (`StrandingRun`, `StrandedForever`);
  `StrandsIff` says exactly which steps lose a connection.
* A creation that fails frees a slot but wakes no queued caller (`StaysFullIff`, `WaitingBesideRoomRun`).
* `cleanup` keeps a connection that is exactly as old as the idle timeout, `get` closes it
  (`KeptYetExpired`).
* Renaming a directory leaves the cached entries below it (`RenameKeepsAgreementIff`), so a Stat, the
  rename and the same Stat again answer wrongly (`DirectoryRenameGoesStale`).
* The sharing check reads access masks as they came, WRITE maps generic rights first
  (`GenericWritersCollide`, `EffectiveIff`).
* The sharing check and the allocation of a handle are separate, so two concurrent CREATEs can both pass
  (`TwoCreatesRace`, `AllocateSafeIff`).
* A read-only share still deletes a delete-on-close file at CLOSE (`ReadOnlyLosesFile`, `ReadOnlyStepIff`).
* No handler refreshes a session's last activity after SESSION_SETUP, so a busy session expires
  (`BusySessionExpiresIff`, `BusySessionRun`).
* Tree IDs come round after 2^32 connections and then take a tree away from under its open files
  (`ConnectKeepsIff`, `TreeCounterRun`).
* A CREATE validates its tree before it works on the share; if the tree goes in between, the handle is an
  orphan (`FinishKeepsIff`, `LateCreateRun`).
* The pre-authentication hash judges a SESSION_SETUP request by the session and its response by the
  status, so a failed re-authentication adds its response alone (`ReauthenticationSkipsRequest`,
  `ReauthenticationRun`).
* A client that starts with an SMB1 negotiate adds a link to the pre-authentication hash
  (`Smb1UpgradeAddsLink`).
* FileIndex and FileId grow by two per directory entry, because the loop adds two counters that both
  advance (`FileIndexIff`). They can repeat (`FileIndexCollides`), and are unique over a run exactly when
  no two of its pages clash, which a client can tell from their sizes (`FileIndexesDistinctIff`).

## Model

| member | source | states |
|---|---|---|
| `ConnectionPool.SweepPanicsIff` | connection.go:66-81 | the sweep of get slices out of range if and only if the last connection is idle and expired, another idle one stands before it, and the walk that skips after removals meets no fresh one |
| `ConnectionPool.SweepFoundIff` | connection.go:66-75 | the sweep finds a connection if and only if the last one is idle and fresh or the walk that skips after removals meets a fresh one |
| `ConnectionPool.SweepFinds` | connection.go:66-81 | what the sweep finds is the first usable connection that the skipping walk meets, or else the last, then usable; everything it took out of the list had expired |
| `ConnectionPool.SweepOverlooks` | connection.go:66-81 | a usable connection between an expired one and one in use is overlooked |
| `ConnectionPool.CloseGap` | connection.go:77-77 | the append that removes an element moves the rest down and leaves the last slot as it was |
| `ConnectionPool.SweepTrims` | connection.go:66-81 | the sweep only takes idle connections out, and what it finds is idle and still listed |
| `ConnectionPool.SweepSawAll` | connection.go:66-81 | a sweep that removes and finds nothing has seen only connections in use |
| `ConnectionPool.SweepSlice` | connection.go:66-81 | the loop over the aliased backing array, stale reads included, computes the sweep |
| `ConnectionPool.KeptMembers` | connection.go:327-339 | cleanup keeps exactly the connections that are in use or not expired |
| `ConnectionPool.KeptYetExpired` | connection.go:329-335 | a connection is kept by cleanup and closed by get if and only if it is idle and exactly as old as the timeout |
| `ConnectionPool.KeptTrims` | connection.go:327-339 | cleanup removes idle connections only and duplicates none |
| `ConnectionPool.CompactSlice` | connection.go:328-339 | the in-place compaction leaves exactly the kept connections, in order |
| `ConnectionPool.CountIdle` | connection.go:153-158 | put's loop counts the idle connections |
| `ConnectionPool.GotMeans` | connection.go:66-74 | get hands out a connection that was idle and fresh, now in use with its time renewed; the others stay or have expired |
| `ConnectionPool.GetOnClosed` | connection.go:60-63 | get on a closed pool is refused and changes nothing |
| `ConnectionPool.NotGotMeans` | connection.go:83-102 | get reserves or queues only after a fruitless sweep, reserves exactly while there is room, and drops expired connections only |
| `ConnectionPool.CreatedMeans` | connection.go:182-192 | a created connection is listed last, in use and used now |
| `ConnectionPool.PutMeans` | connection.go:140-170 | put serves the first waiter if there is one, else marks the connection idle and used now or drops it, and changes no other |
| `ConnectionPool.CancelMeans` | connection.go:111-120 | a cancelled caller is out of the queue and the others keep their places |
| `ConnectionPool.CleanupMeans` | connection.go:319-340 | after cleanup the list holds exactly the connections in use or within the timeout, and numOpen has followed |
| `ConnectionPool.CloseMeans` | connection.go:287-316 | Close empties an open pool and hands out its whole queue; a closed pool stays as it is |
| `ConnectionPool.SharedPool.Get` | connection.go:57-102 | get up to its unlock: refuse, take a fresh idle connection, reserve a creation, or queue a waiter |
| `ConnectionPool.SharedPool.Put` | connection.go:127-171 | put serves the first waiter, else keeps the connection idle, else drops it |
| `ConnectionPool.SharedPool.Close` | connection.go:287-316 | Close empties the pool once and hands out the channels it closes |
| `ConnectionPool.SharedPool.Cleanup` | connection.go:319-340 | cleanup under the lock: the expired idle connections leave, numOpen follows |
| `PoolProtocol.GetKeeps` | connection.go:57-102 | get keeps the books: open count, bounds, one owner per connection in use, no idle connection beside a waiter |
| `PoolProtocol.PutKeeps` | connection.go:127-171 | put keeps the books, and moves or gives up exactly the ownership of the returned connection |
| `PoolProtocol.CreatedKeeps` | connection.go:174-195 | a finished creation turns its reservation into a connection with a fresh owner |
| `PoolProtocol.CleanupKeeps` | connection.go:319-340 | cleanup keeps the books and every owner |
| `PoolProtocol.SendKeeps` | connection.go:143-150 | the channel at the head of the queue is empty and open, takes the connection, and stays ahead of those still queued |
| `PoolProtocol.CloseAllWorks` | connection.go:301-305 | Close closes every queued channel, none of which was closed or used before |
| `PoolProtocol.StepKeeps` | connection.go:57-340 | every step of every caller keeps the whole invariant, and goes wrong if and only if get's sweep does |
| `PoolProtocol.PoolIsSafe` | connection.go:57-340 | in every interleaving: numOpen is listed connections plus creations in flight and within MaxOpen, fewer than MaxIdle are idle, owners (borrowers and channels) are exactly the connections in use, once each; each channel has at most one event; service is first come first served; nothing is idle while someone waits; no send blocks or meets a closed channel |
| `PoolProtocol.GotIsUsable` | connection.go:57-74 | in every run what get hands out was listed, idle, fresh and nobody's, and is now in use with its time renewed |
| `PoolProtocol.CloseWakesQueue` | connection.go:301-305 | Close closes the channel of every queued caller and no other, and a caller waiting there returns at its next receive |
| `PoolProtocol.LeaveMeans` | connection.go:110-120 | a caller that leaves is out of the queue, and the others stay in it |
| `PoolProtocol.ReceiveMeans` | connection.go:104-109 | a caller that receives a connection holds it, and its channel is empty |
| `PoolProtocol.GiveUpMeans` | connection.go:110-123 | a caller that times out returns and stays queued; one whose context ends is queued until it has left |
| `PoolProtocol.KeptIdleIff` | connection.go:152-170 | put keeps a connection idle if and only if nobody waits and fewer than MaxIdle - 1 are idle |
| `PoolProtocol.SweepPanicRun` | connection.go:66-81 | two callers that borrow, put back and let their connections expire make the next get slice out of range |
| `PoolProtocol.GetOverlooksRun` | connection.go:66-86 | after a run of ordinary calls get reserves a new connection although an idle one is usable |
| `PoolProtocol.StrandsIff` | connection.go:110-123 | a step strands a connection in a channel if and only if it is a put whose first queued caller has returned or is leaving, or a caller's time-out or cancellation with its channel already full |
| `PoolProtocol.PutStrandsIff` | connection.go:143-150 | a put to a queue strands its connection if and only if the caller at the head has returned or is leaving |
| `PoolProtocol.StrandingRun` | connection.go:121-122 | a run of five ordinary steps ends with the only connection in the channel of a caller that has timed out |
| `PoolProtocol.StrandedForever` | connection.go:121-122 | a stranded connection stays in its channel in every continuation and, until the pool is closed, counts as open and in use |
| `PoolProtocol.StaysFullIff` | connection.go:83-102 | callers queue only while the pool is full, and a step breaks this if and only if it is a failed creation under a queue |
| `PoolProtocol.WaitingBesideRoomRun` | connection.go:88-94 | after a failed creation a caller waits for a pool that is empty |
| `MetadataCache.OrderIsRecency` | cache.go:193-222 | in every history the order list is duplicate-free, covers every cached path, and is a suffix of the recency order of all stores, so eviction took the least recently stored |
| `MetadataCache.EvictedSize` | cache.go:207-222 | evicting n paths frees at least n entries less the popped paths that were already invalidated |
| `MetadataCache.StoreBound` | cache.go:102-117 | after any store under a positive limit the total exceeds it by at most the already-invalidated paths popped |
| `MetadataCache.EvictsOnlySurplus` | cache.go:207-222 | a store evicts one path per entry above the limit, oldest first, and no more; all other entries stay |
| `MetadataCache.TrackMeans` | cache.go:193-204 | a stored path goes to the end and the others keep their order |
| `MetadataCache.StoredMeans` | cache.go:102-157 | a store puts its value with its time under its path and changes no other entry |
| `MetadataCache.InvalidateMeans` | cache.go:161-176 | an invalidation drops the path's info and listing and its parent's listing, and nothing else |
| `MetadataCache.ServedStatIff` | cache.go:120-139 | in every history an info is served if and only if caching is on, it is held and no older than its time to live; it is the one last stored and not dropped since |
| `MetadataCache.ServedDirIff` | cache.go:80-99 | the same for listings, which a drop of a child takes away too |
| `MetadataCache.Store.TrackAccess` | cache.go:193-204 | a stored path moves to the end of the order |
| `MetadataCache.Store.Evict` | cache.go:207-222 | the eviction loop drops the oldest paths until the limit holds or the order is empty |
| `MetadataCache.Store.PutDirEntries` | cache.go:102-117 | a listing is stored with its expiry, tracked, and room is made |
| `MetadataCache.Store.PutStatInfo` | cache.go:142-157 | a file info is stored with its expiry, tracked, and room is made |
| `MetadataCache.Store.GetParentPath` | cache.go:225-241 | the backward scan gives everything before the last separator, the root for the rest |
| `MetadataCache.Store.InvalidatePath` | cache.go:161-176 | the path's listing and info and its parent's listing are dropped |
| `Backend.ChildIffParent` | mock_smb.go:788-846 | the backend's direct-child test holds if and only if the directory is the cache's parent of the path |
| `Backend.Readdir` | mock_smb.go:788-846 | visiting the file map in any order and sorting by name gives the one listing of the direct children, strictly increasing by name |
| `Backend.ListingByName` | mock_smb.go:788-846 | a listing is sorted by name and holds each child once |
| `Backend.ListingMeans` | mock_smb.go:788-846 | a listing holds exactly the direct children, each with its own name, size, mode, time and type |
| `Backend.RenameMeans` | mock_smb.go:494-542 | a directory renamed to an unrelated free path arrives with everything below it, contents, modes, times and types kept, under new names; all else stays and nothing else is there |
| `Backend.RenameFileMeans` | mock_smb.go:494-542 | a renamed file moves alone |
| `Backend.RenameRefuses` | mock_smb.go:514-522 | a rename is refused if and only if the source is missing or the target exists, with the error of each |
| `Backend.MkdirMeans` | mock_smb.go:410-453 | Mkdir makes one empty directory in an existing directory, and otherwise refuses |
| `Backend.WithDirBitMeans` | mock_smb.go:410-453 | a directory mode has the directory bit and otherwise the bits asked for |
| `Backend.RemoveMeans` | mock_smb.go:456-491 | Remove takes one path away, and refuses exactly a missing one and a directory with something below it |
| `Backend.ChmodMeans` | mock_smb.go:545-577 | Chmod changes one mode and keeps directories directories |
| `Backend.ChtimesMeans` | mock_smb.go:580-606 | Chtimes changes one modification time |
| `CachedFileSystem.KeyOfNormalized` | filesystem.go:118-160 | the backend finds a normalised path under that very path |
| `CachedFileSystem.InvalidateRestores` | cache.go:161-176 | invalidating a changed path restores agreement of the whole cache with the changed files |
| `CachedFileSystem.StepTransparent` | filesystem.go:118-233 | one call answers and changes files exactly as without the cache, and keeps agreement |
| `CachedFileSystem.CacheIsTransparent` | filesystem.go:118-419 | over every run of Stat, ReadDir, Mkdir, Remove, Chmod, Chtimes and Rename of files and empty directories, with any clock, limits and eviction, every answer is the one given with the cache disabled |
| `CachedFileSystem.OneStatGoesStale` | filesystem.go:355-357 | an entry cached below a renamed directory survives both invalidations, while the file has gone |
| `CachedFileSystem.RenameKeepsAgreementIff` | filesystem.go:330-360 | a rename keeps every agreeing cache that meets the cache's own invariant in agreement if and only if no directory with something below it moves |
| `CachedFileSystem.DirectoryRenameGoesStale` | filesystem.go:330-360 | after a Stat below a directory and a rename of the directory, the same Stat answers with the old information through the cache and with NotExist without it |
| `CachedFileSystem.StatAnswer` | filesystem.go:118-160 | through any agreeing cache Stat answers with the file's name, size, mode, time and type, or NotExist |
| `CachedFileSystem.ReadDirAnswer` | filesystem.go:168-207 | through any agreeing cache ReadDir answers with the listing, or says why not |
| `CachedFileSystem.ChangeAnswer` | filesystem.go:210-419 | Mkdir, Remove, Chmod and Chtimes do to the files what the backend does and answer its errors |
| `CachedFileSystem.StatAfterChange` | filesystem.go:210-419 | what a Stat answers after each successful change |
| `CachedFileSystem.RenameAnswer` | filesystem.go:330-360 | Rename does to the files what the backend does and answers its errors |
| `CachedFileSystem.InvalidAnswer` | filesystem.go:118-419 | a path that validation refuses changes nothing |
| `CachedFileSystem.RenamedIsFound` | filesystem.go:330-360 | after a directory is renamed, a Stat below its new path answers what the file had, under its new name, whatever the cache held |
| `CachedFileSystem.FileSystem.Stat` | filesystem.go:118-160 | Stat asks the cache, then the backend, and stores what it learned |
| `CachedFileSystem.FileSystem.ReadDir` | filesystem.go:168-207 | ReadDir asks the cache, then lists the directory; an empty one surfaces as end of file |
| `CachedFileSystem.FileSystem.Mkdir` | filesystem.go:210-233 | Mkdir changes the backend and, on success, invalidates its path |
| `CachedFileSystem.FileSystem.Remove` | filesystem.go:264-287 | Remove changes the backend and, on success, invalidates its path |
| `CachedFileSystem.FileSystem.Rename` | filesystem.go:330-360 | Rename changes the backend and, on success, invalidates both paths |
| `CachedFileSystem.FileSystem.Chmod` | filesystem.go:363-386 | Chmod changes the backend and, on success, invalidates its path |
| `CachedFileSystem.FileSystem.Chtimes` | filesystem.go:396-419 | Chtimes changes the backend and, on success, invalidates its path |
| `Paths.NormalizeIsCanonical` | path.go:25-53 | every accepted path normalises to an absolute one without backslashes and without empty, dot or dot-dot components |
| `Paths.NormalizeIsIdempotent` | path.go:25-53 | normalising twice is normalising once |
| `Paths.NormalizeStaysValid` | path.go:86-106 | a normalised path is still accepted |
| `Paths.SmbPathRoundTrip` | path.go:110-131 | fromSMBPath recovers a canonical path from its SMB form |
| `Paths.NormalizeLeadsThere` | path.go:25-53 | a normalised path leads to the same place as the path, followed step by step, up to the case of letters |
| `Paths.FromSmbLeadsThere` | path.go:121-131 | a path from the server leads to the same place as its SMB form, for every string |
| `Paths.ToSmbMeans` | path.go:110-118 | the SMB form has the same characters without the leading slash, backslashes for slashes |
| `Paths.ValidateIff` | path.go:86-106 | refused are exactly the empty path, paths with a NUL and paths that keep a component starting with two dots |
| `Paths.LowerAsciiIsCaseMapping` | path.go:25-53 | ASCII lower-casing is one of the case mappings the theorems hold for |
| `HandleMap.CheckShareCompatibility` | file_handle_map.go:226-250 | the six tests hold if and only if each open permits the other's access |
| `HandleMap.PermitsTable` | file_handle_map.go:226-250 | reading, writing and deleting each ask for their own share bit, and other rights for none |
| `HandleMap.GenericTable` | smb2_file.go:619-646 | the rights that the four generic bits stand for |
| `HandleMap.SpelledStays` | smb2_file.go:619-646 | a mask without generic bits stands for itself |
| `HandleMap.GroupingUnique` | file_handle_map.go:30-35 | the handles alone determine the index by path: at most one map is their grouping |
| `HandleMap.AllocatedIndexed` | file_handle_map.go:47-86 | an allocation takes an unused FileID and keeps the index the grouping of the handles |
| `HandleMap.ReleasedIndexed` | file_handle_map.go:120-142 | a release takes out one handle and keeps the index the grouping, without empty buckets |
| `HandleMap.DroppedIndexed` | file_handle_map.go:152-189 | a bulk release keeps the index the grouping |
| `HandleMap.OrderOfReleaseIsIrrelevant` | file_handle_map.go:152-189 | releasing the matching handles one by one gives the same table in every iteration order |
| `HandleMap.AllocatedMeans` | file_handle_map.go:47-86 | an allocation adds one handle and changes no other |
| `HandleMap.DroppedMeans` | file_handle_map.go:152-189 | a bulk release takes out exactly the handles it asks for |
| `HandleMap.MatchesMeans` | file_handle_map.go:152-189 | a release by session asks for the session's handles, one by tree for those of the session and the tree |
| `HandleMap.FlaggedMeans` | file_handle_map.go:263-270 | the flag asked for is set, on that handle alone |
| `HandleMap.ShareAllowedIff` | file_handle_map.go:211-223 | the check through the index sees every handle open on the path, and nothing else |
| `HandleMap.StepSafe` | smb2_file.go:80-84 | opening after the check, and any release, keeps handles on one path mutually compatible |
| `HandleMap.ShareModesHold` | file_handle_map.go:47-250 | in every run the index is the grouping and any two handles on one path are compatible |
| `HandleMap.PermitsMapped` | smb2_file.go:619-646 | the rights a mask stands for are permitted if and only if the raw mask is and no generic bit hides an unshared right |
| `HandleMap.EffectiveIff` | smb2_file.go:619-646 | two opens that pass the check are compatible in what they may really do if and only if neither hides a right |
| `HandleMap.GenericWritersCollide` | file_handle_map.go:226-250 | two GENERIC_WRITE opens that share nothing both pass the check |
| `HandleMap.EffectiveModesHold` | file_handle_map.go:211-250 | in every run without generic rights, handles on one path are compatible in what they may really do |
| `HandleMap.FileHandleMap.Allocate` | file_handle_map.go:47-86 | a new handle under the next volatile ID, added to handles and to its path's bucket |
| `HandleMap.FileHandleMap.GetByTree` | file_handle_map.go:108-117 | a handle is found if and only if it belongs to the tree and session |
| `HandleMap.FileHandleMap.Release` | file_handle_map.go:120-149 | the handle leaves both maps, an emptied bucket goes, and a file is closed if and only if the handle was there |
| `HandleMap.FileHandleMap.ReleaseByTree` | file_handle_map.go:172-189 | exactly the handles of the tree and session are gone |
| `HandleMap.FileHandleMap.ReleaseBySession` | file_handle_map.go:152-169 | exactly the handles of the session are gone |
| `HandleMap.FileHandleMap.SetDeleteOnClose` | file_handle_map.go:263-270 | sets the flag of a handle that is there |
| `HandleMap.FileHandleMap.CheckShareAccess` | file_handle_map.go:211-223 | true if and only if every handle open on the path is compatible with the request |
| `HandleMap.RemoveFirst` | file_handle_map.go:131-137 | the search loop removes the handle from its bucket |
| `HandleRelease.StepKeeps` | file_handle_map.go:120-189 | every step of interleaved allocations and releases keeps each opened file in exactly one place: in the table, about to be closed, or closed |
| `HandleRelease.ClosedAtMostOnce` | file_handle_map.go:120-149 | in every interleaving a file is closed at most once and only when no handle leads to it |
| `HandleRelease.ClosedExactlyOnce` | file_handle_map.go:120-189 | once the table is empty and no close is outstanding, every file opened was closed exactly once |
| `HandleRelease.ReleaseThenClose` | file_handle_map.go:120-149 | a released handle is gone at once, and its file is closed when the close is carried out |
| `HandleRelease.ProceedTakesOnly` | file_handle_map.go:152-189 | a bulk release takes out only handles that match it and were allocated before its list was copied |
| `HandleRelease.LaterIsUnlisted` | file_handle_map.go:152-160 | a handle allocated after every list was copied is on none of them |
| `HandleRelease.StaleListsSpare` | file_handle_map.go:152-189 | a handle on no list survives any continuation that neither releases it by name nor starts a bulk release that asks for it |
| `OpenRace.StepKeeps` | file_handle_map.go:47-250 | in every interleaving a checked open stays compatible with every handle that was on its path when it was checked |
| `OpenRace.AllocateSafeIff` | smb2_file.go:80-239 | an allocation keeps handles on one path compatible if and only if no incompatible handle came in since the check |
| `OpenRace.InterleavedSafe` | smb2_file.go:80-239 | interleaved runs in which nobody is overtaken keep handles on one path compatible |
| `OpenRace.TwoCreatesRace` | smb2_file.go:80-239 | two CREATEs of one path that are both checked before either allocates both get handles, and are safe if and only if they are compatible |
| `ShareFiles.FileName` | smb2_file.go:56-63 | a request's name becomes a non-empty path without backslashes |
| `ShareFiles.FileNameMeans` | smb2_file.go:56-63 | the name is the request's without one leading separator, slashes for backslashes, and the root if nothing is left |
| `ShareFiles.CreateMeans` | smb2_file.go:86-244 | a successful CREATE reports the action of the disposition table: CREATED if and only if the name was absent, OVERWRITTEN or SUPERSEDED when an existing file was emptied, OPENED when nothing changed; through a read-only tree only OPENED; one new handle, the caller's |
| `ShareFiles.NewHandleMeans` | smb2_file.go:228-244 | the new handle carries the access, share mode, owner and delete-on-close option of the request, on a node of the kind asked for; no other handle changes |
| `ShareFiles.CreateStatusIff` | smb2_file.go:80-213 | the status of every refused CREATE, each if and only if |
| `ShareFiles.ApplyIs` | smb2_handlers.go:72-94 | every command goes to its own handler |
| `ShareFiles.CreateFails` | smb2_file.go:80-226 | a failed CREATE opens nothing and changes files only after a half-done file system call, at that name |
| `ShareFiles.CreateSucceedsIff` | smb2_file.go:80-213 | with a file system that does not fail, exactly the requests succeed that share, that the disposition table allows, that do not change a read-only tree and that fit the node's type |
| `ShareFiles.ApplyKeeps` | smb2_file.go:80-345 | every file command keeps the table indexed and its opens compatible, and adds handles of the caller only |
| `ShareFiles.ReadOnlyChangesIff` | smb2_file.go:325-345 | through a read-only tree a command changes files if and only if it closes a delete-on-close handle of a removable file |
| `ShareFiles.ReadOnlyLosesFile` | smb2_file.go:325-345 | opening with FILE_DELETE_ON_CLOSE and closing deletes a file through a read-only tree |
| `ShareFiles.WriteMeans` | smb2_file.go:505-551 | WRITE succeeds if and only if the handle is the caller's, the tree writable, the access asked for and the file system willing; the data then stands at the offset, no other file changes, and without those gates none does |
| `ShareFiles.WrittenMeans` | smb2_file.go:536-545 | a written file holds the data at the offset, and elsewhere what it held, or zeros |
| `ShareFiles.WriteCut` | smb2_file.go:544-549 | a write that fails half way has written what it got to, and no more |
| `ShareFiles.CloseMeans` | smb2_file.go:309-345 | CLOSE succeeds if and only if the handle is the caller's, which alone leaves the table; a file goes if and only if that handle had delete-on-close, the removal succeeds and the path is there, and then that path alone |
| `ShareFiles.SetInfoMeans` | smb2_info.go:405-440 | SET_INFO succeeds if and only if the handle is the caller's and the tree writable; it sets the flag asked for on that handle, or resizes that file |
| `ShareFiles.ResizedMeans` | smb2_info.go:583-603 | a resized file has the length asked for and holds what it held, or zeros |
| `ShareFiles.MayWriteIff` | smb2_file.go:516-521 | write access comes from FILE_WRITE_DATA, FILE_APPEND_DATA, GENERIC_WRITE or GENERIC_ALL |
| `ShareFiles.ServedShare.Dispose` | smb2_file.go:92-213 | the switch, in its own order of tests, refuses and acts as the disposition table says |
| `ShareFiles.ServedShare.HandleCreate` | smb2_file.go:75-244 | CREATE: sharing check, disposition, allocation, delete-on-close |
| `ShareFiles.ServedShare.HandleClose` | smb2_file.go:309-345 | CLOSE: release, then removal if the handle asked for it |
| `ShareFiles.ServedShare.HandleWrite` | smb2_file.go:505-551 | WRITE: handle, read-only and access gates, then the data at the offset |
| `ShareFiles.ServedShare.HandleSetInfo` | smb2_info.go:405-440 | SET_INFO: handle and read-only gates before disposition or end of file |
| `Server.SetupKeeps` | smb2_session.go:65-164 | SESSION_SETUP, new or continued, accepted, challenged or rejected, orphans no handle when the new ID is unused |
| `Server.ConnectKeepsIff` | session_manager.go:216-234 | a new tree orphans handles if and only if the 32-bit counter gives it the ID of a tree on another share with something open |
| `Server.DisconnectKeeps` | smb2_tree.go:126-141 | TREE_DISCONNECT leaves no handle of the tree |
| `Server.LogoffKeeps` | smb2_session.go:237-254 | LOGOFF, in any order of the trees, leaves no handle of the session |
| `Server.LogoffClosesAll` | smb2_session.go:237-254 | after LOGOFF no share holds a handle of the session |
| `Server.ExpireKeeps` | server.go:495-503 | expiry leaves no handle of an expired session in any share |
| `Server.CommandKeeps` | smb2_handlers.go:157-179 | a file command runs only through a live tree and allocates under it |
| `Server.StepKeeps` | smb2_handlers.go:21-110 | every request keeps the server invariant |
| `Server.NoOrphanHandles` | session_manager.go:76-251 | after any run every handle names a live, authenticated session and a live tree of it whose share is that very share, and opens on one path are compatible |
| `Server.NoOrphansInShortRuns` | session_manager.go:216-234 | in runs shorter than the range of tree IDs, unused random session IDs are the only assumption |
| `ServerLaws.SetupReply` | smb2_session.go:113-205 | SESSION_SETUP answers SUCCESS, LOGON_FAILURE or MORE_PROCESSING_REQUIRED if and only if the authenticator accepts, rejects or challenges |
| `ServerLaws.SetupMeans` | smb2_session.go:65-164 | rejection leaves the sessions as they were, a challenge at most adds an unauthenticated one, acceptance makes exactly the target valid now with the trees it had |
| `ServerLaws.ValidByAccepted` | session_manager.go:203-213 | a session becomes valid only by an accepted SESSION_SETUP for it |
| `ServerLaws.OnlyAuthenticated` | session_manager.go:128-140 | after any run every live session, and the session of every open handle, was accepted in that run |
| `ServerLaws.ConnectMeans` | smb2_tree.go:23-80 | TREE_CONNECT succeeds if and only if the session is live, the share exists and the user is allowed; it adds one tree with the share's read-only option |
| `ServerLaws.TreesWereAllowed` | smb2_tree.go:69-75 | every tree of a run was allowed by a TREE_CONNECT of that run |
| `ServerLaws.DisconnectMeans` | smb2_tree.go:126-141 | TREE_DISCONNECT takes away the tree and exactly the handles opened through it |
| `ServerLaws.LogoffMeans` | smb2_session.go:210-254 | LOGOFF takes away the session and exactly its handles |
| `ServerLaws.ExpireMeans` | server.go:495-503 | expiry takes away exactly the sessions last active before the cutoff and exactly their handles |
| `ServerLaws.CommandMeans` | smb2_handlers.go:157-179 | a file command reaches the share of its live tree, with that share's read-only option, and nothing else |
| `Server.ReadOnlyStepIff` | smb2_file.go:325-345 | a step changes a read-only share's files if and only if it closes a delete-on-close handle on it |
| `Server.ReadOnlyFilesNeverChange` | smb2_file.go:92-213 | over any run without FILE_DELETE_ON_CLOSE a read-only share's files never change |
| `Server.ActivityIsSetupTime` | session_manager.go:203-213 | nothing but SESSION_SETUP moves a session's last activity |
| `Server.BusySessionExpiresIff` | session_manager.go:170-191 | after any run without SESSION_SETUP a session survives expiry if and only if its last set-up is not before the cutoff |
| `ServerRace.FinishKeepsIff` | smb2_file.go:15-244 | a validated command orphans a handle if and only if it is a CREATE that succeeds after its tree has gone from that share |
| `ServerRace.InterleavedKeeps` | smb2_file.go:15-244 | interleaved runs keep the server invariant as long as every successful CREATE finishes while its tree is live |
| `ServerRuns.BusySessionRun` | session_manager.go:170-191 | a session that is set up, connects and opens a file loses itself and its handle to the next expiry past its set-up |
| `ServerRuns.TreeCounterRun` | session_manager.go:216-234 | with a file open through tree 1, 2^32 - 1 further connections bring the counter back to 1, and the next one orphans the handle |
| `ServerRuns.LateCreateRun` | smb2_file.go:15-244 | a CREATE validated before LOGOFF and finished after it leaves an orphan |
| `Server.SmbServer.SetUpSession` | smb2_session.go:65-164 | finds or creates the session, asks the authenticator, validates or destroys it |
| `Server.SmbServer.ConnectTree` | smb2_tree.go:23-80 | checks session, share and user, then adds a tree under the next ID |
| `Server.SmbServer.LogOff` | smb2_session.go:210-254 | releases tree by tree, then destroys the session |
| `Server.SmbServer.CleanupExpired` | server.go:495-503 | removes the idle sessions, then releases their handles in every share |
| `Server.SmbServer.RemoveExpired` | session_manager.go:170-191 | exactly the sessions last active before the cutoff are removed and reported |
| `DirectoryChain.WriteEntry` | smb2_dir.go:139-187 | one turn of the loop: backpatch the previous link, append the record, pad to eight bytes |
| `DirectoryChain.PageGrows` | smb2_dir.go:139-187 | the loop's append and backpatch extend a chain of n records to the chain of n + 1 |
| `DirectoryChain.WalkChain` | smb2_dir.go:139-187 | following NextEntryOffset from 0 visits exactly the records written, each padded to eight bytes; the last link is 0 |
| `Directory.RecordRoundTrip` | smb2_dir.go:247-361 | a record of each information class decodes to its source entry in every field: index, name, times, sizes, attributes, EaSize, short name and FileId, whatever its link and padding |
| `Directory.PageRoundTrip` | smb2_dir.go:133-187 | the client's walk of a page shows its entries in order, and the last link is zero |
| `Directory.PageDelivers` | smb2_dir.go:133-195 | a page fits the client's length and tells the next entries of the listing in all their fields |
| `Directory.FillPage` | smb2_dir.go:133-187 | the loop, which numbers a record by the sum of two counters it both advances, packs exactly the entries that fit, or one if so asked |
| `Directory.NextPage` | smb2_dir.go:133-195 | a page, or BUFFER_OVERFLOW if not even one entry fits |
| `Directory.DirectoryHandle.QueryDirectory` | smb2_dir.go:80-195 | one call: its answer and the enumeration state it leaves |
| `Directory.PagingIsComplete` | smb2_dir.go:80-195 | over any sequence of calls the decoded pages concatenate to the first `position` entries of one listing, each with all that its class holds |
| `Directory.NoMoreFilesMeansAll` | smb2_dir.go:80-131 | NO_MORE_FILES means the whole listing was delivered, once, in order and in all its fields |
| `Directory.AnswersIff` | smb2_dir.go:139-195 | a page is answered if and only if the next entry fits |
| `Directory.CallAdvancesIff` | smb2_dir.go:80-195 | a call makes progress if and only if a listing is readable and not finished, the class is known, and its next entry fits |
| `Directory.SizesMean` | smb2_dir.go:247-361 | a file is reported with its size and the least multiple of 4096 that holds it, a directory with zero |
| `Directory.AnswerIff` | smb2_dir.go:108-146 | the answer of every call that delivers no page, each if and only if |
| `Directory.PageIsFull` | smb2_dir.go:139-184 | a page stops only at the end, after one entry if so asked, or before an entry that does not fit |
| `DirectoryIndex.FileIndexIff` | smb2_dir.go:139-176 | in a page from pos the entry at position pos + k gets FileIndex pos + 2k, which is its position if and only if it is the first |
| `DirectoryIndex.FileIndexCollides` | smb2_dir.go:139-176 | any three entries with names of one length, read in a page of two and a page of one, get FileIndex and FileId 2 twice |
| `DirectoryIndex.PagesShareIff` | smb2_dir.go:139-176 | two pages of one listing share an index if and only if the later starts at an even distance below twice the size of the earlier |
| `DirectoryIndex.PositionIsCount` | smb2_dir.go:139-195 | over any run the handle's position is the number of entries the client has counted |
| `DirectoryIndex.DeliveredIndexes` | smb2_dir.go:139-195 | the indexes read over a run are those computed from the sizes of its pages |
| `DirectoryIndex.FileIndexesDistinctIff` | smb2_dir.go:139-195 | over any run all indexes are different if and only if no two of its pages clash |
| `Cmac.ShiftIsDoubling` | smb2_signing.go:177-184 | shiftLeft on n bytes doubles the big-endian value modulo 2^(8n) |
| `Cmac.TopBit` | smb2_signing.go:152-174 | the first byte's top bit is the top bit of the value |
| `Cmac.ShiftLeft` | smb2_signing.go:177-184 | the loop with its carry writes the doubled value |
| `Cmac.XorBytes` | smb2_signing.go:187-191 | the in-place loop is bytewise exclusive or |
| `Cmac.NextSubkey` | smb2_signing.go:152-174 | the shift and conditional exclusive or give the subkey of section 2.3 of RFC 4493 |
| `Cmac.GenerateSubkeys` | smb2_signing.go:152-174 | K1 and K2 of section 2.3 of RFC 4493, for every block function |
| `Cmac.ChainBlocks` | smb2_signing.go:134-142 | the loop is the CBC chain of section 2.4 of RFC 4493 |
| `Cmac.LastBlock` | smb2_signing.go:95-149 | the last block is completed with K1 or padded and completed with K2 |
| `Cmac.ComputeAesCmac` | smb2_signing.go:95-149 | for every message length, key and block function the result is the MAC of section 2.4 of RFC 4493 |
| `Cmac.SubkeyMeans` | smb2_signing.go:152-174 | a subkey is the doubled string, with 0x87 added to its last byte when a bit was shifted out |
| `Cmac.LastInputMeans` | smb2_signing.go:109-132 | a full last block goes with K1, a shorter one is padded with 0x80 and zeros and goes with K2 |
| `Cmac.MacMeans` | smb2_signing.go:95-149 | the MAC of two blocks, of one and of the empty message, written out |
| `Cmac.ChainMore` | smb2_signing.go:134-142 | each further block goes through the cipher with the chain so far |
| `Cmac.XorTwice` | smb2_signing.go:187-191 | exclusive or undoes itself |
| `Cmac.FitKeyMeans` | smb2_signing.go:96-98 | a key is cut to 16 bytes or filled with zeros |
| `Preauth.RunState` | server.go:346-380 | at any moment of any connection, past any number of authentications, the hash is the chain over the messages the loop has fed to it |
| `Preauth.HashedIsTranscriptIff` | server.go:346-380 | the messages hashed are the whole transcript if and only if every NEGOTIATE and SESSION_SETUP is at dialect 3.1.1 and no SESSION_SETUP comes while a session is valid |
| `Preauth.DerivesFromHashed` | smb2_session.go:154-164 | on any 3.1.1 connection the key comes from the chain over what was hashed, with the last request if and only if no session is valid |
| `Preauth.ReauthenticationSkipsRequest` | server.go:346-380 | while a session is valid a failed SESSION_SETUP adds its response and not its request, and a successful one nothing |
| `Preauth.ReauthenticationRun` | server.go:346-380 | one authentication and a failed second one hash four messages, without the second request |
| `Preauth.DerivesFromTranscript` | smb2_session.go:154-164 | the hash given to the key derivation is the chain over every NEGOTIATE and SESSION_SETUP message up to the last request, without the success response |
| `Preauth.DialectThreshold` | server.go:374-379 | dialect 3.1.1 is the first to hash responses |
| `Preauth.Smb1UpgradeAddsLink` | server.go:435-449 | an SMB1 negotiate first adds an empty link to the hashed messages |
| `Preauth.Connection.Serve` | server.go:346-380 | one turn of the connection loop |
| `Preauth.Connection.ServeAll` | server.go:346-380 | a whole connection derives its key from the transcript |
| `Framing.HeaderRoundTrip` | smb2_types.go:203-243 | decoding an encoded header gives it back, under the protocol ID that Marshal forces |
| `Framing.HeaderAt` | smb2_types.go:203-219 | every field stands at its offset of section 2.2.1.2 of MS-SMB2, little-endian |
| `Framing.SignatureIgnoresItself` | smb2_signing.go:23-58 | a signature depends on no byte of 48 to 63 |
| `Framing.SignedVerifies` | smb2_signing.go:61-78 | a message carrying a signature verifies if and only if it is the one computed, and applying it alters no other byte |
| `Framing.VerifyMeans` | smb2_signing.go:61-78 | a signature verifies if and only if it is the MAC of its dialect over the message with zeros in its place |
| `Framing.Sign` | smb2_signing.go:23-58 | the signature over a zeroed copy, with the AES-CMAC loops from dialect 3.0 on and HMAC before |
| `Framing.WireSignature` | server.go:453-482 | bytes 48 to 63 on the wire are the AES-CMAC of the message with a zeroed signature from dialect 0x0300 on, the HMAC before, and the header's own without a key; no other byte differs |
| `Framing.FrameArrives` | server.go:386-431 | one written message is read back whole, and nothing of what follows is consumed |
| `Framing.StreamRoundTrip` | server.go:386-482 | any list of messages within the limit reads back in order with equal headers apart from the signature and equal payloads, and each signed one verifies |
| `Framing.BuildBuffer` | server.go:453-470 | the buffer is the NetBIOS header, the SMB2 header and the payload |
| `Framing.WriteMessage` | server.go:453-482 | appends one frame to the stream and returns the SMB2 bytes |
| `Framing.FrameMeans` | server.go:453-470 | a frame starts with a zero byte and the length in three bytes, big-endian |
| `Framing.ReadMessageIff` | server.go:386-431 | which streams give an SMB2 message, an SMB1 negotiate or an end of stream, and which bytes the message is made of |
| `Spnego.Asn1Wrap` | auth_ntlm.go:687-710 | tag, length in its short or long form, and contents |
| `Spnego.ExtractNtlm` | auth_ntlm.go:634-646 | the search returns the blob from the first signature on, or nothing if there is none |
| `Spnego.WrapperHidesNothing` | auth_ntlm.go:660-679 | no earlier position of the wrapped message matches the signature, across any tag and length bytes |
| `Spnego.WrapThenExtract` | auth_ntlm.go:634-679 | extraction from a wrapped message returns exactly the message if it is longer than the signature, else nothing |
| `Spnego.WrapReadable` | auth_ntlm.go:687-710 | a DER reader recovers tag and contents if and only if the length is below 65536 |
| `Spnego.DerRoundTrip` | auth_ntlm.go:660-679 | a reader of section 4.2.2 of RFC 4178 recovers state, mechanism and token |
| `Spnego.DerReadableIff` | auth_ntlm.go:660-679 | exactly the messages are readable whose every wrapped length is below 65536 |
| `Spnego.ConstantsMean` | auth_ntlm.go:634-679 | the NTLM signature, the object identifier 1.3.6.1.4.1.311.2.2.10 and accept-incomplete |
| `Utf16.UnitsRoundTrip` | smb2_encoding.go:12-39 | surrogate pairs decode to the scalar values they encode |
| `Utf16.RoundTrip` | smb2_encoding.go:12-39 | decoding an encoded string gives it back, less one final U+0000 |
| `Utf16.EncodeMeans` | smb2_encoding.go:12-19 | two bytes, low byte first, below U+10000; a high and then a low surrogate above |
| `Utf16.EncodeConcat` | smb2_encoding.go:12-19 | a string is the bytes of its scalar values in turn |
| `Utf16.UnpairedMeans` | smb2_encoding.go:22-39 | a surrogate without its partner decodes to U+FFFD |
| `Utf16.EncodeStringToUTF16LE` | smb2_encoding.go:12-19 | the packing loop gives the little-endian code units, which decode to the string |
| `Utf16.DecodeUTF16LEToString` | smb2_encoding.go:22-39 | the unpacking loop decodes whole units and drops one final zero |
| `Bytes.LERoundTrip` | smb2_encoding.go:107-134 | reading back a little-endian integer gives its value |
| `Bytes.LEByte` | smb2_encoding.go:193-211 | byte i of an integer on the wire is its digit of weight 256^i |
| `Bytes.FromBEFirst` | smb2_signing.go:177-184 | the first byte of a big-endian string has the highest weight |
| `Bytes.AlignIsLeast` | smb2_encoding.go:51-53 | AlignTo8 gives the least multiple of eight not below its argument |
| `Bytes.FieldsRoundTrip` | smb2_encoding.go:183-254 | a record of fixed-width fields decodes to its values |
| `Bytes.ByteWriter.SetUint32At` | smb2_encoding.go:250-254 | overwrites four bytes and nothing else |
| `Bytes.ByteWriter.WritePadTo8` | smb2_encoding.go:237-240 | appends zeros up to the next multiple of eight |

## Left out

- TCP, deadlines, the accept loop, goroutine start-up, logging, message parsing errors of the handlers (they change nothing), IOCTL, QUERY_INFO, READ, FLUSH, ECHO and share listing.
- AES, SHA-512 and HMAC themselves (arbitrary functions), the SP 800-108 key derivation, NTLM credential checking (the authenticator accepts, challenges or rejects), retry backoff, ParseConnectionString, configuration defaults, the go-smb2 and absfs wrappers.
- Pool: connections are identified by number instead of by pointer, the several clock readings of one call are one, and what happens to a connection closed in the background is not followed. Both ways of creating a connection are one step.
- Cache: cached infos are values, not live pointers; error injection, OpenFile with its implicit parent directories and writes through open files are not among the operations of the run; a pool connection is always obtained.
- CachedFileSystem.CacheIsTransparent: excludes renames of a directory with something below it, where the code does not invalidate; CachedFileSystem.RenameKeepsAgreementIff and CachedFileSystem.DirectoryRenameGoesStale say what happens there.
- Paths: the library's path cleaning is modelled by its documented rules, and lower-casing by any idempotent character mapping that leaves separators, dots and NUL alone.
- Directory: patterns other than `*`, the restart and index flags and reopening; positions there count matches and not entries.
- Handle numbers are unbounded (64 bits in the code). In `Server` each request is one step; requests interleave in `HandleRelease`, `OpenRace` and `ServerRace` only, and there at the points named in each.
- CachedFileSystem.RenameKeepsAgreementIff: leaves out a directory that moves into itself, and one with contents that moves to a path above it, because the backend's loop then changes the map it ranges over and its result depends on the iteration order.
- Sessions are values in the server's map; a connection's own pointer to a session that was destroyed is not followed. The client GUID is always zero in SESSION_SETUP, so the index by GUID stays empty and is not modelled.
- ShareFiles.ServedShare.HandleSetInfo: models disposition and end of file only; times and attributes are not part of a node, and a rename is left out with the next line.
- SET_INFO rename, which writes a handle's path behind the index, removal of shares, and the IPC$ share, which has no file system.
- Server.NoOrphanHandles: assumes that a new random session ID is not in use and that the tree counter has not come round; `Server.ConnectKeepsIff` and `Server.NoOrphansInShortRuns` say what the second means.
- ShareFiles.CreateMeans: takes the backing file system's Stat at its word, and names as the server passes them, without links or aliases.
