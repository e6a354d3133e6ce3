# A verified model of the LazyFS page cache

LazyFS is a FUSE file system that keeps every file twice: a volatile copy, made of cached blocks laid
over the disk file, which readers see, and the disk file, which a crash leaves. `fsync` makes the disk
file equal to what readers see; the clear-cache fault throws the cache away, as a crash would. Two more
faults let chosen writes, or parts of one write, reach the disk before the process is killed.

The project models that cache from the page slots up to the file operations, keeps the imperative form
of the source (classes, maps reassigned by methods, loops over blocks), and proves what the test program
of the repository (`tests/lfscheck`) looks for at random: over every run, readers see the volatile copy
and a crash brings back exactly the last durable one.

## Layers

- `Posix`, `Disk`: byte images and the calls LazyFS issues on the underlying files. `Pread`, `Pwrite` and
  `Ftruncate` have the meaning of the functions of those names in chapter 3, System Interfaces volume, of
  IEEE Std 1003.1-2017.
- `Overlay`: one file as cached blocks over a disk image. `Inv` is the key invariant: every resident block
  is readable to its end or to the end of file, and every byte below the end of file that is not in a dirty
  block is on disk as readers see it. `Logical` is what readers see. The steps of write, truncate and sync
  are proved here on values.
- `Slots`, `Page`: the slot allocator inside a page, for any number of blocks per page, and the page buffer.
- `EngineState`, `Engine`, `Counting`: the page engine, its free list and three owner indexes, the
  coalesced write-back, the unsynced report, and the count of pages.
- `Item`, `CacheState`, `Cache`: the second index, from inode and block to page and readable end, kept in
  agreement with the engine by every operation; names, removal, clear, checkpoint.
- `FileState`, `WriteStep`, `ReadStep`, `LazyFS`: the file operations and what each does to the two copies.
- `TwoCopy`, `Runs`: the promise (two copies per inode, and what each call does to them), runs of calls, and
  the driver that carries out a run on LazyFS and is proved to refine the promise.
- `TornSeq`, `TornOp`: the two fault schedulers.
- `Lru`: page replacement with eviction on. `Links`: hard-link counts.

The block size is an arbitrary constant of at least 2. Offsets and sizes are unbounded. Every operation is
one atomic step. Calls on the disk succeed and transfer all they can.

## What the proofs found

- `lfs_truncate` asks the cache to truncate the *path* (lazyfs/src/lazyfs.cpp:1826), under which nothing is
  ever cached. `LfsTruncate` takes a flag that chooses between that and the inode, and its contract is the
  same for both: growth writes zeros from the cached size, so what lies past it is never shown.
- `read` does not stop at the cached size. It does so exactly when it is asked for no more, or when no byte
  trails the end of file in the block read there (`Trails`); a file cut and not synced is the simplest
  counterexample, carried out as a run in `CutFileTrails`.
- Checkpoint flushes the inodes some known path leads to, and saves every file exactly when such a path leads
  to each whose disk file differs from what readers see. That is so in every run of reads and writes from
  mount on, but not once names are removed: a file of two names, looked up and written by one, which is then
  unlinked, keeps its dirty blocks and loses its only mapped path. A checkpoint does not save it, and after a
  clear the other name reads the old bytes (`CheckpointMisses`).
- What the path costs is seen by a read past the end: asked for the inode the cache gives up the bytes cut off,
  asked for the path it keeps them and the read answers them (`CutCachedFile`).
- When the cache is full a write puts some blocks in pages and others on disk. A crash then leaves a mixture,
  but no other byte than the one last saved at its place, zero in a hole, or one that readers saw there since
  (`CrashMixes`).
- The torn-seq promise holds of every trace exactly for lists that end with their greatest place, provided
  that is at least 2 or the list is just 1 (`PromisedExactly`). The empty list and lists like 0 or 1, 1 never
  arm the crash (`NeverArmsExactly`). Faults read from the configuration file are sorted but not freed of
  repetitions; faults added at run time are not sorted; the empty list passes `validate`
  (libs/libpcache/src/faults.cpp:35-50). When the configuration is read, the errors found by `validate` go
  into a variable that shadows the one tested (libs/libpcache/src/config/config.cpp:202-206), so places below 1
  get through, and the model puts no condition on the list or the occurrence.
- The repository's warning says that the bytes equal parts leave over are added to the last part; the code
  adds them to the last *listed* part. A torn-op fault amounts to the whole write exactly when its list is
  `Complete`: for instance all three parts listed as 3, 1, 2 lose the end of a write of ten bytes
  (`ListedOutOfOrder`).
- A list of part sizes that does not add up to the write does nothing, but with an empty `persist` the crash
  is armed all the same.
- Clearing the cache forgets one name of each cached inode and leaves its other names mapped, with no item
  behind them. Unlinking such a name before it is looked up again leaves it mapped; the name of a
  file with one name is forgotten by the clear and leaves nothing behind (`StaleAfterClear`, `ErasedNames`).
- A link or unlink through a name the cache does not know leaves the cached link count of the inode wrong
  whenever another name has made it an item; the contracts say exactly when.
- A rename of a name the cache does not know moves the name and leaves the cache alone. The count of the file
  renamed stays right; but a target name that is mapped goes on leading to the file it had, and one that is
  not may leave that file counted too high (`StaleAfterRename`, `RenameSafe`).

## Model

| member | source | states |
|---|---|---|
| Runs.MountAndDrive | tests/lfscheck/src/lfscheck.cpp:106-237 | From mounting over any disk, for any run of write, read, truncate, fsync, clear and checkpoint: if each call finds free pages for its new blocks at its own time, which `Roomy` tells beforehand exactly, the run ends in exactly the two copies promised, every read is answered from the volatile copy of its moment and the unsynced blocks are those written and not saved; file by file this needs room for the writes of that file alone; with no clear it holds for readers in any case; and whatever finds room, a durable copy stays until its file is saved or written without room, never gets a byte but those readers saw there since, and the blocks marked unsynced are those in the cache written and not saved since; and the unsynced-data report lists no file saved or dropped and not written since, and every file written with room and not saved since |
| Runs.Drive | lazyfs/src/lazyfs.cpp:946-1865 | The same from any state in which a known path leads to each file that differs from disk, and from any reachable state what happened is, step by step, a run allowed by the promise |
| Runs.Perform | lazyfs/src/lazyfs.cpp:946-1865 | One call of any kind: only a write or growing truncate without room may touch a durable copy, of its own file and byte by byte with what readers now see; the blocks held after it are those it keeps and those it wants, and unless all are in no page is left |
| Runs.DoWrite | lazyfs/src/lazyfs.cpp:946-1303 | write as a step of the two-copy file |
| Runs.DoRead | lazyfs/src/lazyfs.cpp:1305-1547 | read as a step of the two-copy file |
| Runs.DoTruncate | lazyfs/src/lazyfs.cpp:1720-1865 | truncate as a step of the two-copy file, by inode or by path; by inode it gives back the pages past the new end |
| Runs.DoFsync | lazyfs/src/lazyfs.cpp:1549-1586 | fsync as a step: copies volatile to durable, saves the blocks of that inode |
| Runs.DoClear | lazyfs/src/lazyfs.cpp:431-440 | clear as a step: copies every durable image back and drops every block |
| Runs.DoCheckpoint | lazyfs/src/lazyfs.cpp:449-458 | checkpoint as a step: the durable image of each inode some known path leads to becomes the volatile one, any other stays |
| Runs.CheckpointMisses | libs/libpcache/src/cache.cpp:451-561 | The failing run: a file of two names is looked up and written by one, which is unlinked; checkpoint leaves the old byte on disk, and after a clear the other name reads it |
| Runs.WellFormed | libs/libpcache/src/engine/backends/custom/custom_cache.cpp:425-459 | In every reachable state held blocks and free pages add up to the pool and both copies exist for every name |
| Runs.ReportedIffUnsynced | libs/libpcache/src/engine/backends/custom/custom_cache.cpp:654-677 | The report on an inode lists a block exactly when it is marked unsynced |
| Runs.UnsyncedIsDirty | libs/libpcache/src/engine/backends/custom/custom_cache.cpp:376-380 | In every reachable state a block is marked unsynced exactly when it is resident and its page dirty |
| Runs.UnsyncedFlagged | libs/libpcache/src/cache.cpp:563-578 | An inode with a block marked unsynced has an item not marked synced, so the report lists it |
| Runs.UnsyncedMoves | libs/libpcache/src/engine/backends/custom/custom_cache.cpp:487-547 | How the unsynced blocks follow a call: a sync saves the blocks of its inode, other calls add what they write |
| TwoCopies.RunRefines | tests/Tests.md:16-27 | Crash refinement over whole runs in which each call finds room at its own time: both copies after every call, every answer, the unsynced blocks |
| TwoCopies.FileRefines | lazyfs/src/lazyfs.cpp:1170-1184 | Crash refinement of one file: its two copies are as promised as long as its own writes find room, however full the cache is for others, and a known path leads to it if they differ at the start |
| TwoCopies.CopiesRefine | tests/Tests.md:16-27 | The same for all files at once |
| TwoCopies.HappenedKeeps | tests/lfscheck/src/lfscheck.cpp:106-237 | All of these together, of any run that happened |
| TwoCopies.RoomyIsRoom | lazyfs/src/lazyfs.cpp:1051-1052 | Every call finds room exactly when, at each call, the blocks held and those wanted fit in the pages together: a condition on the calls and the file sizes alone, once the run starts from mount |
| TwoCopies.ReadersNeverTell | lazyfs/src/lazyfs.cpp:1170-1184 | Without a crash in the run, writing through because the cache is full is invisible to readers, and the unsynced blocks are known all the same |
| TwoCopies.RoomCount | lazyfs/src/lazyfs.cpp:1051-1052 | A call has room exactly when the blocks held, with those it wants, are no more than the pages |
| TwoCopies.HeldExact | libs/libpcache/src/cache.cpp:180-353 | With room, the blocks held after a call are those before, without those a clear or a cut by inode gives back, and those it wants; without, no page is left |
| TwoCopies.HeldTo | libs/libpcache/src/cache.cpp:180-353 | So over a run: the blocks held after any number of calls are known from the calls and the file sizes |
| TwoCopies.UnsyncedTo | libs/libpcache/src/engine/backends/custom/custom_cache.cpp:487-547 | After every call of any run, room or not, the blocks marked unsynced are those held that were written and not saved or dropped by a clear since |
| TwoCopies.SavedNotListed | libs/libpcache/src/cache.cpp:355-395 | In any run, a file that was saved, or dropped by a clear, and not written since is not in the unsynced-data report |
| TwoCopies.WrittenListed | libs/libpcache/src/cache.cpp:563-578 | In any run, a file that was written with room is in the report until it is saved or the cache is cleared |
| TwoCopies.CrashRestoresLastSync | lazyfs/src/lazyfs.cpp:431-440 | In any run of LazyFS a clear brings back exactly what readers saw when the file was last saved, if its writes since found room |
| TwoCopies.DurableMixed | lazyfs/src/lazyfs.cpp:1170-1184 | In any run of LazyFS, room or not, while a file is not saved its durable copy gets no shorter, and each byte is as it was, zero in a hole, or one readers saw there since |
| TwoCopies.CrashMixes | lazyfs/src/lazyfs.cpp:1170-1184 | So a clear after a save brings back, however full the cache was, no byte but those saved and those readers saw at that place since |
| TwoCopies.TraceableTo | lazyfs/src/lazyfs.cpp:688-743 | Throughout a run a known path leads to each file that differs from disk or has unsynced blocks, if it does at the start |
| TwoCopies.ShrinkThenGrow | lazyfs/src/lazyfs.cpp:1018-1036 | In any run of LazyFS, cache full or not: after truncating to n and growing later, by write or truncate, with any calls between that leave the file's bytes alone (syncs, and crashes after them, included), bytes below n are unchanged and bytes from n to the new start are zero |
| TwoCopies.CheckpointThenClear | libs/libpcache/src/cache.cpp:557-561 | In any run of LazyFS, checkpoint and then clear leave a file as readers saw it if a known path leads to it, and as it was on disk otherwise; no file changes for readers exactly when such a path leads to each that differs, as in every run from mount |
| TwoCopies.DurableKept | lazyfs/src/lazyfs.cpp:1549-1586 | In any run of LazyFS a durable copy stays as it is while its file is not saved and its own writes find room |
| LazyFSOps.LazyFS.constructor | libs/libpcache/src/cache.cpp:31-38 | A fresh mount is well formed and shows the disk |
| LazyFSOps.LazyFS.GetAttr | lazyfs/src/lazyfs.cpp:688-779 | The size answered is the length of what readers see, also on first sight; a new item is marked synced and no mark changes |
| LazyFSOps.LazyFS.Admit | lazyfs/src/lazyfs.cpp:720-743 | An item made on first sight shows the disk file |
| LazyFSOps.LazyFS.LfsWrite | lazyfs/src/lazyfs.cpp:946-1303 | The volatile copy becomes zero-extend to the offset, then overwrite, on every path; exactly the blocks of the range are dirtied, all of them are in while a page is left, and durable is unchanged if they fit; if not, each durable byte is the old one or what readers now see in the range; link count kept, no other inode touched, no other item changes its mark |
| LazyFSOps.LazyFS.FillHole | lazyfs/src/lazyfs.cpp:1018-1036 | The zero fill of a sparse write: the file ends where the write starts, and the block it starts in is resident while a page is left |
| LazyFSOps.LazyFS.WriteSized | lazyfs/src/lazyfs.cpp:1038-1273 | The part after the zero fill: block loop and new size |
| LazyFSOps.LazyFS.WriteBlocks | lazyfs/src/lazyfs.cpp:1058-1233 | The block loop: each turn writes its piece, and a cache that fills midway only changes where the bytes go |
| LazyFSOps.LazyFS.WriteBlock | lazyfs/src/lazyfs.cpp:1081-1230 | One turn: cached update, fresh block, merge with the bytes on disk, or write-through all write the same logical bytes |
| LazyFSOps.LazyFS.MergeBuffer | lazyfs/src/lazyfs.cpp:1135-1147 | The caching buffer is the bytes on disk, zeros up to the piece, then the piece |
| LazyFSOps.LazyFS.PutOrThrough | lazyfs/src/lazyfs.cpp:1157-1184 | A block without a page gets one if any is free, else its bytes go to disk |
| LazyFSOps.LazyFS.WriteUncached | lazyfs/src/lazyfs.cpp:1126-1185 | The paths of a block that is not resident |
| LazyFSOps.LazyFS.WriteResident | lazyfs/src/lazyfs.cpp:1196-1230 | A resident block is always updated in place; the fallback never runs |
| LazyFSOps.LazyFS.LfsRead | lazyfs/src/lazyfs.cpp:1305-1547 | Nothing at or past the end of file; otherwise exactly the bytes of the overlay from the offset up to `ReadEnd`: the file's bytes, and past the end of file those the block there still has, in the cache or on disk; no more than the file has are counted exactly when no more were asked for or none trails its end; neither copy changes |
| LazyFSOps.LazyFS.ReadBlocks | lazyfs/src/lazyfs.cpp:1395-1531 | The block loop with its delayed pread answers from the overlay for any mix of resident and other blocks, up to `ReadEnd` |
| LazyFSOps.LazyFS.ReadBlock | lazyfs/src/lazyfs.cpp:1403-1523 | One turn keeps the buffer right and the delayed run at the right place on disk |
| LazyFSOps.LazyFS.ReadResidentBlock | lazyfs/src/lazyfs.cpp:1419-1473 | The delayed run before a resident block returns its full length; then the block's own piece |
| LazyFSOps.LazyFS.ReadRest | lazyfs/src/lazyfs.cpp:1525-1535 | The last delayed run completes the answer, with the right length |
| LazyFSOps.LazyFS.ReadDelayedRun | lazyfs/src/lazyfs.cpp:1421-1430 | The delayed pread appends the bytes on disk to the buffer |
| LazyFSOps.LazyFS.LfsTruncate | lazyfs/src/lazyfs.cpp:1720-1865 | The volatile copy becomes ftruncate of itself, whether the cache is asked for the inode or the path; shrinking leaves durable alone; asked for the inode, it drops exactly the blocks past the new end and zeroes the one it falls into from there, so that a read stops at it unless that block is read from a longer disk file; asked for the path, it leaves the blocks as they are; growing is a write of zeros |
| LazyFSOps.LazyFS.SetEnd | lazyfs/src/lazyfs.cpp:1824-1856 | Dropping blocks past the new end, or not, is the same to readers; if it is done, the block at the end is zero and unreadable from there on |
| LazyFSOps.EndStep | libs/libpcache/src/cache.cpp:311-353 | After the cut a byte trails the end of file exactly when the block of the end is not resident and the disk file is longer |
| LazyFSOps.LazyFS.LfsFsync | lazyfs/src/lazyfs.cpp:1549-1586 | The disk file becomes what readers see; every block of the inode is clean; its item is marked synced, and no other mark changes; no other inode touched |
| LazyFSOps.LazyFS.CommandFaultClearCache | lazyfs/src/lazyfs.cpp:431-440 | No item is left, every page is free exactly once, every file is what the disk holds, one name of each cached inode is forgotten |
| LazyFSOps.LazyFS.CommandCheckpoint | lazyfs/src/lazyfs.cpp:449-458 | The disk file of each inode some known path leads to becomes what readers see, its blocks clean and its item marked synced; all others, and what readers see, stay; so every file is saved exactly when such a path leads to each that differs |
| LazyFSOps.LazyFS.CommandUnsyncedDataReport | lazyfs/src/lazyfs.cpp:348-430 | Lists exactly the items not marked synced, each with its dirty blocks, and finds all synced exactly when there is none |
| ReadSteps.FlushReads | lazyfs/src/lazyfs.cpp:1421-1433 | A flush before a resident block reads every byte asked for |
| ReadSteps.ReadResident | lazyfs/src/lazyfs.cpp:1448-1473 | A resident block falls short of what was asked only at the end of file |
| ReadSteps.ReadDelayed | lazyfs/src/lazyfs.cpp:1493-1512 | A block not resident makes the delayed run longer, or ends the file, and its bytes are on disk |
| ReadSteps.ReadingEnd | lazyfs/src/lazyfs.cpp:1525-1531 | After the loop the last delayed read completes the answer, which stops exactly at `ReadEnd` |
| ReadSteps.DoneAnswers | lazyfs/src/lazyfs.cpp:1403-1533 | Below the end of file the answer is the file's; it goes past the end exactly when it was asked to and a byte trails there |
| Runs.CutFileTrails | lazyfs/src/lazyfs.cpp:1525-1533 | The counterexample as a run: a file of two bytes mounted, truncated to one and read for two answers both, with either call of the cache |
| Runs.CutCachedFile | lazyfs/src/lazyfs.cpp:1824-1856 | The same of a file in the cache: two bytes written, cut to one and read for two; asked for the inode the cache gives up the byte cut off and the read answers one byte, asked for the path it answers both |
| ReadSteps.EndingResident | lazyfs/src/lazyfs.cpp:1454-1473 | A resident block at the end of file gives its bytes up to its readable end, or up to where was asked |
| WriteSteps.PiecesTile | lazyfs/src/lazyfs.cpp:1068-1077 | The per-block pieces tile the range without gap or overlap |
| WriteSteps.DirtiedTrans | lazyfs/src/lazyfs.cpp:1018-1233 | What a write in two parts dirties is what either part does |
| WriteSteps.ExtentMore | lazyfs/src/lazyfs.cpp:1068-1077 | The blocks of a range are those of its pieces |
| WriteSteps.WriteMore | lazyfs/src/lazyfs.cpp:1058-1233 | Writing the next piece extends what has been written, and the disk stays untouched while the rest fits |
| WriteSteps.TornMore | lazyfs/src/lazyfs.cpp:1058-1233 | Of two writes that meet, each in the cache or on disk, the disk has old bytes and bytes readers now see, and no others |
| WriteSteps.TornMerged | lazyfs/src/lazyfs.cpp:1135-1178 | Writing a merged block through to disk changes no byte on disk outside the piece |
| WriteSteps.CutKeys | libs/libpcache/src/cache.cpp:311-353 | A cut drops exactly the blocks that start at or past the new end |
| WriteSteps.WroteUncached | lazyfs/src/lazyfs.cpp:1126-1184 | Fresh, merged and written-through blocks all are a write of the logical file |
| WriteSteps.SparsePwrite | lazyfs/src/lazyfs.cpp:1018-1036 | Filling the hole with zeros and then writing is one write past the end |
| WriteSteps.SparseReady | lazyfs/src/lazyfs.cpp:1020-1035 | After the zero fill the stale size read at the start does no harm: the block the write starts in is resident |
| WriteSteps.FreshWhole | lazyfs/src/lazyfs.cpp:1085-1131 | A block cached without reading the disk starts at the end of file |
| FileStates.SyncStep | libs/libpcache/src/cache.cpp:355-395 | Syncing one item makes its disk file what readers see and touches no other inode |
| FileStates.TouchesOnly | libs/libpcache/src/engine/backends/custom/custom_cache.cpp:339-652 | Owner isolation carried from the engine to files: when the engine kept all other owners, no other inode changes what its readers see, its disk file or its blocks |
| FileStates.FlushedAll | libs/libpcache/src/cache.cpp:557-561 | Flushing some inodes makes every disk file what readers see exactly when each that differs is among them |
| FileStates.NewItem | lazyfs/src/lazyfs.cpp:720-743 | A new item with the disk size shows the disk file |
| Overlay.UpdateStep | libs/libpcache/src/engine/page/page.cpp:130-149 | An in-place update is a write of the logical file and keeps the invariant |
| Overlay.FreshStep | lazyfs/src/lazyfs.cpp:1126-1131 | So is caching a block past the end of file without reading |
| Overlay.MergeStep | lazyfs/src/lazyfs.cpp:1133-1151 | So is caching a block merged with its bytes on disk |
| Overlay.ThroughStep | lazyfs/src/lazyfs.cpp:1175-1178 | So is writing a block that is not resident straight to disk |
| Overlay.CutStep | libs/libpcache/src/cache.cpp:311-353 | Cutting the cached blocks truncates the logical file |
| Overlay.CutExactly | libs/libpcache/src/engine/backends/custom/custom_cache.cpp:598-652 | What a cut leaves: blocks before it as they were, none past it, and the one at it zero from there on and readable up to there |
| Overlay.KeepStep | lazyfs/src/lazyfs.cpp:1826-1826 | So does cutting nothing |
| Overlay.FlushStep | libs/libpcache/src/engine/backends/custom/custom_cache.cpp:523-549 | One pwritev of consecutive resident blocks changes nothing readers see and makes them backed |
| Overlay.SyncedDisk | libs/libpcache/src/engine/backends/custom/custom_cache.cpp:560-562 | With all blocks clean, ftruncate at the cached size makes the disk file the logical file |
| Overlay.VectorsConcat | libs/libpcache/src/engine/backends/custom/custom_cache.cpp:528-547 | The gathered vectors put each block at its place |
| Caches.Cache.PutDataBlock | libs/libpcache/src/cache.cpp:180-247 | In place, in a free page, or refused when none is free; both indexes agree after |
| Caches.Cache.RecordPut | libs/libpcache/src/cache.cpp:230-237 | Page and readable end are recorded on both levels |
| Caches.Cache.GetDataBlock | libs/libpcache/src/cache.cpp:251-298 | Found exactly when the engine holds the block; bytes and readable end are the engine's |
| Caches.Cache.IsBlockCached | libs/libpcache/src/cache.cpp:111-124 | True exactly when the engine holds the block for this inode |
| Caches.Cache.UpdateContentMetadata | libs/libpcache/src/cache.cpp:127-140 | Only the named fields of that item change |
| Caches.Cache.EnsureItem | libs/libpcache/src/cache.cpp:180-205 | An inode without item gets an empty one marked synced; nothing else changes |
| Caches.Cache.TruncateItem | libs/libpcache/src/cache.cpp:311-353 | Blocks past the cut are gone, the one at it is zero from there on and readable up to there, those before it are as they were; the item is no longer marked synced, unless it is cut to nothing; both indexes agree after |
| Caches.Cache.SyncOwner | libs/libpcache/src/cache.cpp:355-395 | The file at the path becomes the logical file, all blocks clean, the item marked synced and no other item changed; -1 and no change without an item |
| Caches.Cache.ReportUnsyncedData | libs/libpcache/src/cache.cpp:563-578 | The report has the items not marked synced, every inode with a dirty block among them, each with its exact list |
| Caches.Cache.InsertInodeMapping | libs/libpcache/src/cache.cpp:81-94 | Maps the path and, for a new link, counts it |
| Caches.Cache.RemoveCachedItem | libs/libpcache/src/cache.cpp:451-493 | Drops item and pages with the last name or on a clear; otherwise only the count moves |
| Caches.Cache.RenameItem | libs/libpcache/src/cache.cpp:397-449 | Moves the mapping; who had the target name loses one, and the item with its last |
| Caches.Cache.ClearAllCache | libs/libpcache/src/cache.cpp:495-538 | From any reachable state no item remains and every page is on the free list exactly once; of each cached inode exactly one mapped name is forgotten and all others stay mapped |
| CacheStates.ErasedNames | libs/libpcache/src/cache.cpp:495-506 | A name alone on its inode is forgotten by a clear; of two names one stays |
| CacheStates.AgreeStep | libs/libpcache/src/cache.cpp:180-353 | A step on one inode keeps the agreement of the two indexes for all |
| CacheStates.PutAgrees | libs/libpcache/src/item/data.cpp:51-67 | The table entry of a put agrees with the engine's block |
| CacheStates.CutAgrees | libs/libpcache/src/item/data.cpp:101-141 | The truncated table agrees with the truncated blocks |
| CacheStates.AllFree | libs/libpcache/src/cache.cpp:509-537 | With no item, the free list holds every page once |
| Items.Data.SetBlockPageId | libs/libpcache/src/item/data.cpp:51-67 | The entry moves to the page; its readable end only grows |
| Items.Data.TruncateBlocksAfter | libs/libpcache/src/item/data.cpp:101-141 | Entries past the cut are gone, the one at it is readable up to there, those before it are as they were; the pages of dropped and cut blocks are answered |
| Items.Data.RemoveBlock | libs/libpcache/src/item/data.cpp:69-76 | Only that entry goes |
| Items.Item.UpdateMetadata | libs/libpcache/src/item/item.cpp:34-51 | Exactly the named fields are copied |
| Items.Item.SetDataSyncFlag | libs/libpcache/src/item/item.cpp:57-59 | The flag, and nothing else |
| Engine.CustomCacheEngine.constructor | libs/libpcache/src/engine/backends/custom/custom_cache.cpp:30-56 | All pages free, blank and owned by none |
| Engine.CustomCacheEngine.GetNextFreePage | libs/libpcache/src/engine/backends/custom/custom_cache.cpp:122-150 | The last free page, or none |
| Engine.CustomCacheEngine.UpdateOwnerPages | libs/libpcache/src/engine/backends/custom/custom_cache.cpp:241-300 | The three owner indexes and the page's owner, after a page is taken |
| Engine.CustomCacheEngine.AllocateBlock | libs/libpcache/src/engine/backends/custom/custom_cache.cpp:339-423 | In place, in the last free page, or -1 with no change; the invariant holds; owner isolation: the bytes, readable ends and dirty flags of every other owner are the same |
| Engine.CustomCacheEngine.GetBlock | libs/libpcache/src/engine/backends/custom/custom_cache.cpp:302-337 | Found exactly when the owner's block is in that page; the bytes are copied out |
| Engine.CustomCacheEngine.MakeBlockReadableToOffset | libs/libpcache/src/engine/backends/custom/custom_cache.cpp:461-472 | Only the readable end of that block moves |
| Engine.CustomCacheEngine.TruncateCachedBlocks | libs/libpcache/src/engine/backends/custom/custom_cache.cpp:598-652 | Blocks past the cut are dropped and their pages freed blank; the block at the cut keeps its page, its dirtiness and its bytes before the cut, is zero from there on and readable up to there; other owners see nothing |
| Engine.CustomCacheEngine.RemoveCachedBlocks | libs/libpcache/src/engine/backends/custom/custom_cache.cpp:425-459 | The owner has no block left, its pages are free; other owners see nothing |
| Engine.CustomCacheEngine.SyncPages | libs/libpcache/src/engine/backends/custom/custom_cache.cpp:474-567 | The disk file becomes the logical file, as it would block by block; batches are runs of consecutive blocks of at most 1024 vectors that cover each dirty block once, and each ends only where no dirty block follows or when it is full; every block is clean after, so a second sync flushes none |
| Engine.CustomCacheEngine.FlushDirty | libs/libpcache/src/engine/backends/custom/custom_cache.cpp:499-557 | The batching loop: after any number of batches readers see the same bytes; runs are joined as far as they go, up to 1024 vectors |
| Engine.CustomCacheEngine.FlushRun | libs/libpcache/src/engine/backends/custom/custom_cache.cpp:519-556 | One batch, of no more vectors than pwritev takes |
| Engine.CustomCacheEngine.CollectDirty | libs/libpcache/src/engine/backends/custom/custom_cache.cpp:487-497 | The dirty blocks in ascending order, whose pages are clean afterwards |
| Engine.CustomCacheEngine.GetDirtyBlocksInfo | libs/libpcache/src/engine/backends/custom/custom_cache.cpp:654-677 | The dirty blocks with readable end and page, in block order |
| EngineStates.FillStep | libs/libpcache/src/engine/backends/custom/custom_cache.cpp:388-411 | A block put in the last free page keeps the whole engine invariant |
| EngineStates.ChangeStep | libs/libpcache/src/engine/backends/custom/custom_cache.cpp:362-385 | So does changing the page of a held block |
| EngineStates.DropStep | libs/libpcache/src/engine/backends/custom/custom_cache.cpp:624-645 | So does dropping a block |
| EngineStates.ForgetStep | libs/libpcache/src/engine/backends/custom/custom_cache.cpp:425-459 | So does forgetting an owner |
| EngineStates.CleanStep | libs/libpcache/src/engine/backends/custom/custom_cache.cpp:491-547 | So does flushing an owner |
| EngineStates.PagesExclusive | libs/libpcache/src/engine/backends/custom/custom_cache.cpp:241-300 | No page is held twice and no held page is free |
| EngineStates.UnsyncedIffDirty | libs/libpcache/src/engine/backends/custom/custom_cache.cpp:376-380 | An index entry says unsynced exactly when its page is dirty |
| EngineStates.DirtyInfoExact | libs/libpcache/src/engine/backends/custom/custom_cache.cpp:664-673 | The report lists the dirty blocks, all of them, once each, in order |
| EngineStates.BatchStep | libs/libpcache/src/engine/backends/custom/custom_cache.cpp:523-549 | Flushing the next run of dirty blocks changes nothing readers see |
| EngineStates.BlockwiseIsLogical | libs/libpcache/src/engine/backends/custom/custom_cache.cpp:474-567 | Writing block by block and cutting the file leaves the same file as the batches |
| Counting.Conservation | libs/libpcache/src/engine/backends/custom/custom_cache.cpp:65-73 | Blocks held and pages free add up to the pool |
| Pages.Page.constructor | libs/libpcache/src/engine/page/page.cpp:26-41 | A blank page with every slot free |
| Pages.Page.Reset | libs/libpcache/src/engine/page/page.cpp:53-63 | Blank again, owner kept |
| Pages.Page.GetAllocateFreeOffset | libs/libpcache/src/engine/page/page.cpp:92-107 | The last free slot, or none when full; the new block is not readable yet, and every other block keeps slot, readable end and bytes |
| Pages.Page.UpdateBlockData | libs/libpcache/src/engine/page/page.cpp:123-149 | The bytes land inside the block's slot and the page is dirty |
| Pages.Page.GetBlockData | libs/libpcache/src/engine/page/page.cpp:109-116 | Copies the block out of the first slot, and nothing out of the second |
| Pages.Page.WriteNullFrom | libs/libpcache/src/engine/page/page.cpp:192-205 | Zeroes the rest of a block in the first slot without dirtying the page, and nothing in the second |
| Pages.Page.RemoveBlock | libs/libpcache/src/engine/page/page.cpp:207-218 | The slot is free and zero again; every other block keeps slot, readable end and bytes; an empty page is clean |
| Slots.AllocateSlot | libs/libpcache/src/engine/page/page.cpp:92-107 | For any number of blocks per page, free offsets and allocated slots partition the multiples of B, before and after; the new block gets a zeroed slot that was free and is not readable yet, and every block already there keeps slot, readable end and bytes |
| Slots.WriteSlot | libs/libpcache/src/engine/page/page.cpp:123-149 | An update keeps the partition and the blank free slots |
| Slots.WriteChangesOnly | libs/libpcache/src/engine/page/page.cpp:130-149 | An update changes the block's own bytes, and no byte, slot or readable end of any other block, and dirties the page |
| Slots.RemoveSlot | libs/libpcache/src/engine/page/page.cpp:207-218 | Removal keeps the partition |
| Slots.RemoveKeepsOthers | libs/libpcache/src/engine/page/page.cpp:207-218 | Removal changes no other block's slot, readable end or bytes, and the page stays dirty while a block is left |
| Slots.SlotsApart | libs/libpcache/src/engine/page/block_offsets.cpp:52-56 | Distinct blocks never overlap |
| TornSeq.ReorderFault.Feed | lazyfs/src/lazyfs.cpp:505-575 | For any list, occurrence and trace of writes and fsyncs: what is sent, the file on disk and whether the crash is armed are as read off the trace |
| TornSeq.ReorderFault.PersistWrite | lazyfs/src/lazyfs.cpp:505-575 | One write: counters, the held-back first write and the writes sent follow the trace |
| TornSeq.ReorderFault.RestartCounter | lazyfs/src/lazyfs.cpp:460-487 | fsync starts a new run and drops the write held back |
| TornSeq.TornSeqPromise | lazyfs/src/lazyfs.cpp:505-575 | For a strictly increasing positive list: exactly the listed writes of the occurrence-th run of at least two writes are sent, in order; the crash is armed exactly when that run reaches both its second write and its last listed one, which is when all have been sent |
| TornSeq.PromisedExactly | lazyfs/src/lazyfs.cpp:306-345 | For any list at all, the promise holds of every trace exactly when the list ends with its greatest place, which is at least 2 unless the list is just 1 |
| TornSeq.UnsortedLoses | lazyfs/src/lazyfs.cpp:561-565 | With the list 3, 2 the third write is never sent |
| TornSeq.NeverArmsExactly | lazyfs/src/lazyfs.cpp:531-536 | No trace arms the crash exactly when the list is empty, or ends below 2 and is not just 1 |
| TornSeq.ListsThatNeverArm | libs/libpcache/src/faults.cpp:35-50 | So with the list 1, 1, with 0, which configuration loading lets through, and with the empty list, which `validate` accepts |
| TornSeq.ArmedStays | lazyfs/src/lazyfs.cpp:531-536 | Once the crash is armed nothing later counts |
| TornSeq.SentAfterWrite | lazyfs/src/lazyfs.cpp:513-566 | What one more write adds to what is sent, and when it arms the crash |
| TornSeq.ListedInOrder | libs/libpcache/src/config/config.cpp:192-200 | For a strictly increasing list, picking writes as they come is picking them in list order |
| TornOp.SplitWriteFault.SplitWrite | lazyfs/src/lazyfs.cpp:578-670 | Only the occurrence-th write is touched: the disk gets the bytes of the listed parts, each at its place, and nothing else; a part of given size has that many bytes, after those of the parts before it, and an equal part its share, the last one listed with what is left over; part sizes that do not add up do nothing, unless nothing is listed |
| TornOp.SplitWriteFault.PlanSized | lazyfs/src/lazyfs.cpp:605-628 | Parts of given sizes: part p has the p-th size and starts where the one before it ends; refused when something is listed and the sizes do not add up |
| TornOp.SplitWriteFault.PlanEqual | lazyfs/src/lazyfs.cpp:630-647 | Equal parts: each has its share, the last listed one with what is left over, whether or not it is the last part |
| TornOp.SplitWriteFault.PersistPieces | lazyfs/src/lazyfs.cpp:650-657 | The pieces are written one after the other |
| TornOp.PartsDivide | lazyfs/src/lazyfs.cpp:605-647 | The parts start at the first byte, and each is as long as given, or as its equal share |
| TornOp.PiecesListed | lazyfs/src/lazyfs.cpp:605-647 | There is one piece for each part listed, in list order, with the bytes of that part; the last of equal parts has the bytes left over too |
| TornOp.ListedWithoutLast | lazyfs/src/lazyfs.cpp:612-642 | Lists without the last part: of sizes 3 and 7 the first alone, of three equal parts of ten bytes the first two |
| TornOp.PieceInside | libs/libpcache/src/faults.cpp:82-113 | For every validated fault each piece lies inside the write and puts byte i at offset + i |
| TornOp.PiecesDisjoint | libs/libpcache/src/faults.cpp:82-113 | With an increasing list no two pieces overlap |
| TornOp.LaidIsTorn | lazyfs/src/lazyfs.cpp:650-657 | Pointwise: covered bytes are the write's, all others the old file's |
| TornOp.WholeWriteExactly | lazyfs/src/lazyfs.cpp:596-657 | Persisting amounts to the whole write, for every file and buffer, exactly when the list is complete |
| TornOp.ListedOutOfOrder | lazyfs/src/lazyfs.cpp:630-647 | Three parts of ten bytes listed as 3, 1, 2: the pieces written, and that the last byte is in none |
| Lru.LruEngine.AllocateBlock | libs/libpcache/src/engine/backends/custom/custom_cache.cpp:339-423 | A page is always found; when none is free the victim was allocated or read before every other; an update in place leaves the order alone |
| Lru.LruEngine.GetNextFreePage | libs/libpcache/src/engine/backends/custom/custom_cache.cpp:122-190 | A free page, else the end of the list, taken from its owner |
| Lru.LruEngine.GetBlock | libs/libpcache/src/engine/backends/custom/custom_cache.cpp:302-337 | Only a hit counts as a visit |
| Lru.LruEngine.RemoveCachedBlocks | libs/libpcache/src/engine/backends/custom/custom_cache.cpp:425-459 | The owner's pages leave the list and are free; the others keep owner, block and visit |
| Lru.LruEngine.VisitOnWrite | libs/libpcache/src/engine/backends/custom/custom_cache.cpp:192-216 | The page goes to the head; the list never outgrows the pool |
| Lru.LruEngine.VisitOnRead | libs/libpcache/src/engine/backends/custom/custom_cache.cpp:218-229 | The page goes to the head |
| Lru.DriveLru | libs/libpcache/src/engine/backends/custom/custom_cache.cpp:122-459 | Over any run of allocations, reads and removals: every allocation finds a page, a free one or the one whose last visit in the trace is the oldest; a read answers the page asked for exactly when the block is there, as earlier calls left it, and so does an allocation; and the list ends up as the pages in use, from the last visited to the first |
| Lru.Perform | libs/libpcache/src/engine/backends/custom/custom_cache.cpp:302-459 | One such call: which page is taken or freed, who owns it and which block is in it, and all other pages as before |
| Lru.TracksMore | libs/libpcache/src/engine/backends/custom/custom_cache.cpp:192-229 | The engine's order of visits stays that of the trace |
| Lru.DropKeeps | libs/libpcache/src/engine/backends/custom/custom_cache.cpp:440-447 | Erasing through the position map keeps list and map in step |
| Lru.PushKeeps | libs/libpcache/src/engine/backends/custom/custom_cache.cpp:192-216 | So does pushing a page at the head |
| Lru.LastIsOldest | libs/libpcache/src/engine/backends/custom/custom_cache.cpp:152-152 | The end of the list was visited before every other listed page |
| Lru.OrderIsUnique | libs/libpcache/src/engine/backends/custom/custom_cache.cpp:192-229 | The order of the pages in the list follows from the visits alone, whatever the position map |
| Lru.EvictKeeps | libs/libpcache/src/engine/backends/custom/custom_cache.cpp:160-190 | An evicted page ends up with exactly one owner |
| Lru.TakeKeeps | libs/libpcache/src/engine/backends/custom/custom_cache.cpp:241-300 | So does a free page |
| Links.LinkFS.LfsLink | lazyfs/src/lazyfs.cpp:1929-1955 | The exact names, mapping and items; fails without the old name or with the new one; counts stay right exactly when the cache knows the old name or has no item to count |
| Links.LinkFS.LfsUnlink | lazyfs/src/lazyfs.cpp:2142-2172 | The exact names, mapping and items, for any name; counts and mapping stay right exactly when the name is mapped and its item is there, or neither; item and pages of a name that was looked up go exactly with the last name |
| Links.LinkFS.LfsRename | lazyfs/src/lazyfs.cpp:1678-1718 | The exact names, mapping and items, for any two names; of a name the cache does not know, only the names change; counts stay right exactly under `RenameSafe`; item and pages of the inode that had the target go exactly with its last name if the renamed name was known |
| Links.LinkFS.GetAttr | lazyfs/src/lazyfs.cpp:688-743 | The exact mapping after a lookup; only the item of that inode may be new, with the right count |
| Links.DriveNames | lazyfs/src/lazyfs.cpp:1929-1955 | Over any run of lookup, link, unlink, rename and clear by a careful caller, who looks up again after a clear the names a call uses: the cache ends up with an item for exactly the inodes seen since the last clear that still have a name, counts their names right, and knows the names seen since; without a clear it knows no others, and items, sizes and pages stay for every inode that still has a name and are gone for every other |
| Links.Perform | libs/libpcache/src/cache.cpp:81-94 | One such call keeps cache and tree in step, and pages go with the item they belong to and with no other |
| Links.PerformClear | libs/libpcache/src/cache.cpp:495-538 | A clear, in a run: nothing counts as seen, and the names still mapped all exist |
| Links.SeenStays | lazyfs/src/lazyfs.cpp:712-743 | A name once looked up is known to the cache whenever it exists later, up to the next clear, removed and made anew or not |
| Links.KnownGoes | libs/libpcache/src/cache.cpp:397-493 | An inode looked up since the last clear is known up to the very call that takes its last name |
| Links.LinkedLink | libs/libpcache/src/cache.cpp:81-94 | When a link leaves counts and names in step |
| Links.LinkedUnlink | libs/libpcache/src/cache.cpp:451-493 | When an unlink does |
| Links.LinkedRename | libs/libpcache/src/cache.cpp:397-449 | When a rename does, of a known name or an unknown one |
| Links.LinkFS.ClearCache | libs/libpcache/src/cache.cpp:495-538 | A clear keeps names and mapping in step and forgets one name of each cached inode |
| Links.StaleAfterClear | lazyfs/src/lazyfs.cpp:2155-2159 | The failing run: two names of a file looked up, the cache cleared, the name still mapped unlinked: it stays mapped and is no name any more |
| Links.StaleAfterRename | lazyfs/src/lazyfs.cpp:1698-1703 | The failing run: a name looked up is replaced by renaming one that was not: it stays mapped to the file it had |

## Left out

- LazyFSOps.LazyFS.LfsRead: the zero padding past the bytes returned, which plays no part in the result, is left out.
- Caches.Cache.PutDataBlock: one block per call, as all callers but the one with none do; `EnsureItem` is the call with none.
- Pages.Page.GetBlockData: not called for a slot past the readable end asked for; the source then copies a negative count (libs/libpcache/src/engine/page/page.cpp:109-116), which memcpy does not allow.
- Pages.Page.WriteNullFrom: likewise, where the count of bytes to zero would be negative (libs/libpcache/src/engine/page/page.cpp:192-205).
- Engine.CustomCacheEngine.AllocateBlock: one block per page and no eviction, which is the default setup; with more, the list of an owner's pages with room is popped from a copy (libs/libpcache/src/engine/backends/custom/custom_cache.cpp:128-133) and a page is marked clean at its first block (491-497).
- Lru.LruEngine.AllocateBlock: with eviction on only replacement and ownership are modelled, not contents: an evicted page is synced to its owner's inode number taken as a path (libs/libpcache/src/engine/page/page.cpp:157-159) and the new block's number is erased from the old owner's index (libs/libpcache/src/engine/backends/custom/custom_cache.cpp:265).
- Lru.LruEngine.RemoveCachedBlocks: truncation takes pages off the list in the same way and is not repeated there.
- Links.LinkFS.LfsRename: directories. Of a name the cache does not know the source takes the files below it as those of a directory (lazyfs/src/lazyfs.cpp:1609-1634); the names here are those of regular files, of which it finds none.
- Links.DriveNames: that items keep sizes and pages is said of runs without a clear, which drops them all; `StaleAfterClear` shows what happens when a name is not looked up again after one.
- Runs.Drive: the names are fixed during a run of reads and writes; link, unlink and rename are modelled in `Links`, and `CheckpointMisses` runs the two together.
- TornSeq.ReorderFault.PersistWrite: one faulted file; the held-back write is one global slot in the source. The zero fill of a sparse write counts as a write of its own, so a trace has it as an event.
- LazyFSOps.LazyFS.CommandUnsyncedDataReport: the blocks grouped in ranges, the total of bytes, and the names to leave out.
- LfsWrite: `direct_io`, failing system calls and the fault hooks at the end of the call; the crash is the flag `armed` of the two fault classes.
- LfsTruncate: the branch for an inode without item cannot be reached after `getattr`, and the uninitialised result it tests is answered as 0.
- BlockInfo and BlockOffsets are values held in fields; the page pointer in an owner's index is the page number.
- Reading the first element of an empty list of dirty blocks when a sync finds none (libs/libpcache/src/engine/backends/custom/custom_cache.cpp:499-500); the value is not used.
- Locks and threads: every operation is one atomic step.
- Timestamps and the other fields of stat, `utimes`, directories and recursive rename, `rename_owner_pages`.
- The counting of configured clear faults, path patterns, fifo commands, configuration loading, logging, killing the process, and the trace scripts.
