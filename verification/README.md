# obsfuse: model and proofs

obsfuse mounts an object store as a file system. This project models the stateful layers between the
mount and the store, and proves what they promise over whole runs: the two-tier block cache, the write
buffers and the multipart splitter, the inode table (also under concurrent callers), read-ahead, the
attribute cache, directory paging, retries, and the operations of the file system core that tie them
together.

## How the model is built

Each component exists twice.

- A specification module describes the component's state as a value and each operation as a function on
  it: `DiskTier`, `BlockCache`, `Uploads`, `Stores`, `WriteBuffers`, `Inodes`, `Readahead`, `Metadata`,
  `FileSystem`.
- A class updates the same state in place, with the program's loops: `DataCaches.DiskCache`,
  `DataCaches.DataCache`, `Uploads.MultipartUploadState`, `Uploads.MultipartUploader`,
  `Stores.ObsClient`, `WriteBufferManagers.FileWriteBuffer`, `WriteBufferManagers.WriteBuffer`,
  `Inodes.InodeManager`, `Readahead.ReadaheadManager`, `Metadata.MetadataCache`, `Cores.ObsFsCore`.
  Every method is proved to take exactly the step of its specification function, results included.

The theorems are about the specification functions and runs of them. Each has an independent partner: a
map of the latest puts (`CacheRuns`), a plain list without time stamps (`LruRefinement`), the concatenation
of the bytes written (`WriteBuffers`, `DurableWrites`), the history of reads (`Readahead`), the object's own
bytes (`ReadTransparency`, `ReadLengths`), the names under a directory (`Listings`), the filter of a full
listing (`Paging`).

| modules | about |
|---|---|
| `Base`, `Totals`, `Lru`, `FileNames` | block arithmetic, sums over maps, recency orders, disk file names |
| `DiskTier`, `BlockCache`, `DataCaches` | the block cache: steps, and the classes that take them |
| `CacheRuns`, `CacheContents`, `CacheBounds`, `LruRefinement`, `DiskEviction` | coherence, block properties kept, capacities and counters, eviction order of both tiers |
| `Uploads`, `Stores`, `WriteBuffers`, `WriteBufferManagers`, `DurableWrites`, `RandomWrites` | multipart streams, the store, write buffers, durability, writes out of order |
| `Paths`, `Inodes`, `InodeRaces` | path functions, the inode table, its concurrent allocation |
| `Readahead`, `Metadata`, `Retry` | prefetching, attributes with expiry, backoff |
| `FileSystem`, `Cores` | the operations of the core: steps, and the class that takes them |
| `ReadTransparency`, `ReadLengths`, `PrefetchRuns` | which bytes and how many a read returns, and which prefetches it asks for |
| `WriteEffects`, `DurableFiles`, `InterleavedWrites` | what a write reports and changes, when failures are reported, durability through the core |
| `Attributes`, `Namespaces`, `Listings`, `Paging`, `ObjectPaths` | attributes, lookups, creates, listings and object keys |
| `LiveInodes`, `Invalidations` | which inodes the caches name, and what truncate and unlink take out of them |

## Assumptions

- Each component reads a logical clock that is strictly later at every stamp. Eviction compares access times
  with a strict `<` (src/cache/data.rs:177), so equal stamps could leave a full cache without a victim.
- Sizes, offsets, counters and inode numbers are natural numbers; 64-bit overflow is not modelled.
- Reading, writing and deleting files of the cache directory succeeds. The directory may hold old files.
- The block size, part size and write-buffer size are positive.
- The store is a map from object path to bytes. Every PUT and DELETE has a number, and an arbitrary set
  `outages` of numbers fails. Reads carry a flag that says whether the store answers. Answers of metadata
  requests (stat and list) are parameters of the operations, so the theorems hold for any answers.
- A read that starts at or after the end of an object answers with no bytes.
- Operations run one at a time, except in `InodeRaces`. A prefetch is an operation of its own that may be
  scheduled anywhere after the read that asked for it.
- A part also records the bytes handed to it (`payload`), which the program does not keep. The closure passed
  to `update_attr` is the one its only caller passes.

## Where the code falls short

Each of these is a theorem that says exactly when the code does meet the expectation.

- `invalidate_range` leaves the disk tier alone, so a block written over can come back from disk
  (`InvalidateRangeCoherentIff`, `RangeStillServedIff`, `StaleAfterRangeInvalidation`). With an empty range
  that starts inside a block it removes that block (`EmptyRangeRemovesNothingIff`).
- Invalidating an inode leaves the disk tier's size counter as it was. An emptied tier accepts no block ever
  again exactly when its counter has reached the limit (`DiskRefusesIff`, `EmptyDiskStuckIff`,
  `InvalidatedDiskStaysEmpty`).
- Putting over a resident block counts its bytes twice in the memory counter (`DriftStep`, `CounterExactIff`).
- A read that falls through to the store in the middle of a block files its bytes under the start of the block,
  and later reads of the block return them as if they were its first bytes (`RightForBlockIff`,
  `MisalignedReadMisleads`).
- A completed multipart upload writes nothing to the object (`UploadedExactly`, `UploadStoresNothing`), and each
  full write buffer below the threshold replaces the whole object, so sequential writes that outgrow one buffer
  lose all but the last flush (`DurableIff`, `CreatedFileStoredIff`, `RunStoredIff`).
- Writes out of order are not put where they belong: into a file without data they are appended in the order
  they arrive (`NewFileHoldsArrivals`, `OnePieceRightIff`), and into a file with data each one replaces the
  whole object, which is right only when it covers it (`RandomWriteReplaces`, `ReplacementRightIff`). Which of
  the two happens depends on whether the attribute is cached (`FirstWriteReplacesIff`).
- A failed PUT has already emptied the write buffer (`FlushKeepsBytesIff`), and release forgets the buffer
  whatever its flush reports: its bytes survive exactly when no upload is open and the PUT goes through, or
  the object already held them (`ReleaseKeepsBytesIff`).
- Truncating to a non-zero size never reaches the store: a truncation gives the object the requested size
  exactly when that is 0 and the PUT goes through, or the object had that size (`TruncateSetsSizeIff`). No
  truncation changes the size that getattr reports (`TruncateShowsInSizeIff`).
- A write shows in the reported size only if the attribute was cached (`WriteShowsInSizeIff`).
- Unlink leaves the write buffer, so a release after it can bring the object back
  (`ReleaseAfterUnlinkResurrectsIff`).
- Renaming onto a mapped path orphans the entry of the target; removing that inode later unmaps the renamed
  file (`StepKeepsInverseIff`, `OverwrittenInodeUnmapsSurvivor`).
- Callers that race for one new path can get different numbers (`SameNumberIff`, `RaceGivesTwoNumbers`).
- `do_readdir` skips by position but does not count names that are empty or dots, so resuming past one of them
  repeats or loses entries (`ResumeIff`).
- The attribute cache evicts a tenth of its limit, which is nothing for limits below ten (`BoundHoldsIff`), and
  updating an expired entry makes it fresh again (`UpdateRevivesIff`).
- The first retry delay is not capped (`DelayWithinCapIff`).

## Model

| member | source | states |
|---|---|---|
| `CacheRuns.TwoTierCoherence` | src/cache/data.rs:112-202 | after any run of get, put, invalidate, clear and range invalidations whose blocks are not on disk, a lookup returns nothing or the bytes of the latest put to that aligned key not invalidated since, through every eviction, refused spill and promotion |
| `CacheRuns.RunKeepsValid` | src/cache/data.rs:112-272 | over every run the access times of each tier stay distinct and in the past, the memory counter never under-counts, every disk entry has its own file of the recorded size, and the disk tier is within its limit |
| `CacheRuns.PutThenGet` | src/cache/data.rs:112-168 | a block put is returned at once for every offset inside the block, even when it alone exceeds the memory limit |
| `CacheRuns.EvictedStillServedIff` | src/cache/data.rs:183-198 | a block evicted from memory is still served, with its own bytes, if and only if there is a disk tier that accepts it |
| `CacheRuns.FoundIsPromoted` | src/cache/data.rs:115-131 | a block found in either tier is in memory afterwards with the bytes answered |
| `CacheRuns.InvalidateRangeCoherentIff` | src/cache/data.rs:234-260 | a range invalidation keeps the cache coherent with "latest put not invalidated" if and only if no block of the range is on disk |
| `CacheRuns.RangeStillServedIff` | src/cache/data.rs:234-260 | after a range invalidation, a block of the range is still served if and only if disk has it |
| `CacheRuns.StaleAfterRangeInvalidation` | src/cache/data.rs:234-260 | a concrete run: two puts, a spill, a range invalidation, and a lookup that serves the invalidated bytes |
| `CacheContents.StepContents` | src/cache/data.rs:112-272 | any property of single blocks that every put supplies is kept for every block in both tiers by every operation |
| `CacheContents.GetContents` | src/cache/data.rs:112-137 | a lookup keeps such a property in both tiers and answers only with bytes that have it |
| `FileNames.FileNameInjective` | src/cache/data.rs:339-340 | two blocks use the same file of the cache directory if and only if they are the same block |
| `DiskTier.PutKeeps` | src/cache/data.rs:338-372 | after a disk put the disk serves the new bytes for the key, or the put was refused and the tier is empty; every other block still on disk serves its old bytes |
| `DiskTier.MakeRoomKeeps` | src/cache/data.rs:343-352 | the disk eviction loop ends with room for the block or with nothing left, and changes no bytes of the survivors |
| `DiskTier.GetKeeps` | src/cache/data.rs:319-336 | a disk read returns exactly the stored bytes and changes no contents |
| `DiskTier.InvalidateKeeps` | src/cache/data.rs:374-387 | a disk invalidation removes exactly the blocks of the inode, keeps the bytes of all others, and leaves the counter unchanged |
| `BlockCache.ShrinkKeeps` | src/cache/data.rs:149-158 | the memory eviction loop ends with the counter fitting or memory empty, only removes blocks, and lowers the counter by exactly the bytes removed |
| `BlockCache.InsertKeeps` | src/cache/data.rs:159-162 | inserting moves the counter above the resident bytes by exactly the size of a block overwritten |
| `BlockCache.RemoveSizes` | src/cache/data.rs:213-223 | removing blocks never saturates the counter: it falls by exactly the bytes removed |
| `CacheBounds.PutWithinLimit` | src/cache/data.rs:146-168 | right after a put the bytes in memory are at most the limit, or the size of that block if larger |
| `CacheBounds.RunWithinLimit` | src/cache/data.rs:112-168 | over every run, promotions included, memory holds at most the limit or the largest block ever put |
| `CacheBounds.DriftStep` | src/cache/data.rs:146-272 | how each operation moves the counter relative to the bytes resident: only an overwrite of a surviving block raises the difference, only `clear` removes it |
| `CacheBounds.CounterExactIff` | src/cache/data.rs:146-252 | on runs without `clear` the counter is exact at the end if and only if no put landed on a non-empty block still resident |
| `CacheBounds.DiskWithinLimit` | src/cache/data.rs:338-418 | over every run the bytes on disk are at most the size limit and at most the counter |
| `CacheBounds.DiskRefusesIff` | src/cache/data.rs:343-352 | a disk put is refused if and only if the block alone is over the limit, or the tier is empty and its stale counter leaves no room |
| `CacheBounds.EmptyDiskStuckIff` | src/cache/data.rs:343-352 | an emptied disk tier refuses every sequence of non-empty puts if and only if its counter has reached the limit |
| `CacheBounds.InvalidatedDiskStaysEmpty` | src/cache/data.rs:338-387 | filling the disk tier with one block and invalidating its inode disables the tier: any later sequence of non-empty puts leaves it empty |
| `CacheBounds.RunAligned` | src/cache/data.rs:28-35 | over every run every key of both tiers is a multiple of the block size |
| `CacheBounds.RangeInvalidationExact` | src/cache/data.rs:234-252 | for a non-empty range, memory loses exactly the inode's blocks that meet it, the rest is unchanged, every byte of the range misses in memory, and the counter falls by exactly the bytes removed |
| `CacheBounds.EmptyRangeRemovesNothingIff` | src/cache/data.rs:234-247 | an empty range removes nothing if and only if it starts on a block boundary or its block is not resident |
| `LruRefinement.RunRefines` | src/cache/data.rs:67-71 | over every run the time-stamped cache with minimum search and a plain list (hit or put to the back, evict at the front) stay in step and answer every lookup alike |
| `LruRefinement.StepRefines` | src/cache/data.rs:112-272 | each operation on the time-stamped cache is the same operation on the list |
| `LruRefinement.EvictPopsFront` | src/cache/data.rs:171-202 | evicting the block with the smallest access time removes the front of the list |
| `LruRefinement.PutEvictsShortestPrefix` | src/cache/data.rs:146-168 | one put evicts exactly the shortest oldest-first prefix that makes counter plus new size fit (or everything), then puts the block at the back; the counter changes by the new size minus the bytes evicted |
| `LruRefinement.ShrinkDropsShortestPrefix` | src/cache/data.rs:152-158 | the list eviction loop drops that shortest prefix and nothing else |
| `DiskEviction.PutDropsShortestPrefix` | src/cache/data.rs:338-372 | one disk put drops exactly the shortest oldest-first prefix that makes room (by the counter for none, by the recounted sizes for any), keeps the order of the rest and appends the block, or leaves the tier empty when nothing makes room |
| `DiskEviction.MakeRoomDropsShortestPrefix` | src/cache/data.rs:343-352 | the disk eviction loop removes exactly the blocks of that prefix and ends with room if and only if the prefix makes it |
| `DiskEviction.EvictPopsFront` | src/cache/data.rs:397-418 | evicting the entry with the smallest access time and recounting removes the front of the recency order and makes the counter exact |
| `DiskEviction.HitMovesToBack` | src/cache/data.rs:319-336 | a disk hit moves its block to the back of the recency order, a miss changes nothing |
| `DiskEviction.ClearStartsOver` | src/cache/data.rs:389-395 | clearing removes every entry with its file and no other file and resets the counter: a block is accepted afterwards if and only if it alone is within the limit |
| `DataCaches.DiskCache.constructor` | src/cache/data.rs:305-317 | a new disk tier has no entries and counter 0, whatever files the directory holds |
| `DataCaches.DiskCache.Get` | src/cache/data.rs:319-336 | the step `DiskTier.Get` (state and bytes), of which `GetKeeps` speaks |
| `DataCaches.DiskCache.OldestEntry` | src/cache/data.rs:400-404 | the scan returns the entry with the smallest access time |
| `DataCaches.DiskCache.EvictOneLocked` | src/cache/data.rs:397-414 | removes exactly the oldest entry with its file, and reports false only when there is none |
| `DataCaches.DiskCache.CalculateSize` | src/cache/data.rs:416-418 | the loop computes the sum of the entry sizes |
| `DataCaches.DiskCache.Put` | src/cache/data.rs:338-372 | eviction loop with recounting, refusal, write and counter take the state exactly where `DiskTier.Put` does, of which `PutKeeps` and `DiskRefusesIff` speak |
| `DataCaches.DiskCache.Invalidate` | src/cache/data.rs:374-387 | removing the inode's entries one at a time removes all of them and their files, and nothing else |
| `DataCaches.DiskCache.Clear` | src/cache/data.rs:389-395 | no entries, none of their files, counter 0 |
| `DataCaches.DataCache.constructor` | src/cache/data.rs:91-104 | an empty memory tier in front of the given disk tier, invariant established |
| `DataCaches.DataCache.LeastRecentlyUsed` | src/cache/data.rs:173-181 | the scan with a strict comparison against the current time finds the least recently used block, and nothing only when memory is empty |
| `DataCaches.DataCache.EvictOne` | src/cache/data.rs:171-202 | takes the least recently used block out of memory, spills it, and returns its size |
| `DataCaches.DataCache.PutMemory` | src/cache/data.rs:146-168 | the eviction loop and the insert take the state exactly where `BlockCache.PutMemory` does, of which `PutWithinLimit`, `PutEvictsShortestPrefix` and `TwoTierCoherence` speak |
| `DataCaches.DataCache.Get` | src/cache/data.rs:112-137 | memory hit, disk hit with promotion, or miss, as the step `BlockCache.Get` (state and answer), of which `TwoTierCoherence` and `RunRefines` speak |
| `DataCaches.DataCache.Put` | src/cache/data.rs:140-143 | the step `BlockCache.Put` under the key rounded down to the block, of which `PutThenGet` speaks |
| `DataCaches.DataCache.RemoveInode` | src/cache/data.rs:206-218 | the loop removes exactly the inode's blocks and returns the sum of their sizes |
| `DataCaches.DataCache.RemoveRange` | src/cache/data.rs:238-247 | the loop over block numbers removes exactly the blocks with those numbers and returns the sum of their sizes |
| `DataCaches.DataCache.Invalidate` | src/cache/data.rs:205-231 | both tiers lose exactly the inode's blocks |
| `DataCaches.DataCache.InvalidateRange` | src/cache/data.rs:234-260 | memory loses the blocks of the rounded-out range and disk is untouched: the step of which `RangeInvalidationExact` and `InvalidateRangeCoherentIff` speak |
| `DataCaches.DataCache.Clear` | src/cache/data.rs:263-272 | both tiers empty, both counters 0 |
| `Uploads.WriteExtends` | src/storage/multipart.rs:133-149 | writing extends the stream (parts, then buffer) by exactly the bytes written, keeps less than one part buffered and the parts numbered from 1 without gaps; the cutting loop terminates |
| `Uploads.CompleteCuts` | src/storage/multipart.rs:133-205 | at completion part i carries exactly the stream's bytes [(i-1)·p, min(i·p, total)) and number i, and there are ceil(total/p) parts, however the writes were split |
| `Uploads.WithinMaxPartsIff` | src/storage/multipart.rs:222-224 | the completed upload has at most `max_parts` parts if and only if the bytes written are at most `max_file_size` |
| `Uploads.AbortedIsOpenIff` | src/storage/multipart.rs:209-219 | an aborted upload has nothing pending and starts numbering again; since it keeps its byte count it is an upload again if and only if it never had a byte |
| `Uploads.MultipartUploadState.TakeBuffer` | src/storage/multipart.rs:90-97 | takes exactly the first part's bytes when there are enough, else nothing |
| `Uploads.MultipartUploadState.TakeRemaining` | src/storage/multipart.rs:100-102 | takes the whole buffer |
| `Uploads.MultipartUploadState.UploadOne` | src/storage/multipart.rs:152-182 | appends one numbered part and advances the number |
| `Uploads.MultipartUploader.WriteTo` | src/storage/multipart.rs:133-149 | the loop that drains the buffer into parts takes the upload exactly where `Uploads.Write` does, of which `WriteExtends` speaks |
| `Uploads.MultipartUploader.CompleteUpload` | src/storage/multipart.rs:186-205 | the rest of the buffer, if any, becomes the last part: the step of which `CompleteCuts` speaks |
| `Uploads.MultipartUploader.AbortUpload` | src/storage/multipart.rs:209-219 | parts and buffer emptied and numbering restarted, the byte count kept |
| `WriteBuffers.StreamExact` | src/cache/write_buffer.rs:163-312 | at every moment of every run of write, flush and truncate, whichever requests fail: the buffer invariant holds, and uploaded parts, upload buffer and file buffer together are exactly the bytes appended since a flush or truncate last took them |
| `WriteBuffers.UploadedExactly` | src/cache/write_buffer.rs:250-277 | when a flush completes an upload, the parts of the completed upload (the state `WriteBuffer.FlushBuffer` leaves the upload object in) are those appended bytes cut at multiples of the part size, and the store is unchanged |
| `WriteBuffers.UploadNamesObject` | src/cache/write_buffer.rs:206-209 | over every run whose writes name one object, an open upload is for that object |
| `WriteBuffers.WriteKeeps` | src/cache/write_buffer.rs:163-231 | every write keeps: data implies dirty, data below the buffer size without an upload and below the part size with one, upload buffer empty and upload well cut |
| `WriteBuffers.CutPartsKeeps` | src/cache/write_buffer.rs:213-223 | the part-splitting loop ends with less than a part in the buffer and moves bytes into the upload in order, losing none |
| `WriteBuffers.FlushEmpties` | src/cache/write_buffer.rs:250-277 | a flush always leaves the file buffer empty, also when it returns early or its PUT fails |
| `WriteBuffers.FlushCleansIff` | src/cache/write_buffer.rs:250-277 | a flush leaves the buffer dirty if and only if it was and either had no data, returning early with any upload still open, or its PUT failed |
| `WriteBuffers.TruncateCleansIff` | src/cache/write_buffer.rs:290-312 | a truncation drops upload and data, sets the size, and leaves the buffer clean if and only if it stored the empty object |
| `WriteBuffers.FlushKeepsBytesIff` | src/cache/write_buffer.rs:265-269 | without an upload, the buffered bytes are still in the buffer or in the object after a flush if and only if its PUT goes through or the object already held them; it reports success if and only if its PUT goes through |
| `WriteBuffers.ReleaseKeepsBytesIff` | src/cache/write_buffer.rs:280-287 | release forgets the buffer; its bytes are in the object afterwards if and only if no upload was open and the PUT goes through, or the object already held them |
| `RandomWrites.OffsetsIgnored` | src/cache/write_buffer.rs:174-228 | into the buffer of a file without data, below a flush in all, writes at any offsets are appended in the order they arrive and reach no object |
| `RandomWrites.NewFileHoldsArrivals` | src/cache/write_buffer.rs:174-287 | so a new file's object ends up holding them in the order they arrived |
| `RandomWrites.OnePieceRightIff` | src/cache/write_buffer.rs:192-196 | one write to a new file ends up where it was meant to be if and only if its offset is 0 |
| `RandomWrites.RandomWriteReplaces` | src/cache/write_buffer.rs:182-190 | a successful write elsewhere than expected, to a file with data, first flushes what is buffered and then leaves its own bytes as the whole object |
| `RandomWrites.ReplacementRightIff` | src/cache/write_buffer.rs:182-190 | which is what it should have made of the object if and only if it starts at 0 and covers it |
| `RandomWrites.FlushedThenElsewhere` | src/cache/write_buffer.rs:272-273 | after a flush that stored bytes, a write elsewhere replaces the object just stored |
| `RandomWrites.SequentialIff` | src/cache/write_buffer.rs:174-178 | over every run the buffer counts as sequential if and only if all its writes so far were contiguous from 0 |
| `RandomWrites.SizeIsExtent` | src/cache/write_buffer.rs:188-196 | over every run without outages the recorded size is the furthest end written, or the last truncation |
| `WriteBufferManagers.WriteBuffer.GetOrCreate` | src/cache/write_buffer.rs:153-160 | the existing buffer of the inode, else a fresh one; no other buffer changes |
| `WriteBufferManagers.WriteBuffer.FlushBuffer` | src/cache/write_buffer.rs:250-277 | new buffer state, store and result of a flush, early return and failed PUT included; an upload it takes data into is left completed, in the state of which `UploadedExactly` speaks, and `FlushKeepsBytesIff` speaks of the rest |
| `WriteBufferManagers.WriteBuffer.CutBuffer` | src/cache/write_buffer.rs:213-223 | the loop moves whole parts from the buffer object into its upload object |
| `WriteBufferManagers.WriteBuffer.AppendData` | src/cache/write_buffer.rs:192-228 | append, open an upload at the threshold, cut parts or flush a full buffer |
| `WriteBufferManagers.WriteBuffer.WriteBufferData` | src/cache/write_buffer.rs:172-231 | a write on one buffer: the direct path that completes an open upload and replaces the object, or the buffered path |
| `WriteBufferManagers.WriteBuffer.Write` | src/cache/write_buffer.rs:163-231 | a write takes the inode's buffer and the store exactly where `WriteBuffers.Write` does and touches no other buffer, an upload the direct path takes data into being completed; `StreamExact` and `DurableIff` speak of that step |
| `WriteBufferManagers.WriteBuffer.FlushFile` | src/cache/write_buffer.rs:234-240 | flushes the inode's buffer if it has one, completing an upload it takes data into, and no other |
| `WriteBufferManagers.WriteBuffer.Release` | src/cache/write_buffer.rs:280-287 | flushes the inode's buffer, completing an upload it takes data into, and forgets it, also when the flush fails; `ReleaseKeepsBytesIff` speaks of that step |
| `WriteBufferManagers.WriteBuffer.Truncate` | src/cache/write_buffer.rs:290-312 | leaves an open upload aborted, clears the buffer, and PUTs an empty object only for size 0; `TruncateSetsSizeIff` speaks of that step |
| `Stores.ObsClient.PutObject` | src/cache/write_buffer.rs:268 | a PUT replaces the whole object and is logged, or fails and changes nothing but the request count |
| `DurableWrites.DurableIff` | src/cache/write_buffer.rs:163-287 | contiguous writes from offset 0 into a fresh buffer over an empty object, then the release flush, all successful: the object equals the concatenation if and only if the write sizes satisfy `Durable`; then there was exactly one PUT, or none when nothing was written |
| `DurableWrites.DurableRunStores` | src/cache/write_buffer.rs:163-287 | from the middle of such a run, durable sizes make the whole rest one single PUT of everything, failed or not |
| `DurableWrites.OtherRunsDoNot` | src/cache/write_buffer.rs:163-287 | with any other sizes a run that reports success leaves an object shorter than what was written |
| `DurableWrites.UploadStoresNothing` | src/cache/write_buffer.rs:206-223 | once an upload is open, no later write and no release changes the store |
| `DurableWrites.SmallRunsDurable` | src/cache/write_buffer.rs:207-228 | totals below min(buffer size, threshold) are durable however they are split |
| `DurableWrites.LargeRunsNotDurable` | src/cache/write_buffer.rs:206-223 | totals at or above the threshold are not durable however they are split |
| `DurableFiles.CreatedFileStoredIff` | src/fs/core.rs:382-445 | through the core: create of a slash-free name, contiguous writes, release, all successful, for an inode without a buffer: the object holds the concatenation if and only if the sizes are durable, with one PUT beyond the create's (none for no bytes) |
| `DurableFiles.TruncatedFileStoredIff` | src/fs/core.rs:647-661 | the same from a truncate to 0 that creates the buffer |
| `DurableFiles.WritesFollowBuffer` | src/fs/core.rs:382-403 | a sequence of core writes is that sequence on the inode's one buffer, whatever happens to the caches meanwhile |
| `DurableFiles.TruncateNonZeroStoresNothing` | src/cache/write_buffer.rs:290-312 | truncating to a non-zero size, and releasing after it, leave the store as it was |
| `DurableFiles.TruncateSetsSizeIff` | src/fs/core.rs:647-661 | after a truncation the object has the requested size if and only if that is 0 and the PUT goes through, or it had that size before; a release after it leaves the store as it is |
| `InterleavedWrites.RunStoredIff` | src/fs/core.rs:382-425 | the durability theorem in company: over any run in which the file's own operations are successful contiguous writes from the start, interleaved with reads, lookups, getattrs, listings and prefetches of any file and any operation on other objects, a successful release leaves the object holding the file's writes if and only if their sizes are durable, with one PUT to it (none for no bytes) |
| `InterleavedWrites.CreatedRunStoredIff` | src/fs/core.rs:428-458 | the same from the create of a slash-free name whose inode has no buffer |
| `InterleavedWrites.TruncatedRunStoredIff` | src/fs/core.rs:647-661 | the same from a truncate to 0 of a file without a buffer |
| `InterleavedWrites.ElsewhereLeaves` | src/fs/core.rs:162-661 | an operation on other objects, or one that only reads, leaves a file its path, write buffer, object and the PUTs made to it |
| `Paths.JoinThenSplit` | src/fs/inode.rs:449-476 | parent and file name of a joined path give back a normal parent and a non-empty slash-free name |
| `Paths.SplitThenJoinIff` | src/fs/inode.rs:449-476 | joining parent and file name of a normal path gives it back if and only if no empty component precedes the name |
| `Paths.StepsCountComponents` | src/fs/inode.rs:449-461 | iterating `parent_path` reaches the root in exactly as many steps as the path has non-empty components |
| `Paths.NormalizeIsNormal` | src/fs/inode.rs:479-488 | normalising gives a path without slashes at its ends, and leaves a path alone if and only if it is one |
| `Paths.DirectChildIff` | src/fs/dir.rs:119-142 | a path is a direct child of a prefix if and only if the directory name extracted from it is all of it up to slashes at its ends |
| `Inodes.RunKeepsMaps` | src/fs/inode.rs:236-316 | over every run of create, size update, remove and rename each mapped path's number has an entry with that path; on runs whose renames target free paths the converse holds too |
| `Inodes.StepKeepsInverseIff` | src/fs/inode.rs:394-422 | a step keeps the two maps inverse if and only if it is not a rename of a mapped path onto another mapped path |
| `Inodes.NoSharedInodes` | src/fs/inode.rs:310-311 | no two mapped paths share a number |
| `Inodes.NumbersNeverReused` | src/fs/inode.rs:282 | the numbers issued along any run are strictly increasing, removals and renames included |
| `Inodes.RenameMovesNumber` | src/fs/inode.rs:411-422 | a rename changes the path map at the two paths only, keeps the number, and changes nothing of the number's entry but its path |
| `Inodes.GetOrCreateAnswers` | src/fs/inode.rs:273-316 | a mapped path keeps its number and nothing changes; a new path gets the next number, both ways, with the given kind and size, and nothing else changes |
| `Inodes.RemoveExact` | src/fs/inode.rs:394-399 | removing by number drops exactly that entry and unmaps exactly the path it names |
| `Inodes.RemoveByPathExact` | src/fs/inode.rs:402-408 | removing by path unmaps exactly that path and drops exactly its number's entry |
| `Inodes.OverwrittenInodeUnmapsSurvivor` | src/fs/inode.rs:394-422 | after a rename onto a mapped path, removing the overwritten inode unmaps the renamed file, and its next lookup issues a new number |
| `Inodes.RunKeepsNormal` | src/fs/inode.rs:273-274 | over every run the paths stored on both sides of the table are normal |
| `Inodes.InodeManager.constructor` | src/fs/inode.rs:236-270 | a new table holds the root only |
| `Inodes.InodeManager.GetOrCreateInode` | src/fs/inode.rs:273-316 | the mapped number and no change, or the next number mapped both ways: the step of which `RunKeepsMaps` and `NumbersNeverReused` speak |
| `Inodes.InodeManager.SetSize` | src/fs/inode.rs:346-352 | the entry's size changes and nothing else |
| `Inodes.InodeManager.RemoveInode` | src/fs/inode.rs:394-399 | the entry goes, and with it the mapping of the path the entry names |
| `Inodes.InodeManager.RemovePath` | src/fs/inode.rs:402-408 | the mapping of the normalised path goes, and with it the entry of its number |
| `Inodes.InodeManager.RenamePath` | src/fs/inode.rs:411-422 | the mapping moves to the new path and the entry follows, nothing for an unmapped path: the step of which `RenameMovesNumber` and `StepKeepsInverseIff` speak |
| `InodeRaces.AllocationsNeverCollide` | src/fs/inode.rs:273-316 | in every interleaving of any number of callers at the four atomic steps, no two callers hold the same allocated number |
| `InodeRaces.HandedOutNumbersResolve` | src/fs/inode.rs:273-316 | once all calls have returned, each number handed out resolves by `get_path` to the normalised path its caller asked for |
| `InodeRaces.SettledForever` | src/fs/inode.rs:276-311 | a mapping with no caller between its missed lookup and its insert never changes, whatever calls follow and however they interleave |
| `InodeRaces.QuiescentMappingsStay` | src/fs/inode.rs:276-311 | after all calls have returned, any later create calls in any interleaving leave every mapping in place |
| `InodeRaces.SameNumberIff` | src/fs/inode.rs:276-316 | all callers for a path get the same number if and only if at most one of them missed its lookup |
| `InodeRaces.RaceGivesTwoNumbers` | src/fs/inode.rs:276-316 | two callers that both look up before either inserts get numbers 2 and 3 for one path, and 2 keeps an entry nothing maps to |
| `Readahead.SeqCountIsLongestSuffix` | src/cache/readahead.rs:97-111 | over every run the sequential counter of an inode is the length of the longest suffix of its recorded reads in which each starts where the previous ended |
| `Readahead.PrefetchIssuedIff` | src/cache/readahead.rs:166-199 | with a threshold of at least 2 a read issues a prefetch if and only if the last `threshold` reads are contiguous and it ends beyond every window issued so far |
| `Readahead.WindowsDisjoint` | src/cache/readahead.rs:166-199 | between invalidations of an inode its prefetch windows are strictly increasing and pairwise disjoint under any reads, backward seeks included |
| `Readahead.PrefetchesBounded` | src/cache/readahead.rs:166-199 | n prefetches need reads that reach beyond (n-1)·(window+1) |
| `Readahead.ServedIff` | src/cache/readahead.rs:202-223 | a stored window is served at its own start and inode if and only if its time to live lasts, and storing it changes no other answer |
| `Readahead.InvalidateTakesOne` | src/cache/readahead.rs:226-241 | an invalidation takes the inode's read state and windows and nothing of any other inode |
| `Readahead.ClearTakesAll` | src/cache/readahead.rs:244-247 | clearing leaves no window and no read state |
| `Readahead.DisabledIsSilent` | src/cache/readahead.rs:166-169 | switched off, it records no read and never asks for a prefetch, over every run |
| `Readahead.ReadaheadManager.Record` | src/cache/readahead.rs:166-199 | new read state and prefetch request of a recorded read: the step of which `SeqCountIsLongestSuffix`, `PrefetchIssuedIff` and `WindowsDisjoint` speak |
| `Readahead.ReadaheadManager.TakePrefetched` | src/cache/readahead.rs:202-216 | the data under exactly that offset unless expired, in which case the entry is removed |
| `Readahead.ReadaheadManager.Store` | src/cache/readahead.rs:219-223 | stores the data with the current time |
| `Readahead.ReadaheadManager.InvalidateInode` | src/cache/readahead.rs:226-241 | the loop removes the inode's read state and exactly its prefetched data |
| `Readahead.ReadaheadManager.ClearAll` | src/cache/readahead.rs:244-247 | no read states and no prefetched data |
| `Metadata.LookupIsLatestAndFresh` | src/cache/metadata.rs:93-134 | over every run a lookup returns nothing, or the last value put or updated for that inode and not invalidated since, set no longer ago than the time to live |
| `Metadata.UpdateRevivesIff` | src/cache/metadata.rs:121-129 | right after an update a lookup answers if and only if the entry was still in the map, expired or not |
| `Metadata.PutAnswersIff` | src/cache/metadata.rs:93-129 | after a put, through any operations on other inodes that do not meet the limit, a lookup answers the value put if and only if it was put no longer ago than the time to live |
| `Metadata.PutSurvivors` | src/cache/metadata.rs:110-118 | a put leaves every other entry unless it meets a limit of at least ten, and then drops at most a tenth of the limit, all cached before every survivor |
| `Metadata.InvalidateDropsOne` | src/cache/metadata.rs:132-135 | an invalidation changes the answer for no other inode |
| `Metadata.NegativeConcernsOne` | src/cache/metadata.rs:168-190 | remembering or forgetting an absent path concerns no other path |
| `Metadata.ClearForgets` | src/cache/metadata.rs:204-209 | clearing forgets every attribute and every absent path |
| `Metadata.EvictsOldest` | src/cache/metadata.rs:212-226 | an eviction pass removes exactly `count` entries (or all), each cached before every survivor |
| `Metadata.BoundHoldsIff` | src/cache/metadata.rs:110-118 | the size limit holds on every run if and only if it is at least ten |
| `Metadata.SmallCachesGrow` | src/cache/metadata.rs:110-114 | below a limit of ten, n puts of new inodes leave n entries |
| `Metadata.MetadataCache.Get` | src/cache/metadata.rs:93-107 | the fresh attribute, or none with an expired entry removed |
| `Metadata.MetadataCache.Put` | src/cache/metadata.rs:110-118 | eviction of a tenth at the limit, then the insert: the step of which `LookupIsLatestAndFresh` and `BoundHoldsIff` speak |
| `Metadata.MetadataCache.SortedByTime` | src/cache/metadata.rs:213-219 | collecting and sorting gives the inodes in the order they were cached |
| `Metadata.MetadataCache.EvictOldest` | src/cache/metadata.rs:212-226 | the removal loop removes exactly the first `count` of that order |
| `Metadata.MetadataCache.Grow` | src/cache/metadata.rs:121-129 | the size grows to at least the given one and the entry is restamped; nothing happens without an entry |
| `Metadata.MetadataCache.InvalidateInode` | src/cache/metadata.rs:132-135 | the inode's attribute is gone, the others stay |
| `Metadata.MetadataCache.CheckNegative` | src/cache/metadata.rs:168-179 | whether the path is remembered as absent, expired memories removed |
| `Metadata.MetadataCache.AddNegative` | src/cache/metadata.rs:182-185 | the path is remembered as absent from now |
| `Metadata.MetadataCache.DropNegative` | src/cache/metadata.rs:188-190 | the path is no longer remembered as absent |
| `FileSystem.StepKeepsValid` | src/fs/core.rs:162-661 | every operation of the core keeps the invariants of the inode table, the attribute cache and the block cache together |
| `ReadTransparency.ReadsAreTransparent` | src/fs/core.rs:327-379 | after any run during which the given files keep their bytes and fall through to the store only at block boundaries or for no bytes, a read of one returns a prefix of file[offset..offset+size], non-empty when size > 0 and offset is inside the file, and succeeds whenever the store answers, whether served by prefetch, memory, disk or store |
| `ReadTransparency.ReadReturnsFile` | src/fs/core.rs:338-378 | the same for one read in a state whose cached bytes are all the file's own, with no condition on the offset |
| `ReadTransparency.StepKeepsFaithful` | src/fs/core.rs:162-661 | every operation, on whatever files, keeps every cached byte of those files in the block tiers and the prefetch buffer equal to the object's byte at that position |
| `ReadTransparency.RightForBlockIff` | src/fs/core.rs:363-364 | bytes fetched at an offset are right for the block they are cached under, whatever the file, if and only if the offset is a multiple of the block size or nothing was asked for |
| `ReadTransparency.MisalignedReadMisleads` | src/fs/core.rs:344-364 | for any unaligned offset a concrete file: a one-byte read there makes the next read of the block's start return the wrong byte |
| `ReadTransparency.EmptyCachesFaithful` | src/fs/core.rs:97-112 | empty caches start true of any files |
| `ReadLengths.ReadsAreExact` | src/fs/core.rs:338-378 | at the end of any undisturbed run a read answers exactly the file's bytes from its offset up to the end of the read, of the fresh prefetched window that starts there, or else of the block held in memory or on disk when it reaches the offset, or else of the file; it fails exactly when none of them answers and the store is away |
| `ReadLengths.ReadExactly` | src/fs/core.rs:338-378 | the same for one read in any state whose cached bytes are the file's own |
| `ReadLengths.WholeBlockThenRead` | src/fs/core.rs:344-364 | after a whole block was fetched, a read at any offset in it answers exactly the file's bytes up to the end of the read, of the block or of the file |
| `ReadLengths.PrefetchThenRead` | src/cache/readahead.rs:202-223 | while its time to live lasts, a window that was fetched answers a read of its start with the file's bytes up to the end of the read, of the window or of the file |
| `ReadLengths.PrefetchServedIff` | src/cache/readahead.rs:202-216 | with no block reaching that byte and the store away, the read succeeds if and only if the time to live lasts |
| `PrefetchRuns.ReadPrefetchesIff` | src/fs/core.rs:353-374 | over every run of the core a read asks for a prefetch if and only if it reaches the store, the last `threshold` reads of the inode that did so are contiguous, and it ends beyond every window asked for since the last truncate or unlink; the window then starts where it ends |
| `PrefetchRuns.RunInStep` | src/fs/core.rs:327-379 | over every run of the core the sequential counter is the length of the longest contiguous suffix of the reads that reached the store, and the windows asked for are strictly increasing and pairwise disjoint |
| `WriteEffects.WriteReportsAll` | src/fs/core.rs:382-425 | a successful write reports every byte it was given; a write fails with not-found if and only if the inode is unknown |
| `WriteEffects.CountsFollowBytes` | src/fs/core.rs:396-424 | a caller that moves on by the count each write reports takes exactly the run of contiguous writes and ends beyond exactly the bytes `CreatedFileStoredIff` says were written |
| `WriteEffects.ReportedIsWritten` | src/fs/core.rs:396-424 | along an interleaved run the reported counts sum to the length of what `RunStoredIff` says was written, and each write starts where the counts so far end |
| `WriteEffects.FirstWriteReplacesIff` | src/fs/core.rs:388-403 | the first write to a file, away from its start, replaces the whole object if and only if the attribute cache knows the file to have data; otherwise it is only buffered |
| `WriteEffects.WriteDropsOverlap` | src/fs/core.rs:411-424 | a successful write drops from memory exactly the inode's blocks that meet it and leaves other blocks, disk and prefetches; it records its end as the size of the inode's entry and of no other; a failed one changes none of that |
| `WriteEffects.RunAligned` | src/fs/core.rs:162-661 | over every run of the core the blocks of both tiers start at multiples of the block size |
| `WriteEffects.FailuresReportedIff` | src/fs/core.rs:382-661 | write, flush, release and truncate fail if and only if the inode is unknown (write and truncate) or one of the requests they made to the store failed |
| `WriteEffects.FlushStores` | src/fs/core.rs:637-644 | a flush of buffered bytes without an upload leaves them as the whole object if and only if its PUT goes through, the buffer empty, and nothing else changed |
| `Attributes.GetattrAnswers` | src/fs/core.rs:300-324 | getattr answers the cached attribute while it is fresh; else not-found for an unknown number, the store's error, or the reported size and kind, 4096 for a directory |
| `Attributes.GetattrRepeats` | src/fs/core.rs:320-323 | what getattr answered it answers again, whatever the store says by then |
| `Attributes.LookupAnswers` | src/fs/core.rs:179-219 | a lookup that asks the store answers from the object, else from the directory marker, else as an implicit directory, with the number of the path and the reported size and kind, and records a new path's entry accordingly; it fails if and only if none of the three is there |
| `Attributes.LookupWithoutAsking` | src/fs/core.rs:162-177 | an unknown parent or a remembered absence fails; a fresh attribute is answered with the path's number |
| `Attributes.CreateSucceedsIff` | src/fs/core.rs:428-458 | a create succeeds if and only if the parent is known and its PUT goes through; it leaves an empty object, every other object, and the path mapped to a file of size 0; a failed one changes only the request count |
| `Invalidations.TruncateForgets` | src/fs/core.rs:647-661 | after a successful truncate no block in either tier, no prefetch and no read state is the inode's, and those of every other inode are untouched; a failed one leaves the caches alone |
| `Invalidations.TruncateThenRead` | src/fs/core.rs:656-658 | the next read returns what the object has now: no bytes after a truncate to 0 |
| `Invalidations.UnlinkForgets` | src/fs/core.rs:488-512 | an unlink succeeds if and only if the parent is known and its DELETE goes through; it removes that object only, and exactly the inode of the path from the table, the attribute cache and the data caches |
| `Listings.ListingNames` | src/fs/core.rs:223-297 | listing a directory whose objects are the children of its object path, with or without a slash at the end, yields exactly their names in order after the dots, with consecutive offsets and the reported kinds; each number and child path resolve to each other, and numbers are equal exactly for equal names |
| `Listings.NameOfChild` | src/storage/obs.rs:321-324 | the name of an object directly below any path is its last component, with or without a slash after it |
| `Listings.DotNumbers` | src/fs/core.rs:229-242 | "." has the directory's number, ".." the number of its parent if that is mapped and the root's otherwise |
| `Listings.ListingFailsIff` | src/fs/core.rs:223-258 | a listing fails if and only if the directory is unknown or the store does not answer, and then changes nothing |
| `Listings.ListingThenGetattr` | src/fs/core.rs:286-288 | after listing distinct names, with room in the attribute cache and time to live for the listing, getattr of each listed number answers what the listing reported |
| `ObjectPaths.KeysDistinct` | src/fs/core.rs:149-159 | two paths have the same object key if and only if they are the same path |
| `ObjectPaths.KeyUnderPrefix` | src/fs/core.rs:149-159 | the components of a key are those of the prefix and then those of the path; without a prefix the key is the path |
| `ObjectPaths.MappedPathsHaveOwnObjects` | src/fs/core.rs:149-159 | over every run of the inode table two mapped paths never share an object |
| `LiveInodes.ReachableLive` | src/fs/core.rs:162-661 | in every state reachable from mounting (prefetches finishing before their inode is unlinked) the attribute cache, both block tiers, the read states and the prefetch buffer are keyed by inodes that have an entry, and write buffers by numbers already issued |
| `LiveInodes.StepLive` | src/fs/core.rs:162-661 | each operation, run in such a state, leads to such a state again |
| `LiveInodes.PrefetchLiveIff` | src/cache/readahead.rs:279-303 | a prefetch leaves the caches keyed by inodes with an entry if and only if its own inode still has one or it fetches nothing |
| `LiveInodes.RecreatedFileStartsFresh` | src/fs/core.rs:428-512 | a path unlinked and created again gets a new number, an empty file's attributes, and no block, prefetch, read state or write buffer of its predecessor |
| `LiveInodes.UncachedReadAsksStore` | src/fs/core.rs:338-378 | a read of an inode no block or prefetch is keyed by returns what the store has |
| `LiveInodes.ReleaseAfterUnlinkResurrectsIff` | src/fs/core.rs:488-512 | after an unlink the object is gone, and a release brings it back if and only if the inode's buffer had unflushed data, no upload was open, and the PUT goes through |
| `Namespaces.AnswersNamed` | src/fs/core.rs:162-324 | over every run from mounting, an attribute answered by lookup or getattr carries the inode number it is answered for |
| `Namespaces.LookupThenGetattr` | src/fs/core.rs:162-324 | a successful lookup leaves the table resolving the path to the number answered, both ways, and a getattr of that number gives the same attribute whatever the store would say |
| `Namespaces.CreateThenLookup` | src/fs/core.rs:428-458 | a created file is found at once under its number with size 0, whatever was remembered of the path and whatever the store would answer |
| `Namespaces.UnlinkThenLookup` | src/fs/core.rs:488-512 | after an unlink the object is gone, the old number answers not-found, and the path is found again only under a number never issued before |
| `Namespaces.AbsenceRememberedIff` | src/fs/core.rs:167-219 | a failed lookup hides an object that appears later if and only if less than the negative time to live has passed since; remembering the failure itself takes one tick, so the program's `elapsed() <= negative_ttl` reads `time < negativeTtl` |
| `Namespaces.WriteShowsInSizeIff` | src/fs/core.rs:388-416 | right after a write getattr accounts for it whatever the store reports if and only if the attribute was cached and fresh at the write (or the write ends at 0); then the size is the larger of the cached size and the end of the write |
| `Namespaces.TruncateShowsInSizeIff` | src/fs/core.rs:647-661 | a truncation changes no answer of getattr, whatever the store reports; so the new size shows if and only if the answer before it already had that size |
| `Namespaces.ReleaseThenGetattr` | src/fs/core.rs:610-624 | after a release getattr answers the size and kind the store reports (4096 for a directory), whatever had been cached |
| `Paging.ResumeIff` | src/fs/core.rs:223-297 | for a stable listing, resuming from any offset gives exactly the entries of the full listing with larger offsets, inode numbers included, if and only if the objects skipped have no empty or dot name, or no entry is left after them |
| `Paging.FullListing` | src/fs/core.rs:223-297 | a listing from 0 has offsets 1, 2, 3, ... without gaps, one entry per good name plus the dots, each with the number its path is mapped to |
| `Paging.PagesEnumerateDirectory` | src/fs/core.rs:223-297 | with good names only, pages of any sizes, each resumed from the last entry taken, enumerate the directory's entries in order, each once |
| `Paging.PageIsSuffix` | src/fs/dir.rs:111-115 | with good names only, the page from offset o is the full listing without its first o entries, which is what the offset filter leaves of the full listing |
| `Cores.ObsFsCore.DoLookup` | src/fs/core.rs:162-220 | negative cache, attribute cache, then the three questions to the store, as the step `FileSystem.Lookup` (whole new state and answer), of which `LookupAnswers`, `LookupThenGetattr`, `AbsenceRememberedIff` and `ReachableLive` speak |
| `Cores.ObsFsCore.DoReaddir` | src/fs/core.rs:223-297 | dots, then the listing, as the step `FileSystem.Readdir`, errors included, of which `ListingNames`, `DotNumbers`, `ListingFailsIff` and the paging theorems speak |
| `Cores.ObsFsCore.ListChildren` | src/fs/core.rs:260-291 | the loop over the listing with its moving offset produces exactly the entries and registers exactly the inodes of which `ListingNames`, `ListingThenGetattr` and `FullListing` speak |
| `Cores.ObsFsCore.DoGetattr` | src/fs/core.rs:300-324 | the cached attribute, else the store's, cached from then on, as the step `FileSystem.Getattr`, of which `GetattrAnswers`, `AnswersNamed` and the size theorems speak |
| `Cores.ObsFsCore.DoRead` | src/fs/core.rs:327-379 | prefetch buffer, block cache, store, as the step `FileSystem.Read` (state, bytes and prefetch request), of which `ReadsAreExact`, `ReadsAreTransparent` and `ReadPrefetchesIff` speak |
| `Cores.ObsFsCore.Prefetch` | src/cache/readahead.rs:279-303 | a prefetch that finishes stores what the object had under the window's offset, as the step that `PrefetchThenRead`, `PrefetchServedIff`, `StepKeepsFaithful` and `PrefetchLiveIff` speak of |
| `Cores.ObsFsCore.DoWrite` | src/fs/core.rs:382-425 | the write buffer takes the write; attribute size, inode table and block cache follow only on success: the step `FileSystem.Write`, of which `WriteReportsAll`, `WriteDropsOverlap`, `WritesFollowBuffer`, `CreatedFileStoredIff` and `WriteShowsInSizeIff` speak |
| `Cores.ObsFsCore.DoCreate` | src/fs/core.rs:428-458 | PUT of an empty object, then inode, attribute and negative cache only on success: the step `FileSystem.Create`, of which `CreateSucceedsIff`, `CreateThenLookup` and `CreatedFileStoredIff` speak |
| `Cores.ObsFsCore.DoUnlink` | src/fs/core.rs:488-512 | DELETE, then the inode leaves every cache and the table only on success, its write buffer staying: the step `FileSystem.Unlink`, of which `UnlinkForgets`, `UnlinkThenLookup`, `RecreatedFileStartsFresh` and `ReleaseAfterUnlinkResurrectsIff` speak |
| `Cores.ObsFsCore.DoRelease` | src/fs/core.rs:610-624 | flush and forget the buffer, then drop the attribute only on success: the step `FileSystem.Release`, of which `CreatedFileStoredIff` and `ReleaseThenGetattr` speak |
| `Cores.ObsFsCore.DoFlush` | src/fs/core.rs:637-644 | the step `FileSystem.Flush` on the inode's buffer, whose effect `FlushStores`, `FailuresReportedIff`, `FlushEmpties`, `UploadedExactly` and `FlushKeepsBytesIff` state |
| `Cores.ObsFsCore.DoTruncate` | src/fs/core.rs:647-661 | truncate the buffer, then invalidate blocks and prefetches only on success: the step `FileSystem.Truncate`, of which `TruncateForgets`, `TruncateThenRead`, `TruncatedFileStoredIff`, `TruncateNonZeroStoresNothing` and `TruncateShowsInSizeIff` speak |
| `Retry.RetryWithBackoff` | src/storage/retry.rs:38-77 | at most max_retries + 1 attempts; the result is the first success, the first error that is not retryable, or the error of the last attempt; one sleep between attempts, the k-th being `Delay(k)` |
| `Retry.GrowingDelay` | src/storage/retry.rs:70-73 | for a multiplier of at least 1 every sleep after the first is min(initial · multiplier^k, max_delay) |
| `Retry.ShrinkingDelay` | src/storage/retry.rs:70-73 | for a multiplier of at most 1 it is min(initial · multiplier^k, max_delay · multiplier^(k-1)) |
| `Retry.DelayWithinCapIff` | src/storage/retry.rs:47-73 | no sleep exceeds max_delay if and only if the initial delay does not |

## Left out

- src/storage/obs.rs and OpenDAL: requests, authentication and pagination of the real store; the store is an abstract map.
- Read-after-write through the mount: `do_read` never consults the write buffer and `do_write` does not drop prefetched data, so no such property follows from the code.
- ReadTransparency.ReadsAreTransparent: speaks of files whose objects keep their bytes during the run; reads of a file being rewritten are not covered, for the reason above.
- LiveInodes.ReachableLive: assumes that a prefetch finishes before its inode is unlinked; `PrefetchLiveIff` says exactly what a late one does.
- LiveInodes.ReleaseAfterUnlinkResurrectsIff: assumes that the inode's buffer was made for the path being unlinked, which a rename in between would change.
- InodeRaces.SettledForever: create calls only; removals and renames are interleaved with nothing in this model.
- WriteBufferManagers.WriteBuffer.Release: flushes before it forgets the buffer, the program the other way round; with one operation at a time the outcome is the same.
- Retry.RetryWithBackoff: durations are real numbers, without the rounding of `f64` and `Duration`; the operation's answers are a function of the attempt number.
- Renaming, making and removing directories as operations of the core; rename is modelled in the inode table.
- The directory cache (never read by the core), `children`, `ref_count`, `cached_at` and `access_count` fields, and all attribute fields but number, size and kind.
- Time-based and global flushes (`flush_expired`, `flush_all`, `last_write`), and `sync_flush`, which is a flush with a metric.
- Locks, thread scheduling and the prefetch semaphore, which only makes a prefetch not happen.
- Handles, metrics, permissions, error numbers, configuration loading, the command line, and the FUSE and WinFSP adapters.
- `StreamingWriter`, `retry_simple` and the tables of retryable errors, which would only add easy members.
- Failures of the cache directory's file operations, and Windows path separators.
