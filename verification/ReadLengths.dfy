/** Exactly which bytes a read returns, from the prefetch buffer, a cached block or the store, and how long
    a prefetch is served. */
module ReadLengths {
  import opened Base
  import opened FileNames
  import opened FileSystem
  import opened ReadTransparency
  import CacheContents
  import Inodes
  import Metadata
  import BlockCache
  import CacheRuns
  import Readahead

  /** A window that starts at `at` was stored for the inode no longer ago than the time to live. */
  predicate Prefetched(fs: Fs, cfg: Config, inode: nat, at: nat) {
    var key := Readahead.PrefetchKey(inode, at);
    && key in fs.readahead.buffer
    && fs.readahead.now <= fs.readahead.buffer[key].fetchedAt + cfg.readahead.ttl
  }

  /** The part of a segment from `from` on, at most `size` bytes. */
  lemma SegmentPart(data: Bytes, file: Bytes, at: nat, from: nat, size: nat)
    requires Segment(data, file, at) && from <= |data|
    ensures data[from..Min(from + size, |data|)] == Slice(file, at + from, Min(size, |data| - from))
  {
  }

  /** What a read of `file` must answer is determined by what holds its first byte: a window answers up to
      its end, a block in memory or on disk up to the end of the block, the store in full. */
  ghost predicate AnswersExactly(fs: Fs, cfg: Config, file: Bytes, inode: nat, at: nat, size: nat, reachable: bool,
                                 answer: Result<Bytes, Error>)
    requires BlockCache.Valid(fs.data)
  {
    BlockSizePositive(fs.data);
    var start := at % fs.data.blockSize;
    var held := CacheRuns.Held(fs.data, BlockKey(inode, at - start));
    if Prefetched(fs, cfg, inode, at) then
      answer == Ok(Slice(file, at, Min(size, |fs.readahead.buffer[Readahead.PrefetchKey(inode, at)].data|)))
    else if held.Some? && start < |held.value| then
      answer == Ok(Slice(file, at, Min(size, |held.value| - start)))
    else
      answer == if reachable then Ok(Slice(file, at, size)) else Err(IoError)
  }

  lemma ReadExactly(fs: Fs, cfg: Config, files: map<nat, Bytes>, inode: nat, at: nat, size: nat, reachable: bool)
    requires Valid(fs) && Faithful(fs, files) && Holds(fs, cfg, files) && inode in files
    ensures fs.data.blockSize > 0
    ensures AnswersExactly(fs, cfg, files[inode], inode, at, size, reachable,
                           Read(fs, cfg, inode, at, size, reachable).1)
  {
    hide Inodes.Valid, Metadata.Valid, BlockCache.Valid, BlockCache.GetKey, BlockCache.Put,
         CacheRuns.Held, TrueBlocks, Slice;
    BlockSizePositive(fs.data);
    var file, start := files[inode], at % fs.data.blockSize;
    assert FileOf(fs, cfg, inode) == Some(file);
    CacheConfig(fs.data, inode, at);
    if Prefetched(fs, cfg, inode, at) {
      SegmentPart(fs.readahead.buffer[Readahead.PrefetchKey(inode, at)].data, file, at, 0, size);
    } else {
      HeldIsTrue(fs.data, files, inode, at - start);
      var held := CacheRuns.Held(fs.data, BlockKey(inode, at - start));
      if held.Some? && start < |held.value| { SegmentPart(held.value, file, at - start, start, size); }
    }
  }

  /** A lookup answers what is held, and that is a segment of the file. */
  lemma HeldIsTrue(c: BlockCache.Cache, files: map<nat, Bytes>, inode: nat, offset: nat)
    requires BlockCache.Valid(c) && TrueBlocks(c, files) && inode in files
    ensures var k := BlockKey(inode, offset);
            && BlockCache.GetKey(c, k).1 == CacheRuns.Held(c, k)
            && (CacheRuns.Held(c, k).Some? ==> Segment(CacheRuns.Held(c, k).value, files[inode], offset))
  {
    hide BlockCache.Valid, BlockCache.GetKey, CacheContents.AllBlocks, CacheRuns.Held;
    var k := BlockKey(inode, offset);
    CacheContents.GetContents(c, k, (k: BlockKey, data: Bytes) => TrueBlock(k, data, files));
    CacheRuns.GetAnswersHeld(c, k);
  }

  /** Every read at the end of every run that leaves the files undisturbed answers exactly that. */
  lemma ReadsAreExact(fs: Fs, cfg: Config, files: map<nat, Bytes>, ops: seq<Op>,
                      inode: nat, at: nat, size: nat, reachable: bool)
    requires Valid(fs) && cfg.writes.partSize > 0
    requires Faithful(fs, files) && Undisturbed(fs, cfg, files, ops)
    requires inode in files && Holds(Exec(fs, cfg, ops), cfg, files)
    ensures Exec(fs, cfg, ops).data.blockSize > 0
    ensures AnswersExactly(Exec(fs, cfg, ops), cfg, files[inode], inode, at, size, reachable,
                           Read(Exec(fs, cfg, ops), cfg, inode, at, size, reachable).1)
  {
    hide Inodes.Valid, Metadata.Valid, Faithful, Holds, Read, Undisturbed, AnswersExactly;
    RunKeepsFaithful(fs, cfg, files, ops);
    ReadExactly(Exec(fs, cfg, ops), cfg, files, inode, at, size, reachable);
  }

  /** After a whole block was fetched from the store, a read anywhere in it returns the file's bytes up to
      the end of the read, of the block or of the file, whichever comes first. */
  lemma WholeBlockThenRead(fs: Fs, cfg: Config, files: map<nat, Bytes>, inode: nat, start: nat,
                           at: nat, size: nat, reachable: bool)
    requires Valid(fs) && Faithful(fs, files) && Holds(fs, cfg, files) && inode in files
    requires fs.data.blockSize > 0 && start % fs.data.blockSize == 0 && start <= at < start + fs.data.blockSize
    requires !Prefetched(fs, cfg, inode, start) && !Prefetched(fs, cfg, inode, at)
    requires var held := CacheRuns.Held(fs.data, BlockKey(inode, start)); held.None? || held.value == []
    requires reachable || at < |files[inode]|
    ensures var bs, fs1 := fs.data.blockSize, Read(fs, cfg, inode, start, fs.data.blockSize, true).0;
            && fs1.data.blockSize == bs
            && Read(fs1, cfg, inode, at, size, reachable).1 == Ok(Slice(files[inode], at, Min(size, start + bs - at)))
  {
    hide Inodes.Valid, Metadata.Valid, BlockCache.Valid, Read;
    var bs, file := fs.data.blockSize, files[inode];
    var fs1 := Read(fs, cfg, inode, start, bs, true).0;
    FetchHolds(fs, cfg, inode, start, bs, file);
    ReadKeeps(fs, cfg, inode, start, bs, true);
    hide Faithful;
    FetchFaithful(fs, cfg, files, inode, start, bs);
    assert at - at % bs == start by { SameBlock(start, at, bs); }
    ReadExactly(fs1, cfg, files, inode, at, size, reachable);
  }

  lemma SameBlock(start: nat, at: nat, bs: nat)
    requires bs > 0 && start % bs == 0 && start <= at < start + bs
    ensures at - at % bs == start
  {
    DivUnique(at, bs, start / bs);
  }

  /** Looking for an aligned block that nothing holds, then putting it, makes it held. */
  lemma MissThenPut(c: BlockCache.Cache, inode: nat, start: nat, data: Bytes)
    requires BlockCache.Valid(c) && c.blockSize > 0 && start % c.blockSize == 0
    ensures var (c1, r) := BlockCache.Get(c, inode, start);
            && r == CacheRuns.Held(c, BlockKey(inode, start)) && c1.blockSize == c.blockSize
            && var c2 := BlockCache.Put(c1, inode, start, data);
               && BlockCache.Valid(c2) && c2.blockSize == c.blockSize
               && CacheRuns.Held(c2, BlockKey(inode, start)) == Some(data)
  {
    hide BlockCache.Valid, BlockCache.GetKey, BlockCache.PutMemory, CacheRuns.Held;
    var k := BlockKey(inode, start);
    CacheRuns.GetAnswersHeld(c, k);
    CacheRuns.StepKeepsValid(c, CacheRuns.OpGet(inode, start));
    CacheRuns.StepConfig(c, CacheRuns.OpGet(inode, start));
    var c1 := BlockCache.Get(c, inode, start).0;
    CacheRuns.PutThenGet(c1, inode, start, data, start);
    CacheRuns.StepKeepsValid(c1, CacheRuns.OpPut(inode, start, data));
    CacheRuns.GetAnswersHeld(BlockCache.Put(c1, inode, start, data), k);
  }

  /** A read of an aligned block that nothing holds caches what the file has there. */
  lemma FetchHolds(fs: Fs, cfg: Config, inode: nat, start: nat, size: nat, file: Bytes)
    requires Valid(fs) && FileOf(fs, cfg, inode) == Some(file)
    requires fs.data.blockSize > 0 && start % fs.data.blockSize == 0
    requires !Prefetched(fs, cfg, inode, start)
    requires var held := CacheRuns.Held(fs.data, BlockKey(inode, start)); held.None? || held.value == []
    ensures var fs1 := Read(fs, cfg, inode, start, size, true).0;
            && BlockCache.Valid(fs1.data) && fs1.data.blockSize == fs.data.blockSize
            && CacheRuns.Held(fs1.data, BlockKey(inode, start)) == Some(Slice(file, start, size))
            && (forall at :: Prefetched(fs1, cfg, inode, at) ==> Prefetched(fs, cfg, inode, at))
  {
    hide Inodes.Valid, Metadata.Valid, BlockCache.Valid, BlockCache.Get, BlockCache.Put, CacheRuns.Held;
    MissThenPut(fs.data, inode, start, Slice(file, start, size));
  }

  lemma FetchFaithful(fs: Fs, cfg: Config, files: map<nat, Bytes>, inode: nat, start: nat, size: nat)
    requires Valid(fs) && Faithful(fs, files) && Holds(fs, cfg, files) && inode in files
    requires fs.data.blockSize > 0 && start % fs.data.blockSize == 0
    ensures var fs1 := Read(fs, cfg, inode, start, size, true).0;
            && BlockCache.Valid(fs1.data) && Faithful(fs1, files) && Holds(fs1, cfg, files)
  {
    hide Inodes.Valid, Metadata.Valid, BlockCache.Valid, BlockCache.Get, BlockCache.Put, TrueBlocks, TruePrefetches;
    ReadKeepsFaithful(fs, cfg, files, inode, start, size, true);
  }

  // ---------------------------------------------------------------- prefetches

  /** A window that has been fetched answers a read of its start with the file's bytes up to the end of the
      read, of the window or of the file, for as long as its time to live. */
  lemma PrefetchThenRead(fs: Fs, cfg: Config, inode: nat, file: Bytes, request: Readahead.Request,
                         time: nat, size: nat, reachable: bool)
    requires fs.data.blockSize > 0 && FileOf(fs, cfg, inode) == Some(file) && request.inode == inode
    requires time <= cfg.readahead.ttl
    ensures var obs := ObsPath(cfg, fs.inodes.entries[inode].path);
            var fs1 := Wait(CompletePrefetch(fs, obs, request, true), time);
            Read(fs1, cfg, inode, request.offset, size, reachable).1
            == Ok(Slice(file, request.offset, Min(size, request.size)))
  {
    hide BlockCache.Get, BlockCache.Put, ObsPath;
    var window := Slice(file, request.offset, request.size);
    assert window[..Min(size, |window|)] == Slice(file, request.offset, Min(size, request.size));
  }

  /** And not a moment longer: when no block reaches that byte and the store is away, a read there succeeds
      exactly while the time to live lasts. */
  lemma PrefetchServedIff(fs: Fs, cfg: Config, inode: nat, file: Bytes, request: Readahead.Request,
                          time: nat, size: nat)
    requires BlockCache.Valid(fs.data) && fs.data.blockSize > 0
    requires FileOf(fs, cfg, inode) == Some(file) && request.inode == inode
    requires CacheRuns.Held(fs.data, BlockKey(inode, request.offset - request.offset % fs.data.blockSize)).None?
    ensures var obs := ObsPath(cfg, fs.inodes.entries[inode].path);
            var fs1 := Wait(CompletePrefetch(fs, obs, request, true), time);
            Read(fs1, cfg, inode, request.offset, size, false).1.Ok? <==> time <= cfg.readahead.ttl
  {
    hide BlockCache.Valid, BlockCache.GetKey, BlockCache.Put, CacheRuns.Held, ObsPath, Slice;
    CacheConfig(fs.data, inode, request.offset);
    CacheRuns.GetAnswersHeld(fs.data, BlockKey(inode, request.offset - request.offset % fs.data.blockSize));
  }
}
