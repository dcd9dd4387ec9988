/** What a write through the core reports and what it changes besides the write buffer, and when each
    operation that talks to the store reports failure. */
module WriteEffects {
  import opened Base
  import opened FileNames
  import opened FileSystem
  import Paths
  import Inodes
  import Metadata
  import BlockCache
  import CacheBounds
  import CacheContents
  import CacheRuns
  import opened Stores
  import WriteBuffers
  import DurableWrites
  import DurableFiles
  import InterleavedWrites
  import ReadTransparency

  // ---------------------------------------------------------------- the reported count

  /** A successful write reports every byte it was given. */
  lemma WriteReportsAll(fs: Fs, cfg: Config, inode: nat, at: nat, data: Bytes)
    requires fs.data.blockSize > 0 && cfg.writes.partSize > 0
    ensures var r := FileSystem.Write(fs, cfg, inode, at, data).1;
            && (r.Ok? ==> r.value == |data|)
            && (r == Err(NotFound) <==> inode !in fs.inodes.entries)
  {
    hide WriteBuffers.WriteAt, BlockCache.InvalidateRange;
  }

  /** A caller that writes the chunks one after the other and moves on by the count each write reports. */
  ghost function WritesByCount(fs: Fs, cfg: Config, inode: nat, at: nat, chunks: seq<Bytes>): (Fs, bool, nat)
    requires fs.data.blockSize > 0 && cfg.writes.partSize > 0
    decreases |chunks|
  {
    if chunks == [] then (fs, true, at) else
      var (fs1, r) := FileSystem.Write(fs, cfg, inode, at, chunks[0]);
      if r.Err? then (fs1, false, at) else WritesByCount(fs1, cfg, inode, at + r.value, chunks[1..])
  }

  /** Such a caller takes the run of contiguous writes and, when all succeed, ends up beyond exactly the bytes
      that run is said to have written. */
  lemma {:induction false} CountsFollowBytes(fs: Fs, cfg: Config, inode: nat, at: nat, chunks: seq<Bytes>)
    requires fs.data.blockSize > 0 && cfg.writes.partSize > 0
    ensures var (fs1, ok, end) := WritesByCount(fs, cfg, inode, at, chunks);
            && (fs1, ok) == DurableFiles.Writes(fs, cfg, inode, at, chunks)
            && (ok ==> end == at + |DurableWrites.Concat(chunks)|)
    decreases |chunks|
  {
    hide FileSystem.Write;
    if chunks != [] {
      WriteReportsAll(fs, cfg, inode, at, chunks[0]);
      var (fs1, r) := FileSystem.Write(fs, cfg, inode, at, chunks[0]);
      KeepsBlockSize(fs, cfg, inode, at, chunks[0]);
      if r.Ok? { CountsFollowBytes(fs1, cfg, inode, at + |chunks[0]|, chunks[1..]); }
    }
  }

  lemma KeepsBlockSize(fs: Fs, cfg: Config, inode: nat, at: nat, data: Bytes)
    requires fs.data.blockSize > 0 && cfg.writes.partSize > 0
    ensures FileSystem.Write(fs, cfg, inode, at, data).0.data.blockSize == fs.data.blockSize
  {
    hide WriteBuffers.WriteAt, BlockCache.RangeKeys;
  }

  /** The sum of the counts reported to the inode's own writes along a run. */
  ghost function Reported(fs: Fs, cfg: Config, inode: nat, ops: seq<Op>): nat
    requires Valid(fs) && cfg.writes.partSize > 0
  {
    if ops == [] then 0 else
      var front, op := ops[..|ops| - 1], ops[|ops| - 1];
      var before := Exec(fs, cfg, front);
      PositiveBlocks(before);
      Reported(fs, cfg, inode, front) +
        if op.OpWrite? && op.inode == inode then
          var r := FileSystem.Write(before, cfg, inode, op.at, op.data).1; if r.Ok? then r.value else 0
        else 0
  }

  lemma PositiveBlocks(fs: Fs)
    requires Valid(fs)
    ensures fs.data.blockSize > 0
  {
  }

  /** Along an interleaved run of contiguous writes the reported counts sum to the length of what the file is
      said to have been written, and each of its writes starts where the counts so far end. */
  lemma {:induction false} ReportedIsWritten(fs: Fs, cfg: Config, inode: nat, obs: string, ops: seq<Op>)
    requires Valid(fs) && cfg.writes.partSize > 0 && InterleavedWrites.Streams(fs, cfg, inode, obs, ops)
    ensures Reported(fs, cfg, inode, ops) == |DurableWrites.Concat(InterleavedWrites.Chunks(ops, inode))|
    ensures ops != [] && ops[|ops| - 1].OpWrite? && ops[|ops| - 1].inode == inode ==>
              ops[|ops| - 1].at == Reported(fs, cfg, inode, ops[..|ops| - 1])
  {
    hide Valid, FileSystem.Write, Exec, InterleavedWrites.Elsewhere;
    DurableWrites.ConcatLength(InterleavedWrites.Chunks(ops, inode));
    if ops != [] {
      var front, op := ops[..|ops| - 1], ops[|ops| - 1];
      ReportedIsWritten(fs, cfg, inode, obs, front);
      DurableWrites.ConcatLength(InterleavedWrites.Chunks(front, inode));
      var before := Exec(fs, cfg, front);
      if op.OpWrite? && op.inode == inode {
        PositiveBlocks(before);
        WriteReportsAll(before, cfg, inode, op.at, op.data);
        InterleavedWrites.LengthSnoc(InterleavedWrites.Chunks(front, inode), op.data);
      } else {
        assert InterleavedWrites.Chunks(front, inode) + [] == InterleavedWrites.Chunks(front, inode);
      }
    }
  }

  /** The first write to a file, away from its start and below a flush, replaces the object if and only if the
      attribute cache knows the file to have data; otherwise it is only buffered. */
  lemma FirstWriteReplacesIff(fs: Fs, cfg: Config, inode: nat, at: nat, data: Bytes)
    requires fs.data.blockSize > 0 && cfg.writes.partSize > 0
    requires inode in fs.inodes.entries && inode !in fs.writes && at > 0
    requires |data| < Min(cfg.writes.bufferSize, cfg.writes.threshold)
    requires FileSystem.Write(fs, cfg, inode, at, data).1.Ok?
    ensures var known := Metadata.GetAttr(fs.meta, cfg.meta, inode).1;
            FileSystem.Write(fs, cfg, inode, at, data).0.store.puts
            == fs.store.puts + if known.Some? && known.value.size > 0
                               then [(ObsPath(cfg, fs.inodes.entries[inode].path), data)] else []
  {
    hide BlockCache.InvalidateRange, ObsPath;
  }

  // ---------------------------------------------------------------- caches and table

  /** A successful write of some bytes drops from memory exactly the inode's blocks that meet them, leaves
      every other block, the disk tier and all prefetched data, and records the end of the write as the
      size of the inode's entry and of no other. A failed one leaves all of that alone. */
  lemma WriteDropsOverlap(fs: Fs, cfg: Config, inode: nat, at: nat, data: Bytes)
    requires Valid(fs) && CacheBounds.Aligned(fs.data) && cfg.writes.partSize > 0
    ensures fs.data.blockSize > 0
    ensures var (fs1, r) := FileSystem.Write(fs, cfg, inode, at, data);
            && fs1.readahead == fs.readahead && fs1.data.disk == fs.data.disk
            && (r.Err? ==> fs1.inodes == fs.inodes && fs1.data == fs.data)
            && (r.Ok? ==>
                  && inode in fs.inodes.entries
                  && fs1.inodes == fs.inodes.(
                       entries := fs.inodes.entries[inode := fs.inodes.entries[inode].(size := at + |data|)]))
            && (r.Ok? && data != [] ==>
                  && (forall k :: k in fs1.data.blocks <==> (k in fs.data.blocks &&
                        !(k.inode == inode && k.offset < at + |data| && at < k.offset + fs.data.blockSize)))
                  && (forall k :: k in fs1.data.blocks ==> fs1.data.blocks[k] == fs.data.blocks[k]))
  {
    hide WriteBuffers.WriteAt, Inodes.Valid, Metadata.Valid, BlockCache.Valid, BlockCache.RangeKeys,
         CacheBounds.Aligned;
    PositiveBlocks(fs);
    if data != [] { CacheBounds.RangeInvalidationExact(fs.data, inode, at, |data|); }
  }

  ghost predicate BlocksAligned(c: BlockCache.Cache) {
    BlockCache.Valid(c) && CacheBounds.Aligned(c)
  }

  lemma CacheStepAligned(c: BlockCache.Cache, op: CacheRuns.Op)
    requires BlocksAligned(c) && c.blockSize > 0
    ensures BlocksAligned(CacheRuns.Step(c, op))
  {
    hide BlockCache.Valid, CacheContents.AllBlocks;
    CacheRuns.StepConfig(c, op);
    var bs := c.blockSize;
    if op.OpPut? { AlignIdempotent(op.offset, bs); }
    CacheContents.StepContents(c, op, (k: BlockKey, data: Bytes) => k.offset % bs == 0);
  }

  /** Every operation of the core keeps the keys of both tiers multiples of the block size. */
  lemma StepAligned(fs: Fs, cfg: Config, op: Op)
    requires BlocksAligned(fs.data) && fs.data.blockSize > 0 && cfg.writes.partSize > 0
    ensures BlocksAligned(Step(fs, cfg, op).data)
  {
    hide BlocksAligned, BlockCache.Get, BlockCache.Put, BlockCache.Invalidate, BlockCache.InvalidateRange,
         WriteBuffers.WriteAt, WriteBuffers.TruncateAt, Metadata.PutAttr, Register, Probe;
    match op
    case OpLookup(parent, name, stat, dirStat, children) =>
      LookupKeepsData(fs, cfg, parent, name, stat, dirStat, children);
    case OpGetattr(inode, answer) =>
    case OpReaddir(inode, offset, listing) =>
      if inode in fs.inodes.entries && listing.Some? {
        ReadTransparency.ListingTouchesNoData(fs, cfg, fs.inodes.entries[inode].path, listing.value, offset, 3);
      }
    case OpRead(inode, at, size, reachable) =>
      CacheStepAligned(fs.data, CacheRuns.OpGet(inode, at));
      CacheConfig(fs.data, inode, at);
      var c := BlockCache.Get(fs.data, inode, at).0;
      var file := ReadTransparency.FileOf(fs, cfg, inode);
      if file.Some? { CacheStepAligned(c, CacheRuns.OpPut(inode, at, Slice(file.value, at, size))); }
    case OpPrefetched(path, request, reachable) =>
    case OpWrite(inode, at, data) => CacheStepAligned(fs.data, CacheRuns.OpInvalidateRange(inode, at, |data|));
    case OpCreate(parent, name) =>
    case OpUnlink(parent, name) =>
      if parent in fs.inodes.entries {
        var n := Inodes.GetInode(fs.inodes, Paths.JoinPath(fs.inodes.entries[parent].path, name));
        if n.Some? { CacheStepAligned(fs.data, CacheRuns.OpInvalidate(n.value)); }
      }
    case OpRelease(inode) =>
    case OpFlush(inode) =>
    case OpTruncate(inode, size) => CacheStepAligned(fs.data, CacheRuns.OpInvalidate(inode));
    case OpWait(time) =>
  }

  lemma LookupKeepsData(fs: Fs, cfg: Config, parent: nat, name: string,
                        stat: Option<ObjectMeta>, dirStat: Option<ObjectMeta>, children: bool)
    ensures Lookup(fs, cfg, parent, name, stat, dirStat, children).0.data == fs.data
  {
    hide Metadata.PutAttr;
  }

  /** In every reachable state the blocks of both tiers are aligned, so `WriteDropsOverlap` applies. */
  lemma {:induction false} RunAligned(fs: Fs, cfg: Config, ops: seq<Op>)
    requires Valid(fs) && cfg.writes.partSize > 0 && BlocksAligned(fs.data)
    ensures BlocksAligned(Exec(fs, cfg, ops).data)
  {
    hide BlocksAligned, Step, Inodes.Valid, Metadata.Valid;
    if ops != [] {
      RunAligned(fs, cfg, ops[..|ops| - 1]);
      PositiveBlocks(Exec(fs, cfg, ops[..|ops| - 1]));
      StepAligned(Exec(fs, cfg, ops[..|ops| - 1]), cfg, ops[|ops| - 1]);
    }
  }

  // ---------------------------------------------------------------- reporting failure

  /** Some request that was made between the two stores failed. */
  predicate SomeFailed(st: Store, st': Store) {
    exists r: nat :: st.requests <= r < st'.requests && r in st.outages
  }

  lemma BufferReports(b: WriteBuffers.Buf, st: Store, path: string, at: nat, data: Bytes, size: nat,
                      cfg: WriteBuffers.Config)
    requires cfg.partSize > 0
    ensures var (_, st', ok) := WriteBuffers.Write(b, st, path, at, data, cfg); ok <==> !SomeFailed(st, st')
    ensures var (_, st', ok) := WriteBuffers.Flush(b, st); ok <==> !SomeFailed(st, st')
    ensures var (_, st', ok) := WriteBuffers.Truncate(b, st, path, size); ok <==> !SomeFailed(st, st')
  {
    hide WriteBuffers.CutParts;
    assert st.requests in st.outages ==> st.requests in st.outages;
  }

  /** Write, flush, release and truncate fail exactly when the inode is unknown (write and truncate only) or
      a request they made to the store failed. */
  lemma FailuresReportedIff(fs: Fs, cfg: Config, inode: nat, at: nat, data: Bytes, size: nat)
    requires fs.data.blockSize > 0 && cfg.writes.partSize > 0
    ensures var (fs1, r) := FileSystem.Write(fs, cfg, inode, at, data);
            r.Ok? <==> inode in fs.inodes.entries && !SomeFailed(fs.store, fs1.store)
    ensures var (fs1, r) := Flush(fs, inode); r.Ok? <==> !SomeFailed(fs.store, fs1.store)
    ensures var (fs1, r) := Release(fs, inode); r.Ok? <==> !SomeFailed(fs.store, fs1.store)
    ensures var (fs1, r) := Truncate(fs, cfg, inode, size);
            r.Ok? <==> inode in fs.inodes.entries && !SomeFailed(fs.store, fs1.store)
  {
    hide WriteBuffers.Write, WriteBuffers.Flush, WriteBuffers.Truncate,
         BlockCache.InvalidateRange, BlockCache.Invalidate;
    if inode in fs.inodes.entries {
      var path := ObsPath(cfg, fs.inodes.entries[inode].path);
      var attr := Metadata.GetAttr(fs.meta, cfg.meta, inode).1;
      var fileSize := if attr.Some? then attr.value.size else 0;
      var b := WriteBuffers.BufferOf(fs.writes, inode, path, fileSize);
      var b' := WriteBuffers.BufferOf(fs.writes, inode, path, size);
      BufferReports(b, fs.store, path, at, data, size, cfg.writes);
      BufferReports(b', fs.store, path, at, data, size, cfg.writes);
    }
    if inode in fs.writes { BufferReports(fs.writes[inode], fs.store, "", at, data, size, cfg.writes); }
  }

  /** A successful flush of a buffer without an upload leaves the object holding exactly what was buffered and
      the buffer empty and in place; no other object and no other buffer changes. */
  lemma FlushStores(fs: Fs, inode: nat)
    requires inode in fs.writes && fs.writes[inode].upload.None?
    requires fs.writes[inode].dirty && fs.writes[inode].data != []
    ensures var (fs1, r) := Flush(fs, inode);
            && fs1 == fs.(writes := fs1.writes, store := fs1.store)
            && fs1.writes == fs.writes[inode := fs1.writes[inode]] && fs1.writes[inode].data == []
            && (r.Ok? <==> fs.store.requests !in fs.store.outages)
            && fs1.store.objects == (if r.Ok? then fs.store.objects[fs.writes[inode].path := fs.writes[inode].data]
                                     else fs.store.objects)
  {
  }
}
