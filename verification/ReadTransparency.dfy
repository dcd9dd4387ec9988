/** Reads through prefetch buffer, block cache and store return the bytes of the object, on every run
    that does not rewrite it and falls through to the store only at block boundaries. */
module ReadTransparency {
  import opened Base
  import opened FileNames
  import opened FileSystem
  import opened CacheContents
  import Paths
  import Inodes
  import Metadata
  import BlockCache
  import CacheRuns
  import Readahead

  function FileOf(fs: Fs, cfg: Config, inode: nat): Option<Bytes> {
    var path := Inodes.GetPath(fs.inodes, inode);
    if path.Some? && ObsPath(cfg, path.value) in fs.store.objects then Some(fs.store.objects[ObsPath(cfg, path.value)])
    else None
  }

  /** The inodes of `files` exist and their objects have these bytes. */
  ghost predicate Holds(fs: Fs, cfg: Config, files: map<nat, Bytes>) {
    forall n :: n in files ==> FileOf(fs, cfg, n) == Some(files[n])
  }

  /** `data` is what `file` has at `at`. */
  predicate Segment(data: Bytes, file: Bytes, at: nat) {
    data == Slice(file, at, |data|)
  }

  predicate TrueBlock(k: BlockKey, data: Bytes, files: map<nat, Bytes>) {
    k.inode in files ==> Segment(data, files[k.inode], k.offset)
  }

  predicate TruePrefetch(k: Readahead.PrefetchKey, data: Bytes, files: map<nat, Bytes>) {
    k.inode in files ==>
      Segment(data, files[k.inode], k.offset) && (k.offset < |files[k.inode]| ==> data != [])
  }

  ghost predicate TrueBlocks(c: BlockCache.Cache, files: map<nat, Bytes>)
    requires BlockCache.Valid(c)
  {
    AllBlocks(c, (k: BlockKey, data: Bytes) => TrueBlock(k, data, files))
  }

  ghost predicate TruePrefetches(s: Readahead.State, files: map<nat, Bytes>) {
    forall k :: k in s.buffer ==> TruePrefetch(k, s.buffer[k].data, files)
  }

  /** Every cached byte of these files is the file's byte at that position. */
  ghost predicate Faithful(fs: Fs, files: map<nat, Bytes>)
    requires BlockCache.Valid(fs.data)
  {
    TrueBlocks(fs.data, files) && TruePrefetches(fs.readahead, files)
  }

  // ---------------------------------------------------------------- one read

  /** What the read returns before asking the store, if anything. */
  ghost function Hit(fs: Fs, cfg: Config, inode: nat, at: nat, size: nat): Option<Bytes>
    requires fs.data.blockSize > 0
  {
    var prefetched := Readahead.GetPrefetched(fs.readahead, cfg.readahead, inode, at).1;
    if prefetched.Some? then Some(prefetched.value[..Min(size, |prefetched.value|)]) else
      var block := BlockCache.Get(fs.data, inode, at).1;
      if block.Some? then FromBlock(block.value, at % fs.data.blockSize, size) else None
  }

  /** A piece of a segment is a segment further on. */
  lemma SegmentPiece(data: Bytes, file: Bytes, at: nat, from: nat, size: nat)
    requires Segment(data, file, at) && from <= |data|
    ensures data[from..Min(from + size, |data|)] <= Slice(file, at + from, size)
  {
  }

  lemma HitIsPrefix(fs: Fs, cfg: Config, files: map<nat, Bytes>, inode: nat, at: nat, size: nat)
    requires BlockCache.Valid(fs.data) && Faithful(fs, files) && inode in files
    ensures var hit := Hit(fs, cfg, inode, at, size);
            hit.Some? ==>
              && hit.value <= Slice(files[inode], at, size)
              && (size > 0 && at < |files[inode]| ==> hit.value != [])
  {
    hide BlockCache.Valid, AllBlocks, BlockCache.GetKey;
    var file, bs := files[inode], fs.data.blockSize;
    assert bs > 0 by { BlockSizePositive(fs.data); }
    var prefetched := Readahead.GetPrefetched(fs.readahead, cfg.readahead, inode, at).1;
    if prefetched.Some? {
      SegmentPiece(prefetched.value, file, at, 0, size);
    } else {
      var k := BlockCache.KeyFor(inode, at, bs);
      GetContents(fs.data, k, (k: BlockKey, data: Bytes) => TrueBlock(k, data, files));
      var block := BlockCache.Get(fs.data, inode, at).1;
      if block.Some? && at % bs < |block.value| {
        assert Segment(block.value, file, k.offset);
        SegmentPiece(block.value, file, k.offset, at % bs, size);
      }
    }
  }

  lemma BlockSizePositive(c: BlockCache.Cache)
    requires BlockCache.Valid(c)
    ensures c.blockSize > 0
  {
  }

  /** Each read of an object returns a prefix of its bytes at the offset, non-empty inside the object;
      it succeeds whenever the store answers. */
  lemma ReadReturnsFile(fs: Fs, cfg: Config, files: map<nat, Bytes>, inode: nat, at: nat, size: nat, reachable: bool)
    requires Valid(fs) && Faithful(fs, files) && Holds(fs, cfg, files) && inode in files
    ensures var r := Read(fs, cfg, inode, at, size, reachable).1;
            && (r.Ok? ==> r.value <= Slice(files[inode], at, size))
            && (r.Ok? && size > 0 && at < |files[inode]| ==> r.value != [])
            && (reachable ==> r.Ok?)
  {
    hide Inodes.Valid, Metadata.Valid, Faithful, BlockCache.Valid, BlockCache.GetKey, BlockCache.Put;
    BlockSizePositive(fs.data);
    HitIsPrefix(fs, cfg, files, inode, at, size);
    CacheConfig(fs.data, inode, at);
    assert FileOf(fs, cfg, inode) == Some(files[inode]);
  }

  // ---------------------------------------------------------------- what a fall-through leaves behind

  ghost predicate FallsThrough(fs: Fs, cfg: Config, inode: nat, at: nat, size: nat, reachable: bool)
    requires fs.data.blockSize > 0
  {
    reachable && FileOf(fs, cfg, inode).Some? && Hit(fs, cfg, inode, at, size).None?
  }

  /** Bytes fetched at `at` are right for the block of `at`, whatever the file, exactly when `at` is a
      block boundary (or nothing is asked for): the cache files them under the start of the block. */
  lemma RightForBlockIff(at: nat, size: nat, blockSize: nat)
    requires blockSize > 0
    ensures (forall file: Bytes :: Segment(Slice(file, at, size), file, Align(at, blockSize)))
            <==> at % blockSize == 0 || size == 0
  {
    if at % blockSize == 0 || size == 0 {
      forall file: Bytes ensures Segment(Slice(file, at, size), file, Align(at, blockSize)) {
        FetchedSegment(file, at, size);
      }
    } else {
      var file := Marked(at);
      assert Slice(file, at, size) == [1];
      assert Slice(file, Align(at, blockSize), 1)[0] == 0;
      assert !Segment(Slice(file, at, size), file, Align(at, blockSize));
    }
  }

  lemma FetchedSegment(file: Bytes, at: nat, size: nat)
    ensures Segment(Slice(file, at, size), file, at)
    ensures size == 0 ==> Slice(file, at, size) == []
  {
  }

  /** Zeros up to `at`, then a one. */
  function Marked(at: nat): Bytes { seq(at, _ => 0 as byte) + [1] }

  // ---------------------------------------------------------------- every step keeps the caches true

  /** The operation does not misplace bytes of these files: a read that falls through does so at a block
      boundary or asks for nothing, and a prefetch fetches a non-empty window of its own inode's object. */
  ghost predicate Harmless(fs: Fs, cfg: Config, files: map<nat, Bytes>, op: Op)
    requires fs.data.blockSize > 0
  {
    && (op.OpRead? && op.inode in files ==>
          FallsThrough(fs, cfg, op.inode, op.at, op.size, op.reachable) ==>
            op.at % fs.data.blockSize == 0 || op.size == 0)
    && (op.OpPrefetched? && op.request.inode in files ==>
          && op.request.size > 0 && Inodes.GetPath(fs.inodes, op.request.inode).Some?
          && op.path == ObsPath(cfg, Inodes.GetPath(fs.inodes, op.request.inode).value))
  }

  ghost predicate CacheTrue(c: BlockCache.Cache, files: map<nat, Bytes>) {
    BlockCache.Valid(c) && TrueBlocks(c, files)
  }

  lemma GetTrue(c: BlockCache.Cache, inode: nat, at: nat, files: map<nat, Bytes>)
    requires CacheTrue(c, files) && c.blockSize > 0
    ensures CacheTrue(BlockCache.Get(c, inode, at).0, files)
  {
    GetContents(c, BlockCache.KeyFor(inode, at, c.blockSize), (k: BlockKey, data: Bytes) => TrueBlock(k, data, files));
  }

  lemma PutTrue(c: BlockCache.Cache, inode: nat, at: nat, data: Bytes, files: map<nat, Bytes>)
    requires CacheTrue(c, files) && c.blockSize > 0
    requires TrueBlock(BlockCache.KeyFor(inode, at, c.blockSize), data, files)
    ensures CacheTrue(BlockCache.Put(c, inode, at, data), files)
  {
    PutContents(c, BlockCache.KeyFor(inode, at, c.blockSize), data,
                (k: BlockKey, data: Bytes) => TrueBlock(k, data, files));
  }

  lemma RemovalsTrue(c: BlockCache.Cache, files: map<nat, Bytes>, inode: nat, at: nat, len: nat)
    requires CacheTrue(c, files) && c.blockSize > 0
    ensures CacheTrue(BlockCache.Invalidate(c, inode), files)
    ensures CacheTrue(BlockCache.InvalidateRange(c, inode, at, len), files)
  {
    var P := (k: BlockKey, data: Bytes) => TrueBlock(k, data, files);
    StepContents(c, CacheRuns.OpInvalidate(inode), P);
    StepContents(c, CacheRuns.OpInvalidateRange(inode, at, len), P);
  }

  lemma ReadKeepsFaithful(fs: Fs, cfg: Config, files: map<nat, Bytes>, inode: nat, at: nat, size: nat, reachable: bool)
    requires CacheTrue(fs.data, files) && fs.data.blockSize > 0 && TruePrefetches(fs.readahead, files)
    requires Holds(fs, cfg, files) && Harmless(fs, cfg, files, OpRead(inode, at, size, reachable))
    ensures var fs' := Read(fs, cfg, inode, at, size, reachable).0;
            CacheTrue(fs'.data, files) && TruePrefetches(fs'.readahead, files)
  {
    hide CacheTrue, BlockCache.GetKey, BlockCache.Put, BlockCache.Get;
    GetTrue(fs.data, inode, at, files);
    CacheConfig(fs.data, inode, at);
    var c := BlockCache.Get(fs.data, inode, at).0;
    var file := FileOf(fs, cfg, inode);
    if FallsThrough(fs, cfg, inode, at, size, reachable) {
      var fetched := Slice(file.value, at, size);
      if inode in files {
        assert files[inode] == file.value;
        FetchedSegment(file.value, at, size);
      }
      PutTrue(c, inode, at, fetched, files);
    }
  }

  lemma PrefetchKeepsFaithful(fs: Fs, cfg: Config, files: map<nat, Bytes>,
                              path: string, request: Readahead.Request, reachable: bool)
    requires fs.data.blockSize > 0 && TruePrefetches(fs.readahead, files)
    requires Holds(fs, cfg, files) && Harmless(fs, cfg, files, OpPrefetched(path, request, reachable))
    ensures TruePrefetches(CompletePrefetch(fs, path, request, reachable).readahead, files)
  {
    if request.inode in files {
      assert FileOf(fs, cfg, request.inode) == Some(files[request.inode]);
      FetchedSegment(files[request.inode], request.offset, request.size);
    }
  }

  lemma {:induction false} ListingTouchesNoData(
    fs: Fs, cfg: Config, dir: string, listing: seq<ObjectMeta>, offset: int, next: int)
    ensures var fs' := ListEntries(fs, cfg, dir, listing, offset, next).0;
            fs'.data == fs.data && fs'.readahead == fs.readahead && fs'.store == fs.store && fs'.writes == fs.writes
    decreases |listing|
  {
    if listing != [] {
      var m := listing[0];
      if next <= offset {
        ListingTouchesNoData(fs, cfg, dir, listing[1..], offset, next + 1);
      } else if BadName(Name(m)) {
        ListingTouchesNoData(fs, cfg, dir, listing[1..], offset, next);
      } else {
        var fs1 := Register(fs, cfg, Paths.JoinPath(dir, Name(m)), m.isDir, m.size, FromMeta(m)).0;
        ListingTouchesNoData(fs1, cfg, dir, listing[1..], offset, next + 1);
      }
    }
  }

  /** Every operation, on whatever files, keeps every cached byte of these files true. */
  lemma StepKeepsFaithful(fs: Fs, cfg: Config, files: map<nat, Bytes>, op: Op)
    requires cfg.writes.partSize > 0 && fs.data.blockSize > 0
    requires CacheTrue(fs.data, files) && TruePrefetches(fs.readahead, files)
    requires Holds(fs, cfg, files) && Harmless(fs, cfg, files, op)
    ensures var fs' := Step(fs, cfg, op);
            CacheTrue(fs'.data, files) && TruePrefetches(fs'.readahead, files)
  {
    hide CacheTrue, Holds, BlockCache.Invalidate, BlockCache.InvalidateRange, Metadata.GetAttr;
    match op
    case OpLookup(parent, name, stat, dirStat, children) =>
    case OpGetattr(inode, answer) =>
    case OpReaddir(inode, offset, listing) =>
      if listing.Some? && inode in fs.inodes.entries {
        ListingTouchesNoData(fs, cfg, fs.inodes.entries[inode].path, listing.value, offset, 3);
      }
    case OpRead(inode, at, size, reachable) => ReadKeepsFaithful(fs, cfg, files, inode, at, size, reachable);
    case OpPrefetched(path, request, reachable) => PrefetchKeepsFaithful(fs, cfg, files, path, request, reachable);
    case OpWrite(inode, at, data) => RemovalsTrue(fs.data, files, inode, at, |data|);
    case OpCreate(parent, name) =>
    case OpUnlink(parent, name) =>
      if parent in fs.inodes.entries {
        var inode := Inodes.GetInode(fs.inodes, Paths.JoinPath(fs.inodes.entries[parent].path, name));
        if inode.Some? { RemovalsTrue(fs.data, files, inode.value, 0, 0); }
      }
    case OpRelease(inode) =>
    case OpFlush(inode) =>
    case OpTruncate(inode, size) => RemovalsTrue(fs.data, files, inode, 0, 0);
    case OpWait(time) =>
  }

  // ---------------------------------------------------------------- whole runs

  /** Along the whole run the files keep their bytes and no operation misplaces any of them. */
  ghost predicate Undisturbed(fs: Fs, cfg: Config, files: map<nat, Bytes>, ops: seq<Op>)
    requires Valid(fs) && cfg.writes.partSize > 0
  {
    ops == [] ||
      var before := Exec(fs, cfg, ops[..|ops| - 1]);
      BlockSizePositive(before.data);
      && Undisturbed(fs, cfg, files, ops[..|ops| - 1])
      && Holds(before, cfg, files) && Harmless(before, cfg, files, ops[|ops| - 1])
  }

  lemma {:induction false} RunKeepsFaithful(fs: Fs, cfg: Config, files: map<nat, Bytes>, ops: seq<Op>)
    requires Valid(fs) && cfg.writes.partSize > 0
    requires Faithful(fs, files) && Undisturbed(fs, cfg, files, ops)
    ensures Faithful(Exec(fs, cfg, ops), files)
  {
    hide Inodes.Valid, Metadata.Valid, BlockCache.Valid, TrueBlocks, TruePrefetches;
    if ops != [] {
      RunKeepsFaithful(fs, cfg, files, ops[..|ops| - 1]);
      var before := Exec(fs, cfg, ops[..|ops| - 1]);
      BlockSizePositive(before.data);
      StepKeepsFaithful(before, cfg, files, ops[|ops| - 1]);
    }
  }

  /** Read transparency: at the end of any run that leaves the files undisturbed, whatever was evicted,
      promoted, prefetched or invalidated on the way and whatever happened to other files, a read of
      one of them returns its bytes. */
  lemma ReadsAreTransparent(fs: Fs, cfg: Config, files: map<nat, Bytes>, ops: seq<Op>,
                            inode: nat, at: nat, size: nat, reachable: bool)
    requires Valid(fs) && cfg.writes.partSize > 0
    requires Faithful(fs, files) && Undisturbed(fs, cfg, files, ops)
    requires inode in files && Holds(Exec(fs, cfg, ops), cfg, files)
    ensures var r := Read(Exec(fs, cfg, ops), cfg, inode, at, size, reachable).1;
            && (r.Ok? ==> r.value <= Slice(files[inode], at, size))
            && (r.Ok? && size > 0 && at < |files[inode]| ==> r.value != [])
            && (reachable ==> r.Ok?)
  {
    RunKeepsFaithful(fs, cfg, files, ops);
    ReadReturnsFile(Exec(fs, cfg, ops), cfg, files, inode, at, size, reachable);
  }

  /** Empty caches are true of any files. */
  lemma EmptyCachesFaithful(fs: Fs, files: map<nat, Bytes>)
    requires CacheRuns.Fresh(fs.data) && fs.readahead.buffer == map[]
    ensures BlockCache.Valid(fs.data) && Faithful(fs, files)
  {
  }

  /** Off a block boundary it goes wrong: on empty caches a one-byte read there leaves its byte at the
      start of the block, and the next read of the start of the block returns that byte instead. */
  lemma MisalignedReadMisleads(fs: Fs, cfg: Config, inode: nat, at: nat)
    requires CacheRuns.Fresh(fs.data) && fs.data.disk.None? && fs.readahead.buffer == map[]
    requires at % fs.data.blockSize != 0 && FileOf(fs, cfg, inode) == Some(Marked(at))
    ensures var fs' := Read(fs, cfg, inode, at, 1, true).0;
            var start := Align(at, fs.data.blockSize);
            && fs'.data.blockSize > 0
            && Read(fs', cfg, inode, start, 1, true).1 == Ok([1])
            && Slice(Marked(at), start, 1) == [0]
  {
    var start, bs := Align(at, fs.data.blockSize), fs.data.blockSize;
    var k := BlockKey(inode, start);
    AlignIdempotent(at, bs);
    CacheConfig(fs.data, inode, at);
    assert BlockCache.Get(fs.data, inode, at) == (fs.data, None);
    assert Slice(Marked(at), at, 1) == [1];
    var c := BlockCache.Put(fs.data, inode, at, [1]);
    CacheRuns.FreshValid(fs.data);
    CacheRuns.PutThenGet(fs.data, inode, at, [1], start);
    assert Read(fs, cfg, inode, at, 1, true).0.data == c;
    assert [1 as byte][0..1] == [1];
    assert Slice(Marked(at), start, 1) == [0] by { assert Marked(at)[start] == 0; }
  }
}
