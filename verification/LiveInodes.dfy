/** The caches name only live inodes, so a path that is unlinked and created again is never served its
    predecessor's attributes or bytes. Its write buffer is another matter. */
module LiveInodes {
  import opened Base
  import opened FileNames
  import opened FileSystem
  import opened CacheContents
  import Paths
  import Inodes
  import BlockCache
  import CacheRuns
  import Metadata
  import Readahead
  import Stores
  import WriteBuffers

  ghost predicate BlocksNamed(c: BlockCache.Cache, live: set<nat>) {
    && BlockCache.Valid(c)
    && AllBlocks(c, (k: BlockKey, data: Bytes) => k.inode in live)
  }

  ghost predicate ReadsNamed(s: Readahead.State, live: set<nat>) {
    && s.files.Keys <= live
    && forall k :: k in s.buffer ==> k.inode in live
  }

  /** Every inode keyed in the attribute cache, either block tier, the read states or the prefetch
      buffer is in `live`. */
  ghost predicate Named(fs: Fs, live: set<nat>) {
    && fs.meta.attrs.Keys <= live
    && BlocksNamed(fs.data, live)
    && ReadsNamed(fs.readahead, live)
  }

  ghost predicate Live(fs: Fs) { Named(fs, fs.inodes.entries.Keys) }

  lemma BlocksGrow(c: BlockCache.Cache, live: set<nat>, more: set<nat>)
    requires BlocksNamed(c, live) && live <= more
    ensures BlocksNamed(c, more)
  {
  }

  lemma BlocksStep(c: BlockCache.Cache, op: CacheRuns.Op, live: set<nat>)
    requires BlocksNamed(c, live) && c.blockSize > 0
    requires op.OpPut? ==> op.inode in live
    ensures BlocksNamed(CacheRuns.Step(c, op), live)
  {
    StepContents(c, op, (k: BlockKey, data: Bytes) => k.inode in live);
  }

  lemma BlocksForget(c: BlockCache.Cache, inode: nat, live: set<nat>)
    requires BlocksNamed(c, live)
    ensures BlocksNamed(BlockCache.Invalidate(c, inode), live - {inode})
  {
    InvalidateContents(c, inode, (k: BlockKey, data: Bytes) => k.inode in live);
  }

  // ---------------------------------------------------------------- steps

  lemma RegisterLive(fs: Fs, cfg: Config, path: string, isDir: bool, size: nat, origin: Origin)
    requires Live(fs) && Inodes.Valid(fs.inodes)
    ensures var (fs', n) := Register(fs, cfg, path, isDir, size, origin);
            Live(fs') && Inodes.Valid(fs'.inodes) && n in fs'.inodes.entries
            && fs.inodes.entries.Keys <= fs'.inodes.entries.Keys && fs.inodes.next <= fs'.inodes.next
            && fs'.writes == fs.writes
  {
    hide BlocksNamed, ReadsNamed;
    var t := Inodes.GetOrCreate(fs.inodes, path, isDir, size).0;
    Inodes.StepKeepsValid(fs.inodes, Inodes.OpCreate(path, isDir, size));
    BlocksGrow(fs.data, fs.inodes.entries.Keys, t.entries.Keys);
    assert ReadsNamed(fs.readahead, t.entries.Keys) by {
      ReadsGrow(fs.readahead, fs.inodes.entries.Keys, t.entries.Keys);
    }
  }

  lemma ReadsGrow(s: Readahead.State, live: set<nat>, more: set<nat>)
    requires ReadsNamed(s, live) && live <= more
    ensures ReadsNamed(s, more)
  {
  }

  lemma {:induction false} ListingLive(
    fs: Fs, cfg: Config, dir: string, listing: seq<ObjectMeta>, offset: int, next: int)
    requires Live(fs) && Inodes.Valid(fs.inodes)
    ensures var fs' := ListEntries(fs, cfg, dir, listing, offset, next).0;
            Live(fs') && fs.inodes.next <= fs'.inodes.next && fs'.writes == fs.writes
    decreases |listing|
  {
    hide Live, Inodes.Valid, Register;
    if listing != [] {
      var m := listing[0];
      if next <= offset {
        ListingLive(fs, cfg, dir, listing[1..], offset, next + 1);
      } else if BadName(Name(m)) {
        ListingLive(fs, cfg, dir, listing[1..], offset, next);
      } else {
        RegisterLive(fs, cfg, Paths.JoinPath(dir, Name(m)), m.isDir, m.size, FromMeta(m));
        var fs1 := Register(fs, cfg, Paths.JoinPath(dir, Name(m)), m.isDir, m.size, FromMeta(m)).0;
        ListingLive(fs1, cfg, dir, listing[1..], offset, next + 1);
      }
    }
  }

  /** Fewer attributes, other negative entries and a later clock change nothing. */
  lemma MetaShrinks(fs: Fs, m: Metadata.State)
    requires Live(fs) && m.attrs.Keys <= fs.inodes.entries.Keys
    ensures Live(fs.(meta := m))
  {
  }

  lemma ProbeLive(fs: Fs, cfg: Config, path: string,
                  stat: Option<ObjectMeta>, dirStat: Option<ObjectMeta>, children: bool)
    requires Live(fs) && Inodes.Valid(fs.inodes)
    ensures var fs' := Probe(fs, cfg, path, stat, dirStat, children).0;
            Live(fs') && fs.inodes.next <= fs'.inodes.next && fs'.writes == fs.writes
  {
    hide Live, Inodes.Valid, Register;
    if stat.Some? {
      RegisterLive(fs, cfg, path, stat.value.isDir, stat.value.size, FromMeta(stat.value));
    } else if dirStat.Some? {
      RegisterLive(fs, cfg, path, true, 0, FromMeta(dirStat.value));
    } else if children {
      RegisterLive(fs, cfg, path, true, 0, ImplicitDir);
    } else {
      LiveAttrs(fs);
      MetaShrinks(fs, Metadata.PutNegative(fs.meta, path));
    }
  }

  lemma LiveAttrs(fs: Fs)
    requires Live(fs)
    ensures fs.meta.attrs.Keys <= fs.inodes.entries.Keys
  {
  }

  lemma LookupLive(fs: Fs, cfg: Config, parent: nat, name: string,
                   stat: Option<ObjectMeta>, dirStat: Option<ObjectMeta>, children: bool)
    requires Live(fs) && Inodes.Valid(fs.inodes)
    ensures var fs' := Lookup(fs, cfg, parent, name, stat, dirStat, children).0;
            Live(fs') && fs.inodes.next <= fs'.inodes.next && fs'.writes == fs.writes
  {
    hide Live, Inodes.Valid, Probe;
    var parentPath := Inodes.GetPath(fs.inodes, parent);
    if parentPath.Some? {
      var path := Paths.JoinPath(parentPath.value, name);
      var m1 := Metadata.IsNegative(fs.meta, cfg.meta, path).0;
      LiveAttrs(fs);
      MetaShrinks(fs, m1);
      var inode := Inodes.GetInode(fs.inodes, path);
      var m2 := if inode.Some? then Metadata.GetAttr(m1, cfg.meta, inode.value).0 else m1;
      MetaShrinks(fs, m2);
      ProbeLive(fs.(meta := m2), cfg, path, stat, dirStat, children);
    }
  }

  lemma PutAttrKeys(m: Metadata.State, cfg: Metadata.Config, inode: nat, attr: Metadata.FileAttr)
    ensures Metadata.PutAttr(m, cfg, inode, attr).attrs.Keys <= m.attrs.Keys + {inode}
  {
  }

  lemma GetattrLive(fs: Fs, cfg: Config, inode: nat, stat: Result<ObjectMeta, Error>)
    requires Live(fs)
    ensures var fs' := Getattr(fs, cfg, inode, stat).0;
            Live(fs') && fs'.inodes == fs.inodes && fs'.writes == fs.writes
  {
    hide Live, Metadata.PutAttr;
    LiveAttrs(fs);
    var m1 := Metadata.GetAttr(fs.meta, cfg.meta, inode).0;
    MetaShrinks(fs, m1);
    if stat.Ok? && inode in fs.inodes.entries {
      PutAttrKeys(m1, cfg.meta, inode, AttrOf(inode, stat.value));
      MetaShrinks(fs, Metadata.PutAttr(m1, cfg.meta, inode, AttrOf(inode, stat.value)));
    }
  }

  lemma ReadLive(fs: Fs, cfg: Config, inode: nat, at: nat, size: nat, reachable: bool)
    requires Live(fs) && fs.data.blockSize > 0
    ensures var fs' := Read(fs, cfg, inode, at, size, reachable).0;
            Live(fs') && fs'.inodes == fs.inodes && fs'.writes == fs.writes
  {
    hide BlocksNamed, BlockCache.GetKey, BlockCache.Put, Readahead.Record;
    if inode in fs.inodes.entries {
      var live := fs.inodes.entries.Keys;
      BlocksStep(fs.data, CacheRuns.OpGet(inode, at), live);
      CacheConfig(fs.data, inode, at);
      var c := BlockCache.Get(fs.data, inode, at).0;
      var fetched := Stores.ReadRange(fs.store, ObsPath(cfg, fs.inodes.entries[inode].path), at, size);
      if fetched.Some? { BlocksStep(c, CacheRuns.OpPut(inode, at, fetched.value), live); }
    }
  }

  lemma WriteLive(fs: Fs, cfg: Config, inode: nat, at: nat, data: Bytes)
    requires Live(fs) && fs.data.blockSize > 0 && cfg.writes.partSize > 0
    ensures var fs' := Write(fs, cfg, inode, at, data).0;
            Live(fs') && fs'.inodes.entries.Keys == fs.inodes.entries.Keys && fs'.inodes.next == fs.inodes.next
            && fs'.writes.Keys <= fs.writes.Keys + (if inode in fs.inodes.entries then {inode} else {})
  {
    hide BlocksNamed, BlockCache.InvalidateRange, WriteBuffers.Write;
    BlocksStep(fs.data, CacheRuns.OpInvalidateRange(inode, at, |data|), fs.inodes.entries.Keys);
    var fs' := Write(fs, cfg, inode, at, data).0;
    assert fs'.inodes.entries.Keys == fs.inodes.entries.Keys;
    assert fs'.meta.attrs.Keys <= fs.meta.attrs.Keys;
  }

  lemma CreateLive(fs: Fs, cfg: Config, parent: nat, name: string)
    requires Live(fs) && Inodes.Valid(fs.inodes)
    ensures var fs' := Create(fs, cfg, parent, name).0;
            Live(fs') && fs.inodes.next <= fs'.inodes.next && fs'.writes == fs.writes
  {
    hide Inodes.Valid, Register, BlocksNamed, ReadsNamed;
    if parent in fs.inodes.entries {
      var path := Paths.JoinPath(fs.inodes.entries[parent].path, name);
      var fs1 := fs.(store := Stores.Put(fs.store, ObsPath(cfg, path), []).0);
      RegisterLive(fs1, cfg, path, false, 0, NewFile);
    }
  }

  lemma ForgetLive(fs: Fs, inode: nat)
    requires Live(fs) && inode in fs.inodes.entries
    ensures Live(Forget(fs, inode))
  {
    hide BlocksNamed, BlockCache.Invalidate;
    BlocksForget(fs.data, inode, fs.inodes.entries.Keys);
    assert Forget(fs, inode).inodes.entries.Keys == fs.inodes.entries.Keys - {inode};
  }

  lemma UnlinkLive(fs: Fs, cfg: Config, parent: nat, name: string)
    requires Live(fs) && Inodes.Valid(fs.inodes)
    ensures var fs' := Unlink(fs, cfg, parent, name).0;
            Live(fs') && fs'.inodes.next == fs.inodes.next && fs'.writes == fs.writes
  {
    hide BlocksNamed, ReadsNamed, Forget;
    if parent in fs.inodes.entries {
      var path := Paths.JoinPath(fs.inodes.entries[parent].path, name);
      var fs1 := fs.(store := Stores.Delete(fs.store, ObsPath(cfg, path)).0);
      var inode := Inodes.GetInode(fs.inodes, path);
      if inode.Some? {
        ForgetLive(fs1, inode.value);
        ForgetFrame(fs1, inode.value);
      }
    }
  }

  lemma ForgetFrame(fs: Fs, inode: nat)
    ensures var fs' := Forget(fs, inode);
            fs'.inodes == Inodes.Remove(fs.inodes, inode) && fs'.writes == fs.writes && fs'.store == fs.store
  {
  }

  /** A prefetch keeps the caches live exactly when its inode is still there (or it fetched nothing). */
  lemma PrefetchLiveIff(fs: Fs, path: string, request: Readahead.Request, reachable: bool)
    requires Live(fs)
    ensures var fs' := CompletePrefetch(fs, path, request, reachable);
            Live(fs') <==> request.inode in fs.inodes.entries || !reachable || path !in fs.store.objects
  {
    hide BlocksNamed;
    var fs' := CompletePrefetch(fs, path, request, reachable);
    if reachable && path in fs.store.objects {
      assert Readahead.PrefetchKey(request.inode, request.offset) in fs'.readahead.buffer;
    }
  }

  /** Prefetches complete before their inode is unlinked. */
  predicate InTime(fs: Fs, op: Op) {
    op.OpPrefetched? ==> op.request.inode in fs.inodes.entries
  }

  /** Write buffers belong to numbers already issued. */
  ghost predicate BuffersIssued(fs: Fs) {
    forall i :: i in fs.writes ==> i < fs.inodes.next
  }

  lemma StepLive(fs: Fs, cfg: Config, op: Op)
    requires Live(fs) && Inodes.Valid(fs.inodes) && fs.data.blockSize > 0 && cfg.writes.partSize > 0
    requires BuffersIssued(fs) && InTime(fs, op)
    ensures Live(Step(fs, cfg, op)) && BuffersIssued(Step(fs, cfg, op))
  {
    hide Live, BlockCache.Invalidate, WriteBuffers.Flush, WriteBuffers.Truncate;
    match op
    case OpLookup(parent, name, stat, dirStat, children) => LookupLive(fs, cfg, parent, name, stat, dirStat, children);
    case OpGetattr(inode, answer) => GetattrLive(fs, cfg, inode, answer);
    case OpReaddir(inode, offset, listing) =>
      if listing.Some? && inode in fs.inodes.entries {
        ListingLive(fs, cfg, fs.inodes.entries[inode].path, listing.value, offset, 3);
      }
    case OpRead(inode, at, size, reachable) => ReadLive(fs, cfg, inode, at, size, reachable);
    case OpPrefetched(path, request, reachable) => PrefetchLiveIff(fs, path, request, reachable);
    case OpWrite(inode, at, data) => WriteLive(fs, cfg, inode, at, data);
    case OpCreate(parent, name) => CreateLive(fs, cfg, parent, name);
    case OpUnlink(parent, name) => UnlinkLive(fs, cfg, parent, name);
    case OpRelease(inode) => ReleaseLive(fs, inode);
    case OpFlush(inode) => FlushLive(fs, inode);
    case OpTruncate(inode, size) => TruncateLive(fs, cfg, inode, size);
    case OpWait(time) => WaitLive(fs, time);
  }

  lemma ReleaseLive(fs: Fs, inode: nat)
    requires Live(fs)
    ensures var fs' := Release(fs, inode).0;
            Live(fs') && fs'.inodes == fs.inodes && fs'.writes.Keys <= fs.writes.Keys
  {
  }

  lemma FlushLive(fs: Fs, inode: nat)
    requires Live(fs)
    ensures var fs' := Flush(fs, inode).0;
            Live(fs') && fs'.inodes == fs.inodes && fs'.writes.Keys == fs.writes.Keys
  {
  }

  lemma TruncateLive(fs: Fs, cfg: Config, inode: nat, size: nat)
    requires Live(fs)
    ensures var fs' := Truncate(fs, cfg, inode, size).0;
            Live(fs') && fs'.inodes == fs.inodes
            && fs'.writes.Keys <= fs.writes.Keys + (if inode in fs.inodes.entries then {inode} else {})
  {
    hide BlocksNamed, BlockCache.Invalidate, WriteBuffers.Truncate;
    BlocksForget(fs.data, inode, fs.inodes.entries.Keys);
    BlocksGrow(BlockCache.Invalidate(fs.data, inode), fs.inodes.entries.Keys - {inode}, fs.inodes.entries.Keys);
  }

  lemma WaitLive(fs: Fs, time: nat)
    requires Live(fs)
    ensures Live(Wait(fs, time)) && Wait(fs, time).inodes == fs.inodes && Wait(fs, time).writes == fs.writes
  {
  }

  // ---------------------------------------------------------------- runs

  ghost predicate RunInTime(fs: Fs, cfg: Config, ops: seq<Op>)
    requires Valid(fs) && cfg.writes.partSize > 0
  {
    ops == [] ||
      (RunInTime(fs, cfg, ops[..|ops| - 1]) && InTime(Exec(fs, cfg, ops[..|ops| - 1]), ops[|ops| - 1]))
  }

  /** Over every run the caches name only live inodes and buffers only issued numbers. */
  lemma {:induction false} RunLive(fs: Fs, cfg: Config, ops: seq<Op>)
    requires Valid(fs) && cfg.writes.partSize > 0 && Live(fs) && BuffersIssued(fs) && RunInTime(fs, cfg, ops)
    ensures Live(Exec(fs, cfg, ops)) && BuffersIssued(Exec(fs, cfg, ops))
  {
    hide Live, Metadata.Valid, Inodes.Valid;
    if ops != [] {
      RunLive(fs, cfg, ops[..|ops| - 1]);
      StepLive(Exec(fs, cfg, ops[..|ops| - 1]), cfg, ops[|ops| - 1]);
    }
  }

  /** A newly mounted file system: the root, empty caches (the cache directory may hold old files). */
  function Mounted(cache: BlockCache.Cache, store: Stores.Store): Fs {
    Fs(Inodes.New(), Metadata.New(), cache, Readahead.New(), map[], store)
  }

  lemma MountedIsLive(cache: BlockCache.Cache, store: Stores.Store)
    requires CacheRuns.Fresh(cache)
    ensures Valid(Mounted(cache, store)) && Live(Mounted(cache, store)) && BuffersIssued(Mounted(cache, store))
  {
    CacheRuns.FreshValid(cache);
    assert Metadata.Stamps(Metadata.New()) == map[];
  }

  /** In every reachable state, the attribute cache, both block tiers, the read states and the prefetch
      buffer are keyed by live inodes only. */
  lemma ReachableLive(cache: BlockCache.Cache, store: Stores.Store, cfg: Config, ops: seq<Op>)
    requires CacheRuns.Fresh(cache) && cfg.writes.partSize > 0
    ensures Valid(Mounted(cache, store))
    ensures RunInTime(Mounted(cache, store), cfg, ops) ==>
      var fs := Exec(Mounted(cache, store), cfg, ops); Live(fs) && BuffersIssued(fs)
  {
    MountedIsLive(cache, store);
    if RunInTime(Mounted(cache, store), cfg, ops) { RunLive(Mounted(cache, store), cfg, ops); }
  }

  // ---------------------------------------------------------------- unlink, then create again

  /** Nothing in any cache is keyed by `inode`. */
  ghost predicate Unknown(fs: Fs, inode: nat)
    requires BlockCache.Valid(fs.data)
  {
    && inode !in fs.meta.attrs && inode !in fs.readahead.files && inode !in fs.writes
    && (forall k :: k in fs.readahead.buffer ==> k.inode != inode)
    && AllBlocks(fs.data, (k: BlockKey, data: Bytes) => k.inode != inode)
  }

  lemma LiveUnknown(fs: Fs, inode: nat)
    requires Live(fs) && BuffersIssued(fs) && inode >= fs.inodes.next && Inodes.Valid(fs.inodes)
    ensures BlockCache.Valid(fs.data) && Unknown(fs, inode)
  {
  }

  /** A path unlinked and created again gets a new number that no cache and no write buffer knows: its
      attributes are those of an empty file (and, by `UncachedReadAsksStore`, its first read asks the store). */
  lemma RecreatedFileStartsFresh(fs: Fs, cfg: Config, parent: nat, name: string, at: nat, size: nat)
    requires Valid(fs) && Live(fs) && BuffersIssued(fs)
    requires parent in fs.inodes.entries
    requires Inodes.GetInode(fs.inodes, Paths.JoinPath(fs.inodes.entries[parent].path, name)).Some?
    requires Unlink(fs, cfg, parent, name).1.Ok?
    requires Create(Unlink(fs, cfg, parent, name).0, cfg, parent, name).1.Ok?
    ensures var path := Paths.JoinPath(fs.inodes.entries[parent].path, name);
            var before := Inodes.GetInode(fs.inodes, path).value;
            var (fs2, made) := Create(Unlink(fs, cfg, parent, name).0, cfg, parent, name);
            var n := made.value.0;
            && n != before && n >= fs.inodes.next
            && made.value.1 == Metadata.FileAttr(n, 0, false)
            && n in fs2.meta.attrs && fs2.meta.attrs[n].attr == made.value.1
            && BlockCache.Valid(fs2.data)
            && AllBlocks(fs2.data, (k: BlockKey, data: Bytes) => k.inode != n)
            && (forall k :: k in fs2.readahead.buffer ==> k.inode != n)
            && n !in fs2.readahead.files && n !in fs2.writes
  {
    hide BlocksNamed, ReadsNamed, Metadata.Valid, Metadata.PutAttr, BlockCache.Invalidate, Readahead.Invalidate;
    UnlinkLive(fs, cfg, parent, name);
    UnlinkKeeps(fs, cfg, parent, name);
    var fs1 := Unlink(fs, cfg, parent, name).0;
    LiveUnknown(fs1, fs1.inodes.next);
    PutAttrStores(fs1.meta, cfg.meta, fs1.inodes.next, Metadata.FileAttr(fs1.inodes.next, 0, false));
  }

  /** A read of an inode that no block and no prefetch is keyed by returns what the store has. */
  lemma UncachedReadAsksStore(fs: Fs, cfg: Config, inode: nat, at: nat, size: nat)
    requires Valid(fs) && inode in fs.inodes.entries
    requires AllBlocks(fs.data, (k: BlockKey, data: Bytes) => k.inode != inode)
    requires forall k :: k in fs.readahead.buffer ==> k.inode != inode
    ensures var stored := Stores.ReadRange(fs.store, ObsPath(cfg, fs.inodes.entries[inode].path), at, size);
            fs.data.blockSize > 0 &&
            Read(fs, cfg, inode, at, size, true).1 == if stored.Some? then Ok(stored.value) else Err(IoError)
  {
    hide Metadata.Valid, Inodes.Valid, BlockCache.Put;
    var k := BlockCache.KeyFor(inode, at, fs.data.blockSize);
    GetContents(fs.data, k, (k: BlockKey, data: Bytes) => k.inode != inode);
  }

  lemma PutAttrStores(m: Metadata.State, cfg: Metadata.Config, inode: nat, attr: Metadata.FileAttr)
    ensures var m' := Metadata.PutAttr(m, cfg, inode, attr); inode in m'.attrs && m'.attrs[inode].attr == attr
  {
  }

  /** The write buffer outlives the unlink: a release after it brings the object back exactly when the
      buffer had unflushed data, no upload open, and the PUT goes through. */
  lemma ReleaseAfterUnlinkResurrectsIff(fs: Fs, cfg: Config, parent: nat, name: string, inode: nat)
    requires Valid(fs) && parent in fs.inodes.entries
    requires Inodes.GetInode(fs.inodes, Paths.JoinPath(fs.inodes.entries[parent].path, name)) == Some(inode)
    requires Unlink(fs, cfg, parent, name).1.Ok?
    requires inode in fs.writes ==>
      fs.writes[inode].path == ObsPath(cfg, Paths.JoinPath(fs.inodes.entries[parent].path, name))
    ensures var obs := ObsPath(cfg, Paths.JoinPath(fs.inodes.entries[parent].path, name));
            var fs1 := Unlink(fs, cfg, parent, name).0;
            && obs !in fs1.store.objects
            && (obs in Release(fs1, inode).0.store.objects <==>
                  && inode in fs.writes && WriteBuffers.FlushTakes(fs.writes[inode])
                  && fs.writes[inode].upload.None? && fs1.store.requests !in fs1.store.outages)
  {
    hide BlockCache.Valid, Metadata.Valid, BlockCache.Invalidate, Readahead.Invalidate;
  }
}
