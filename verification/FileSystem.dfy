/** The file system core as a value: each operation as a step over the inode table, the caches, the
    write buffers and the store. Answers of metadata requests to the store are parameters. */
module FileSystem {
  import opened Base
  import opened Paths
  import Inodes
  import Metadata
  import BlockCache
  import CacheRuns
  import Readahead
  import WriteBuffers
  import Stores

  datatype Config = Config(
    prefix: Option<string>,
    meta: Metadata.Config,
    readahead: Readahead.Config,
    writes: WriteBuffers.Config)

  datatype Fs = Fs(
    inodes: Inodes.Table,
    meta: Metadata.State,
    data: BlockCache.Cache,
    readahead: Readahead.State,
    writes: WriteBuffers.Table,
    store: Stores.Store)

  datatype Error = NotFound | IoError

  /** What the store reports about one object. */
  datatype ObjectMeta = ObjectMeta(path: string, size: nat, isDir: bool)

  datatype DirEntry = DirEntry(inode: nat, name: string, isDir: bool, offset: int)

  ghost predicate GoodConfig(cfg: Config) {
    WriteBuffers.GoodConfig(cfg.writes) && cfg.readahead.window > 0
  }

  function Name(m: ObjectMeta): string { FileName(m.path) }

  function AttrOf(inode: nat, m: ObjectMeta): Metadata.FileAttr {
    Metadata.FileAttr(inode, if m.isDir then 4096 else m.size, m.isDir)
  }

  /** Where a new attribute comes from: the store's answer, a created file, an implicit directory. */
  datatype Origin = FromMeta(m: ObjectMeta) | NewFile | ImplicitDir

  function MakeAttr(origin: Origin, inode: nat): Metadata.FileAttr {
    match origin
    case FromMeta(m) => AttrOf(inode, m)
    case NewFile => Metadata.FileAttr(inode, 0, false)
    case ImplicitDir => Metadata.FileAttr(inode, 4096, true)
  }

  function ObsPath(cfg: Config, path: string): string {
    if cfg.prefix.None? then path
    else if path == "" then cfg.prefix.value
    else TrimEnd(cfg.prefix.value) + "/" + path
  }

  // ---------------------------------------------------------------- lookup and attributes

  ghost function Register(fs: Fs, cfg: Config, path: string, isDir: bool, size: nat, origin: Origin)
    : (Fs, nat)
  {
    var (t, inode) := Inodes.GetOrCreate(fs.inodes, path, isDir, size);
    (fs.(inodes := t, meta := Metadata.PutAttr(fs.meta, cfg.meta, inode, MakeAttr(origin, inode))), inode)
  }

  /** `stat`: the object as a file; `dirStat`: as a directory marker; `children`: anything below it. */
  ghost function Lookup(fs: Fs, cfg: Config, parent: nat, name: string,
                        stat: Option<ObjectMeta>, dirStat: Option<ObjectMeta>, children: bool)
    : (Fs, Result<(nat, Metadata.FileAttr), Error>)
  {
    var parentPath := Inodes.GetPath(fs.inodes, parent);
    if parentPath.None? then (fs, Err(NotFound)) else
      var path := JoinPath(parentPath.value, name);
      var (m1, absent) := Metadata.IsNegative(fs.meta, cfg.meta, path);
      var fs1 := fs.(meta := m1);
      if absent then (fs1, Err(NotFound)) else
        var inode := Inodes.GetInode(fs.inodes, path);
        var (m2, cached) := if inode.Some? then Metadata.GetAttr(m1, cfg.meta, inode.value) else (m1, None);
        var fs2 := fs.(meta := m2);
        if cached.Some? then (fs2, Ok((inode.value, cached.value)))
        else Probe(fs2, cfg, path, stat, dirStat, children)
  }

  /** Ask the store for a file, a directory marker, anything below; else remember the absence. */
  ghost function Probe(fs: Fs, cfg: Config, path: string,
                       stat: Option<ObjectMeta>, dirStat: Option<ObjectMeta>, children: bool)
    : (Fs, Result<(nat, Metadata.FileAttr), Error>)
  {
    if stat.Some? then Found(fs, cfg, path, stat.value.isDir, stat.value.size, FromMeta(stat.value))
    else if dirStat.Some? then Found(fs, cfg, path, true, 0, FromMeta(dirStat.value))
    else if children then Found(fs, cfg, path, true, 0, ImplicitDir)
    else (fs.(meta := Metadata.PutNegative(fs.meta, path)), Err(NotFound))
  }

  ghost function Found(fs: Fs, cfg: Config, path: string, isDir: bool, size: nat, origin: Origin)
    : (Fs, Result<(nat, Metadata.FileAttr), Error>)
  {
    var (fs1, n) := Register(fs, cfg, path, isDir, size, origin);
    (fs1, Ok((n, MakeAttr(origin, n))))
  }

  ghost function Getattr(fs: Fs, cfg: Config, inode: nat, stat: Result<ObjectMeta, Error>)
    : (Fs, Result<Metadata.FileAttr, Error>)
  {
    var (m1, cached) := Metadata.GetAttr(fs.meta, cfg.meta, inode);
    var fs1 := fs.(meta := m1);
    if cached.Some? then (fs1, Ok(cached.value))
    else if Inodes.GetPath(fs.inodes, inode).None? then (fs1, Err(NotFound))
    else if stat.Err? then (fs1, Err(stat.error))
    else
      var attr := AttrOf(inode, stat.value);
      (fs1.(meta := Metadata.PutAttr(m1, cfg.meta, inode, attr)), Ok(attr))
  }

  // ---------------------------------------------------------------- directories

  predicate BadName(name: string) { name == "" || name == "." || name == ".." }

  /** The listing loop: entries up to `offset` are counted and skipped by position, names that are
      empty or dots are left out without being counted. */
  ghost function ListEntries(fs: Fs, cfg: Config, dir: string, listing: seq<ObjectMeta>, offset: int, next: int)
    : (Fs, seq<DirEntry>)
    decreases |listing|
  {
    if listing == [] then (fs, [])
    else if next <= offset then ListEntries(fs, cfg, dir, listing[1..], offset, next + 1)
    else
      var m := listing[0];
      if BadName(Name(m)) then ListEntries(fs, cfg, dir, listing[1..], offset, next)
      else
        var (fs1, n) := Register(fs, cfg, JoinPath(dir, Name(m)), m.isDir, m.size, FromMeta(m));
        var (fs2, rest) := ListEntries(fs1, cfg, dir, listing[1..], offset, next + 1);
        (fs2, [DirEntry(n, Name(m), m.isDir, next)] + rest)
  }

  function ParentInode(t: Inodes.Table, inode: nat, path: string): nat {
    if inode == Inodes.ROOT_INODE then Inodes.ROOT_INODE else
      var parent := ParentPath(path);
      if parent.None? then Inodes.ROOT_INODE else
        var n := Inodes.GetInode(t, parent.value);
        if n.None? then Inodes.ROOT_INODE else n.value
  }

  function Dots(t: Inodes.Table, inode: nat, path: string, offset: int): seq<DirEntry> {
    (if offset < 1 then [DirEntry(inode, ".", true, 1)] else [])
    + (if offset < 2 then [DirEntry(ParentInode(t, inode, path), "..", true, 2)] else [])
  }

  ghost function Readdir(fs: Fs, cfg: Config, inode: nat, offset: int, listing: Option<seq<ObjectMeta>>)
    : (Fs, Result<seq<DirEntry>, Error>)
  {
    var path := Inodes.GetPath(fs.inodes, inode);
    if path.None? then (fs, Err(NotFound))
    else if listing.None? then (fs, Err(IoError))
    else
      var (fs1, entries) := ListEntries(fs, cfg, path.value, listing.value, offset, 3);
      (fs1, Ok(Dots(fs.inodes, inode, path.value, offset) + entries))
  }

  // ---------------------------------------------------------------- reading

  /** The part of a cached block from `start`, at most `size` bytes; nothing if the block ends before. */
  function FromBlock(block: Bytes, start: nat, size: nat): Option<Bytes> {
    if start < |block| then Some(block[start..Min(start + size, |block|)]) else None
  }

  /** Prefetch buffer, then block cache, then the store. `reachable` says whether the store answers. */
  ghost function Read(fs: Fs, cfg: Config, inode: nat, offset: nat, size: nat, reachable: bool)
    : (Fs, Result<Bytes, Error>, Option<Readahead.Request>)
    requires fs.data.blockSize > 0
  {
    var path := Inodes.GetPath(fs.inodes, inode);
    if path.None? then (fs, Err(NotFound), None) else
      var (ra, prefetched) := Readahead.GetPrefetched(fs.readahead, cfg.readahead, inode, offset);
      var fs1 := fs.(readahead := ra);
      if prefetched.Some? then (fs1, Ok(prefetched.value[..Min(size, |prefetched.value|)]), None) else
        var (data, block) := BlockCache.Get(fs.data, inode, offset);
        var fs2 := fs1.(data := data);
        var cached := if block.Some? then FromBlock(block.value, offset % fs.data.blockSize, size) else None;
        if cached.Some? then (fs2, Ok(cached.value), None) else
          CacheConfig(fs.data, inode, offset);
          Fetch(fs2, cfg, inode, path.value, offset, size, reachable)
  }

  /** Fall through to the store: cache what it returns under the block of `offset`, note the read. */
  ghost function Fetch(fs: Fs, cfg: Config, inode: nat, path: string, offset: nat, size: nat, reachable: bool)
    : (Fs, Result<Bytes, Error>, Option<Readahead.Request>)
    requires fs.data.blockSize > 0
  {
    var fetched := if reachable then Stores.ReadRange(fs.store, ObsPath(cfg, path), offset, size) else None;
    if fetched.None? then (fs, Err(IoError), None) else
      var (ra, request) := Readahead.RecordRead(fs.readahead, cfg.readahead, inode, offset, size);
      (fs.(data := BlockCache.Put(fs.data, inode, offset, fetched.value), readahead := ra),
       Ok(fetched.value), request)
  }

  /** The background prefetch: fetch the requested window from the object path fixed when it was issued. */
  ghost function CompletePrefetch(fs: Fs, path: string, request: Readahead.Request, reachable: bool): (fs': Fs)
    ensures fs'.data == fs.data
  {
    var fetched := if reachable then Stores.ReadRange(fs.store, path, request.offset, request.size) else None;
    if fetched.None? then fs
    else fs.(readahead := Readahead.StorePrefetched(fs.readahead, request.inode, request.offset, fetched.value))
  }

  lemma CacheConfig(c: BlockCache.Cache, inode: nat, offset: nat)
    requires c.blockSize > 0
    ensures BlockCache.Get(c, inode, offset).0.blockSize == c.blockSize
  {
    CacheRuns.StepConfig(c, CacheRuns.OpGet(inode, offset));
  }

  // ---------------------------------------------------------------- writing

  ghost function Write(fs: Fs, cfg: Config, inode: nat, offset: nat, data: Bytes): (Fs, Result<nat, Error>)
    requires fs.data.blockSize > 0 && cfg.writes.partSize > 0
  {
    var path := Inodes.GetPath(fs.inodes, inode);
    if path.None? then (fs, Err(NotFound)) else
      var (m1, attr) := Metadata.GetAttr(fs.meta, cfg.meta, inode);
      var fileSize := if attr.Some? then attr.value.size else 0;
      var (wb, st, ok) := WriteBuffers.WriteAt(
        fs.writes, fs.store, inode, ObsPath(cfg, path.value), offset, data, fileSize, cfg.writes);
      var fs1 := fs.(meta := m1, writes := wb, store := st);
      if !ok then (fs1, Err(IoError))
      else
        (fs1.(meta := Metadata.GrowAttr(m1, inode, offset + |data|),
              inodes := Inodes.UpdateSize(fs.inodes, inode, offset + |data|),
              data := BlockCache.InvalidateRange(fs.data, inode, offset, |data|)),
         Ok(|data|))
  }

  ghost function Create(fs: Fs, cfg: Config, parent: nat, name: string)
    : (r: (Fs, Result<(nat, Metadata.FileAttr), Error>))
    ensures r.0.data == fs.data
  {
    var parentPath := Inodes.GetPath(fs.inodes, parent);
    if parentPath.None? then (fs, Err(NotFound)) else
      var path := JoinPath(parentPath.value, name);
      var (st, ok) := Stores.Put(fs.store, ObsPath(cfg, path), []);
      var fs1 := fs.(store := st);
      if !ok then (fs1, Err(IoError)) else
        var (fs2, n) := Register(fs1, cfg, path, false, 0, NewFile);
        (fs2.(meta := Metadata.RemoveNegative(fs2.meta, path)), Ok((n, MakeAttr(NewFile, n))))
  }

  /** The inode leaves the table and every cache, but its write buffer stays. */
  ghost function Unlink(fs: Fs, cfg: Config, parent: nat, name: string): (Fs, Result<(), Error>) {
    var parentPath := Inodes.GetPath(fs.inodes, parent);
    if parentPath.None? then (fs, Err(NotFound)) else
      var path := JoinPath(parentPath.value, name);
      var (st, ok) := Stores.Delete(fs.store, ObsPath(cfg, path));
      var fs1 := fs.(store := st);
      if !ok then (fs1, Err(IoError)) else
        var inode := Inodes.GetInode(fs.inodes, path);
        (if inode.Some? then Forget(fs1, inode.value) else fs1, Ok(()))
  }

  ghost function Forget(fs: Fs, inode: nat): Fs {
    fs.(meta := Metadata.InvalidateAttr(fs.meta, inode),
        data := BlockCache.Invalidate(fs.data, inode),
        readahead := Readahead.Invalidate(fs.readahead, inode),
        inodes := Inodes.Remove(fs.inodes, inode))
  }

  ghost function Release(fs: Fs, inode: nat): (Fs, Result<(), Error>) {
    var (wb, st, ok) := WriteBuffers.ReleaseAt(fs.writes, fs.store, inode);
    var fs1 := fs.(writes := wb, store := st);
    if !ok then (fs1, Err(IoError))
    else (fs1.(meta := Metadata.InvalidateAttr(fs.meta, inode)), Ok(()))
  }

  ghost function Flush(fs: Fs, inode: nat): (Fs, Result<(), Error>) {
    var (wb, st, ok) := WriteBuffers.FlushAt(fs.writes, fs.store, inode);
    (fs.(writes := wb, store := st), if ok then Ok(()) else Err(IoError))
  }

  ghost function Truncate(fs: Fs, cfg: Config, inode: nat, size: nat): (r: (Fs, Result<(), Error>))
    ensures r.0.data.blockSize == fs.data.blockSize
  {
    var path := Inodes.GetPath(fs.inodes, inode);
    if path.None? then (fs, Err(NotFound)) else
      var (wb, st, ok) := WriteBuffers.TruncateAt(fs.writes, fs.store, inode, ObsPath(cfg, path.value), size);
      var fs1 := fs.(writes := wb, store := st);
      if !ok then (fs1, Err(IoError))
      else
        (fs1.(data := BlockCache.Invalidate(fs.data, inode),
              readahead := Readahead.Invalidate(fs.readahead, inode)), Ok(()))
  }

  ghost function Wait(fs: Fs, time: nat): (fs': Fs)
    ensures fs'.data == fs.data
  {
    fs.(meta := fs.meta.(now := fs.meta.now + time),
        readahead := fs.readahead.(now := fs.readahead.now + time))
  }

  // ---------------------------------------------------------------- runs

  datatype Op =
    | OpLookup(parent: nat, name: string, stat: Option<ObjectMeta>, dirStat: Option<ObjectMeta>, children: bool)
    | OpGetattr(inode: nat, answer: Result<ObjectMeta, Error>)
    | OpReaddir(inode: nat, offset: int, listing: Option<seq<ObjectMeta>>)
    | OpRead(inode: nat, at: nat, size: nat, reachable: bool)
    | OpPrefetched(path: string, request: Readahead.Request, reachable: bool)
    | OpWrite(inode: nat, at: nat, data: Bytes)
    | OpCreate(parent: nat, name: string)
    | OpUnlink(parent: nat, name: string)
    | OpRelease(inode: nat)
    | OpFlush(inode: nat)
    | OpTruncate(inode: nat, size: nat)
    | OpWait(time: nat)

  ghost function Step(fs: Fs, cfg: Config, op: Op): Fs
    requires fs.data.blockSize > 0 && cfg.writes.partSize > 0
  {
    match op
    case OpLookup(parent, name, stat, dirStat, children) => Lookup(fs, cfg, parent, name, stat, dirStat, children).0
    case OpGetattr(inode, answer) => Getattr(fs, cfg, inode, answer).0
    case OpReaddir(inode, offset, listing) => Readdir(fs, cfg, inode, offset, listing).0
    case OpRead(inode, at, size, reachable) => Read(fs, cfg, inode, at, size, reachable).0
    case OpPrefetched(path, request, reachable) => CompletePrefetch(fs, path, request, reachable)
    case OpWrite(inode, at, data) => Write(fs, cfg, inode, at, data).0
    case OpCreate(parent, name) => Create(fs, cfg, parent, name).0
    case OpUnlink(parent, name) => Unlink(fs, cfg, parent, name).0
    case OpRelease(inode) => Release(fs, inode).0
    case OpFlush(inode) => Flush(fs, inode).0
    case OpTruncate(inode, size) => Truncate(fs, cfg, inode, size).0
    case OpWait(time) => Wait(fs, time)
  }

  /** Every component's own invariant. */
  ghost predicate Valid(fs: Fs) {
    && Inodes.Valid(fs.inodes)
    && Metadata.Valid(fs.meta)
    && BlockCache.Valid(fs.data)
  }

  // Each component is touched by few operations; these lemmas follow one component at a time.

  lemma RegisterMeta(m: Metadata.State, cfg: Metadata.Config, inode: nat, attr: Metadata.FileAttr)
    requires Metadata.Valid(m)
    ensures Metadata.Valid(Metadata.PutAttr(m, cfg, inode, attr))
  {
    Metadata.StepKeepsValid(m, cfg, Metadata.OpPut(inode, attr));
  }

  lemma RegisterInodes(t: Inodes.Table, path: string, isDir: bool, size: nat)
    requires Inodes.Valid(t)
    ensures Inodes.Valid(Inodes.GetOrCreate(t, path, isDir, size).0)
  {
  }

  lemma RegisterKeeps(fs: Fs, cfg: Config, path: string, isDir: bool, size: nat, origin: Origin)
    requires Valid(fs)
    ensures Valid(Register(fs, cfg, path, isDir, size, origin).0)
  {
    var n := Inodes.GetOrCreate(fs.inodes, path, isDir, size).1;
    RegisterInodes(fs.inodes, path, isDir, size);
    RegisterMeta(fs.meta, cfg.meta, n, MakeAttr(origin, n));
  }

  lemma {:induction false} ListEntriesKeeps(
    fs: Fs, cfg: Config, dir: string, listing: seq<ObjectMeta>, offset: int, next: int)
    requires Valid(fs)
    ensures Valid(ListEntries(fs, cfg, dir, listing, offset, next).0)
    decreases |listing|
  {
    if listing != [] {
      var m := listing[0];
      if next <= offset {
        ListEntriesKeeps(fs, cfg, dir, listing[1..], offset, next + 1);
      } else if BadName(Name(m)) {
        ListEntriesKeeps(fs, cfg, dir, listing[1..], offset, next);
      } else {
        RegisterKeeps(fs, cfg, JoinPath(dir, Name(m)), m.isDir, m.size, FromMeta(m));
        var fs1 := Register(fs, cfg, JoinPath(dir, Name(m)), m.isDir, m.size, FromMeta(m)).0;
        ListEntriesKeeps(fs1, cfg, dir, listing[1..], offset, next + 1);
      }
    }
  }

  lemma NegativeKeeps(m: Metadata.State, cfg: Metadata.Config, path: string)
    requires Metadata.Valid(m)
    ensures Metadata.Valid(Metadata.IsNegative(m, cfg, path).0)
    ensures Metadata.Valid(Metadata.PutNegative(m, path))
    ensures Metadata.Valid(Metadata.RemoveNegative(m, path))
  {
  }

  lemma GetAttrKeeps(m: Metadata.State, cfg: Metadata.Config, inode: nat)
    requires Metadata.Valid(m)
    ensures Metadata.Valid(Metadata.GetAttr(m, cfg, inode).0)
    ensures Metadata.Valid(Metadata.InvalidateAttr(m, inode))
  {
    Metadata.StepKeepsValid(m, cfg, Metadata.OpGet(inode));
    Metadata.StepKeepsValid(m, cfg, Metadata.OpInvalidate(inode));
  }

  lemma ProbeKeeps(fs: Fs, cfg: Config, path: string,
                   stat: Option<ObjectMeta>, dirStat: Option<ObjectMeta>, children: bool)
    requires Valid(fs)
    ensures Valid(Probe(fs, cfg, path, stat, dirStat, children).0)
  {
    if stat.Some? {
      RegisterKeeps(fs, cfg, path, stat.value.isDir, stat.value.size, FromMeta(stat.value));
    } else if dirStat.Some? {
      RegisterKeeps(fs, cfg, path, true, 0, FromMeta(dirStat.value));
    } else if children {
      RegisterKeeps(fs, cfg, path, true, 0, ImplicitDir);
    } else {
      NegativeKeeps(fs.meta, cfg.meta, path);
    }
  }

  lemma LookupKeeps(fs: Fs, cfg: Config, parent: nat, name: string,
                    stat: Option<ObjectMeta>, dirStat: Option<ObjectMeta>, children: bool)
    requires Valid(fs)
    ensures Valid(Lookup(fs, cfg, parent, name, stat, dirStat, children).0)
  {
    hide Metadata.Valid, BlockCache.Valid, Inodes.Valid;
    var parentPath := Inodes.GetPath(fs.inodes, parent);
    if parentPath.Some? {
      var path := JoinPath(parentPath.value, name);
      NegativeKeeps(fs.meta, cfg.meta, path);
      var m1 := Metadata.IsNegative(fs.meta, cfg.meta, path).0;
      var inode := Inodes.GetInode(fs.inodes, path);
      if inode.Some? { GetAttrKeeps(m1, cfg.meta, inode.value); }
      var m2 := if inode.Some? then Metadata.GetAttr(m1, cfg.meta, inode.value).0 else m1;
      ProbeKeeps(fs.(meta := m2), cfg, path, stat, dirStat, children);
    }
  }

  lemma GetattrKeeps(fs: Fs, cfg: Config, inode: nat, stat: Result<ObjectMeta, Error>)
    requires Valid(fs)
    ensures Valid(Getattr(fs, cfg, inode, stat).0)
  {
    hide Metadata.Valid, BlockCache.Valid, Inodes.Valid, Metadata.GetAttr, Metadata.PutAttr;
    GetAttrKeeps(fs.meta, cfg.meta, inode);
    if stat.Ok? {
      RegisterMeta(Metadata.GetAttr(fs.meta, cfg.meta, inode).0, cfg.meta, inode, AttrOf(inode, stat.value));
    }
  }

  lemma ReadKeeps(fs: Fs, cfg: Config, inode: nat, offset: nat, size: nat, reachable: bool)
    requires Valid(fs)
    ensures Valid(Read(fs, cfg, inode, offset, size, reachable).0)
  {
    hide Metadata.Valid, BlockCache.Valid, Inodes.Valid;
    CacheRuns.StepKeepsValid(fs.data, CacheRuns.OpGet(inode, offset));
    CacheConfig(fs.data, inode, offset);
    var path := Inodes.GetPath(fs.inodes, inode);
    if path.Some? {
      var fetched := Stores.ReadRange(fs.store, ObsPath(cfg, path.value), offset, size);
      if fetched.Some? {
        var data := BlockCache.Get(fs.data, inode, offset).0;
        CacheRuns.StepKeepsValid(data, CacheRuns.OpPut(inode, offset, fetched.value));
      }
    }
  }

  lemma GrowKeeps(m: Metadata.State, cfg: Metadata.Config, inode: nat, size: nat)
    requires Metadata.Valid(m)
    ensures Metadata.Valid(Metadata.GrowAttr(Metadata.GetAttr(m, cfg, inode).0, inode, size))
  {
    GetAttrKeeps(m, cfg, inode);
    Metadata.StepKeepsValid(Metadata.GetAttr(m, cfg, inode).0, cfg, Metadata.OpGrow(inode, size));
  }

  lemma WriteKeeps(fs: Fs, cfg: Config, inode: nat, offset: nat, data: Bytes)
    requires Valid(fs) && cfg.writes.partSize > 0
    ensures Valid(Write(fs, cfg, inode, offset, data).0)
  {
    hide Metadata.Valid, BlockCache.Valid, Inodes.Valid;
    GetAttrKeeps(fs.meta, cfg.meta, inode);
    GrowKeeps(fs.meta, cfg.meta, inode, offset + |data|);
    Inodes.StepKeepsValid(fs.inodes, Inodes.OpUpdateSize(inode, offset + |data|));
    CacheRuns.StepKeepsValid(fs.data, CacheRuns.OpInvalidateRange(inode, offset, |data|));
  }

  lemma CreateKeeps(fs: Fs, cfg: Config, parent: nat, name: string)
    requires Valid(fs)
    ensures Valid(Create(fs, cfg, parent, name).0)
  {
    if parent in fs.inodes.entries {
      var path := JoinPath(fs.inodes.entries[parent].path, name);
      var fs1 := fs.(store := Stores.Put(fs.store, ObsPath(cfg, path), []).0);
      RegisterKeeps(fs1, cfg, path, false, 0, NewFile);
      NegativeKeeps(Register(fs1, cfg, path, false, 0, NewFile).0.meta, cfg.meta, path);
    }
  }

  lemma ForgetKeeps(fs: Fs, inode: nat)
    requires Valid(fs)
    ensures Valid(Forget(fs, inode))
  {
    Metadata.StepKeepsValid(fs.meta, Metadata.Config(0, 0, 0), Metadata.OpInvalidate(inode));
    BlockCache.InvalidateKeeps(fs.data, inode);
    Inodes.StepKeepsValid(fs.inodes, Inodes.OpRemove(inode));
  }

  lemma UnlinkKeeps(fs: Fs, cfg: Config, parent: nat, name: string)
    requires Valid(fs)
    ensures Valid(Unlink(fs, cfg, parent, name).0)
  {
    if parent in fs.inodes.entries {
      var path := JoinPath(fs.inodes.entries[parent].path, name);
      var inode := Inodes.GetInode(fs.inodes, path);
      if inode.Some? {
        ForgetKeeps(fs.(store := Stores.Delete(fs.store, ObsPath(cfg, path)).0), inode.value);
      }
    }
  }

  lemma ReaddirKeeps(fs: Fs, cfg: Config, inode: nat, offset: int, listing: Option<seq<ObjectMeta>>)
    requires Valid(fs)
    ensures Valid(Readdir(fs, cfg, inode, offset, listing).0)
  {
    hide Valid, ListEntries;
    if listing.Some? && inode in fs.inodes.entries {
      ListEntriesKeeps(fs, cfg, fs.inodes.entries[inode].path, listing.value, offset, 3);
    }
  }

  lemma ReleaseKeeps(fs: Fs, inode: nat)
    requires Valid(fs)
    ensures Valid(Release(fs, inode).0) && Valid(Flush(fs, inode).0)
  {
    hide Metadata.Valid, Inodes.Valid, BlockCache.Valid;
    Metadata.RemoveKeeps(fs.meta, {inode});
  }

  lemma TruncateKeeps(fs: Fs, cfg: Config, inode: nat, size: nat)
    requires Valid(fs)
    ensures Valid(Truncate(fs, cfg, inode, size).0)
  {
    hide Metadata.Valid, Inodes.Valid, BlockCache.Invalidate;
    BlockCache.InvalidateKeeps(fs.data, inode);
  }

  lemma WaitKeeps(fs: Fs, cfg: Config, time: nat)
    requires Valid(fs)
    ensures Valid(Wait(fs, time))
  {
    hide Metadata.Valid, Inodes.Valid, BlockCache.Valid;
    Metadata.StepKeepsValid(fs.meta, cfg.meta, Metadata.OpWait(time));
  }

  lemma StepKeepsValid(fs: Fs, cfg: Config, op: Op)
    requires Valid(fs) && cfg.writes.partSize > 0
    ensures Valid(Step(fs, cfg, op))
  {
    hide Lookup, Getattr, Readdir, Read, Write, Create, Unlink, Release, Flush, Truncate, Wait,
         BlockCache.StampsOk, BlockCache.Resident, Metadata.Valid, Inodes.Valid;
    match op
    case OpLookup(parent, name, stat, dirStat, children) => LookupKeeps(fs, cfg, parent, name, stat, dirStat, children);
    case OpGetattr(inode, answer) => GetattrKeeps(fs, cfg, inode, answer);
    case OpReaddir(inode, offset, listing) => ReaddirKeeps(fs, cfg, inode, offset, listing);
    case OpRead(inode, at, size, reachable) => ReadKeeps(fs, cfg, inode, at, size, reachable);
    case OpPrefetched(path, request, reachable) =>
    case OpWrite(inode, at, data) => WriteKeeps(fs, cfg, inode, at, data);
    case OpCreate(parent, name) => CreateKeeps(fs, cfg, parent, name);
    case OpUnlink(parent, name) => UnlinkKeeps(fs, cfg, parent, name);
    case OpRelease(inode) => ReleaseKeeps(fs, inode);
    case OpFlush(inode) => ReleaseKeeps(fs, inode);
    case OpTruncate(inode, size) => TruncateKeeps(fs, cfg, inode, size);
    case OpWait(time) => WaitKeeps(fs, cfg, time);
  }

  ghost function Exec(fs: Fs, cfg: Config, ops: seq<Op>): (fs': Fs)
    requires Valid(fs) && cfg.writes.partSize > 0
    ensures Valid(fs')
  {
    if ops == [] then fs else
      var before := Exec(fs, cfg, ops[..|ops| - 1]);
      StepKeepsValid(before, cfg, ops[|ops| - 1]);
      Step(before, cfg, ops[|ops| - 1])
  }
}
