/** Namespace operations that follow one another agree: lookup and getattr, create and lookup, unlink and
    lookup, write and getattr; and how long a failed lookup is remembered. */
module Namespaces {
  import opened Base
  import opened FileSystem
  import Paths
  import Inodes
  import Metadata
  import LiveInodes
  import BlockCache
  import CacheRuns
  import Stores
  import WriteBuffers

  function ChildPath(fs: Fs, parent: nat, name: string): string
    requires parent in fs.inodes.entries
  {
    Paths.JoinPath(fs.inodes.entries[parent].path, name)
  }

  // ---------------------------------------------------------------- attributes name their inode

  /** Every cached attribute carries the number it is cached under. */
  ghost predicate AttrsNamed(m: Metadata.State) {
    forall n :: n in m.attrs ==> m.attrs[n].attr.ino == n
  }

  lemma PutAttrNamed(m: Metadata.State, cfg: Metadata.Config, inode: nat, attr: Metadata.FileAttr)
    requires AttrsNamed(m) && attr.ino == inode
    ensures AttrsNamed(Metadata.PutAttr(m, cfg, inode, attr))
  {
  }

  lemma RegisterNamed(fs: Fs, cfg: Config, path: string, isDir: bool, size: nat, origin: Origin)
    requires AttrsNamed(fs.meta)
    ensures AttrsNamed(Register(fs, cfg, path, isDir, size, origin).0.meta)
  {
    hide Metadata.PutAttr;
    var n := Inodes.GetOrCreate(fs.inodes, path, isDir, size).1;
    PutAttrNamed(fs.meta, cfg.meta, n, MakeAttr(origin, n));
  }

  lemma {:induction false} ListingNamed(
    fs: Fs, cfg: Config, dir: string, listing: seq<ObjectMeta>, offset: int, next: int)
    requires AttrsNamed(fs.meta)
    ensures AttrsNamed(ListEntries(fs, cfg, dir, listing, offset, next).0.meta)
    decreases |listing|
  {
    hide AttrsNamed, Register;
    if listing != [] {
      var m := listing[0];
      if next <= offset {
        ListingNamed(fs, cfg, dir, listing[1..], offset, next + 1);
      } else if BadName(Name(m)) {
        ListingNamed(fs, cfg, dir, listing[1..], offset, next);
      } else {
        RegisterNamed(fs, cfg, Paths.JoinPath(dir, Name(m)), m.isDir, m.size, FromMeta(m));
        ListingNamed(Register(fs, cfg, Paths.JoinPath(dir, Name(m)), m.isDir, m.size, FromMeta(m)).0,
                     cfg, dir, listing[1..], offset, next + 1);
      }
    }
  }

  lemma LookupNamed(fs: Fs, cfg: Config, parent: nat, name: string,
                    stat: Option<ObjectMeta>, dirStat: Option<ObjectMeta>, children: bool)
    requires AttrsNamed(fs.meta)
    ensures var (fs1, r) := Lookup(fs, cfg, parent, name, stat, dirStat, children);
            AttrsNamed(fs1.meta) && (r.Ok? ==> r.value.1.ino == r.value.0)
  {
    hide Register;
    if parent in fs.inodes.entries {
      var path := ChildPath(fs, parent, name);
      var m1 := Metadata.IsNegative(fs.meta, cfg.meta, path).0;
      var inode := Inodes.GetInode(fs.inodes, path);
      var m2 := if inode.Some? then Metadata.GetAttr(m1, cfg.meta, inode.value).0 else m1;
      var fs2 := fs.(meta := m2);
      if stat.Some? {
        RegisterNamed(fs2, cfg, path, stat.value.isDir, stat.value.size, FromMeta(stat.value));
      } else if dirStat.Some? {
        RegisterNamed(fs2, cfg, path, true, 0, FromMeta(dirStat.value));
      } else if children {
        RegisterNamed(fs2, cfg, path, true, 0, ImplicitDir);
      }
    }
  }

  lemma GetattrNamed(fs: Fs, cfg: Config, inode: nat, stat: Result<ObjectMeta, Error>)
    requires AttrsNamed(fs.meta)
    ensures var (fs1, r) := Getattr(fs, cfg, inode, stat);
            AttrsNamed(fs1.meta) && (r.Ok? ==> r.value.ino == inode)
  {
  }

  lemma ReadKeepsMeta(fs: Fs, cfg: Config, inode: nat, at: nat, size: nat, reachable: bool)
    requires fs.data.blockSize > 0
    ensures Read(fs, cfg, inode, at, size, reachable).0.meta == fs.meta
  {
  }

  lemma StepNamed(fs: Fs, cfg: Config, op: Op)
    requires fs.data.blockSize > 0 && cfg.writes.partSize > 0 && AttrsNamed(fs.meta)
    ensures AttrsNamed(Step(fs, cfg, op).meta)
  {
    hide Lookup, Getattr, ListEntries, Register, WriteBuffers.WriteAt, WriteBuffers.TruncateAt,
         BlockCache.InvalidateRange, BlockCache.Invalidate, Read;
    if op.OpRead? { ReadKeepsMeta(fs, cfg, op.inode, op.at, op.size, op.reachable); }
    match op
    case OpLookup(parent, name, stat, dirStat, children) =>
      LookupNamed(fs, cfg, parent, name, stat, dirStat, children);
    case OpGetattr(inode, answer) => GetattrNamed(fs, cfg, inode, answer);
    case OpReaddir(inode, offset, listing) =>
      if inode in fs.inodes.entries && listing.Some? {
        ListingNamed(fs, cfg, fs.inodes.entries[inode].path, listing.value, offset, 3);
      }
    case OpRead(inode, at, size, reachable) =>
    case OpPrefetched(path, request, reachable) =>
    case OpWrite(inode, at, data) =>
    case OpCreate(parent, name) =>
      if parent in fs.inodes.entries {
        var path := ChildPath(fs, parent, name);
        RegisterNamed(fs.(store := Stores.Put(fs.store, ObsPath(cfg, path), []).0), cfg, path, false, 0, NewFile);
      }
    case OpUnlink(parent, name) =>
    case OpRelease(inode) =>
    case OpFlush(inode) =>
    case OpTruncate(inode, size) =>
    case OpWait(time) =>
  }

  /** Over every run from mounting, an attribute answered by lookup or getattr carries the number it is
      answered for, whatever the store reported and whatever was cached, evicted or updated. */
  lemma AnswersNamed(
    cache: BlockCache.Cache, store: Stores.Store, cfg: Config, ops: seq<Op>, inode: nat, name: string,
    stat: Option<ObjectMeta>, dirStat: Option<ObjectMeta>, children: bool, answer: Result<ObjectMeta, Error>)
    requires CacheRuns.Fresh(cache) && cfg.writes.partSize > 0
    ensures Valid(LiveInodes.Mounted(cache, store))
    ensures var fs := Exec(LiveInodes.Mounted(cache, store), cfg, ops);
            var looked := Lookup(fs, cfg, inode, name, stat, dirStat, children).1;
            var got := Getattr(fs, cfg, inode, answer).1;
            (looked.Ok? ==> looked.value.1.ino == looked.value.0) && (got.Ok? ==> got.value.ino == inode)
  {
    hide Lookup, Getattr, Valid;
    LiveInodes.MountedIsLive(cache, store);
    var fs := Exec(LiveInodes.Mounted(cache, store), cfg, ops);
    RunNamed(LiveInodes.Mounted(cache, store), cfg, ops);
    LookupNamed(fs, cfg, inode, name, stat, dirStat, children);
    GetattrNamed(fs, cfg, inode, answer);
  }

  lemma {:induction false} RunNamed(fs: Fs, cfg: Config, ops: seq<Op>)
    requires Valid(fs) && cfg.writes.partSize > 0 && AttrsNamed(fs.meta)
    ensures AttrsNamed(Exec(fs, cfg, ops).meta)
  {
    hide AttrsNamed, Step;
    if ops != [] {
      RunNamed(fs, cfg, ops[..|ops| - 1]);
      StepNamed(Exec(fs, cfg, ops[..|ops| - 1]), cfg, ops[|ops| - 1]);
    }
  }

  // ---------------------------------------------------------------- what a lookup leaves behind

  lemma FreshlyPut(m: Metadata.State, cfg: Metadata.Config, inode: nat, attr: Metadata.FileAttr)
    requires cfg.attrTtl > 0
    ensures Metadata.GetAttr(Metadata.PutAttr(m, cfg, inode, attr), cfg, inode).1 == Some(attr)
  {
  }

  /** The number and attribute found for `path` are those the table and the attribute cache now have. */
  ghost predicate Answers(fs: Fs, cfg: Config, path: string, inode: nat, attr: Metadata.FileAttr) {
    && Inodes.GetInode(fs.inodes, path) == Some(inode)
    && Inodes.GetPath(fs.inodes, inode) == Some(Paths.Normalize(path))
    && Metadata.GetAttr(fs.meta, cfg.meta, inode).1 == Some(attr)
  }

  lemma RegisterAnswers(fs: Fs, cfg: Config, path: string, isDir: bool, size: nat, origin: Origin)
    requires Inodes.Valid(fs.inodes) && cfg.meta.attrTtl > 0
    ensures var (fs1, n) := Register(fs, cfg, path, isDir, size, origin);
            Answers(fs1, cfg, path, n, MakeAttr(origin, n))
  {
    hide Metadata.PutAttr;
    var n := Inodes.GetOrCreate(fs.inodes, path, isDir, size).1;
    FreshlyPut(fs.meta, cfg.meta, n, MakeAttr(origin, n));
  }

  /** A lookup that succeeds resolves the path from then on: the table maps it to the number answered, and
      a getattr of that number gives the same attribute without asking the store. */
  lemma LookupThenGetattr(fs: Fs, cfg: Config, parent: nat, name: string, stat: Option<ObjectMeta>,
                          dirStat: Option<ObjectMeta>, children: bool, later: Result<ObjectMeta, Error>)
    requires Inodes.Valid(fs.inodes) && cfg.meta.attrTtl > 0 && parent in fs.inodes.entries
    requires Lookup(fs, cfg, parent, name, stat, dirStat, children).1.Ok?
    ensures var (fs1, r) := Lookup(fs, cfg, parent, name, stat, dirStat, children);
            var (n, attr) := r.value;
            && Answers(fs1, cfg, ChildPath(fs, parent, name), n, attr)
            && Getattr(fs1, cfg, n, later).1 == Ok(attr)
  {
    hide Register;
    var path := ChildPath(fs, parent, name);
    var m1 := Metadata.IsNegative(fs.meta, cfg.meta, path).0;
    var inode := Inodes.GetInode(fs.inodes, path);
    var (m2, cached) := if inode.Some? then Metadata.GetAttr(m1, cfg.meta, inode.value) else (m1, None);
    var fs2 := fs.(meta := m2);
    if cached.None? {
      if stat.Some? {
        RegisterAnswers(fs2, cfg, path, stat.value.isDir, stat.value.size, FromMeta(stat.value));
      } else if dirStat.Some? {
        RegisterAnswers(fs2, cfg, path, true, 0, FromMeta(dirStat.value));
      } else if children {
        RegisterAnswers(fs2, cfg, path, true, 0, ImplicitDir);
      }
    }
  }

  /** A created file is found at once, whatever was remembered of its path and whatever the store would
      answer: same number, size 0, not a directory. */
  lemma CreateThenLookup(fs: Fs, cfg: Config, parent: nat, name: string,
                         stat: Option<ObjectMeta>, dirStat: Option<ObjectMeta>, children: bool)
    requires Inodes.Valid(fs.inodes) && cfg.meta.attrTtl > 0 && parent in fs.inodes.entries
    requires Create(fs, cfg, parent, name).1.Ok?
    ensures var (fs1, r) := Create(fs, cfg, parent, name);
            && r.value.1 == Metadata.FileAttr(r.value.0, 0, false)
            && Lookup(fs1, cfg, parent, name, stat, dirStat, children).1 == r
  {
    hide Register, Metadata.PutAttr;
    var path := ChildPath(fs, parent, name);
    var fs1 := fs.(store := Stores.Put(fs.store, ObsPath(cfg, path), []).0);
    RegisterAnswers(fs1, cfg, path, false, 0, NewFile);
    RegisterKeepsEntry(fs1, cfg, path, false, 0, NewFile, parent);
  }

  lemma RegisterKeepsEntry(fs: Fs, cfg: Config, path: string, isDir: bool, size: nat, origin: Origin, inode: nat)
    requires Inodes.Valid(fs.inodes) && inode in fs.inodes.entries
    ensures var t := Register(fs, cfg, path, isDir, size, origin).0.inodes;
            inode in t.entries && t.entries[inode] == fs.inodes.entries[inode]
  {
  }

  /** A failed lookup that asked the store is remembered: a lookup of the same name, after `time` more,
      of an object that has appeared meanwhile, still fails exactly while `time` is below the time to live. */
  lemma AbsenceRememberedIff(fs: Fs, cfg: Config, parent: nat, name: string, time: nat,
                             found: ObjectMeta, dirStat: Option<ObjectMeta>, children: bool)
    requires parent in fs.inodes.entries
    requires !Metadata.IsNegative(fs.meta, cfg.meta, ChildPath(fs, parent, name)).1
    requires Lookup(fs, cfg, parent, name, None, None, false).1.Err?
    ensures var fs1 := Wait(Lookup(fs, cfg, parent, name, None, None, false).0, time);
            Lookup(fs1, cfg, parent, name, Some(found), dirStat, children).1.Err? <==> time < cfg.meta.negativeTtl
  {
    hide Register;
  }

  /** After an unlink the old number answers nothing, and the path is found again only under a new number. */
  lemma UnlinkThenLookup(fs: Fs, cfg: Config, parent: nat, name: string, inode: nat,
                         stat: Option<ObjectMeta>, dirStat: Option<ObjectMeta>, children: bool,
                         answer: Result<ObjectMeta, Error>)
    requires Inodes.Valid(fs.inodes) && parent in fs.inodes.entries
    requires Inodes.GetInode(fs.inodes, ChildPath(fs, parent, name)) == Some(inode)
    requires Unlink(fs, cfg, parent, name).1.Ok?
    ensures var fs1 := Unlink(fs, cfg, parent, name).0;
            var looked := Lookup(fs1, cfg, parent, name, stat, dirStat, children).1;
            && ObsPath(cfg, ChildPath(fs, parent, name)) !in fs1.store.objects
            && Getattr(fs1, cfg, inode, answer).1 == Err(NotFound)
            && (looked.Ok? ==> looked.value.0 == fs.inodes.next > inode)
  {
    hide Metadata.PutAttr;
  }

  // ---------------------------------------------------------------- sizes

  /** Right after a successful write, getattr accounts for it whatever the store reports exactly when the
      attribute was cached and fresh at the write (or the write ends at offset 0): otherwise the answer is
      the store's, which knows nothing of buffered bytes. */
  lemma WriteShowsInSizeIff(fs: Fs, cfg: Config, inode: nat, at: nat, data: Bytes)
    requires fs.data.blockSize > 0 && cfg.writes.partSize > 0 && cfg.meta.attrTtl > 0
    requires Write(fs, cfg, inode, at, data).1.Ok?
    ensures var fs1, known := Write(fs, cfg, inode, at, data).0, Metadata.GetAttr(fs.meta, cfg.meta, inode).1;
            && (known.Some? ==> forall answer :: Getattr(fs1, cfg, inode, answer).1
                                  == Ok(known.value.(size := Max(known.value.size, at + |data|))))
            && ((forall m: ObjectMeta :: Getattr(fs1, cfg, inode, Ok(m)).1.value.size >= at + |data|)
                <==> known.Some? || at + |data| == 0)
  {
    hide WriteBuffers.WriteAt, BlockCache.InvalidateRange;
    var fs1, known := Write(fs, cfg, inode, at, data).0, Metadata.GetAttr(fs.meta, cfg.meta, inode).1;
    var empty := ObjectMeta("", 0, false);
    assert known.None? ==> Getattr(fs1, cfg, inode, Ok(empty)).1 == Ok(AttrOf(inode, empty));
  }

  /** A truncation changes no answer of getattr: a cached attribute keeps the old size, and otherwise the
      store is asked as before. It shows in the size exactly when that answer already had it. */
  lemma TruncateShowsInSizeIff(fs: Fs, cfg: Config, inode: nat, size: nat, answer: Result<ObjectMeta, Error>)
    requires inode in fs.inodes.entries
    ensures var fs1 := Truncate(fs, cfg, inode, size).0;
            var got, known := Getattr(fs1, cfg, inode, answer).1, Metadata.GetAttr(fs.meta, cfg.meta, inode).1;
            && got == Getattr(fs, cfg, inode, answer).1
            && (got.Ok? ==> (got.value.size == size <==>
                  if known.Some? then known.value.size == size
                  else (if answer.value.isDir then 4096 else answer.value.size) == size))
  {
    hide WriteBuffers.TruncateAt, BlockCache.Invalidate;
  }

  /** After a successful release the size is the store's again, whatever had been cached. */
  lemma ReleaseThenGetattr(fs: Fs, cfg: Config, inode: nat, m: ObjectMeta)
    requires inode in fs.inodes.entries && Release(fs, inode).1.Ok?
    ensures Getattr(Release(fs, inode).0, cfg, inode, Ok(m)).1
         == Ok(Metadata.FileAttr(inode, if m.isDir then 4096 else m.size, m.isDir))
  {
  }
}
