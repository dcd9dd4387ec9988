/** Read-ahead as the core drives it: only reads that reach the store are recorded, and truncate and unlink
    start the record afresh. The window theorems of `Readahead` then hold of every run of the core. */
module PrefetchRuns {
  import opened Base
  import opened FileNames
  import opened FileSystem
  import Paths
  import Inodes
  import Metadata
  import BlockCache
  import CacheRuns
  import R = Readahead
  import ReadLengths
  import ReadTransparency
  import WriteBuffers

  /** The read is answered neither by a prefetched window nor by a block that reaches its first byte, and the
      store has the object. */
  ghost predicate ReachesStore(fs: Fs, cfg: Config, inode: nat, at: nat, reachable: bool)
    requires Valid(fs)
  {
    ReadTransparency.BlockSizePositive(fs.data);
    var start := at % fs.data.blockSize;
    var held := CacheRuns.Held(fs.data, BlockKey(inode, at - start));
    && reachable && ReadTransparency.FileOf(fs, cfg, inode).Some?
    && !ReadLengths.Prefetched(fs, cfg, inode, at)
    && (held.Some? ==> |held.value| <= start)
  }

  /** The operation makes the inode's prefetched data stale: it truncates or unlinks the inode, successfully. */
  ghost predicate Forgets(fs: Fs, cfg: Config, op: Op, inode: nat) {
    match op
    case OpTruncate(i, size) => i == inode && Truncate(fs, cfg, i, size).1.Ok?
    case OpUnlink(parent, name) =>
      && Unlink(fs, cfg, parent, name).1.Ok? && parent in fs.inodes.entries
      && Inodes.GetInode(fs.inodes, Paths.JoinPath(fs.inodes.entries[parent].path, name)) == Some(inode)
    case _ => false
  }

  /** The inode's reads that reached the store since its data was last forgotten, oldest first. */
  ghost function Fetched(fs: Fs, cfg: Config, ops: seq<Op>, inode: nat): seq<R.Read>
    requires Valid(fs) && cfg.writes.partSize > 0
  {
    if ops == [] then [] else
      var front, op := ops[..|ops| - 1], ops[|ops| - 1];
      var before := Exec(fs, cfg, front);
      if Forgets(before, cfg, op, inode) then []
      else Fetched(fs, cfg, front, inode)
           + if op.OpRead? && op.inode == inode && ReachesStore(before, cfg, inode, op.at, op.reachable)
             then [R.Read(op.at, op.size)] else []
  }

  /** The prefetches its reads asked for since then, oldest first. */
  ghost function Asked(fs: Fs, cfg: Config, ops: seq<Op>, inode: nat): seq<R.Request>
    requires Valid(fs) && cfg.writes.partSize > 0
  {
    if ops == [] then [] else
      var front, op := ops[..|ops| - 1], ops[|ops| - 1];
      var before := Exec(fs, cfg, front);
      ReadTransparency.BlockSizePositive(before.data);
      if Forgets(before, cfg, op, inode) then []
      else Asked(fs, cfg, front, inode)
           + if op.OpRead? && op.inode == inode && Read(before, cfg, inode, op.at, op.size, op.reachable).2.Some?
             then [Read(before, cfg, inode, op.at, op.size, op.reachable).2.value] else []
  }

  /** What the run has made of the inode's read state. */
  ghost predicate InStep(s: R.State, cfg: R.Config, inode: nat, history: seq<R.Read>, requests: seq<R.Request>) {
    R.Reflects(s, cfg, inode, history, requests) && R.WindowsOk(s, cfg, inode, history, requests)
  }

  /** A read asks for a prefetch only if it reaches the store, and then records itself; it leaves the read
      states of other inodes. */
  lemma ReadRecords(fs: Fs, cfg: Config, inode: nat, at: nat, size: nat, reachable: bool)
    requires Valid(fs)
    ensures fs.data.blockSize > 0
    ensures var (fs1, _, q) := Read(fs, cfg, inode, at, size, reachable);
            if ReachesStore(fs, cfg, inode, at, reachable) then
              && q == R.RecordRead(fs.readahead, cfg.readahead, inode, at, size).1
              && fs1.readahead.files == R.RecordRead(fs.readahead, cfg.readahead, inode, at, size).0.files
            else q == None && fs1.readahead.files == fs.readahead.files
  {
    hide Inodes.Valid, Metadata.Valid, BlockCache.Valid, BlockCache.GetKey, BlockCache.Put, CacheRuns.Held,
         R.Record, Slice;
    ReadTransparency.BlockSizePositive(fs.data);
    CacheConfig(fs.data, inode, at);
    CacheRuns.GetAnswersHeld(fs.data, BlockKey(inode, at - at % fs.data.blockSize));
  }

  lemma RecordInStep(s: R.State, s': R.State, cfg: R.Config, inode: nat, at: nat, size: nat,
                     history: seq<R.Read>, requests: seq<R.Request>)
    requires cfg.enable && InStep(s, cfg, inode, history, requests)
    requires s'.files == R.RecordRead(s, cfg, inode, at, size).0.files
    ensures var q := R.RecordRead(s, cfg, inode, at, size).1;
            InStep(s', cfg, inode, history + [R.Read(at, size)], if q.Some? then requests + [q.value] else requests)
  {
    R.RecordReflects(s, cfg, inode, at, size, history, requests);
    R.RecordWindows(s, cfg, inode, at, size, history, requests);
  }

  lemma OtherInStep(s: R.State, s': R.State, cfg: R.Config, inode: nat,
                    history: seq<R.Read>, requests: seq<R.Request>)
    requires InStep(s, cfg, inode, history, requests) && R.StateOf(s', inode) == R.StateOf(s, inode)
    ensures InStep(s', cfg, inode, history, requests)
  {
  }

  /** Only reads record, and only truncate and unlink forget. */
  lemma OthersKeepReads(fs: Fs, cfg: Config, op: Op, inode: nat)
    requires fs.data.blockSize > 0 && cfg.writes.partSize > 0 && !(op.OpRead? && op.inode == inode)
    ensures var s := Step(fs, cfg, op).readahead;
            if Forgets(fs, cfg, op, inode) then inode !in s.files
            else R.StateOf(s, inode) == R.StateOf(fs.readahead, inode)
  {
    hide Metadata.PutAttr, BlockCache.Get, BlockCache.Put, BlockCache.Invalidate, BlockCache.InvalidateRange,
         WriteBuffers.WriteAt, WriteBuffers.TruncateAt, Probe, Paths.JoinPath, Paths.Normalize, ObsPath;
    match op
    case OpLookup(parent, name, stat, dirStat, children) =>
      LookupKeepsReads(fs, cfg, parent, name, stat, dirStat, children);
    case OpReaddir(i, offset, listing) =>
      if i in fs.inodes.entries && listing.Some? {
        ReadTransparency.ListingTouchesNoData(fs, cfg, fs.inodes.entries[i].path, listing.value, offset, 3);
      }
    case OpRead(i, at, size, reachable) =>
    case _ =>
  }

  lemma LookupKeepsReads(fs: Fs, cfg: Config, parent: nat, name: string,
                         stat: Option<ObjectMeta>, dirStat: Option<ObjectMeta>, children: bool)
    ensures Lookup(fs, cfg, parent, name, stat, dirStat, children).0.readahead == fs.readahead
  {
    hide Metadata.PutAttr;
  }

  /** Over every run of the core: the sequential counter of each inode is the length of the longest contiguous
      suffix of its reads that reached the store, and the windows asked for are strictly increasing, pairwise
      disjoint and start within what those reads covered. */
  lemma {:induction false} RunInStep(fs: Fs, cfg: Config, ops: seq<Op>, inode: nat)
    requires Valid(fs) && cfg.writes.partSize > 0 && cfg.readahead.enable && inode !in fs.readahead.files
    ensures InStep(Exec(fs, cfg, ops).readahead, cfg.readahead, inode,
                   Fetched(fs, cfg, ops, inode), Asked(fs, cfg, ops, inode))
  {
    hide Inodes.Valid, Metadata.Valid, BlockCache.Valid, InStep, Read, Forgets, ReachesStore, R.RecordRead, R.StateOf;
    if ops == [] {
      NothingRecorded(fs.readahead, cfg.readahead, inode);
    } else {
      var front, op := ops[..|ops| - 1], ops[|ops| - 1];
      RunInStep(fs, cfg, front, inode);
      var before := Exec(fs, cfg, front);
      ReadTransparency.BlockSizePositive(before.data);
      var after := Step(before, cfg, op);
      var history, requests := Fetched(fs, cfg, front, inode), Asked(fs, cfg, front, inode);
      assert history + [] == history && requests + [] == requests;
      if op.OpRead? && op.inode == inode {
        ReadRecords(before, cfg, inode, op.at, op.size, op.reachable);
        assert !Forgets(before, cfg, op, inode) by { ReadForgetsNothing(before, cfg, op, inode); }
        if ReachesStore(before, cfg, inode, op.at, op.reachable) {
          RecordInStep(before.readahead, after.readahead, cfg.readahead, inode, op.at, op.size, history, requests);
        } else {
          SameFiles(before.readahead, after.readahead, inode);
          OtherInStep(before.readahead, after.readahead, cfg.readahead, inode, history, requests);
        }
      } else {
        OthersKeepReads(before, cfg, op, inode);
        if Forgets(before, cfg, op, inode) {
          NothingRecorded(after.readahead, cfg.readahead, inode);
        } else {
          OtherInStep(before.readahead, after.readahead, cfg.readahead, inode, history, requests);
        }
      }
    }
  }

  lemma NothingRecorded(s: R.State, cfg: R.Config, inode: nat)
    requires inode !in s.files
    ensures InStep(s, cfg, inode, [], [])
  {
  }

  lemma ReadForgetsNothing(fs: Fs, cfg: Config, op: Op, inode: nat)
    requires op.OpRead?
    ensures !Forgets(fs, cfg, op, inode)
  {
  }

  lemma SameFiles(s: R.State, s': R.State, inode: nat)
    requires s'.files == s.files
    ensures R.StateOf(s', inode) == R.StateOf(s, inode)
  {
  }

  /** A core read asks for a prefetch if and only if it reaches the store, the last `threshold` reads of the
      inode that did so, itself included, are contiguous, and it ends beyond every window asked for; the
      window then starts where it ends. */
  lemma ReadPrefetchesIff(fs: Fs, cfg: Config, ops: seq<Op>, inode: nat, at: nat, size: nat, reachable: bool)
    requires Valid(fs) && cfg.writes.partSize > 0 && inode !in fs.readahead.files
    requires cfg.readahead.enable && cfg.readahead.threshold >= 2
    ensures var fs1, asked := Exec(fs, cfg, ops), Asked(fs, cfg, ops, inode);
            && fs1.data.blockSize > 0
            && var q := Read(fs1, cfg, inode, at, size, reachable).2;
               && (q.Some? <==>
                     && ReachesStore(fs1, cfg, inode, at, reachable)
                     && R.ContiguousSuffix(Fetched(fs, cfg, ops, inode) + [R.Read(at, size)], cfg.readahead.threshold)
                     && at + size > (if asked == [] then 0 else asked[|asked| - 1].offset + cfg.readahead.window))
               && (q.Some? ==> q.value == R.Request(inode, at + size, cfg.readahead.window))
  {
    hide Inodes.Valid, Metadata.Valid, BlockCache.Valid, Read, ReachesStore, Fetched, Asked, R.ContiguousSuffix;
    RunInStep(fs, cfg, ops, inode);
    var fs1, history := Exec(fs, cfg, ops), Fetched(fs, cfg, ops, inode);
    ReadRecords(fs1, cfg, inode, at, size, reachable);
    R.SuffixSnoc(history, R.Read(at, size), cfg.readahead.threshold - 1);
    SuffixIff(fs1.readahead, cfg.readahead, inode, history, Asked(fs, cfg, ops, inode));
  }

  lemma SuffixIff(s: R.State, cfg: R.Config, inode: nat, history: seq<R.Read>, requests: seq<R.Request>)
    requires R.Reflects(s, cfg, inode, history, requests) && cfg.threshold >= 2
    ensures R.StateOf(s, inode).seqCount >= cfg.threshold - 1 <==> R.ContiguousSuffix(history, cfg.threshold - 1)
  {
  }
}
