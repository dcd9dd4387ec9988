/** What truncate and unlink take out of the caches, exactly: everything of the one inode and nothing of any
    other. */
module Invalidations {
  import opened Base
  import opened FileNames
  import opened FileSystem
  import Paths
  import Inodes
  import Metadata
  import BlockCache
  import CacheContents
  import CacheRuns
  import DiskTier
  import LiveInodes
  import Readahead
  import WriteBuffers

  /** No block, prefetch or read state of `inode` is left, and those of every other inode are as before. */
  ghost predicate DataForgotten(fs: Fs, fs': Fs, inode: nat)
    requires BlockCache.Valid(fs.data) && BlockCache.Valid(fs'.data)
  {
    && (forall k :: CacheRuns.Held(fs'.data, k) == if k.inode == inode then None else CacheRuns.Held(fs.data, k))
    && (forall k :: k in fs'.data.blocks <==> k in fs.data.blocks && k.inode != inode)
    && (forall k :: k in fs'.readahead.buffer <==> k in fs.readahead.buffer && k.inode != inode)
    && (forall k :: k in fs'.readahead.buffer ==> fs'.readahead.buffer[k] == fs.readahead.buffer[k])
    && (forall i :: i in fs'.readahead.files <==> i in fs.readahead.files && i != inode)
    && (forall i :: i in fs'.readahead.files ==> fs'.readahead.files[i] == fs.readahead.files[i])
  }

  /** A cache invalidation makes every block of the inode miss in both tiers and no other. */
  lemma HeldAfterInvalidate(c: BlockCache.Cache, inode: nat, k: BlockKey)
    requires BlockCache.Valid(c)
    ensures BlockCache.Valid(BlockCache.Invalidate(c, inode))
    ensures CacheRuns.Held(BlockCache.Invalidate(c, inode), k)
         == if k.inode == inode then None else CacheRuns.Held(c, k)
  {
    hide BlockCache.StampsOk, BlockCache.Resident, DiskTier.StampsOk, DiskTier.SizesOk;
    BlockCache.InvalidateKeeps(c, inode);
    if c.disk.Some? {
      DiskTier.InvalidateKeeps(c.disk.value, inode);
      if k in DiskTier.Invalidate(c.disk.value, inode).entries {
        assert DiskTier.Agrees(c.disk.value, DiskTier.Invalidate(c.disk.value, inode), k);
      }
    }
  }

  lemma InvalidatesData(fs: Fs, fs': Fs, inode: nat)
    requires BlockCache.Valid(fs.data)
    requires fs'.data == BlockCache.Invalidate(fs.data, inode)
    requires fs'.readahead == Readahead.Invalidate(fs.readahead, inode)
    ensures BlockCache.Valid(fs'.data) && DataForgotten(fs, fs', inode)
  {
    hide BlockCache.Valid, CacheRuns.Held;
    BlockCache.InvalidateKeeps(fs.data, inode);
    forall k ensures CacheRuns.Held(fs'.data, k) == if k.inode == inode then None else CacheRuns.Held(fs.data, k) {
      HeldAfterInvalidate(fs.data, inode, k);
    }
  }

  /** A successful truncate leaves no block of the inode in either tier, no prefetch and no read state, and
      touches no other inode's; inode table and attributes stay. A failed one leaves all caches alone. */
  lemma TruncateForgets(fs: Fs, cfg: Config, inode: nat, size: nat)
    requires Valid(fs)
    ensures var (fs1, r) := Truncate(fs, cfg, inode, size);
            && BlockCache.Valid(fs1.data)
            && fs1.inodes == fs.inodes && fs1.meta == fs.meta
            && (r.Ok? ==> DataForgotten(fs, fs1, inode))
            && (r.Err? ==> fs1.data == fs.data && fs1.readahead == fs.readahead)
  {
    hide BlockCache.Valid, BlockCache.Invalidate, Readahead.Invalidate, DataForgotten,
         Inodes.Valid, Metadata.Valid, WriteBuffers.TruncateAt;
    var (fs1, r) := Truncate(fs, cfg, inode, size);
    if r.Ok? { InvalidatesData(fs, fs1, inode); }
  }

  /** So the next read asks the store: after a successful truncate it returns what the object has now, which
      is nothing after a truncate to 0. */
  lemma TruncateThenRead(fs: Fs, cfg: Config, inode: nat, size: nat, at: nat, count: nat)
    requires Valid(fs) && Truncate(fs, cfg, inode, size).1.Ok?
    ensures inode in fs.inodes.entries
    ensures var fs1, obs := Truncate(fs, cfg, inode, size).0, ObsPath(cfg, fs.inodes.entries[inode].path);
            && fs1.data.blockSize > 0
            && var r := Read(fs1, cfg, inode, at, count, true).1;
               && (size == 0 ==> r == Ok([]))
               && (size > 0 ==> r == if obs in fs.store.objects then Ok(Slice(fs.store.objects[obs], at, count))
                                     else Err(IoError))
  {
    hide Inodes.Valid, Metadata.Valid, BlockCache.Invalidate, Read;
    TruncateForgets(fs, cfg, inode, size);
    TruncateKeeps(fs, cfg, inode, size);
    var fs1 := Truncate(fs, cfg, inode, size).0;
    NothingHeld(fs1.data, inode);
    LiveInodes.UncachedReadAsksStore(fs1, cfg, inode, at, count);
  }

  lemma NothingHeld(c: BlockCache.Cache, inode: nat)
    requires BlockCache.Valid(c)
    requires forall k: BlockKey :: k.inode == inode ==> CacheRuns.Held(c, k) == None && k !in c.blocks
    ensures CacheContents.AllBlocks(c, (k: BlockKey, data: Bytes) => k.inode != inode)
  {
    hide BlockCache.StampsOk, BlockCache.Resident, DiskTier.StampsOk, DiskTier.SizesOk;
    if c.disk.Some? {
      forall k | k in c.disk.value.entries ensures k.inode != inode {
        assert CacheRuns.Held(c, k).Some?;
      }
    }
  }

  /** An unlink succeeds exactly when the parent is known and its DELETE goes through. It removes that object
      and no other, takes the path's inode, if it has one, out of the table, the attribute cache and the data
      caches, and leaves every other inode, all write buffers and the negative cache. */
  lemma UnlinkForgets(fs: Fs, cfg: Config, parent: nat, name: string)
    requires Valid(fs)
    ensures var (fs1, r) := Unlink(fs, cfg, parent, name);
            && BlockCache.Valid(fs1.data)
            && (r.Ok? <==> parent in fs.inodes.entries && fs.store.requests !in fs.store.outages)
            && (r.Err? ==> r.error == (if parent in fs.inodes.entries then IoError else NotFound)
                           && fs1 == fs.(store := fs.store.(requests := fs1.store.requests)))
            && (r.Ok? ==>
                  var path := Paths.Normalize(Paths.JoinPath(fs.inodes.entries[parent].path, name));
                  var obs := ObsPath(cfg, Paths.JoinPath(fs.inodes.entries[parent].path, name));
                  && fs1.store.objects == fs.store.objects - {obs} && fs1.store.puts == fs.store.puts
                  && fs1.writes == fs.writes && fs1.meta.negative == fs.meta.negative
                  && if path in fs.inodes.paths then
                       var n := fs.inodes.paths[path];
                       && fs1.inodes == fs.inodes.(
                            paths := fs.inodes.paths - {path}, entries := fs.inodes.entries - {n})
                       && fs1.meta.attrs == fs.meta.attrs - {n}
                       && DataForgotten(fs, fs1, n)
                     else
                       fs1 == fs.(store := fs1.store))
  {
    hide BlockCache.Valid, BlockCache.Invalidate, Readahead.Invalidate, DataForgotten, Metadata.Valid,
         Paths.JoinPath, Paths.Normalize, ObsPath;
    var (fs1, r) := Unlink(fs, cfg, parent, name);
    if r.Ok? {
      var path := Paths.Normalize(Paths.JoinPath(fs.inodes.entries[parent].path, name));
      if path in fs.inodes.paths { InvalidatesData(fs, fs1, fs.inodes.paths[path]); }
    }
  }
}
