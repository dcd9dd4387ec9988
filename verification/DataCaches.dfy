/** The block cache as the program runs it: objects updated in place, with scanning and eviction
    loops, proved to take exactly the steps of `DiskTier` and `BlockCache`. */
module DataCaches {
  import opened Base
  import opened FileNames
  import opened Lru
  import opened Totals
  import DiskTier
  import BlockCache

  class DiskCache {
    var entries: map<BlockKey, DiskTier.DiskEntry>
    var files: map<string, Bytes>
    var currentSize: nat
    var now: nat
    const sizeLimit: nat

    ghost function State(): DiskTier.Disk
      reads this
    {
      DiskTier.Disk(entries, files, currentSize, now, sizeLimit)
    }

    ghost predicate Valid()
      reads this
    {
      DiskTier.Valid(State())
    }

    /** The cache directory may already hold files; none of them is an entry yet. */
    constructor (files: map<string, Bytes>, sizeLimit: nat)
      ensures State() == DiskTier.Disk(map[], files, 0, 0, sizeLimit)
      ensures Valid()
    {
      this.entries, this.files, this.currentSize, this.now := map[], files, 0, 0;
      this.sizeLimit := sizeLimit;
      new;
      assert DiskTier.Sizes(State()) == map[];
    }

    method Get(key: BlockKey) returns (r: Option<Bytes>)
      requires Valid()
      modifies this
      ensures (State(), r) == DiskTier.Get(old(State()), key)
      ensures Valid()
    {
      ghost var before := State();
      DiskTier.GetKeeps(before, key);
      if key in entries {
        entries := entries[key := entries[key].(lastAccess := now)];
        now := now + 1;
        var path := entries[key].path;
        r := if path in files then Some(files[path]) else None;
      } else {
        r := None;
      }
    }

    /** `min_by_key` over the access times. */
    method OldestEntry() returns (oldest: BlockKey)
      requires Valid() && entries != map[]
      ensures DiskTier.Stamps(State()) != map[] && oldest == Oldest(DiskTier.Stamps(State()))
      ensures oldest in entries
    {
      DiskTier.OldestKey(State());
      var rest := entries.Keys;
      oldest :| oldest in rest;
      rest := rest - {oldest};
      while rest != {}
        invariant rest <= entries.Keys && oldest in entries
        invariant forall k :: k in entries && k !in rest ==>
          entries[oldest].lastAccess <= entries[k].lastAccess
        decreases rest
      {
        var k :| k in rest;
        if entries[k].lastAccess < entries[oldest].lastAccess { oldest := k; }
        rest := rest - {k};
      }
      OldestUnique(DiskTier.Stamps(State()), oldest);
    }

    /** Remove the entry with the smallest access time; false when there is none. */
    method EvictOneLocked() returns (evicted: bool)
      requires Valid()
      modifies this
      ensures evicted <==> old(entries) != map[]
      ensures !evicted ==> State() == old(State())
      ensures evicted ==> DiskTier.Stamps(old(State())) != map[]
      ensures evicted ==> State() == DiskTier.Drop(old(State()), {Oldest(DiskTier.Stamps(old(State())))})
    {
      ghost var before := State();
      if entries == map[] { return false; }
      var oldest := OldestEntry();
      var path := entries[oldest].path;
      entries := entries - {oldest};
      files := files - {path};
      assert (set k | k in {oldest} && k in before.entries :: before.entries[k].path) == {path};
      return true;
    }

    method CalculateSize() returns (size: nat)
      ensures size == DiskTier.StoredBytes(State())
    {
      size := 0;
      var rest := entries.Keys;
      ghost var left := DiskTier.Sizes(State());
      while rest != {}
        invariant rest <= entries.Keys && left.Keys == rest
        invariant forall k :: k in rest ==> left[k] == entries[k].size
        invariant size + Total(left) == DiskTier.StoredBytes(State())
        decreases rest
      {
        var k :| k in rest;
        TotalRemove(left, k);
        size := size + entries[k].size;
        rest := rest - {k};
        left := left - {k};
      }
      assert left == map[];
    }

    method Put(key: BlockKey, data: Bytes)
      requires Valid()
      modifies this
      ensures State() == DiskTier.Put(old(State()), key, data)
      ensures Valid()
    {
      hide DiskTier.Valid, DiskTier.Keeps, DiskTier.StoredBytes;
      ghost var before := State();
      DiskTier.PutKeeps(before, key, data);
      while currentSize + |data| > sizeLimit
        invariant Valid()
        invariant DiskTier.MakeRoom(State(), |data|) == DiskTier.MakeRoom(before, |data|)
        decreases entries.Keys
      {
        ghost var turn := State();
        var evicted := EvictOneLocked();
        if !evicted { return; }
        DiskTier.EvictKeeps(turn);
        var size := CalculateSize();
        currentSize := size;
        assert State() == DiskTier.EvictAndRecount(turn);
        assert entries.Keys < turn.entries.Keys;
      }
      files := files[FileName(key) := data];
      entries := entries[key := DiskTier.DiskEntry(FileName(key), |data|, now)];
      now := now + 1;
      currentSize := currentSize + |data|;
    }

    method Invalidate(inode: nat)
      requires Valid()
      modifies this
      ensures State() == DiskTier.Invalidate(old(State()), inode)
      ensures Valid()
    {
      ghost var before := State();
      var rest := set k | k in entries && k.inode == inode;
      ghost var gone, done: set<BlockKey> := rest, {};
      assert before == DiskTier.Drop(before, {});
      while rest != {}
        invariant rest == gone - done && done <= gone
        invariant State() == DiskTier.Drop(before, done)
        decreases rest
      {
        var k :| k in rest;
        DiskTier.DropMore(before, done, k);
        var path := entries[k].path;
        entries := entries - {k};
        files := files - {path};
        rest := rest - {k};
        done := done + {k};
      }
      assert done == gone;
      DiskTier.InvalidateKeeps(before, inode);
    }

    method Clear()
      requires Valid()
      modifies this
      ensures State() == DiskTier.Clear(old(State()))
      ensures Valid()
    {
      ghost var before := State();
      DiskTier.ClearKeeps(before);
      files := files - (set k | k in entries :: entries[k].path);
      assert (set k | k in before.entries.Keys && k in before.entries :: before.entries[k].path)
          == (set k | k in before.entries :: before.entries[k].path);
      entries := map[];
      currentSize := 0;
      assert before.entries - before.entries.Keys == map[];
    }
  }

  class DataCache {
    var memoryCache: map<BlockKey, BlockCache.Block>
    var memoryUsage: nat
    var now: nat
    const diskCache: DiskCache?
    const blockSize: nat
    const memoryLimit: nat

    ghost function Disk(): Option<DiskTier.Disk>
      reads this, diskCache
    {
      if diskCache == null then None else Some(diskCache.State())
    }

    ghost function State(): BlockCache.Cache
      reads this, diskCache
    {
      BlockCache.Cache(memoryCache, memoryUsage, now, Disk(), blockSize, memoryLimit)
    }

    ghost predicate Valid()
      reads this, diskCache
    {
      BlockCache.Valid(State())
    }

    constructor (blockSize: nat, memoryLimit: nat, diskCache: DiskCache?)
      requires blockSize > 0
      requires diskCache != null ==> diskCache.Valid()
      ensures this.diskCache == diskCache
      ensures State() == BlockCache.New(blockSize, memoryLimit, Disk())
      ensures Valid()
    {
      this.memoryCache, this.memoryUsage, this.now := map[], 0, 0;
      this.diskCache, this.blockSize, this.memoryLimit := diskCache, blockSize, memoryLimit;
      new;
      assert BlockCache.Sizes(State()) == map[];
    }

    /** Scan for the block with the smallest access time before `start`, the current time. */
    method LeastRecentlyUsed(start: nat) returns (oldestKey: Option<BlockKey>)
      requires BlockCache.StampsOk(State().(now := start))
      ensures memoryCache == map[] ==> oldestKey == None
      ensures memoryCache != map[] ==> oldestKey == Some(BlockCache.OldestBlock(State()))
    {
      oldestKey := None;
      var oldestTime := start;
      var rest := memoryCache.Keys;
      assert BlockCache.Stamps(State()) == BlockCache.Stamps(State().(now := start));
      while rest != {}
        invariant rest <= memoryCache.Keys
        invariant oldestKey == None ==> rest == memoryCache.Keys && oldestTime == start
        invariant oldestKey.Some? ==>
          oldestKey.value in memoryCache && memoryCache[oldestKey.value].lastAccess == oldestTime
        invariant oldestKey.Some? ==>
          forall k :: k in memoryCache && k !in rest ==> oldestTime <= memoryCache[k].lastAccess
        decreases rest
      {
        var k :| k in rest;
        assert BlockCache.Stamps(State())[k] < start;
        if memoryCache[k].lastAccess < oldestTime {
          oldestTime := memoryCache[k].lastAccess;
          oldestKey := Some(k);
        }
        rest := rest - {k};
      }
      if oldestKey.Some? { OldestUnique(BlockCache.Stamps(State()), oldestKey.value); }
    }

    /** Drop the least recently used block and spill it; its size, or nothing if memory is empty. */
    method EvictOne() returns (size: Option<nat>)
      requires Valid()
      modifies this`memoryCache, this`now, diskCache
      ensures Valid()
      ensures old(memoryCache) != map[] ==>
        var k := BlockCache.OldestBlock(old(State()));
        && size == Some(|old(memoryCache)[k].data|)
        && State() == BlockCache.Evict(old(State()), k).(usage := memoryUsage)
      ensures old(memoryCache) == map[] ==> size == None && State() == old(State()).(now := now)
    {
      ghost var before := State();
      var start := now;
      now := now + 1;
      assert BlockCache.Stamps(State()) == BlockCache.Stamps(before);
      assert BlockCache.Sizes(State()) == BlockCache.Sizes(before);
      assert State().(now := start) == before;
      var oldestKey := LeastRecentlyUsed(start);
      if oldestKey == None { return None; }
      var key := oldestKey.value;
      BlockCache.EvictKeeps(before, key);
      var data := memoryCache[key].data;
      memoryCache := memoryCache - {key};
      if diskCache != null { diskCache.Put(key, data); }
      ghost var after := BlockCache.Evict(before, key);
      assert State() == after.(usage := memoryUsage);
      assert BlockCache.Stamps(State()) == BlockCache.Stamps(after);
      assert BlockCache.Sizes(State()) == BlockCache.Sizes(after);
      return Some(|data|);
    }

    method PutMemory(key: BlockKey, data: Bytes)
      requires Valid()
      modifies this, diskCache
      ensures State() == BlockCache.PutMemory(old(State()), key, data)
      ensures Valid()
    {
      ghost var before := State();
      BlockCache.PutMemoryKeeps(before, key, data);
      while memoryUsage + |data| > memoryLimit && memoryCache != map[]
        invariant Valid()
        invariant BlockCache.Shrink(State(), |data|) == BlockCache.Shrink(before, |data|)
        decreases memoryCache.Keys
      {
        ghost var turn := State();
        ghost var k := BlockCache.OldestBlock(turn);
        BlockCache.EvictKeeps(turn, k);
        var evicted := EvictOne();
        memoryUsage := SatSub(memoryUsage, evicted.value);
        assert State() == BlockCache.Evict(turn, k);
        assert memoryCache.Keys < turn.blocks.Keys;
      }
      memoryUsage := memoryUsage + |data|;
      memoryCache := memoryCache[key := BlockCache.Block(data, now)];
      now := now + 1;
    }

    method Get(inode: nat, offset: nat) returns (r: Option<Bytes>)
      requires Valid()
      modifies this, diskCache
      ensures (State(), r) == BlockCache.Get(old(State()), inode, offset)
      ensures Valid()
    {
      var key := BlockCache.KeyFor(inode, offset, blockSize);
      ghost var before := State();
      BlockCache.GetKeyKeeps(before, key);
      if key in memoryCache {
        memoryCache := memoryCache[key := memoryCache[key].(lastAccess := now)];
        now := now + 1;
        return Some(memoryCache[key].data);
      }
      if diskCache != null {
        DiskTier.GetKeeps(before.disk.value, key);
        BlockCache.WithDisk(before, DiskTier.Get(before.disk.value, key).0);
        r := diskCache.Get(key);
        if r.Some? { PutMemory(key, r.value); }
        return;
      }
      return None;
    }

    method Put(inode: nat, offset: nat, data: Bytes)
      requires Valid()
      modifies this, diskCache
      ensures State() == BlockCache.Put(old(State()), inode, offset, data)
      ensures Valid()
    {
      PutMemory(BlockCache.KeyFor(inode, offset, blockSize), data);
    }

    /** Remove one block; the bytes it held. */
    method RemoveBlock(key: BlockKey) returns (size: nat)
      modifies this`memoryCache
      ensures memoryCache == old(memoryCache) - {key}
      ensures size == if key in old(memoryCache) then |old(memoryCache)[key].data| else 0
    {
      size := if key in memoryCache then |memoryCache[key].data| else 0;
      memoryCache := memoryCache - {key};
    }

    /** Remove the inode's blocks one at a time; the bytes they held. */
    method RemoveInode(inode: nat) returns (removed: nat)
      modifies this`memoryCache
      ensures var keys := BlockCache.KeysOf(old(State()), inode);
        && memoryCache == old(memoryCache) - keys
        && removed == Total(BlockCache.SizesIn(old(State()), keys))
    {
      var rest := set k | k in memoryCache && k.inode == inode;
      removed := 0;
      ghost var before, keys, done: set<BlockKey> := State(), rest, {};
      assert BlockCache.SizesIn(before, {}) == map[];
      assert before.blocks - {} == before.blocks;
      while rest != {}
        invariant rest == keys - done && done <= keys
        invariant memoryCache == before.blocks - done
        invariant removed == Total(BlockCache.SizesIn(before, done))
        decreases rest
      {
        var k :| k in rest;
        BlockCache.SizesInMore(before, done, k);
        var size := RemoveBlock(k);
        removed := removed + size;
        rest := rest - {k};
        done := done + {k};
      }
      assert done == keys;
    }

    method Invalidate(inode: nat)
      requires Valid()
      modifies this, diskCache
      ensures State() == BlockCache.Invalidate(old(State()), inode)
      ensures Valid()
    {
      BlockCache.InvalidateKeeps(State(), inode);
      var removed := RemoveInode(inode);
      memoryUsage := SatSub(memoryUsage, removed);
      if diskCache != null { diskCache.Invalidate(inode); }
    }

    /** Remove the blocks numbered `start` up to `end`; the bytes they held. */
    method RemoveRange(inode: nat, start: nat, end: nat) returns (removed: nat)
      requires blockSize > 0 && start <= end
      modifies this`memoryCache
      ensures var keys := set i: nat | start <= i < end :: BlockKey(inode, i * blockSize);
        && memoryCache == old(memoryCache) - keys
        && removed == Total(BlockCache.SizesIn(old(State()), keys))
    {
      removed := 0;
      ghost var before, done: set<BlockKey> := State(), {};
      assert BlockCache.SizesIn(before, {}) == map[];
      assert before.blocks - {} == before.blocks;
      for b := start to end
        invariant memoryCache == before.blocks - done
        invariant done == set i: nat | start <= i < b :: BlockKey(inode, i * blockSize)
        invariant removed == Total(BlockCache.SizesIn(before, done))
      {
        var key := BlockKey(inode, b * blockSize);
        NotYetVisited(inode, start, b, blockSize);
        BlockCache.SizesInMore(before, done, key);
        var size := RemoveBlock(key);
        removed := removed + size;
        done := done + {key};
      }
    }

    method InvalidateRange(inode: nat, offset: nat, len: nat)
      requires Valid()
      modifies this
      ensures State() == BlockCache.InvalidateRange(old(State()), inode, offset, len)
      ensures Valid()
    {
      BlockCache.RemoveKeeps(State(), BlockCache.RangeKeys(inode, offset, len, blockSize));
      StartBeforeEnd(offset, len, blockSize);
      var start := offset / blockSize;
      var end := (offset + len + blockSize - 1) / blockSize;
      var removed := RemoveRange(inode, start, end);
      memoryUsage := SatSub(memoryUsage, removed);
      assert State() == BlockCache.InvalidateRange(old(State()), inode, offset, len);
    }

    static lemma StartBeforeEnd(offset: nat, len: nat, blockSize: nat)
      requires blockSize > 0
      ensures offset / blockSize <= (offset + len + blockSize - 1) / blockSize
    {
    }

    static lemma NotYetVisited(inode: nat, start: nat, b: nat, blockSize: nat)
      requires blockSize > 0
      ensures BlockKey(inode, b * blockSize) !in (set i: nat | start <= i < b :: BlockKey(inode, i * blockSize))
    {
    }

    method Clear()
      requires Valid()
      modifies this, diskCache
      ensures State() == BlockCache.Clear(old(State()))
      ensures Valid()
    {
      BlockCache.ClearKeeps(State());
      memoryCache := map[];
      memoryUsage := 0;
      if diskCache != null { diskCache.Clear(); }
    }
  }
}
