/** Properties of single blocks that every cache step keeps: if each block in memory and on disk has the
    property and every put supplies it, eviction, spilling and promotion keep it everywhere. */
module CacheContents {
  import opened Base
  import opened FileNames
  import opened BlockCache
  import opened CacheRuns
  import DiskTier

  ghost predicate AllOnDisk(d: DiskTier.Disk, P: (BlockKey, Bytes) -> bool)
    requires DiskTier.FilesOk(d)
  {
    forall k :: k in d.entries ==> P(k, DiskTier.Content(d, k))
  }

  ghost predicate AllBlocks(c: Cache, P: (BlockKey, Bytes) -> bool)
    requires Valid(c)
  {
    && (forall k :: k in c.blocks ==> P(k, c.blocks[k].data))
    && (c.disk.Some? ==> AllOnDisk(c.disk.value, P))
  }

  lemma KeptDisk(d: DiskTier.Disk, d': DiskTier.Disk, P: (BlockKey, Bytes) -> bool)
    requires DiskTier.FilesOk(d) && DiskTier.FilesOk(d') && DiskTier.Keeps(d, d') && AllOnDisk(d, P)
    ensures AllOnDisk(d', P)
  {
  }

  lemma SpilledDisk(d: DiskTier.Disk, k: BlockKey, data: Bytes, P: (BlockKey, Bytes) -> bool)
    requires DiskTier.Valid(d) && AllOnDisk(d, P) && P(k, data)
    ensures DiskTier.Valid(DiskTier.Put(d, k, data)) && AllOnDisk(DiskTier.Put(d, k, data), P)
  {
    DiskTier.PutKeeps(d, k, data);
    var d' := DiskTier.Put(d, k, data);
    forall j | j in d'.entries ensures P(j, DiskTier.Content(d', j)) {
      if j != k { assert DiskTier.Agrees(d, d', j); }
    }
  }

  lemma {:induction false} ShrinkContents(c: Cache, size: nat, P: (BlockKey, Bytes) -> bool)
    requires Valid(c) && AllBlocks(c, P)
    ensures Valid(Shrink(c, size)) && AllBlocks(Shrink(c, size), P)
    decreases c.blocks.Keys
  {
    if !(Fits(c, size) || c.blocks == map[]) {
      var k := OldestBlock(c);
      EvictKeeps(c, k);
      if c.disk.Some? { SpilledDisk(c.disk.value, k, c.blocks[k].data, P); }
      ShrinkContents(Evict(c, k), size, P);
    }
  }

  lemma PutContents(c: Cache, k: BlockKey, data: Bytes, P: (BlockKey, Bytes) -> bool)
    requires Valid(c) && AllBlocks(c, P) && P(k, data)
    ensures Valid(PutMemory(c, k, data)) && AllBlocks(PutMemory(c, k, data), P)
  {
    PutMemoryKeeps(c, k, data);
    ShrinkContents(c, |data|, P);
  }

  /** A lookup keeps the property and answers only with bytes that have it. */
  lemma GetContents(c: Cache, k: BlockKey, P: (BlockKey, Bytes) -> bool)
    requires Valid(c) && AllBlocks(c, P)
    ensures var (c', r) := GetKey(c, k);
            && Valid(c') && AllBlocks(c', P)
            && (r.Some? ==> P(k, r.value))
  {
    GetKeyKeeps(c, k);
    if k !in c.blocks && c.disk.Some? {
      DiskTier.GetKeeps(c.disk.value, k);
      var (d, r) := DiskTier.Get(c.disk.value, k);
      WithDisk(c, d);
      KeptDisk(c.disk.value, d, P);
      if r.Some? { PutContents(c.(disk := Some(d)), k, r.value, P); }
    }
  }

  lemma InvalidateContents(c: Cache, inode: nat, P: (BlockKey, Bytes) -> bool)
    requires Valid(c) && AllBlocks(c, P)
    ensures Valid(Invalidate(c, inode))
    ensures AllBlocks(Invalidate(c, inode), (k, data) => P(k, data) && k.inode != inode)
  {
    InvalidateKeeps(c, inode);
    var Q := (k: BlockKey, data: Bytes) => P(k, data) && k.inode != inode;
    if c.disk.Some? {
      var d, d' := c.disk.value, DiskTier.Invalidate(c.disk.value, inode);
      DiskTier.InvalidateKeeps(d, inode);
      KeptDisk(d, d', P);
      assert AllOnDisk(d', Q);
    }
  }

  lemma StepContents(c: Cache, op: Op, P: (BlockKey, Bytes) -> bool)
    requires Valid(c) && AllBlocks(c, P)
    requires op.OpPut? ==> P(KeyFor(op.inode, op.offset, c.blockSize), op.data)
    ensures Valid(Step(c, op)) && AllBlocks(Step(c, op), P)
  {
    StepKeepsValid(c, op);
    match op
    case OpGet(i, o) => GetContents(c, KeyFor(i, o, c.blockSize), P);
    case OpPut(i, o, data) => PutContents(c, KeyFor(i, o, c.blockSize), data, P);
    case OpInvalidate(i) =>
      if c.disk.Some? {
        DiskTier.InvalidateKeeps(c.disk.value, i);
        KeptDisk(c.disk.value, DiskTier.Invalidate(c.disk.value, i), P);
      }
    case OpInvalidateRange(i, o, len) =>
    case OpClear =>
      if c.disk.Some? { DiskTier.ClearKeeps(c.disk.value); }
  }
}
