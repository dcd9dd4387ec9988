/** The two-tier block cache as a value: a memory map with least-recently-used eviction that spills
    into an optional disk tier. The `DataCache` class is proved to perform exactly these steps. */
module BlockCache {
  import opened Base
  import opened FileNames
  import opened Lru
  import opened Totals
  import DiskTier

  datatype Block = Block(data: Bytes, lastAccess: nat)

  datatype Cache = Cache(
    blocks: map<BlockKey, Block>,
    usage: nat,
    now: nat,
    disk: Option<DiskTier.Disk>,
    blockSize: nat,
    limit: nat)

  ghost function Stamps(c: Cache): map<BlockKey, nat> {
    map k | k in c.blocks :: c.blocks[k].lastAccess
  }

  ghost function Sizes(c: Cache): map<BlockKey, nat> {
    map k | k in c.blocks :: |c.blocks[k].data|
  }

  /** Bytes resident in memory; `usage` is only the counter. */
  ghost function Resident(c: Cache): nat { Total(Sizes(c)) }

  ghost predicate StampsOk(c: Cache) {
    Distinct(Stamps(c)) && Before(Stamps(c), c.now)
  }

  ghost predicate Valid(c: Cache) {
    && c.blockSize > 0
    && StampsOk(c)
    && Resident(c) <= c.usage
    && (c.disk.Some? ==> DiskTier.Valid(c.disk.value))
  }

  function New(blockSize: nat, limit: nat, disk: Option<DiskTier.Disk>): Cache {
    Cache(map[], 0, 0, disk, blockSize, limit)
  }

  function KeyFor(inode: nat, offset: nat, blockSize: nat): BlockKey
    requires blockSize > 0
  {
    BlockKey(inode, Align(offset, blockSize))
  }

  function TouchBlock(c: Cache, k: BlockKey): Cache
    requires k in c.blocks
  {
    c.(blocks := c.blocks[k := c.blocks[k].(lastAccess := c.now)], now := c.now + 1)
  }

  lemma OldestKey(c: Cache)
    requires c.blocks != map[]
    ensures Stamps(c) != map[] && Oldest(Stamps(c)) in c.blocks
  {
  }

  ghost function OldestBlock(c: Cache): (k: BlockKey)
    requires c.blocks != map[]
    ensures k in c.blocks
  {
    OldestKey(c);
    Oldest(Stamps(c))
  }

  /** Spill a block into the disk tier, if there is one. */
  ghost function Spill(disk: Option<DiskTier.Disk>, k: BlockKey, data: Bytes): Option<DiskTier.Disk> {
    if disk.Some? then Some(DiskTier.Put(disk.value, k, data)) else None
  }

  /** Take block `k` out of memory, spill it, and take its size off the counter. */
  ghost function Evict(c: Cache, k: BlockKey): Cache
    requires k in c.blocks
  {
    var data := c.blocks[k].data;
    c.(blocks := c.blocks - {k},
       disk := Spill(c.disk, k, data),
       usage := SatSub(c.usage, |data|),
       now := c.now + 1)
  }

  ghost predicate Fits(c: Cache, size: nat) { c.usage + size <= c.limit }

  /** The eviction loop of `put_memory`. */
  ghost function Shrink(c: Cache, size: nat): Cache
    decreases c.blocks.Keys
  {
    if Fits(c, size) || c.blocks == map[] then c
    else Shrink(Evict(c, OldestBlock(c)), size)
  }

  function Insert(c: Cache, k: BlockKey, data: Bytes): Cache {
    c.(blocks := c.blocks[k := Block(data, c.now)], usage := c.usage + |data|, now := c.now + 1)
  }

  ghost function PutMemory(c: Cache, k: BlockKey, data: Bytes): Cache {
    Insert(Shrink(c, |data|), k, data)
  }

  ghost function GetKey(c: Cache, k: BlockKey): (Cache, Option<Bytes>) {
    if k in c.blocks then (TouchBlock(c, k), Some(c.blocks[k].data))
    else if c.disk.None? then (c, None)
    else
      var (d, r) := DiskTier.Get(c.disk.value, k);
      var c' := c.(disk := Some(d));
      if r.None? then (c', None) else (PutMemory(c', k, r.value), r)
  }

  ghost function Get(c: Cache, inode: nat, offset: nat): (Cache, Option<Bytes>)
    requires c.blockSize > 0
  {
    GetKey(c, KeyFor(inode, offset, c.blockSize))
  }

  ghost function Put(c: Cache, inode: nat, offset: nat, data: Bytes): Cache
    requires c.blockSize > 0
  {
    PutMemory(c, KeyFor(inode, offset, c.blockSize), data)
  }

  ghost function SizesIn(c: Cache, ks: set<BlockKey>): map<BlockKey, nat> {
    map k | k in c.blocks && k in ks :: |c.blocks[k].data|
  }

  /** Remove a set of keys from memory and take their bytes off the counter. */
  ghost function Remove(c: Cache, ks: set<BlockKey>): Cache {
    c.(blocks := c.blocks - ks, usage := SatSub(c.usage, Total(SizesIn(c, ks))))
  }

  ghost function KeysOf(c: Cache, inode: nat): set<BlockKey> {
    set k | k in c.blocks && k.inode == inode
  }

  ghost function Invalidate(c: Cache, inode: nat): Cache {
    Remove(c, KeysOf(c, inode)).(
      disk := if c.disk.Some? then Some(DiskTier.Invalidate(c.disk.value, inode)) else None)
  }

  /** The keys `invalidate_range` visits: one per block number, rounded out at both ends. */
  function RangeKeys(inode: nat, offset: nat, len: nat, blockSize: nat): set<BlockKey>
    requires blockSize > 0
  {
    set b: nat | offset / blockSize <= b < (offset + len + blockSize - 1) / blockSize
      :: BlockKey(inode, b * blockSize)
  }

  /** The disk tier is not touched. */
  ghost function InvalidateRange(c: Cache, inode: nat, offset: nat, len: nat): Cache
    requires c.blockSize > 0
  {
    Remove(c, RangeKeys(inode, offset, len, c.blockSize))
  }

  ghost function Clear(c: Cache): Cache {
    c.(blocks := map[], usage := 0,
       disk := if c.disk.Some? then Some(DiskTier.Clear(c.disk.value)) else None)
  }

  // ---------------------------------------------------------------- every step keeps Valid

  lemma TouchKeeps(c: Cache, k: BlockKey)
    requires Valid(c) && k in c.blocks
    ensures Valid(TouchBlock(c, k))
    ensures Resident(TouchBlock(c, k)) == Resident(c)
  {
    TouchStamps(c, k);
    assert Sizes(TouchBlock(c, k)) == Sizes(c);
  }

  lemma TouchStamps(c: Cache, k: BlockKey)
    requires StampsOk(c) && k in c.blocks
    ensures StampsOk(TouchBlock(c, k))
    ensures Stamps(TouchBlock(c, k)) == Stamps(c)[k := c.now]
  {
    assert Stamps(TouchBlock(c, k)) == Stamps(c)[k := c.now];
  }

  lemma RemoveStamps(c: Cache, ks: set<BlockKey>)
    requires StampsOk(c)
    ensures StampsOk(Remove(c, ks))
    ensures Stamps(Remove(c, ks)) == Stamps(c) - ks
  {
    assert Stamps(Remove(c, ks)) == Stamps(c) - ks;
  }

  /** The counter never saturates: it drops by exactly the bytes removed. */
  lemma RemoveSizes(c: Cache, ks: set<BlockKey>)
    requires Resident(c) <= c.usage
    ensures var c' := Remove(c, ks);
            && Resident(c') <= c'.usage
            && c.usage - c'.usage == Resident(c) - Resident(c')
  {
    TotalSplit(Sizes(c), ks);
    var c' := Remove(c, ks);
    assert Sizes(c') == Sizes(c) - ks;
    assert (map k | k in Sizes(c) && k in ks :: Sizes(c)[k])
        == SizesIn(c, ks);
  }

  lemma SizesInMore(c: Cache, done: set<BlockKey>, k: BlockKey)
    requires k !in done
    ensures Total(SizesIn(c, done + {k}))
            == Total(SizesIn(c, done)) + (if k in c.blocks then |c.blocks[k].data| else 0)
  {
    var more := SizesIn(c, done + {k});
    if k in c.blocks {
      TotalRemove(more, k);
      assert more - {k} == SizesIn(c, done);
    } else {
      assert more == SizesIn(c, done);
    }
  }

  lemma RemoveKeeps(c: Cache, ks: set<BlockKey>)
    requires Valid(c)
    ensures Valid(Remove(c, ks))
  {
    RemoveStamps(c, ks);
    RemoveSizes(c, ks);
  }

  lemma EvictIsRemove(c: Cache, k: BlockKey)
    requires k in c.blocks
    ensures Evict(c, k) == Remove(c, {k}).(disk := Spill(c.disk, k, c.blocks[k].data), now := c.now + 1)
  {
    var one := SizesIn(c, {k});
    TotalRemove(one, k);
    assert one - {k} == map[];
  }

  lemma EvictKeeps(c: Cache, k: BlockKey)
    requires Valid(c) && k in c.blocks
    ensures var c' := Evict(c, k);
            && Valid(c')
            && c.usage - c'.usage == Resident(c) - Resident(c')
  {
    EvictIsRemove(c, k);
    RemoveKeeps(c, {k});
    RemoveSizes(c, {k});
    var c0 := Remove(c, {k});
    assert Stamps(Evict(c, k)) == Stamps(c0) && Sizes(Evict(c, k)) == Sizes(c0);
    if c.disk.Some? {
      DiskTier.PutKeeps(c.disk.value, k, c.blocks[k].data);
    }
  }

  lemma {:induction false} ShrinkKeeps(c: Cache, size: nat)
    requires Valid(c)
    ensures var c' := Shrink(c, size);
            && Valid(c')
            && c'.blocks.Keys <= c.blocks.Keys
            && (forall k :: k in c'.blocks ==> c'.blocks[k] == c.blocks[k])
            && (Fits(c', size) || c'.blocks == map[])
            && c.usage - c'.usage == Resident(c) - Resident(c')
            && c'.limit == c.limit && c'.blockSize == c.blockSize
            && (c'.disk.Some? <==> c.disk.Some?)
    decreases c.blocks.Keys
  {
    if !(Fits(c, size) || c.blocks == map[]) {
      var k := OldestBlock(c);
      EvictKeeps(c, k);
      ShrinkKeeps(Evict(c, k), size);
    }
  }

  /** Writing over a resident key counts its bytes twice. */
  lemma InsertKeeps(c: Cache, k: BlockKey, data: Bytes)
    requires Valid(c)
    ensures var c' := Insert(c, k, data);
            && Valid(c')
            && c'.usage - Resident(c') == c.usage - Resident(c) + (if k in c.blocks then |c.blocks[k].data| else 0)
  {
    InsertStamps(c, k, data);
    InsertSizes(c, k, data);
  }

  lemma InsertStamps(c: Cache, k: BlockKey, data: Bytes)
    requires StampsOk(c)
    ensures StampsOk(Insert(c, k, data))
    ensures Stamps(Insert(c, k, data)) == Stamps(c)[k := c.now]
  {
    assert Stamps(Insert(c, k, data)) == Stamps(c)[k := c.now];
  }

  lemma InsertSizes(c: Cache, k: BlockKey, data: Bytes)
    ensures Resident(Insert(c, k, data))
            == Resident(c) + |data| - (if k in c.blocks then |c.blocks[k].data| else 0)
  {
    TotalInsert(Sizes(c), k, |data|);
    assert Sizes(Insert(c, k, data)) == Sizes(c)[k := |data|];
  }

  lemma PutMemoryKeeps(c: Cache, k: BlockKey, data: Bytes)
    requires Valid(c)
    ensures Valid(PutMemory(c, k, data))
  {
    ShrinkKeeps(c, |data|);
    InsertKeeps(Shrink(c, |data|), k, data);
  }

  lemma WithDisk(c: Cache, d: DiskTier.Disk)
    requires Valid(c) && DiskTier.Valid(d)
    ensures Valid(c.(disk := Some(d)))
    ensures Resident(c.(disk := Some(d))) == Resident(c)
  {
  }

  lemma GetKeyKeeps(c: Cache, k: BlockKey)
    requires Valid(c)
    ensures Valid(GetKey(c, k).0)
  {
    if k in c.blocks {
      TouchKeeps(c, k);
    } else if c.disk.Some? {
      DiskTier.GetKeeps(c.disk.value, k);
      var (d, r) := DiskTier.Get(c.disk.value, k);
      WithDisk(c, d);
      if r.Some? {
        PutMemoryKeeps(c.(disk := Some(d)), k, r.value);
      }
    }
  }

  lemma InvalidateKeeps(c: Cache, inode: nat)
    requires Valid(c)
    ensures Valid(Invalidate(c, inode))
  {
    RemoveKeeps(c, KeysOf(c, inode));
    if c.disk.Some? {
      DiskTier.InvalidateKeeps(c.disk.value, inode);
      WithDisk(Remove(c, KeysOf(c, inode)), DiskTier.Invalidate(c.disk.value, inode));
    }
  }

  lemma ClearKeeps(c: Cache)
    requires Valid(c)
    ensures Valid(Clear(c))
    ensures Clear(c).blocks == map[] && Resident(Clear(c)) == 0
  {
    assert Stamps(Clear(c)) == map[] && Sizes(Clear(c)) == map[];
    if c.disk.Some? { DiskTier.ClearKeeps(c.disk.value); }
  }
}
