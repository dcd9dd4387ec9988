/** Capacity of both tiers although their counters drift, exact range invalidation, and the runs on
    which each promise fails. */
module CacheBounds {
  import opened Base
  import opened FileNames
  import opened BlockCache
  import opened CacheRuns
  import opened CacheContents
  import DiskTier

  // ---------------------------------------------------------------- memory

  /** Right after a put, memory holds at most the limit, or the one new block if that is larger. */
  lemma PutWithinLimit(c: Cache, k: BlockKey, data: Bytes)
    requires Valid(c)
    ensures Resident(PutMemory(c, k, data)) <= Max(c.limit, |data|)
  {
    ShrinkKeeps(c, |data|);
    var c1 := Shrink(c, |data|);
    InsertKeeps(c1, k, data);
    InsertSizes(c1, k, data);
    if c1.blocks == map[] { assert Sizes(c1) == map[]; }
  }

  /** No block anywhere in the cache is larger than `m`, and memory is within bounds. */
  ghost predicate Bounded(c: Cache, m: nat)
    requires Valid(c)
  {
    && Resident(c) <= Max(c.limit, m)
    && Small(c, m)
  }

  ghost predicate Small(c: Cache, m: nat)
    requires Valid(c)
  {
    AllBlocks(c, (k: BlockKey, data: Bytes) => |data| <= m)
  }

  ghost predicate PutsAtMost(ops: seq<Op>, m: nat) {
    forall op :: op in ops && op.OpPut? ==> |op.data| <= m
  }

  lemma ShrinksResident(c: Cache, ks: set<BlockKey>)
    requires Valid(c)
    ensures Resident(Remove(c, ks)) <= Resident(c)
  {
    RemoveSizes(c, ks);
  }

  lemma GetWithinLimit(c: Cache, k: BlockKey, m: nat)
    requires Valid(c) && Resident(c) <= Max(c.limit, m)
    requires Small(c, m)
    ensures Resident(GetKey(c, k).0) <= Max(c.limit, m)
  {
    hide StampsOk, DiskTier.Valid;
    if k in c.blocks {
      BlockCache.TouchKeeps(c, k);
    } else if c.disk.Some? {
      DiskTier.GetKeeps(c.disk.value, k);
      var (d, r) := DiskTier.Get(c.disk.value, k);
      WithDisk(c, d);
      if r.Some? { PutWithinLimit(c.(disk := Some(d)), k, r.value); }
    }
  }

  lemma StepWithinLimit(c: Cache, op: Op, m: nat)
    requires Valid(c) && Resident(c) <= Max(c.limit, m)
    requires op.OpPut? ==> |op.data| <= m
    requires Small(c, m)
    ensures Resident(Step(c, op)) <= Max(c.limit, m)
  {
    match op
    case OpGet(i, o) => GetWithinLimit(c, KeyFor(i, o, c.blockSize), m);
    case OpPut(i, o, data) => PutWithinLimit(c, KeyFor(i, o, c.blockSize), data);
    case OpInvalidate(i) =>
      ShrinksResident(c, KeysOf(c, i));
      assert Sizes(Invalidate(c, i)) == Sizes(Remove(c, KeysOf(c, i)));
    case OpInvalidateRange(i, o, len) => ShrinksResident(c, RangeKeys(i, o, len, c.blockSize));
    case OpClear => ClearKeeps(c);
  }

  /** Memory never exceeds the limit or the largest block ever put, over every run: promotions from
      disk included. */
  lemma {:induction false} RunWithinLimit(c: Cache, ops: seq<Op>, m: nat)
    requires Fresh(c) && PutsAtMost(ops, m)
    ensures Valid(Exec(c, ops)) && Bounded(Exec(c, ops), m)
    ensures Exec(c, ops).limit == c.limit
  {
    if ops == [] {
      FreshValid(c);
      assert Sizes(c) == map[];
    } else {
      var n := |ops| - 1;
      RunWithinLimit(c, ops[..n], m);
      var before := Exec(c, ops[..n]);
      StepKeepsValid(before, ops[n]);
      StepConfig(before, ops[n]);
      assert ops[n] in ops;
      StepWithinLimit(before, ops[n], m);
      StepContents(before, ops[n], (k: BlockKey, data: Bytes) => |data| <= m);
    }
  }

  // ---------------------------------------------------------------- the usage counter

  /** How far the counter is above the bytes really resident. */
  ghost function Drift(c: Cache): nat
    requires Valid(c)
  {
    c.usage - Resident(c)
  }

  /** Bytes a put counts twice: the old block under its key, if eviction did not take it first. */
  ghost function CountedTwice(c: Cache, op: Op): nat
    requires c.blockSize > 0
  {
    if op.OpPut? then
      var c1 := Shrink(c, |op.data|);
      var k := KeyFor(op.inode, op.offset, c.blockSize);
      if k in c1.blocks then |c1.blocks[k].data| else 0
    else 0
  }

  lemma PutMemoryDrift(c: Cache, k: BlockKey, data: Bytes)
    requires Valid(c)
    ensures Valid(PutMemory(c, k, data))
    ensures Drift(PutMemory(c, k, data)) == Drift(c) +
      (if k in Shrink(c, |data|).blocks then |Shrink(c, |data|).blocks[k].data| else 0)
  {
    ShrinkKeeps(c, |data|);
    InsertKeeps(Shrink(c, |data|), k, data);
  }

  /** A promoted block is not resident, so nothing is counted twice. */
  lemma GetDrift(c: Cache, k: BlockKey)
    requires Valid(c)
    ensures Valid(GetKey(c, k).0) && Drift(GetKey(c, k).0) == Drift(c)
  {
    hide StampsOk;
    GetKeyKeeps(c, k);
    if k in c.blocks {
      BlockCache.TouchKeeps(c, k);
    } else if c.disk.Some? {
      DiskTier.GetKeeps(c.disk.value, k);
      var (d, r) := DiskTier.Get(c.disk.value, k);
      var c1 := c.(disk := Some(d));
      WithDisk(c, d);
      if r.Some? {
        PutMemoryDrift(c1, k, r.value);
        ShrinkKeeps(c1, |r.value|);
      }
    }
  }

  /** Every step moves the counter with the resident bytes, except a put onto a surviving key (which
      counts the old bytes twice) and `clear` (which resets it). */
  lemma DriftStep(c: Cache, op: Op)
    requires Valid(c)
    ensures Valid(Step(c, op))
    ensures Drift(Step(c, op)) == if op.OpClear? then 0 else Drift(c) + CountedTwice(c, op)
  {
    StepKeepsValid(c, op);
    match op
    case OpGet(i, o) => GetDrift(c, KeyFor(i, o, c.blockSize));
    case OpPut(i, o, data) => PutMemoryDrift(c, KeyFor(i, o, c.blockSize), data);
    case OpInvalidate(i) =>
      RemoveSizes(c, KeysOf(c, i));
      assert Sizes(Invalidate(c, i)) == Sizes(Remove(c, KeysOf(c, i)));
    case OpInvalidateRange(i, o, len) => RemoveSizes(c, RangeKeys(i, o, len, c.blockSize));
    case OpClear => ClearKeeps(c);
  }

  /** On runs without `clear`, the counter is exact at the end if and only if no put ever landed on a
      non-empty block that was still resident. */
  lemma {:induction false} CounterExactIff(c: Cache, ops: seq<Op>)
    requires Valid(c) && Drift(c) == 0
    requires forall op :: op in ops ==> !op.OpClear?
    ensures Valid(Exec(c, ops))
    ensures Drift(Exec(c, ops)) == 0 <==> NeverCountsTwice(c, ops)
  {
    RunKeepsValid(c, ops);
    if ops != [] {
      var n := |ops| - 1;
      CounterExactIff(c, ops[..n]);
      assert ops[n] in ops;
      DriftStep(Exec(c, ops[..n]), ops[n]);
    }
  }

  /** No put of the run lands on a non-empty block that eviction left resident. */
  ghost predicate NeverCountsTwice(c: Cache, ops: seq<Op>)
    requires c.blockSize > 0
  {
    ops == [] ||
      var n := |ops| - 1;
      NeverCountsTwice(c, ops[..n]) && CountedTwice(Exec(c, ops[..n]), ops[n]) == 0
  }

  // ---------------------------------------------------------------- the disk tier

  /** Disk bytes never exceed the limit, over every run, although the counter over-counts. */
  lemma DiskWithinLimit(c: Cache, ops: seq<Op>)
    requires Valid(c)
    ensures var d := Exec(c, ops).disk;
            d.Some? ==> DiskTier.StoredBytes(d.value) <= d.value.sizeLimit
                        && DiskTier.StoredBytes(d.value) <= d.value.currentSize
  {
    RunKeepsValid(c, ops);
  }

  lemma {:induction false} MakeRoomFits(d: DiskTier.Disk, size: nat)
    requires DiskTier.Valid(d) && d.entries != map[] && size <= d.sizeLimit
    ensures DiskTier.Fits(DiskTier.MakeRoom(d, size), size)
    decreases d.entries.Keys
  {
    if !DiskTier.Fits(d, size) {
      DiskTier.EvictKeeps(d);
      DiskTier.OldestKey(d);
      var d' := DiskTier.EvictAndRecount(d);
      if d'.entries == map[] {
        assert DiskTier.Sizes(d') == map[];
      } else {
        assert d'.entries.Keys < d.entries.Keys;
        MakeRoomFits(d', size);
      }
    }
  }

  /** A put is refused exactly when the block alone is over the limit, or the disk is empty but the
      counter says otherwise: an empty tier has nothing to evict, so the counter is never recounted. */
  lemma DiskRefusesIff(d: DiskTier.Disk, k: BlockKey, data: Bytes)
    requires DiskTier.Valid(d)
    ensures k !in DiskTier.Put(d, k, data).entries
            <==> |data| > d.sizeLimit || (d.entries == map[] && d.currentSize + |data| > d.sizeLimit)
  {
    DiskTier.MakeRoomKeeps(d, |data|);
    if d.entries != map[] && |data| <= d.sizeLimit {
      MakeRoomFits(d, |data|);
    }
  }

  ghost function PutAll(d: DiskTier.Disk, puts: seq<(BlockKey, Bytes)>): DiskTier.Disk {
    if puts == [] then d else DiskTier.Put(PutAll(d, puts[..|puts| - 1]), puts[|puts| - 1].0, puts[|puts| - 1].1)
  }

  /** Filling the tier with one inode's block and invalidating that inode disables the disk tier: it
      is empty, and it refuses every non-empty block from then on. */
  lemma {:induction false} InvalidatedDiskStaysEmpty(
    d: DiskTier.Disk, k: BlockKey, full: Bytes, puts: seq<(BlockKey, Bytes)>)
    requires DiskTier.Valid(d) && d.entries == map[] && d.currentSize == 0
    requires |full| == d.sizeLimit
    requires forall p :: p in puts ==> p.1 != []
    ensures var stuck := DiskTier.Invalidate(DiskTier.Put(d, k, full), k.inode);
            PutAll(stuck, puts) == stuck && stuck.entries == map[]
  {
    var filled := DiskTier.Put(d, k, full);
    var stuck := DiskTier.Invalidate(filled, k.inode);
    assert filled.entries == map[k := DiskTier.DiskEntry(FileName(k), |full|, d.now)];
    assert stuck.entries == map[];
    if puts != [] {
      InvalidatedDiskStaysEmpty(d, k, full, puts[..|puts| - 1]);
      assert puts[|puts| - 1] in puts;
    }
  }

  /** An emptied tier is disabled, refusing every non-empty block from then on, exactly when its counter
      has reached the limit. */
  lemma EmptyDiskStuckIff(d: DiskTier.Disk)
    requires DiskTier.Valid(d) && d.entries == map[]
    ensures (forall puts :: NonEmptyPuts(puts) ==> PutAll(d, puts) == d) <==> d.currentSize >= d.sizeLimit
  {
    if d.currentSize >= d.sizeLimit {
      forall puts | NonEmptyPuts(puts) ensures PutAll(d, puts) == d { RefusesAll(d, puts); }
    } else {
      var k := BlockKey(0, 0);
      var one := [(k, [0 as byte])];
      assert one[..0] == [] && PutAll(d, []) == d;
      assert k in DiskTier.Put(d, k, [0]).entries;
      assert NonEmptyPuts(one) && PutAll(d, one) == DiskTier.Put(d, k, [0]);
    }
  }

  ghost predicate NonEmptyPuts(puts: seq<(BlockKey, Bytes)>) { forall p :: p in puts ==> p.1 != [] }

  lemma {:induction false} RefusesAll(d: DiskTier.Disk, puts: seq<(BlockKey, Bytes)>)
    requires d.entries == map[] && d.currentSize >= d.sizeLimit && NonEmptyPuts(puts)
    ensures PutAll(d, puts) == d
  {
    if puts != [] {
      RefusesAll(d, puts[..|puts| - 1]);
      assert puts[|puts| - 1] in puts;
    }
  }

  // ---------------------------------------------------------------- range invalidation

  ghost predicate Aligned(c: Cache)
    requires Valid(c)
  {
    AllBlocks(c, (k: BlockKey, data: Bytes) => k.offset % c.blockSize == 0)
  }

  lemma {:induction false} RunAligned(c: Cache, ops: seq<Op>)
    requires Fresh(c)
    ensures Valid(Exec(c, ops)) && Aligned(Exec(c, ops))
  {
    if ops == [] {
      FreshValid(c);
    } else {
      var before, op := Exec(c, ops[..|ops| - 1]), ops[|ops| - 1];
      RunAligned(c, ops[..|ops| - 1]);
      if op.OpPut? { AlignIdempotent(op.offset, c.blockSize); }
      var bs := before.blockSize;
      StepContents(before, op, (k: BlockKey, data: Bytes) => k.offset % bs == 0);
    }
  }

  lemma InRangeIff(k: BlockKey, inode: nat, offset: nat, len: nat, blockSize: nat)
    requires blockSize > 0 && len > 0 && k.offset % blockSize == 0
    ensures k in RangeKeys(inode, offset, len, blockSize)
            <==> k.inode == inode && k.offset < offset + len && offset < k.offset + blockSize
  {
    var b := k.offset / blockSize;
    assert b * blockSize == k.offset;
    BlockMeetsRange(b, offset, len, blockSize);
    forall b' : nat | b' * blockSize == k.offset ensures b' == b {
      DivUnique(k.offset, blockSize, b');
    }
    if k.inode == inode && k.offset < offset + len && offset < k.offset + blockSize {
      assert BlockKey(inode, b * blockSize) == k;
    }
  }

  /** For a non-empty range, memory loses exactly the inode's blocks that meet it, every byte of the
      range then misses in memory, and the counter drops by exactly the bytes removed. */
  lemma RangeInvalidationExact(c: Cache, inode: nat, offset: nat, len: nat)
    requires Valid(c) && Aligned(c) && len > 0
    ensures var c' := InvalidateRange(c, inode, offset, len);
      && (forall k :: k in c'.blocks <==> (k in c.blocks &&
            !(k.inode == inode && k.offset < offset + len && offset < k.offset + c.blockSize)))
      && (forall k :: k in c'.blocks ==> c'.blocks[k] == c.blocks[k])
      && (forall o :: offset <= o < offset + len ==> KeyFor(inode, o, c.blockSize) !in c'.blocks)
      && c.usage - c'.usage == Resident(c) - Resident(c')
  {
    var c' := InvalidateRange(c, inode, offset, len);
    RemoveSizes(c, RangeKeys(inode, offset, len, c.blockSize));
    forall k | k in c.blocks
      ensures k in c'.blocks <==>
        !(k.inode == inode && k.offset < offset + len && offset < k.offset + c.blockSize)
    {
      InRangeIff(k, inode, offset, len, c.blockSize);
    }
    forall o | offset <= o < offset + len ensures KeyFor(inode, o, c.blockSize) !in c'.blocks {
      AlignIdempotent(o, c.blockSize);
      InRangeIff(KeyFor(inode, o, c.blockSize), inode, offset, len, c.blockSize);
    }
  }

  lemma RoundUp(offset: nat, bs: nat)
    requires bs > 0
    ensures (offset + bs - 1) / bs == offset / bs + if offset % bs == 0 then 0 else 1
  {
    var lo := offset / bs;
    assert lo * bs <= offset < lo * bs + bs;
    assert (lo + 1) * bs == lo * bs + bs;
    DivUnique(offset + bs - 1, bs, if offset % bs == 0 then lo else lo + 1);
  }

  /** Rounding both ends of an empty range out covers the block around an unaligned offset. */
  lemma EmptyRangeKeys(inode: nat, offset: nat, bs: nat)
    requires bs > 0
    ensures RangeKeys(inode, offset, 0, bs)
         == if offset % bs == 0 then {} else {BlockKey(inode, Align(offset, bs))}
  {
    var lo, hi := offset / bs, (offset + 0 + bs - 1) / bs;
    RoundUp(offset, bs);
    forall k ensures k in RangeKeys(inode, offset, 0, bs) <==> lo < hi && k == BlockKey(inode, lo * bs) {
      if lo < hi && k == BlockKey(inode, lo * bs) { assert lo <= lo < hi; }
    }
  }

  /** An empty range removes nothing exactly when it starts on a block boundary or its block is not
      resident. */
  lemma EmptyRangeRemovesNothingIff(c: Cache, inode: nat, offset: nat)
    requires Valid(c)
    ensures InvalidateRange(c, inode, offset, 0).blocks == c.blocks
            <==> offset % c.blockSize == 0 || KeyFor(inode, offset, c.blockSize) !in c.blocks
  {
    hide RangeKeys, StampsOk, Resident, DiskTier.Valid;
    EmptyRangeKeys(inode, offset, c.blockSize);
  }
}
