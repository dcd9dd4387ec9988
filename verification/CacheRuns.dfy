/** Runs of the block cache, and what every run keeps: the cache never serves anything but the
    latest bytes put under an aligned key and not invalidated since. */
module CacheRuns {
  import opened Base
  import opened FileNames
  import opened BlockCache
  import DiskTier

  datatype Op =
    | OpGet(inode: nat, offset: nat)
    | OpPut(inode: nat, offset: nat, data: Bytes)
    | OpInvalidate(inode: nat)
    | OpInvalidateRange(inode: nat, offset: nat, len: nat)
    | OpClear

  ghost function Step(c: Cache, op: Op): (c': Cache)
    requires c.blockSize > 0
  {
    match op
    case OpGet(i, o) => Get(c, i, o).0
    case OpPut(i, o, data) => Put(c, i, o, data)
    case OpInvalidate(i) => Invalidate(c, i)
    case OpInvalidateRange(i, o, len) => InvalidateRange(c, i, o, len)
    case OpClear => Clear(c)
  }

  /** The state after running `ops` from `c`. */
  ghost function Exec(c: Cache, ops: seq<Op>): Cache
    requires c.blockSize > 0
    ensures Exec(c, ops).blockSize == c.blockSize
  {
    if ops == [] then c else
      var before := Exec(c, ops[..|ops| - 1]);
      StepConfig(before, ops[|ops| - 1]);
      Step(before, ops[|ops| - 1])
  }

  lemma {:induction false} ShrinkConfig(c: Cache, size: nat)
    ensures var r := Shrink(c, size);
            r.blockSize == c.blockSize && r.limit == c.limit && r.disk.Some? == c.disk.Some?
    decreases c.blocks.Keys
  {
    if !(Fits(c, size) || c.blocks == map[]) {
      ShrinkConfig(Evict(c, OldestBlock(c)), size);
    }
  }

  lemma StepConfig(c: Cache, op: Op)
    requires c.blockSize > 0
    ensures var r := Step(c, op);
            r.blockSize == c.blockSize && r.limit == c.limit && r.disk.Some? == c.disk.Some?
  {
    match op
    case OpGet(i, o) =>
      var k := KeyFor(i, o, c.blockSize);
      if k !in c.blocks && c.disk.Some? {
        var (d, r) := DiskTier.Get(c.disk.value, k);
        if r.Some? { ShrinkConfig(c.(disk := Some(d)), |r.value|); }
      }
    case OpPut(i, o, data) => ShrinkConfig(c, |data|);
    case OpInvalidate(i) =>
    case OpInvalidateRange(i, o, len) =>
    case OpClear =>
  }

  lemma StepKeepsValid(c: Cache, op: Op)
    requires Valid(c)
    ensures Valid(Step(c, op))
  {
    match op
    case OpGet(i, o) => GetKeyKeeps(c, KeyFor(i, o, c.blockSize));
    case OpPut(i, o, data) => PutMemoryKeeps(c, KeyFor(i, o, c.blockSize), data);
    case OpInvalidate(i) => InvalidateKeeps(c, i);
    case OpInvalidateRange(i, o, len) => RemoveKeeps(c, RangeKeys(i, o, len, c.blockSize));
    case OpClear => ClearKeeps(c);
  }

  /** Over every run: stamps stay distinct, the counter never under-counts, every disk entry has its
      own file, and the disk tier stays within its limit. */
  lemma {:induction false} RunKeepsValid(c: Cache, ops: seq<Op>)
    requires Valid(c)
    ensures Valid(Exec(c, ops))
  {
    if ops != [] {
      RunKeepsValid(c, ops[..|ops| - 1]);
      StepKeepsValid(Exec(c, ops[..|ops| - 1]), ops[|ops| - 1]);
    }
  }

  // ---------------------------------------------------------------- the simple map

  /** The specification: the last value put under each key and not invalidated since. */
  function LatestStep(latest: map<BlockKey, Bytes>, op: Op, blockSize: nat): map<BlockKey, Bytes>
    requires blockSize > 0
  {
    match op
    case OpGet(i, o) => latest
    case OpPut(i, o, data) => latest[KeyFor(i, o, blockSize) := data]
    case OpInvalidate(i) => map k | k in latest && k.inode != i :: latest[k]
    case OpInvalidateRange(i, o, len) => latest - RangeKeys(i, o, len, blockSize)
    case OpClear => map[]
  }

  function Latest(ops: seq<Op>, blockSize: nat): map<BlockKey, Bytes>
    requires blockSize > 0
  {
    if ops == [] then map[]
    else LatestStep(Latest(ops[..|ops| - 1], blockSize), ops[|ops| - 1], blockSize)
  }

  /** What memory, else disk, holds for `k`, if anything. */
  ghost function Held(c: Cache, k: BlockKey): Option<Bytes>
    requires Valid(c)
  {
    if k in c.blocks then Some(c.blocks[k].data)
    else if c.disk.Some? && k in c.disk.value.entries then Some(DiskTier.Content(c.disk.value, k))
    else None
  }

  ghost predicate HeldIsLatest(c: Cache, latest: map<BlockKey, Bytes>, k: BlockKey)
    requires Valid(c)
  {
    Held(c, k).Some? ==> k in latest && Held(c, k).value == latest[k]
  }

  ghost predicate Coherent(c: Cache, latest: map<BlockKey, Bytes>)
    requires Valid(c)
  {
    forall k :: HeldIsLatest(c, latest, k)
  }

  /** A lookup answers exactly what is held. */
  lemma GetAnswersHeld(c: Cache, k: BlockKey)
    requires Valid(c)
    ensures GetKey(c, k).1 == Held(c, k)
  {
  }

  lemma EvictCoherent(c: Cache, k: BlockKey, latest: map<BlockKey, Bytes>)
    requires Valid(c) && k in c.blocks && Coherent(c, latest)
    ensures Valid(Evict(c, k)) && Coherent(Evict(c, k), latest)
  {
    EvictKeeps(c, k);
    var c' := Evict(c, k);
    assert HeldIsLatest(c, latest, k);
    if c.disk.Some? {
      DiskTier.PutKeeps(c.disk.value, k, c.blocks[k].data);
    }
    forall j ensures HeldIsLatest(c', latest, j) {
      assert HeldIsLatest(c, latest, j);
      if c.disk.Some? && j != k && j in c'.disk.value.entries {
        assert DiskTier.Agrees(c.disk.value, c'.disk.value, j);
      }
    }
  }

  lemma {:induction false} ShrinkCoherent(c: Cache, size: nat, latest: map<BlockKey, Bytes>)
    requires Valid(c) && Coherent(c, latest)
    ensures Valid(Shrink(c, size)) && Coherent(Shrink(c, size), latest)
    decreases c.blocks.Keys
  {
    if !(Fits(c, size) || c.blocks == map[]) {
      var k := OldestBlock(c);
      EvictCoherent(c, k, latest);
      ShrinkCoherent(Evict(c, k), size, latest);
    }
  }

  lemma PutMemoryCoherent(c: Cache, k: BlockKey, data: Bytes, latest: map<BlockKey, Bytes>)
    requires Valid(c) && Coherent(c, latest)
    ensures Valid(PutMemory(c, k, data)) && Coherent(PutMemory(c, k, data), latest[k := data])
  {
    PutMemoryKeeps(c, k, data);
    ShrinkCoherent(c, |data|, latest);
    var c1 := Shrink(c, |data|);
    var c' := PutMemory(c, k, data);
    var latest' := latest[k := data];
    forall j ensures HeldIsLatest(c', latest', j) {
      assert HeldIsLatest(c1, latest, j);
    }
  }

  lemma DiskReadCoherent(c: Cache, k: BlockKey, latest: map<BlockKey, Bytes>)
    requires Valid(c) && c.disk.Some? && Coherent(c, latest)
    ensures var (d', r) := DiskTier.Get(c.disk.value, k);
            var c1 := c.(disk := Some(d'));
            && Valid(c1) && Coherent(c1, latest)
            && (r.Some? && k !in c.blocks ==> k in latest && r.value == latest[k])
  {
    var d := c.disk.value;
    assert HeldIsLatest(c, latest, k);
    DiskTier.GetKeeps(d, k);
    var d' := DiskTier.Get(d, k).0;
    WithDisk(c, d');
    forall j ensures HeldIsLatest(c.(disk := Some(d')), latest, j) {
      assert HeldIsLatest(c, latest, j);
      if j in d'.entries { assert DiskTier.Agrees(d, d', j); }
    }
  }

  lemma TouchCoherent(c: Cache, k: BlockKey, latest: map<BlockKey, Bytes>)
    requires Valid(c) && k in c.blocks && Coherent(c, latest)
    ensures Valid(TouchBlock(c, k)) && Coherent(TouchBlock(c, k), latest)
  {
    BlockCache.TouchKeeps(c, k);
    forall j ensures HeldIsLatest(TouchBlock(c, k), latest, j) { assert HeldIsLatest(c, latest, j); }
  }

  lemma GetCoherent(c: Cache, k: BlockKey, latest: map<BlockKey, Bytes>)
    requires Valid(c) && Coherent(c, latest)
    ensures Valid(GetKey(c, k).0) && Coherent(GetKey(c, k).0, latest)
  {
    hide Valid, Coherent, PutMemory, DiskTier.Get, TouchBlock;
    if k in c.blocks {
      TouchCoherent(c, k, latest);
    } else if c.disk.Some? {
      var (d', r) := DiskTier.Get(c.disk.value, k);
      DiskReadCoherent(c, k, latest);
      if r.Some? {
        PutMemoryCoherent(c.(disk := Some(d')), k, r.value, latest);
        assert latest[k := r.value] == latest;
      }
    }
  }

  lemma InvalidateCoherent(c: Cache, inode: nat, latest: map<BlockKey, Bytes>)
    requires Valid(c) && Coherent(c, latest)
    ensures Valid(Invalidate(c, inode))
    ensures Coherent(Invalidate(c, inode), map k | k in latest && k.inode != inode :: latest[k])
  {
    hide StampsOk, Resident, DiskTier.StampsOk, DiskTier.SizesOk;
    InvalidateKeeps(c, inode);
    var c' := Invalidate(c, inode);
    if c.disk.Some? { DiskTier.InvalidateKeeps(c.disk.value, inode); }
    var latest' := map k | k in latest && k.inode != inode :: latest[k];
    forall j ensures HeldIsLatest(c', latest', j) {
      assert HeldIsLatest(c, latest, j);
      if c.disk.Some? && j in c'.disk.value.entries {
        assert DiskTier.Agrees(c.disk.value, c'.disk.value, j);
      }
    }
  }

  /** No block of the range has an entry on disk. */
  ghost predicate RangeOffDisk(c: Cache, inode: nat, offset: nat, len: nat)
    requires c.blockSize > 0
  {
    c.disk.Some? ==> c.disk.value.entries.Keys !! RangeKeys(inode, offset, len, c.blockSize)
  }

  /** `invalidate_range` skips the disk tier, so it keeps the cache coherent exactly when no block of
      the range is on disk. */
  lemma InvalidateRangeCoherentIff(c: Cache, inode: nat, offset: nat, len: nat, latest: map<BlockKey, Bytes>)
    requires Valid(c) && Coherent(c, latest)
    ensures Valid(InvalidateRange(c, inode, offset, len))
    ensures Coherent(InvalidateRange(c, inode, offset, len),
                     latest - RangeKeys(inode, offset, len, c.blockSize))
            <==> RangeOffDisk(c, inode, offset, len)
  {
    var ks := RangeKeys(inode, offset, len, c.blockSize);
    RemoveKeeps(c, ks);
    var c' := InvalidateRange(c, inode, offset, len);
    if RangeOffDisk(c, inode, offset, len) {
      forall j ensures HeldIsLatest(c', latest - ks, j) {
        assert HeldIsLatest(c, latest, j);
      }
    } else {
      var k :| k in c.disk.value.entries && k in ks;
      assert !HeldIsLatest(c', latest - ks, k);
    }
  }

  /** After `invalidate_range`, a block of the range is served again exactly when disk has it. */
  lemma RangeStillServedIff(c: Cache, inode: nat, offset: nat, len: nat, k: BlockKey)
    requires Valid(c) && k in RangeKeys(inode, offset, len, c.blockSize)
    ensures GetKey(InvalidateRange(c, inode, offset, len), k).1.Some?
            <==> c.disk.Some? && k in c.disk.value.entries
  {
    RemoveKeeps(c, RangeKeys(inode, offset, len, c.blockSize));
    GetAnswersHeld(InvalidateRange(c, inode, offset, len), k);
  }

  /** Every range invalidation of the run is issued when its blocks are not on disk; this holds of
      every run without a disk tier. */
  ghost predicate RangesOffDisk(c: Cache, ops: seq<Op>)
    requires c.blockSize > 0
  {
    forall n :: 0 <= n < |ops| && ops[n].OpInvalidateRange? ==>
      RangeOffDisk(Exec(c, ops[..n]), ops[n].inode, ops[n].offset, ops[n].len)
  }

  lemma StepCoherent(c: Cache, op: Op, latest: map<BlockKey, Bytes>)
    requires Valid(c) && Coherent(c, latest)
    requires op.OpInvalidateRange? ==> RangeOffDisk(c, op.inode, op.offset, op.len)
    ensures Valid(Step(c, op)) && Coherent(Step(c, op), LatestStep(latest, op, c.blockSize))
  {
    match op
    case OpGet(i, o) => GetCoherent(c, KeyFor(i, o, c.blockSize), latest);
    case OpPut(i, o, data) => PutMemoryCoherent(c, KeyFor(i, o, c.blockSize), data, latest);
    case OpInvalidate(i) => InvalidateCoherent(c, i, latest);
    case OpInvalidateRange(i, o, len) => InvalidateRangeCoherentIff(c, i, o, len, latest);
    case OpClear =>
      ClearKeeps(c);
      if c.disk.Some? { DiskTier.ClearKeeps(c.disk.value); }
      forall j ensures HeldIsLatest(Clear(c), map[], j) {}
  }

  ghost predicate Fresh(c: Cache) {
    && c.blockSize > 0
    && c.blocks == map[]
    && (c.disk.Some? ==> DiskTier.Valid(c.disk.value) && c.disk.value.entries == map[])
  }

  lemma FreshValid(c: Cache)
    requires Fresh(c)
    ensures Valid(c) && Coherent(c, map[])
  {
  }

  lemma {:induction false} RunCoherent(c: Cache, ops: seq<Op>)
    requires Fresh(c) && RangesOffDisk(c, ops)
    ensures Valid(Exec(c, ops)) && Coherent(Exec(c, ops), Latest(ops, c.blockSize))
  {
    if ops == [] {
      FreshValid(c);
    } else {
      var n := |ops| - 1;
      var front := ops[..n];
      assert forall m :: 0 <= m < n ==> front[m] == ops[m] && front[..m] == ops[..m];
      RunCoherent(c, front);
      StepCoherent(Exec(c, front), ops[n], Latest(front, c.blockSize));
    }
  }

  /** Two-tier coherence: after any run, a lookup returns nothing or the bytes of the latest put to
      that aligned key, whatever was evicted, refused or promoted in between. */
  lemma TwoTierCoherence(c: Cache, ops: seq<Op>, inode: nat, offset: nat)
    requires Fresh(c) && RangesOffDisk(c, ops)
    ensures var r := Get(Exec(c, ops), inode, offset).1;
            var k := KeyFor(inode, offset, c.blockSize);
            r.Some? ==> k in Latest(ops, c.blockSize) && r.value == Latest(ops, c.blockSize)[k]
  {
    RunCoherent(c, ops);
    var k := KeyFor(inode, offset, c.blockSize);
    GetAnswersHeld(Exec(c, ops), k);
    assert HeldIsLatest(Exec(c, ops), Latest(ops, c.blockSize), k);
  }

  /** A put is visible at once, at every offset of its block. */
  lemma PutThenGet(c: Cache, inode: nat, offset: nat, data: Bytes, at: nat)
    requires Valid(c)
    requires Align(at, c.blockSize) == Align(offset, c.blockSize)
    ensures var c' := Put(c, inode, offset, data);
            c'.blockSize == c.blockSize && Get(c', inode, at).1 == Some(data)
  {
    ShrinkKeeps(c, |data|);
  }

  /** A block evicted from memory is served from disk if and only if there is a disk tier that accepts it:
      the block alone is within the limit, and the tier is not empty with a counter that leaves no room. */
  lemma EvictedStillServedIff(c: Cache, k: BlockKey)
    requires Valid(c) && k in c.blocks
    ensures Valid(Evict(c, k))
    ensures var data, r := c.blocks[k].data, GetKey(Evict(c, k), k).1;
            && (r == Some(data) || r == None)
            && (r.Some? <==> c.disk.Some? && k in DiskTier.Put(c.disk.value, k, data).entries)
  {
    EvictKeeps(c, k);
    GetAnswersHeld(Evict(c, k), k);
    if c.disk.Some? { DiskTier.PutKeeps(c.disk.value, k, c.blocks[k].data); }
  }

  /** A block found, wherever it was, is in memory afterwards with the bytes answered. */
  lemma FoundIsPromoted(c: Cache, k: BlockKey)
    requires Valid(c)
    ensures var (c', r) := GetKey(c, k);
            r.Some? ==> k in c'.blocks && c'.blocks[k].data == r.value
  {
  }

  /** A run on which `invalidate_range` lets a stale block back in: the block was evicted to disk, the
      range invalidation leaves it there, and the next lookup serves bytes no longer current. */
  lemma StaleAfterRangeInvalidation()
    ensures var disk := DiskTier.Disk(map[], map[], 0, 0, 10);
            var c := New(1, 1, Some(disk));
            var ops := [OpPut(1, 0, [7]), OpPut(1, 1, [8]), OpInvalidateRange(1, 0, 1)];
            && Fresh(c)
            && Get(Exec(c, ops), 1, 0).1 == Some([7])
            && KeyFor(1, 0, 1) !in Latest(ops, 1)
  {
    var disk := DiskTier.Disk(map[], map[], 0, 0, 10);
    var c := New(1, 1, Some(disk));
    assert DiskTier.Sizes(disk) == map[];
    var put1, put2, inv := OpPut(1, 0, [7]), OpPut(1, 1, [8]), OpInvalidateRange(1, 0, 1);
    ExecSnoc(c, [], put1);
    ExecSnoc(c, [put1], put2);
    ExecSnoc(c, [put1, put2], inv);
    assert [] + [put1] == [put1] && [put1] + [put2] == [put1, put2];
    assert [put1, put2] + [inv] == [put1, put2, inv];
    SecondPutSpills(disk);
    BlockKeyInRange();
  }

  /** The second block does not fit beside the first, which goes to disk. */
  lemma SecondPutSpills(disk: DiskTier.Disk)
    requires disk == DiskTier.Disk(map[], map[], 0, 0, 10)
    ensures var c2 := Put(Put(New(1, 1, Some(disk)), 1, 0, [7]), 1, 1, [8]);
            BlockKey(1, 0) !in c2.blocks && c2.disk == Some(DiskTier.Store(disk, BlockKey(1, 0), [7]))
  {
    var k, c := BlockKey(1, 0), New(1, 1, Some(disk));
    var c1 := Put(c, 1, 0, [7]);
    assert c1.blocks == map[k := Block([7], 0)] && c1.usage == 1 && c1.disk == c.disk;
    assert k in c1.blocks && OldestBlock(c1) == k;
    var evicted := Evict(c1, k);
    assert evicted.blocks == map[] && evicted.usage == 0;
    assert evicted.disk.value == DiskTier.Store(disk, k, [7]);
    assert Shrink(c1, 1) == evicted;
  }

  lemma BlockKeyInRange()
    ensures BlockKey(1, 0) in RangeKeys(1, 0, 1, 1)
  {
    assert 0 / 1 <= 0 < (0 + 1 + 1 - 1) / 1;
    assert BlockKey(1, 0 * 1) == BlockKey(1, 0);
  }

  lemma ExecSnoc(c: Cache, ops: seq<Op>, op: Op)
    requires c.blockSize > 0
    ensures Exec(c, ops + [op]) == Step(Exec(c, ops), op)
    ensures Latest(ops + [op], c.blockSize) == LatestStep(Latest(ops, c.blockSize), op, c.blockSize)
  {
  }
}
