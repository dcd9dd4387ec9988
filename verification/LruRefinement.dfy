/** The timestamped memory map refines a plain list of blocks, least recently used first: lookups and
    puts move a block to the back, eviction pops the front. No stamps and no minimum search. */
module LruRefinement {
  import opened Base
  import opened FileNames
  import opened Lru
  import opened Totals
  import opened BlockCache
  import opened CacheRuns
  import DiskTier

  datatype Entry = Entry(key: BlockKey, data: Bytes)

  /** The reference cache: the same disk tier and counter, the memory tier as a list. */
  datatype ListCache = ListCache(
    list: seq<Entry>, usage: nat, disk: Option<DiskTier.Disk>, blockSize: nat, limit: nat)

  function BytesIn(list: seq<Entry>): nat {
    if list == [] then 0 else |list[0].data| + BytesIn(list[1..])
  }

  function ListWithout(list: seq<Entry>, ks: set<BlockKey>): seq<Entry> {
    if list == [] then [] else
      (if list[0].key in ks then [] else [list[0]]) + ListWithout(list[1..], ks)
  }

  function Find(list: seq<Entry>, k: BlockKey): Option<Bytes> {
    if list == [] then None
    else if list[0].key == k then Some(list[0].data)
    else Find(list[1..], k)
  }

  ghost predicate ListFits(l: ListCache, size: nat) { l.usage + size <= l.limit }

  /** Pop the front until the block fits. */
  ghost function ListShrink(l: ListCache, size: nat): ListCache
    decreases |l.list|
  {
    if ListFits(l, size) || l.list == [] then l else
      var front := l.list[0];
      ListShrink(l.(list := l.list[1..],
                    usage := SatSub(l.usage, |front.data|),
                    disk := Spill(l.disk, front.key, front.data)), size)
  }

  ghost function ListPut(l: ListCache, k: BlockKey, data: Bytes): ListCache {
    var room := ListShrink(l, |data|);
    room.(list := ListWithout(room.list, {k}) + [Entry(k, data)], usage := room.usage + |data|)
  }

  ghost function ListGet(l: ListCache, k: BlockKey): (ListCache, Option<Bytes>) {
    var hit := Find(l.list, k);
    if hit.Some? then (l.(list := ListWithout(l.list, {k}) + [Entry(k, hit.value)]), hit)
    else if l.disk.None? then (l, None)
    else
      var (d, r) := DiskTier.Get(l.disk.value, k);
      var l' := l.(disk := Some(d));
      if r.None? then (l', None) else (ListPut(l', k, r.value), r)
  }

  ghost function ListRemove(l: ListCache, ks: set<BlockKey>): ListCache {
    var rest := ListWithout(l.list, ks);
    l.(list := rest, usage := SatSub(l.usage, SatSub(BytesIn(l.list), BytesIn(rest))))
  }

  ghost function ListStep(l: ListCache, op: Op): ListCache
    requires l.blockSize > 0
  {
    match op
    case OpGet(i, o) => ListGet(l, KeyFor(i, o, l.blockSize)).0
    case OpPut(i, o, data) => ListPut(l, KeyFor(i, o, l.blockSize), data)
    case OpInvalidate(i) =>
      ListRemove(l, set e | e in l.list && e.key.inode == i :: e.key).(
        disk := if l.disk.Some? then Some(DiskTier.Invalidate(l.disk.value, i)) else None)
    case OpInvalidateRange(i, o, len) => ListRemove(l, RangeKeys(i, o, len, l.blockSize))
    case OpClear =>
      l.(list := [], usage := 0, disk := if l.disk.Some? then Some(DiskTier.Clear(l.disk.value)) else None)
  }

  // ---------------------------------------------------------------- abstraction

  ghost function Entries(r: seq<BlockKey>, blocks: map<BlockKey, Block>): seq<Entry>
    requires forall k :: k in r ==> k in blocks
  {
    if r == [] then [] else [Entry(r[0], blocks[r[0]].data)] + Entries(r[1..], blocks)
  }

  lemma RecencyKeys(c: Cache)
    requires StampsOk(c)
    ensures forall k :: k in Recency(Stamps(c)) <==> k in c.blocks
    ensures IsRecency(Recency(Stamps(c)), Stamps(c))
  {
    RecencyOrders(Stamps(c));
    RecencyNames(Recency(Stamps(c)), Stamps(c));
  }

  /** The memory tier, oldest block first. */
  ghost function Listed(c: Cache): seq<Entry>
    requires StampsOk(c)
  {
    RecencyKeys(c);
    Entries(Recency(Stamps(c)), c.blocks)
  }

  ghost function Abs(c: Cache): ListCache
    requires StampsOk(c)
  {
    ListCache(Listed(c), c.usage, c.disk, c.blockSize, c.limit)
  }

  // ---------------------------------------------------------------- lists and recency orders

  lemma {:induction false} EntriesSame(r: seq<BlockKey>, a: map<BlockKey, Block>, b: map<BlockKey, Block>)
    requires forall k :: k in r ==> k in a && k in b && a[k].data == b[k].data
    ensures Entries(r, a) == Entries(r, b)
  {
    if r != [] { EntriesSame(r[1..], a, b); }
  }

  lemma {:induction false} EntriesAppend(r: seq<BlockKey>, k: BlockKey, blocks: map<BlockKey, Block>)
    requires k in blocks && forall j :: j in r ==> j in blocks
    ensures forall j :: j in r + [k] ==> j in blocks
    ensures Entries(r + [k], blocks) == Entries(r, blocks) + [Entry(k, blocks[k].data)]
  {
    if r == [] {
      assert r + [k] == [k];
    } else {
      assert (r + [k])[1..] == r[1..] + [k];
      EntriesAppend(r[1..], k, blocks);
    }
  }

  lemma {:induction false} EntriesWithout(r: seq<BlockKey>, ks: set<BlockKey>, blocks: map<BlockKey, Block>)
    requires forall k :: k in r ==> k in blocks
    ensures Entries(Without(r, ks), blocks) == ListWithout(Entries(r, blocks), ks)
  {
    if r != [] {
      EntriesWithout(r[1..], ks, blocks);
      assert Entries(r, blocks)[1..] == Entries(r[1..], blocks);
      if r[0] !in ks {
        assert ([r[0]] + Without(r[1..], ks))[1..] == Without(r[1..], ks);
      }
    }
  }

  lemma {:induction false} EntriesFind(r: seq<BlockKey>, k: BlockKey, blocks: map<BlockKey, Block>)
    requires forall j :: j in r ==> j in blocks
    ensures Find(Entries(r, blocks), k) == if k in r then Some(blocks[k].data) else None
  {
    if r != [] {
      EntriesFind(r[1..], k, blocks);
      assert Entries(r, blocks)[1..] == Entries(r[1..], blocks);
      assert k in r <==> k == r[0] || k in r[1..];
    }
  }

  lemma {:induction false} EntriesKeys(r: seq<BlockKey>, blocks: map<BlockKey, Block>, k: BlockKey)
    requires forall j :: j in r ==> j in blocks
    ensures k in r <==> exists e :: e in Entries(r, blocks) && e.key == k
  {
    if r != [] {
      EntriesKeys(r[1..], blocks, k);
      var es := Entries(r, blocks);
      assert es == [es[0]] + Entries(r[1..], blocks);
      assert k in r <==> k == r[0] || k in r[1..];
      if k == r[0] { assert es[0] in es && es[0].key == k; }
      assert forall e :: e in Entries(r[1..], blocks) ==> e in es;
      assert forall e :: e in es ==> e == es[0] || e in Entries(r[1..], blocks);
    }
  }

  lemma {:induction false} EntriesBytes(
    r: seq<BlockKey>, t: map<BlockKey, nat>, blocks: map<BlockKey, Block>, sizes: map<BlockKey, nat>)
    requires IsRecency(r, t) && t.Keys == sizes.Keys
    requires forall k :: k in r ==> k in blocks && k in sizes && sizes[k] == |blocks[k].data|
    ensures BytesIn(Entries(r, blocks)) == Total(sizes)
    decreases |r|
  {
    if r == [] {
      assert sizes == map[];
    } else {
      RecencyNames(r[1..], t - {r[0]});
      EntriesBytes(r[1..], t - {r[0]}, blocks, sizes - {r[0]});
      TotalRemove(sizes, r[0]);
      assert Entries(r, blocks)[1..] == Entries(r[1..], blocks);
    }
  }

  /** The bytes on the list are the bytes in the map. */
  lemma ListedBytes(c: Cache)
    requires StampsOk(c)
    ensures BytesIn(Listed(c)) == Resident(c)
  {
    RecencyKeys(c);
    assert Stamps(c).Keys == Sizes(c).Keys;
    EntriesBytes(Recency(Stamps(c)), Stamps(c), c.blocks, Sizes(c));
  }

  /** A stamp at the current time puts the block at the back of the list. */
  lemma StampToBack(c: Cache, c': Cache, k: BlockKey, data: Bytes)
    requires StampsOk(c)
    requires c'.blocks == c.blocks[k := Block(data, c.now)] && c'.now == c.now + 1
    ensures StampsOk(c')
    ensures Listed(c') == ListWithout(Listed(c), {k}) + [Entry(k, data)]
  {
    hide Recency, IsRecency;
    var r := Recency(Stamps(c));
    RecencyKeys(c);
    assert Stamps(c') == Stamps(c)[k := c.now];
    RecencyTouch(Stamps(c), k, c.now);
    var front := Without(r, {k});
    EntriesAppend(front, k, c'.blocks);
    EntriesSame(front, c'.blocks, c.blocks);
    EntriesWithout(r, {k}, c.blocks);
  }

  lemma RemoveFromList(c: Cache, ks: set<BlockKey>)
    requires Valid(c)
    ensures StampsOk(Remove(c, ks)) && Abs(Remove(c, ks)) == ListRemove(Abs(c), ks)
  {
    var c' := Remove(c, ks);
    RemoveStamps(c, ks);
    RemoveSizes(c, ks);
    ListedBytes(c);
    ListedBytes(c');
    RemoveListed(c, ks);
  }

  lemma RemoveListed(c: Cache, ks: set<BlockKey>)
    requires StampsOk(c)
    ensures StampsOk(Remove(c, ks)) && Listed(Remove(c, ks)) == ListWithout(Listed(c), ks)
  {
    var c' := Remove(c, ks);
    RemoveStamps(c, ks);
    RecencyKeys(c);
    RecencyKeys(c');
    RecencyRemove(Stamps(c), ks);
    var r := Recency(Stamps(c));
    EntriesSame(Without(r, ks), c'.blocks, c.blocks);
    EntriesWithout(r, ks, c.blocks);
  }

  /** Evicting the block with the smallest stamp pops the front of the list. */
  lemma EvictPopsFront(c: Cache)
    requires Valid(c) && c.blocks != map[]
    ensures var k := OldestBlock(c);
            && StampsOk(Evict(c, k))
            && Listed(c) != []
            && Listed(c)[0] == Entry(k, c.blocks[k].data)
            && Listed(Evict(c, k)) == Listed(c)[1..]
  {
    var k := OldestBlock(c);
    OldestKey(c);
    EvictKeeps(c, k);
    var c' := Evict(c, k);
    assert Stamps(c') == Stamps(c) - {k};
    RecencyKeys(c);
    RecencyKeys(c');
    EntriesSame(Recency(Stamps(c')), c'.blocks, c.blocks);
    assert Recency(Stamps(c)) == [k] + Recency(Stamps(c'));
  }

  lemma {:induction false} ShrinkPopsFronts(c: Cache, size: nat)
    requires Valid(c)
    ensures StampsOk(Shrink(c, size)) && Abs(Shrink(c, size)) == ListShrink(Abs(c), size)
    decreases c.blocks.Keys
  {
    if c.blocks == map[] {
      assert Stamps(c) == map[];
    } else {
      EvictPopsFront(c);
      if !Fits(c, size) {
        var k := OldestBlock(c);
        EvictKeeps(c, k);
        ShrinkPopsFronts(Evict(c, k), size);
      }
    }
  }

  lemma PutRefines(c: Cache, k: BlockKey, data: Bytes)
    requires Valid(c)
    ensures StampsOk(PutMemory(c, k, data)) && Abs(PutMemory(c, k, data)) == ListPut(Abs(c), k, data)
  {
    ShrinkPopsFronts(c, |data|);
    var c1 := Shrink(c, |data|);
    StampToBack(c1, PutMemory(c, k, data), k, data);
  }

  lemma GetRefines(c: Cache, k: BlockKey)
    requires Valid(c)
    ensures StampsOk(GetKey(c, k).0)
    ensures Abs(GetKey(c, k).0) == ListGet(Abs(c), k).0
    ensures GetKey(c, k).1 == ListGet(Abs(c), k).1
  {
    RecencyKeys(c);
    EntriesFind(Recency(Stamps(c)), k, c.blocks);
    if k in c.blocks {
      StampToBack(c, TouchBlock(c, k), k, c.blocks[k].data);
    } else if c.disk.Some? {
      DiskTier.GetKeeps(c.disk.value, k);
      var (d, r) := DiskTier.Get(c.disk.value, k);
      var c1 := c.(disk := Some(d));
      WithDisk(c, d);
      assert Stamps(c1) == Stamps(c);
      if r.Some? { PutRefines(c1, k, r.value); }
    }
  }

  lemma InvalidateRefines(c: Cache, inode: nat)
    requires Valid(c)
    ensures StampsOk(Invalidate(c, inode))
    ensures c.blockSize > 0 && Abs(Invalidate(c, inode)) == ListStep(Abs(c), OpInvalidate(inode))
  {
    hide Recency, IsRecency, ListWithout;
    RecencyKeys(c);
    var r := Recency(Stamps(c));
    var named := set e | e in Listed(c) && e.key.inode == inode :: e.key;
    forall k ensures k in named <==> k in KeysOf(c, inode) {
      EntriesKeys(r, c.blocks, k);
    }
    assert named == KeysOf(c, inode);
    RemoveFromList(c, named);
    assert Stamps(Invalidate(c, inode)) == Stamps(Remove(c, named));
  }

  /** Every step of the timestamped cache is the same step of the list cache. */
  lemma StepRefines(c: Cache, op: Op)
    requires Valid(c)
    ensures StampsOk(Step(c, op)) && Abs(Step(c, op)) == ListStep(Abs(c), op)
  {
    match op
    case OpGet(i, o) => GetRefines(c, KeyFor(i, o, c.blockSize));
    case OpPut(i, o, data) => PutRefines(c, KeyFor(i, o, c.blockSize), data);
    case OpInvalidate(i) => InvalidateRefines(c, i);
    case OpInvalidateRange(i, o, len) => RemoveFromList(c, RangeKeys(i, o, len, c.blockSize));
    case OpClear => assert Stamps(Clear(c)) == map[];
  }

  ghost function ListExec(l: ListCache, ops: seq<Op>): ListCache
    requires l.blockSize > 0
    ensures ListExec(l, ops).blockSize == l.blockSize
  {
    if ops == [] then l else
      var before := ListExec(l, ops[..|ops| - 1]);
      ListStepConfig(before, ops[|ops| - 1]);
      ListStep(before, ops[|ops| - 1])
  }

  lemma {:induction false} ListShrinkConfig(l: ListCache, size: nat)
    ensures ListShrink(l, size).blockSize == l.blockSize
    decreases |l.list|
  {
    if !(ListFits(l, size) || l.list == []) {
      var front := l.list[0];
      ListShrinkConfig(l.(list := l.list[1..], usage := SatSub(l.usage, |front.data|),
                          disk := Spill(l.disk, front.key, front.data)), size);
    }
  }

  lemma ListStepConfig(l: ListCache, op: Op)
    requires l.blockSize > 0
    ensures ListStep(l, op).blockSize == l.blockSize
  {
    match op
    case OpGet(i, o) =>
      var k := KeyFor(i, o, l.blockSize);
      if Find(l.list, k).None? && l.disk.Some? {
        var (d, r) := DiskTier.Get(l.disk.value, k);
        if r.Some? { ListShrinkConfig(l.(disk := Some(d)), |r.value|); }
      }
    case OpPut(i, o, data) => ListShrinkConfig(l, |data|);
    case OpInvalidate(i) =>
    case OpInvalidateRange(i, o, len) =>
    case OpClear =>
  }

  /** Over every run the timestamped cache and the list cache stay in step, and every lookup gets the
      same answer from both. */
  lemma {:induction false} RunRefines(c: Cache, ops: seq<Op>, inode: nat, offset: nat)
    requires Valid(c)
    ensures Valid(Exec(c, ops))
    ensures Abs(Exec(c, ops)) == ListExec(Abs(c), ops)
    ensures Get(Exec(c, ops), inode, offset).1
         == ListGet(ListExec(Abs(c), ops), KeyFor(inode, offset, c.blockSize)).1
  {
    RunKeepsValid(c, ops);
    if ops != [] {
      var front := ops[..|ops| - 1];
      RunRefines(c, front, inode, offset);
      StepRefines(Exec(c, front), ops[|ops| - 1]);
    }
    GetRefines(Exec(c, ops), KeyFor(inode, offset, c.blockSize));
  }

  // ---------------------------------------------------------------- how much one put evicts

  ghost predicate FitsAfter(l: ListCache, n: nat, size: nat)
    requires n <= |l.list|
  {
    SatSub(l.usage, BytesIn(l.list[..n])) + size <= l.limit
  }

  /** `n` is the least number of front blocks whose removal makes room, or all of them. */
  ghost predicate ShortestPrefix(l: ListCache, n: nat, size: nat) {
    && n <= |l.list|
    && (n == |l.list| || FitsAfter(l, n, size))
    && (forall m: nat :: m < n ==> !FitsAfter(l, m, size))
  }

  lemma {:induction false} ShrinkDropsShortestPrefix(l: ListCache, size: nat) returns (n: nat)
    requires BytesIn(l.list) <= l.usage
    ensures ShortestPrefix(l, n, size)
    ensures ListShrink(l, size).list == l.list[n..]
    ensures ListShrink(l, size).usage == l.usage - BytesIn(l.list[..n]) >= 0
    decreases |l.list|
  {
    if ListFits(l, size) || l.list == [] {
      n := 0;
    } else {
      var front := l.list[0];
      var rest := l.(list := l.list[1..], usage := SatSub(l.usage, |front.data|),
                     disk := Spill(l.disk, front.key, front.data));
      var m := ShrinkDropsShortestPrefix(rest, size);
      n := m + 1;
      forall i: nat | i <= m
        ensures BytesIn(l.list[..i + 1]) == |front.data| + BytesIn(rest.list[..i])
        ensures FitsAfter(l, i + 1, size) <==> FitsAfter(rest, i, size)
      {
        assert l.list[..i + 1][1..] == rest.list[..i];
        PrefixBytes(rest.list, i);
      }
      forall i: nat | i < n ensures !FitsAfter(l, i, size) {
        if i > 0 { assert !FitsAfter(rest, i - 1, size); }
      }
    }
  }

  lemma {:induction false} PrefixBytes(list: seq<Entry>, n: nat)
    requires n <= |list|
    ensures BytesIn(list[..n]) + BytesIn(list[n..]) == BytesIn(list)
  {
    if n > 0 {
      PrefixBytes(list[1..], n - 1);
      assert list[..n][1..] == list[1..][..n - 1];
      assert list[1..][n - 1..] == list[n..];
    } else {
      assert list[0..] == list;
    }
  }

  /** One put evicts exactly the shortest oldest-first prefix that makes the counter fit, then moves
      the new block to the back; the counter rises by the new size and falls by the bytes evicted. */
  lemma PutEvictsShortestPrefix(c: Cache, k: BlockKey, data: Bytes) returns (n: nat)
    requires Valid(c)
    ensures ShortestPrefix(Abs(c), n, |data|)
    ensures StampsOk(PutMemory(c, k, data))
    ensures Listed(PutMemory(c, k, data)) == ListWithout(Listed(c)[n..], {k}) + [Entry(k, data)]
    ensures PutMemory(c, k, data).usage == c.usage - BytesIn(Listed(c)[..n]) + |data|
  {
    ListedBytes(c);
    PutRefines(c, k, data);
    n := ShrinkDropsShortestPrefix(Abs(c), |data|);
  }
}
