/** The disk tier refines a list of blocks as well: a put drops exactly the shortest oldest-first prefix
    that makes room, where the stale counter decides whether any block goes and the recount how many. */
module DiskEviction {
  import opened Base
  import opened FileNames
  import opened Lru
  import opened Totals
  import opened DiskTier

  /** The blocks on disk, least recently used first. */
  ghost function Order(d: Disk): seq<BlockKey> { Recency(Stamps(d)) }

  function FrontSet(order: seq<BlockKey>, n: nat): set<BlockKey>
    requires n <= |order|
  {
    set k | k in order[..n]
  }

  /** There is room once the `n` oldest blocks are gone: by the counter as it stands for none, by the sizes
      of the blocks left for any. */
  ghost predicate RoomAfter(d: Disk, n: nat, size: nat)
    requires n <= |Order(d)|
  {
    if n == 0 then Fits(d, size) else Total(Sizes(d) - FrontSet(Order(d), n)) + size <= d.sizeLimit
  }

  /** `n` is the least number of oldest blocks whose removal makes room, or all of them. */
  ghost predicate ShortestPrefix(d: Disk, n: nat, size: nat) {
    && n <= |Order(d)|
    && (RoomAfter(d, n, size) || n == |Order(d)|)
    && forall m :: 0 <= m < n ==> !RoomAfter(d, m, size)
  }

  /** Evicting drops the head of the order. */
  lemma EvictPopsFront(d: Disk)
    requires Valid(d) && d.entries != map[]
    ensures Order(d) != [] && Order(d)[0] in d.entries
    ensures var k, d' := Order(d)[0], EvictAndRecount(d);
            && d'.entries == d.entries - {k} && Order(d') == Order(d)[1..]
            && Sizes(d') == Sizes(d) - {k} && d'.currentSize == Total(Sizes(d')) && d'.sizeLimit == d.sizeLimit
  {
    hide Valid;
    OldestKey(d);
    var k, d' := Oldest(Stamps(d)), EvictAndRecount(d);
    assert Stamps(d') == Stamps(d) - {k};
    assert Sizes(d') == Sizes(d) - {k};
  }

  lemma FrontShift(order: seq<BlockKey>, m: nat)
    requires m < |order|
    ensures FrontSet(order, m + 1) == {order[0]} + FrontSet(order[1..], m)
  {
    assert order[..m + 1] == [order[0]] + order[1..][..m];
  }

  lemma RemoveTogether<V>(entries: map<BlockKey, V>, k: BlockKey, ks: set<BlockKey>)
    ensures entries - {k} - ks == entries - ({k} + ks)
  {
  }

  /** What makes room after the first eviction makes room before it, one block further on. */
  lemma RoomShifts(d: Disk, m: nat, size: nat)
    requires Valid(d) && d.entries != map[] && m < |Order(d)|
    ensures var d' := EvictAndRecount(d);
            m <= |Order(d')| && (RoomAfter(d', m, size) <==> RoomAfter(d, m + 1, size))
  {
    EvictPopsFront(d);
    hide Valid, EvictAndRecount, Order, Sizes, FrontSet;
    var order, d' := Order(d), EvictAndRecount(d);
    FrontShift(order, m);
    RemoveTogether(Sizes(d), order[0], FrontSet(order[1..], m));
    if m == 0 { NoneRemoved(Sizes(d'), order[1..]); }
  }

  lemma NoneRemoved<V>(entries: map<BlockKey, V>, order: seq<BlockKey>)
    ensures entries - FrontSet(order, 0) == entries
  {
  }

  /** The eviction loop drops exactly that prefix. */
  lemma {:induction false} MakeRoomDropsShortestPrefix(d: Disk, size: nat) returns (n: nat)
    requires Valid(d)
    ensures ShortestPrefix(d, n, size)
    ensures MakeRoom(d, size).entries == d.entries - FrontSet(Order(d), n)
    ensures Order(MakeRoom(d, size)) == Order(d)[n..]
    ensures Fits(MakeRoom(d, size), size) <==> RoomAfter(d, n, size)
    decreases d.entries.Keys
  {
    hide Valid, EvictAndRecount, Order, FrontSet, RoomAfter;
    if Fits(d, size) || d.entries == map[] {
      n := 0;
      NothingDropped(d, size);
    } else {
      EvictPopsFront(d);
      EvictKeeps(d);
      var order, d' := Order(d), EvictAndRecount(d);
      var n' := MakeRoomDropsShortestPrefix(d', size);
      n := n' + 1;
      RoomShifts(d, n', size);
      forall m | 0 <= m < n ensures !RoomAfter(d, m, size) {
        if m == 0 { NothingDropped(d, size); } else { RoomShifts(d, m - 1, size); }
      }
      FrontShift(order, n');
      RemoveTogether(d.entries, order[0], FrontSet(order[1..], n'));
      assert order[1..][n'..] == order[n..];
    }
  }

  lemma NothingDropped(d: Disk, size: nat)
    ensures RoomAfter(d, 0, size) <==> Fits(d, size)
    ensures d.entries - FrontSet(Order(d), 0) == d.entries && Order(d)[0..] == Order(d)
    ensures d.entries == map[] ==> Order(d) == []
  {
    hide Sizes, Recency;
    NoneRemoved(d.entries, Order(d));
    if d.entries == map[] { NoOrder(d); }
  }

  lemma NoOrder(d: Disk)
    ensures d.entries == map[] <==> Order(d) == []
  {
    if d.entries == map[] {
      assert Stamps(d) == map[];
    } else {
      OldestKey(d);
    }
  }

  /** One disk put: the shortest oldest-first prefix that makes room goes, the others keep their order, and
      the new block follows them; if not even dropping everything makes room, the tier is left empty. */
  lemma PutDropsShortestPrefix(d: Disk, k: BlockKey, data: Bytes) returns (n: nat)
    requires Valid(d)
    ensures ShortestPrefix(d, n, |data|)
    ensures Order(Put(d, k, data))
         == if RoomAfter(d, n, |data|) then Without(Order(d)[n..], {k}) + [k] else []
  {
    hide Valid, MakeRoom, Order, ShortestPrefix, RoomAfter, Store;
    n := MakeRoomDropsShortestPrefix(d, |data|);
    MakeRoomKeeps(d, |data|);
    var r := MakeRoom(d, |data|);
    if Fits(r, |data|) { StoreAppends(r, k, data); } else { NoOrder(r); }
  }

  lemma StoreAppends(d: Disk, k: BlockKey, data: Bytes)
    requires Valid(d)
    ensures Order(Store(d, k, data)) == Without(Order(d), {k}) + [k]
  {
    assert Stamps(Store(d, k, data)) == Stamps(d)[k := d.now];
    hide Recency, Without;
    RecencyTouch(Stamps(d), k, d.now);
  }

  /** A disk hit moves its block to the back of the order; a miss changes nothing. */
  lemma HitMovesToBack(d: Disk, k: BlockKey)
    requires Valid(d)
    ensures var (d', r) := Get(d, k);
            && (r.Some? <==> k in d.entries)
            && (r.Some? ==> Order(d') == Without(Order(d), {k}) + [k])
            && (r.None? ==> d' == d)
  {
    hide Order, Without;
    if k in d.entries {
      TouchMovesToBack(d, k);
      assert EntryOk(d, k);
    }
  }

  lemma TouchMovesToBack(d: Disk, k: BlockKey)
    requires StampsOk(d) && k in d.entries
    ensures Order(Touch(d, k)) == Without(Order(d), {k}) + [k]
  {
    assert Stamps(Touch(d, k)) == Stamps(d)[k := d.now];
    hide Recency, Without;
    RecencyTouch(Stamps(d), k, d.now);
  }

  /** Clearing removes every entry with its file, keeps all other files, and resets the counter: afterwards a
      block is accepted exactly when it alone is within the limit. */
  lemma ClearStartsOver(d: Disk, k: BlockKey, data: Bytes)
    requires Valid(d)
    ensures var d' := Clear(d);
            && Order(d') == [] && d'.currentSize == 0
            && (forall f :: f in d'.files <==> f in d.files && forall j :: j in d.entries ==> FileName(j) != f)
            && (forall f :: f in d'.files ==> d'.files[f] == d.files[f])
            && (k in Put(d', k, data).entries <==> |data| <= d.sizeLimit)
  {
    NoOrder(Clear(d));
    ClearKeeps(d);
    forall f ensures f in Clear(d).files <==> f in d.files && forall j :: j in d.entries ==> FileName(j) != f {
      assert forall j :: j in d.entries ==> EntryOk(d, j);
    }
  }
}
