/** The disk tier of the block cache as a value: what each operation of the `DiskCache` class
    does to the entry table, the files and the size counter. */
module DiskTier {
  import opened Base
  import opened FileNames
  import opened Lru
  import opened Totals

  datatype DiskEntry = DiskEntry(path: string, size: nat, lastAccess: nat)

  /** `currentSize` is the counter the eviction loop trusts; it is not the sum of the entry sizes. */
  datatype Disk = Disk(
    entries: map<BlockKey, DiskEntry>,
    files: map<string, Bytes>,
    currentSize: nat,
    now: nat,
    sizeLimit: nat)

  ghost function Stamps(d: Disk): map<BlockKey, nat> {
    map k | k in d.entries :: d.entries[k].lastAccess
  }

  ghost function Sizes(d: Disk): map<BlockKey, nat> {
    map k | k in d.entries :: d.entries[k].size
  }

  ghost function StoredBytes(d: Disk): nat { Total(Sizes(d)) }

  ghost predicate EntryOk(d: Disk, k: BlockKey)
    requires k in d.entries
  {
    && d.entries[k].path == FileName(k)
    && d.entries[k].path in d.files
    && d.entries[k].size == |d.files[d.entries[k].path]|
  }

  ghost predicate FilesOk(d: Disk) {
    forall k :: k in d.entries ==> EntryOk(d, k)
  }

  ghost predicate StampsOk(d: Disk) {
    Distinct(Stamps(d)) && Before(Stamps(d), d.now)
  }

  ghost predicate SizesOk(d: Disk) {
    StoredBytes(d) <= d.currentSize && StoredBytes(d) <= d.sizeLimit
  }

  ghost predicate Valid(d: Disk) {
    FilesOk(d) && StampsOk(d) && SizesOk(d)
  }

  /** The bytes the disk tier would serve for `k`. */
  ghost function Content(d: Disk, k: BlockKey): Bytes
    requires FilesOk(d) && k in d.entries
  {
    assert EntryOk(d, k);
    d.files[d.entries[k].path]
  }

  /** `d'` serves for `k` what `d` serves. */
  ghost predicate Agrees(d: Disk, d': Disk, k: BlockKey)
    requires FilesOk(d) && FilesOk(d')
  {
    k in d.entries && k in d'.entries && Content(d', k) == Content(d, k)
  }

  /** Every entry of `d'` is an entry of `d` serving the same bytes. */
  ghost predicate Keeps(d: Disk, d': Disk)
    requires FilesOk(d) && FilesOk(d')
  {
    d'.sizeLimit == d.sizeLimit && forall k :: k in d'.entries ==> Agrees(d, d', k)
  }

  function Touch(d: Disk, k: BlockKey): Disk
    requires k in d.entries
  {
    d.(entries := d.entries[k := d.entries[k].(lastAccess := d.now)], now := d.now + 1)
  }

  function Get(d: Disk, k: BlockKey): (Disk, Option<Bytes>) {
    if k in d.entries then
      var path := d.entries[k].path;
      (Touch(d, k), if path in d.files then Some(d.files[path]) else None)
    else
      (d, None)
  }

  ghost function Drop(d: Disk, ks: set<BlockKey>): Disk {
    d.(entries := d.entries - ks,
       files := d.files - (set k | k in ks && k in d.entries :: d.entries[k].path))
  }

  /** One turn of the eviction loop: drop the oldest entry, then recount. */
  ghost function EvictAndRecount(d: Disk): Disk
    requires d.entries != map[]
  {
    OldestKey(d);
    var d' := Drop(d, {Oldest(Stamps(d))});
    d'.(currentSize := StoredBytes(d'))
  }

  lemma OldestKey(d: Disk)
    requires d.entries != map[]
    ensures Stamps(d) != map[] && Oldest(Stamps(d)) in d.entries
  {
  }

  ghost predicate Fits(d: Disk, size: nat) { d.currentSize + size <= d.sizeLimit }

  ghost function MakeRoom(d: Disk, size: nat): Disk
    decreases d.entries.Keys
  {
    if Fits(d, size) || d.entries == map[] then d
    else
      OldestKey(d);
      MakeRoom(EvictAndRecount(d), size)
  }

  function Store(d: Disk, k: BlockKey, data: Bytes): Disk {
    d.(entries := d.entries[k := DiskEntry(FileName(k), |data|, d.now)],
       files := d.files[FileName(k) := data],
       currentSize := d.currentSize + |data|,
       now := d.now + 1)
  }

  /** A put that cannot make room leaves the block out. */
  ghost function Put(d: Disk, k: BlockKey, data: Bytes): Disk {
    var room := MakeRoom(d, |data|);
    if Fits(room, |data|) then Store(room, k, data) else room
  }

  ghost function Invalidate(d: Disk, inode: nat): Disk {
    Drop(d, set k | k in d.entries && k.inode == inode)
  }

  ghost function Clear(d: Disk): Disk {
    Drop(d, d.entries.Keys).(currentSize := 0)
  }

  // ---------------------------------------------------------------- lemmas

  /** Dropping entries one at a time is dropping them together. */
  lemma DropMore(d: Disk, done: set<BlockKey>, k: BlockKey)
    requires k in d.entries && k !in done
    ensures k in Drop(d, done).entries
    ensures Drop(d, done + {k}) == d.(
      entries := Drop(d, done).entries - {k}, files := Drop(d, done).files - {d.entries[k].path})
  {
  }

  lemma DropFiles(d: Disk, ks: set<BlockKey>)
    requires FilesOk(d)
    ensures FilesOk(Drop(d, ks)) && Keeps(d, Drop(d, ks))
  {
    var d' := Drop(d, ks);
    forall k | k in d'.entries
      ensures EntryOk(d', k) && d'.files[d'.entries[k].path] == d.files[d.entries[k].path]
    {
      assert EntryOk(d, k);
      forall j | j in ks && j in d.entries ensures d.entries[j].path != d.entries[k].path {
        assert EntryOk(d, j);
        FileNameInjective(j, k);
      }
    }
  }

  lemma DropKeeps(d: Disk, ks: set<BlockKey>)
    requires Valid(d)
    ensures Valid(Drop(d, ks)) && Keeps(d, Drop(d, ks))
    ensures StoredBytes(Drop(d, ks)) <= StoredBytes(d)
  {
    DropFiles(d, ks);
    DropStamps(d, ks);
    DropSizes(d, ks);
  }

  lemma DropStamps(d: Disk, ks: set<BlockKey>)
    requires StampsOk(d)
    ensures StampsOk(Drop(d, ks))
  {
    assert Stamps(Drop(d, ks)) == Stamps(d) - ks;
  }

  lemma DropSizes(d: Disk, ks: set<BlockKey>)
    ensures StoredBytes(Drop(d, ks)) <= StoredBytes(d)
  {
    TotalSplit(Sizes(d), ks);
    assert Sizes(Drop(d, ks)) == Sizes(d) - ks;
  }

  lemma EvictKeeps(d: Disk)
    requires Valid(d) && d.entries != map[]
    ensures var d' := EvictAndRecount(d);
            Valid(d') && Keeps(d, d') && d'.currentSize == StoredBytes(d')
  {
    OldestKey(d);
    var d0 := Drop(d, {Oldest(Stamps(d))});
    DropKeeps(d, {Oldest(Stamps(d))});
    Recounted(d0);
  }

  lemma Recounted(d: Disk)
    requires Valid(d)
    ensures var d' := d.(currentSize := StoredBytes(d));
            Valid(d') && Keeps(d, d') && StoredBytes(d') == StoredBytes(d)
  {
  }

  lemma KeepsTransitive(a: Disk, b: Disk, c: Disk)
    requires FilesOk(a) && FilesOk(b) && FilesOk(c) && Keeps(a, b) && Keeps(b, c)
    ensures Keeps(a, c)
  {
  }

  /** The eviction loop stops with room for the block or with nothing left to evict. */
  lemma {:induction false} MakeRoomKeeps(d: Disk, size: nat)
    requires Valid(d)
    ensures var r := MakeRoom(d, size);
            Valid(r) && Keeps(d, r) && (Fits(r, size) || r.entries == map[])
    decreases d.entries.Keys
  {
    if Fits(d, size) || d.entries == map[] {
      forall k | k in d.entries ensures Agrees(d, d, k) {}
    } else {
      EvictKeeps(d);
      OldestKey(d);
      var d' := EvictAndRecount(d);
      assert d'.entries.Keys < d.entries.Keys;
      MakeRoomKeeps(d', size);
      KeepsTransitive(d, d', MakeRoom(d', size));
    }
  }

  lemma StoreFiles(d: Disk, k: BlockKey, data: Bytes)
    requires FilesOk(d)
    ensures var d' := Store(d, k, data);
            && FilesOk(d')
            && k in d'.entries && Content(d', k) == data
            && (forall j :: j in d'.entries && j != k ==> Agrees(d, d', j))
  {
    var d' := Store(d, k, data);
    forall j | j in d'.entries
      ensures EntryOk(d', j)
      ensures j != k ==> d'.files[d'.entries[j].path] == d.files[d.entries[j].path]
    {
      if j != k {
        assert EntryOk(d, j);
        FileNameInjective(j, k);
      }
    }
  }

  lemma StoreKeeps(d: Disk, k: BlockKey, data: Bytes)
    requires Valid(d) && Fits(d, |data|)
    ensures Valid(Store(d, k, data))
  {
    StoreFiles(d, k, data);
    StoreStamps(d, k, data);
    StoreSizes(d, k, data);
  }

  lemma StoreStamps(d: Disk, k: BlockKey, data: Bytes)
    requires StampsOk(d)
    ensures StampsOk(Store(d, k, data))
  {
    assert Stamps(Store(d, k, data)) == Stamps(d)[k := d.now];
  }

  lemma StoreSizes(d: Disk, k: BlockKey, data: Bytes)
    requires SizesOk(d) && Fits(d, |data|)
    ensures SizesOk(Store(d, k, data))
  {
    TotalInsert(Sizes(d), k, |data|);
    assert Sizes(Store(d, k, data)) == Sizes(d)[k := |data|];
  }

  /** After a put, the disk serves the new bytes for `k` or is empty, and it serves old bytes
      for every other block it still has. */
  lemma PutKeeps(d: Disk, k: BlockKey, data: Bytes)
    requires Valid(d)
    ensures var d' := Put(d, k, data);
            && Valid(d')
            && d'.sizeLimit == d.sizeLimit
            && (k in d'.entries ==> Content(d', k) == data)
            && (k !in d'.entries ==> d'.entries == map[])
            && (forall j :: j in d'.entries && j != k ==> Agrees(d, d', j))
  {
    MakeRoomKeeps(d, |data|);
    var room := MakeRoom(d, |data|);
    if Fits(room, |data|) {
      StoreKeeps(room, k, data);
      StoreFiles(room, k, data);
      var d' := Store(room, k, data);
      forall j | j in d'.entries && j != k ensures Agrees(d, d', j) {
        assert Agrees(room, d', j) && Agrees(d, room, j);
      }
    }
  }

  lemma TouchKeeps(d: Disk, k: BlockKey)
    requires Valid(d) && k in d.entries
    ensures Valid(Touch(d, k)) && Keeps(d, Touch(d, k))
  {
    TouchFiles(d, k);
    TouchStamps(d, k);
    assert Sizes(Touch(d, k)) == Sizes(d);
  }

  lemma TouchFiles(d: Disk, k: BlockKey)
    requires FilesOk(d) && k in d.entries
    ensures FilesOk(Touch(d, k)) && Keeps(d, Touch(d, k))
  {
  }

  lemma TouchStamps(d: Disk, k: BlockKey)
    requires StampsOk(d) && k in d.entries
    ensures StampsOk(Touch(d, k))
  {
    assert Stamps(Touch(d, k)) == Stamps(d)[k := d.now];
  }

  /** A read changes no contents and returns what is stored. */
  lemma GetKeeps(d: Disk, k: BlockKey)
    requires Valid(d)
    ensures var (d', r) := Get(d, k);
            && Valid(d') && Keeps(d, d')
            && d'.entries.Keys == d.entries.Keys
            && r == (if k in d.entries then Some(Content(d, k)) else None)
  {
    if k in d.entries {
      assert EntryOk(d, k);
      TouchKeeps(d, k);
    } else {
      forall j | j in d.entries ensures Agrees(d, d, j) {}
    }
  }

  /** Invalidation removes exactly the blocks of the inode; the size counter keeps counting them. */
  lemma InvalidateKeeps(d: Disk, inode: nat)
    requires Valid(d)
    ensures var d' := Invalidate(d, inode);
            && Valid(d') && Keeps(d, d')
            && (forall k :: k in d'.entries <==> k in d.entries && k.inode != inode)
            && d'.currentSize == d.currentSize
  {
    DropKeeps(d, set k | k in d.entries && k.inode == inode);
  }

  lemma ClearKeeps(d: Disk)
    requires Valid(d)
    ensures Valid(Clear(d)) && Clear(d).entries == map[] && Clear(d).sizeLimit == d.sizeLimit
  {
  }
}
