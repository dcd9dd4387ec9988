/** The file system core as the program runs it: operations that update the shared components in
    sequence, proved to take the steps of `FileSystem`. */
module Cores {
  import opened Base
  import opened FileSystem
  import Paths
  import Inodes
  import Metadata
  import BlockCache
  import DataCaches
  import Readahead
  import Stores
  import WriteBuffers
  import WriteBufferManagers

  class ObsFsCore {
    const inodeMgr: Inodes.InodeManager
    const metadataCache: Metadata.MetadataCache
    const dataCache: DataCaches.DataCache
    const readahead: Readahead.ReadaheadManager
    const writeBuffer: WriteBufferManagers.WriteBuffer
    const obsClient: Stores.ObsClient
    const prefix: Option<string>

    ghost function Cfg(): Config {
      Config(prefix, metadataCache.config, readahead.config, writeBuffer.config)
    }

    /** The objects of the fixed components. */
    ghost function Parts(): set<object> {
      {inodeMgr, metadataCache, dataCache, readahead, writeBuffer, obsClient}
      + (if dataCache.diskCache == null then {} else {dataCache.diskCache})
    }

    ghost predicate Valid()
      reads Parts(), writeBuffer.Repr
    {
      && Parts() !! writeBuffer.Repr
      && writeBuffer.client == obsClient
      && writeBuffer.Valid()
      && dataCache.Valid()
      && Metadata.Valid(metadataCache.View())
    }

    ghost function View(): Fs
      requires Valid()
      reads Parts(), writeBuffer.Repr
    {
      Fs(inodeMgr.State(), metadataCache.View(), dataCache.State(), readahead.View(), writeBuffer.State(),
         obsClient.State())
    }

    constructor (
      inodeMgr: Inodes.InodeManager, metadataCache: Metadata.MetadataCache, dataCache: DataCaches.DataCache,
      readahead: Readahead.ReadaheadManager, writeBuffer: WriteBufferManagers.WriteBuffer, prefix: Option<string>)
      requires writeBuffer.Valid() && dataCache.Valid() && Metadata.Valid(metadataCache.View())
      requires {inodeMgr, metadataCache, dataCache, readahead, writeBuffer, writeBuffer.client}
        + (if dataCache.diskCache == null then {} else {dataCache.diskCache}) !! writeBuffer.Repr
      ensures Valid()
      ensures View() == Fs(inodeMgr.State(), metadataCache.View(), dataCache.State(), readahead.View(),
                           writeBuffer.State(), writeBuffer.client.State())
    {
      this.inodeMgr, this.metadataCache, this.dataCache := inodeMgr, metadataCache, dataCache;
      this.readahead, this.writeBuffer, this.prefix := readahead, writeBuffer, prefix;
      this.obsClient := writeBuffer.client;
    }

    // ------------------------------------------------------------ component calls as steps of the view

    method AddInode(path: string, isDir: bool, size: nat) returns (inode: nat)
      requires Valid()
      modifies inodeMgr
      ensures Valid()
      ensures var (t, n) := Inodes.GetOrCreate(old(View()).inodes, path, isDir, size);
        inode == n && View() == old(View()).(inodes := t)
    {
      hide BlockCache.Valid, Metadata.Valid, Inodes.GetOrCreate;
      inode := inodeMgr.GetOrCreateInode(path, isDir, size);
    }

    method SetInodeSize(inode: nat, size: nat)
      requires Valid()
      modifies inodeMgr
      ensures Valid() && View() == old(View()).(inodes := Inodes.UpdateSize(old(View()).inodes, inode, size))
    {
      hide BlockCache.Valid, Metadata.Valid, Inodes.UpdateSize;
      inodeMgr.SetSize(inode, size);
    }

    method RemoveInode(inode: nat)
      requires Valid()
      modifies inodeMgr
      ensures Valid() && View() == old(View()).(inodes := Inodes.Remove(old(View()).inodes, inode))
    {
      hide BlockCache.Valid, Metadata.Valid, Inodes.Remove;
      inodeMgr.RemoveInode(inode);
    }

    method PutAttr(inode: nat, attr: Metadata.FileAttr)
      requires Valid()
      modifies metadataCache
      ensures Valid() && View() == old(View()).(meta := Metadata.PutAttr(old(View()).meta, Cfg().meta, inode, attr))
    {
      hide BlockCache.Valid, Metadata.Valid, Metadata.PutAttr;
      metadataCache.Put(inode, attr);
    }

    method GetAttr(inode: nat) returns (attr: Option<Metadata.FileAttr>)
      requires Valid()
      modifies metadataCache
      ensures Valid()
      ensures var (m, a) := Metadata.GetAttr(old(View()).meta, Cfg().meta, inode);
        attr == a && View() == old(View()).(meta := m)
    {
      hide BlockCache.Valid, Metadata.Valid, Metadata.GetAttr;
      GetAttrKeeps(metadataCache.View(), Cfg().meta, inode);
      attr := metadataCache.Get(inode);
    }

    method GrowAttr(inode: nat, size: nat)
      requires Valid()
      modifies metadataCache
      ensures Valid() && View() == old(View()).(meta := Metadata.GrowAttr(old(View()).meta, inode, size))
    {
      hide BlockCache.Valid, Metadata.Valid, Metadata.GrowAttr;
      Metadata.StepKeepsValid(metadataCache.View(), Cfg().meta, Metadata.OpGrow(inode, size));
      metadataCache.Grow(inode, size);
    }

    method InvalidateAttr(inode: nat)
      requires Valid()
      modifies metadataCache
      ensures Valid() && View() == old(View()).(meta := Metadata.InvalidateAttr(old(View()).meta, inode))
    {
      hide BlockCache.Valid, Metadata.Valid, Metadata.InvalidateAttr;
      GetAttrKeeps(metadataCache.View(), Cfg().meta, inode);
      metadataCache.InvalidateInode(inode);
    }

    method CheckNegative(path: string) returns (absent: bool)
      requires Valid()
      modifies metadataCache
      ensures Valid()
      ensures var (m, a) := Metadata.IsNegative(old(View()).meta, Cfg().meta, path);
        absent == a && View() == old(View()).(meta := m)
    {
      hide BlockCache.Valid, Metadata.Valid, Metadata.IsNegative;
      NegativeKeeps(metadataCache.View(), Cfg().meta, path);
      absent := metadataCache.CheckNegative(path);
    }

    method AddNegative(path: string)
      requires Valid()
      modifies metadataCache
      ensures Valid() && View() == old(View()).(meta := Metadata.PutNegative(old(View()).meta, path))
    {
      hide BlockCache.Valid, Metadata.Valid, Metadata.PutNegative;
      NegativeKeeps(metadataCache.View(), Cfg().meta, path);
      metadataCache.AddNegative(path);
    }

    method DropNegative(path: string)
      requires Valid()
      modifies metadataCache
      ensures Valid() && View() == old(View()).(meta := Metadata.RemoveNegative(old(View()).meta, path))
    {
      hide BlockCache.Valid, Metadata.Valid, Metadata.RemoveNegative;
      NegativeKeeps(metadataCache.View(), Cfg().meta, path);
      metadataCache.DropNegative(path);
    }

    method GetBlock(inode: nat, offset: nat) returns (block: Option<Bytes>)
      requires Valid()
      modifies dataCache, dataCache.diskCache
      ensures Valid() && old(View()).data.blockSize > 0 &&
        var (c, b) := BlockCache.Get(old(View()).data, inode, offset); block == b && View() == old(View()).(data := c)
    {
      hide BlockCache.Valid, Metadata.Valid, BlockCache.Get;
      PositiveBlockSize(dataCache.State());
      block := dataCache.Get(inode, offset);
    }

    method PutBlock(inode: nat, offset: nat, data: Bytes)
      requires Valid()
      modifies dataCache, dataCache.diskCache
      ensures Valid() && old(View()).data.blockSize > 0 &&
        View() == old(View()).(data := BlockCache.Put(old(View()).data, inode, offset, data))
    {
      hide BlockCache.Valid, Metadata.Valid, BlockCache.Put;
      PositiveBlockSize(dataCache.State());
      dataCache.Put(inode, offset, data);
    }

    method InvalidateBlocks(inode: nat)
      requires Valid()
      modifies dataCache, dataCache.diskCache
      ensures Valid() && View() == old(View()).(data := BlockCache.Invalidate(old(View()).data, inode))
    {
      hide BlockCache.Valid, Metadata.Valid, BlockCache.Invalidate;
      dataCache.Invalidate(inode);
    }

    method InvalidateWritten(inode: nat, offset: nat, len: nat)
      requires Valid()
      modifies dataCache
      ensures Valid() && old(View()).data.blockSize > 0 &&
        View() == old(View()).(data := BlockCache.InvalidateRange(old(View()).data, inode, offset, len))
    {
      hide BlockCache.Valid, Metadata.Valid, BlockCache.InvalidateRange;
      PositiveBlockSize(dataCache.State());
      dataCache.InvalidateRange(inode, offset, len);
    }

    method TakePrefetched(inode: nat, offset: nat) returns (data: Option<Bytes>)
      requires Valid()
      modifies readahead
      ensures Valid()
      ensures var (s, d) := Readahead.GetPrefetched(old(View()).readahead, Cfg().readahead, inode, offset);
        data == d && View() == old(View()).(readahead := s)
    {
      hide BlockCache.Valid, Metadata.Valid, Readahead.GetPrefetched;
      data := readahead.TakePrefetched(inode, offset);
    }

    method RecordRead(inode: nat, offset: nat, size: nat) returns (request: Option<Readahead.Request>)
      requires Valid()
      modifies readahead
      ensures Valid()
      ensures var (s, q) := Readahead.RecordRead(old(View()).readahead, Cfg().readahead, inode, offset, size);
        request == q && View() == old(View()).(readahead := s)
    {
      hide BlockCache.Valid, Metadata.Valid, Readahead.RecordRead;
      request := readahead.Record(inode, offset, size);
    }

    method StorePrefetched(inode: nat, offset: nat, data: Bytes)
      requires Valid()
      modifies readahead
      ensures Valid()
      ensures var s := Readahead.StorePrefetched(old(View()).readahead, inode, offset, data);
        View() == old(View()).(readahead := s)
    {
      hide BlockCache.Valid, Metadata.Valid, Readahead.StorePrefetched;
      readahead.Store(inode, offset, data);
    }

    method InvalidateReads(inode: nat)
      requires Valid()
      modifies readahead
      ensures Valid() && View() == old(View()).(readahead := Readahead.Invalidate(old(View()).readahead, inode))
    {
      hide BlockCache.Valid, Metadata.Valid, Readahead.Invalidate;
      readahead.InvalidateInode(inode);
    }

    method BufferWrite(inode: nat, obs: string, offset: nat, data: Bytes, fileSize: nat) returns (ok: bool)
      requires Valid()
      modifies writeBuffer, writeBuffer.Repr, obsClient
      ensures Valid() && Cfg().writes.partSize > 0 &&
        var (t, st, done) := WriteBuffers.WriteAt(
          old(View()).writes, old(View()).store, inode, obs, offset, data, fileSize, Cfg().writes);
        ok == done && View() == old(View()).(writes := t, store := st)
    {
      hide BlockCache.Valid, Metadata.Valid, WriteBuffers.WriteAt;
      ok := writeBuffer.Write(inode, obs, offset, data, fileSize);
    }

    method BufferRelease(inode: nat) returns (ok: bool)
      requires Valid()
      modifies writeBuffer, writeBuffer.Repr, obsClient
      ensures Valid() && var (t, st, done) := WriteBuffers.ReleaseAt(old(View()).writes, old(View()).store, inode);
        ok == done && View() == old(View()).(writes := t, store := st)
    {
      hide BlockCache.Valid, Metadata.Valid, WriteBuffers.ReleaseAt;
      ok := writeBuffer.Release(inode);
    }

    method BufferFlush(inode: nat) returns (ok: bool)
      requires Valid()
      modifies writeBuffer.Repr, obsClient
      ensures Valid() && var (t, st, done) := WriteBuffers.FlushAt(old(View()).writes, old(View()).store, inode);
        ok == done && View() == old(View()).(writes := t, store := st)
    {
      hide BlockCache.Valid, Metadata.Valid, WriteBuffers.FlushAt;
      ok := writeBuffer.FlushFile(inode);
    }

    method BufferTruncate(inode: nat, obs: string, size: nat) returns (ok: bool)
      requires Valid()
      modifies writeBuffer, writeBuffer.Repr, obsClient
      ensures Valid()
      ensures var (t, st, done) := WriteBuffers.TruncateAt(old(View()).writes, old(View()).store, inode, obs, size);
        ok == done && View() == old(View()).(writes := t, store := st)
    {
      hide BlockCache.Valid, Metadata.Valid, WriteBuffers.TruncateAt;
      ok := writeBuffer.Truncate(inode, obs, size);
    }

    method PutObject(obs: string, data: Bytes) returns (ok: bool)
      requires Valid()
      modifies obsClient
      ensures Valid()
      ensures var (st, done) := Stores.Put(old(View()).store, obs, data);
        ok == done && View() == old(View()).(store := st)
    {
      hide BlockCache.Valid, Metadata.Valid, Stores.Put;
      ok := obsClient.PutObject(obs, data);
    }

    method DeleteObject(obs: string) returns (ok: bool)
      requires Valid()
      modifies obsClient
      ensures Valid()
      ensures var (st, done) := Stores.Delete(old(View()).store, obs);
        ok == done && View() == old(View()).(store := st)
    {
      hide BlockCache.Valid, Metadata.Valid, Stores.Delete;
      ok := obsClient.DeleteObject(obs);
    }

    static lemma PositiveBlockSize(c: BlockCache.Cache)
      requires BlockCache.Valid(c)
      ensures c.blockSize > 0
    {
    }

    lemma ViewPositive()
      requires Valid()
      ensures View().data.blockSize > 0 && dataCache.blockSize == View().data.blockSize
      ensures Cfg().writes.partSize > 0
    {
    }

    method PathOf(inode: nat) returns (path: Option<string>)
      requires Valid()
      ensures Valid() && View() == old(View())
      ensures path == Inodes.GetPath(View().inodes, inode)
    {
      path := if inode in inodeMgr.inodeToEntry then Some(inodeMgr.inodeToEntry[inode].path) else None;
    }

    method InodeOf(path: string) returns (inode: Option<nat>)
      requires Valid()
      ensures Valid() && View() == old(View())
      ensures inode == Inodes.GetInode(View().inodes, path)
    {
      var normalized := Paths.Normalize(path);
      inode := if normalized in inodeMgr.pathToInode then Some(inodeMgr.pathToInode[normalized]) else None;
    }

    method ReadObject(obs: string, offset: nat, size: nat, reachable: bool) returns (r: Option<Bytes>)
      requires Valid()
      ensures Valid() && View() == old(View())
      ensures r == if reachable then Stores.ReadRange(View().store, obs, offset, size) else None
    {
      if !reachable { return None; }
      r := obsClient.ReadObject(obs, offset, size);
    }

    method ObsPathOf(path: string) returns (obs: string)
      requires Valid()
      ensures Valid() && View() == old(View())
      ensures obs == ObsPath(Cfg(), path)
    {
      if prefix.None? { return path; }
      if path == "" { return prefix.value; }
      return Paths.TrimEnd(prefix.value) + "/" + path;
    }

    // ------------------------------------------------------------ operations

    /** Give a path an inode and cache the attributes found for it. */
    method RegisterPath(path: string, isDir: bool, size: nat, origin: Origin) returns (inode: nat)
      requires Valid()
      modifies inodeMgr, metadataCache
      ensures Valid()
      ensures (View(), inode) == Register(old(View()), Cfg(), path, isDir, size, origin)
    {
      hide Valid, View, Inodes.GetOrCreate, Metadata.PutAttr;
      inode := AddInode(path, isDir, size);
      PutAttr(inode, MakeAttr(origin, inode));
    }

    method DoLookup(parent: nat, name: string, stat: Option<ObjectMeta>, dirStat: Option<ObjectMeta>, children: bool)
      returns (r: Result<(nat, Metadata.FileAttr), Error>)
      requires Valid()
      modifies inodeMgr, metadataCache
      ensures Valid()
      ensures (View(), r) == Lookup(old(View()), Cfg(), parent, name, stat, dirStat, children)
    {
      hide Valid, View, Metadata.IsNegative, Metadata.GetAttr, Probe;
      var parentPath := PathOf(parent);
      if parentPath.None? { return Err(NotFound); }
      var path := Paths.JoinPath(parentPath.value, name);
      var absent := CheckNegative(path);
      if absent { return Err(NotFound); }
      var inode := InodeOf(path);
      if inode.Some? {
        var cached := GetAttr(inode.value);
        if cached.Some? { return Ok((inode.value, cached.value)); }
      }
      r := ProbeStore(path, stat, dirStat, children);
    }

    method ProbeStore(path: string, stat: Option<ObjectMeta>, dirStat: Option<ObjectMeta>, children: bool)
      returns (r: Result<(nat, Metadata.FileAttr), Error>)
      requires Valid()
      modifies inodeMgr, metadataCache
      ensures Valid()
      ensures (View(), r) == Probe(old(View()), Cfg(), path, stat, dirStat, children)
    {
      hide Valid, View, Register, Metadata.PutNegative;
      if stat.Some? {
        var inode := RegisterPath(path, stat.value.isDir, stat.value.size, FromMeta(stat.value));
        return Ok((inode, AttrOf(inode, stat.value)));
      }
      if dirStat.Some? {
        var inode := RegisterPath(path, true, 0, FromMeta(dirStat.value));
        return Ok((inode, AttrOf(inode, dirStat.value)));
      }
      if children {
        var inode := RegisterPath(path, true, 0, ImplicitDir);
        return Ok((inode, MakeAttr(ImplicitDir, inode)));
      }
      AddNegative(path);
      return Err(NotFound);
    }

    method DoGetattr(inode: nat, stat: Result<ObjectMeta, Error>) returns (r: Result<Metadata.FileAttr, Error>)
      requires Valid()
      modifies metadataCache
      ensures Valid()
      ensures (View(), r) == Getattr(old(View()), Cfg(), inode, stat)
    {
      hide Valid, View, Metadata.GetAttr, Metadata.PutAttr;
      var cached := GetAttr(inode);
      if cached.Some? { return Ok(cached.value); }
      var path := PathOf(inode);
      if path.None? { return Err(NotFound); }
      if stat.Err? { return Err(stat.error); }
      var attr := AttrOf(inode, stat.value);
      PutAttr(inode, attr);
      return Ok(attr);
    }

    method ParentOf(inode: nat, path: string) returns (parent: nat)
      requires Valid()
      ensures Valid() && View() == old(View())
      ensures parent == ParentInode(View().inodes, inode, path)
    {
      hide Valid, View, Inodes.GetInode;
      if inode == Inodes.ROOT_INODE { return Inodes.ROOT_INODE; }
      var parentPath := Paths.ParentPath(path);
      if parentPath.None? { return Inodes.ROOT_INODE; }
      var found := InodeOf(parentPath.value);
      return if found.Some? then found.value else Inodes.ROOT_INODE;
    }

    method DoReaddir(inode: nat, offset: int, listing: Option<seq<ObjectMeta>>)
      returns (r: Result<seq<DirEntry>, Error>)
      requires Valid()
      modifies inodeMgr, metadataCache
      ensures Valid()
      ensures (View(), r) == Readdir(old(View()), Cfg(), inode, offset, listing)
    {
      hide Valid, View, ListEntries, ParentInode;
      var path := PathOf(inode);
      if path.None? { return Err(NotFound); }
      var dots := [];
      if offset < 1 { dots := dots + [DirEntry(inode, ".", true, 1)]; }
      if offset < 2 {
        var parent := ParentOf(inode, path.value);
        dots := dots + [DirEntry(parent, "..", true, 2)];
      }
      if listing.None? { return Err(IoError); }
      assert dots == Dots(old(View()).inodes, inode, path.value, offset);
      var listed := ListChildren(path.value, listing.value, offset);
      return Ok(dots + listed);
    }

    /** The loop over the listing, from entry offset 3. */
    method ListChildren(dir: string, listing: seq<ObjectMeta>, offset: int) returns (entries: seq<DirEntry>)
      requires Valid()
      modifies inodeMgr, metadataCache
      ensures Valid()
      ensures (View(), entries) == ListEntries(old(View()), Cfg(), dir, listing, offset, 3)
    {
      hide Valid, View, Register, Name, BadName;
      entries := [];
      var next := 3;
      ghost var whole := ListEntries(View(), Cfg(), dir, listing, offset, 3);
      assert listing[0..] == listing && [] + whole.1 == whole.1;
      for i := 0 to |listing|
        invariant Valid()
        invariant var (fs, rest) := ListEntries(View(), Cfg(), dir, listing[i..], offset, next);
          whole.0 == fs && whole.1 == entries + rest
      {
        var m := listing[i];
        assert listing[i..][0] == m && listing[i..][1..] == listing[i + 1..];
        if next <= offset {
          next := next + 1;
        } else {
          var name := Name(m);
          if !BadName(name) {
            var child := RegisterPath(Paths.JoinPath(dir, name), m.isDir, m.size, FromMeta(m));
            ghost var rest := ListEntries(View(), Cfg(), dir, listing[i + 1..], offset, next + 1).1;
            assert entries + ([DirEntry(child, name, m.isDir, next)] + rest)
                == entries + [DirEntry(child, name, m.isDir, next)] + rest;
            entries := entries + [DirEntry(child, name, m.isDir, next)];
            next := next + 1;
          }
        }
      }
      assert listing[|listing|..] == [] && entries + [] == entries;
    }

    method DoRead(inode: nat, offset: nat, size: nat, reachable: bool)
      returns (r: Result<Bytes, Error>, request: Option<Readahead.Request>)
      requires Valid()
      modifies readahead, dataCache, dataCache.diskCache
      ensures Valid()
      ensures old(View()).data.blockSize > 0
      ensures (View(), r, request) == Read(old(View()), Cfg(), inode, offset, size, reachable)
    {
      hide Valid, View, BlockCache.Get, Readahead.GetPrefetched, Fetch;
      ViewPositive();
      request := None;
      var path := PathOf(inode);
      if path.None? { r := Err(NotFound); return; }
      var prefetched := TakePrefetched(inode, offset);
      if prefetched.Some? {
        r := Ok(prefetched.value[..Min(size, |prefetched.value|)]);
        return;
      }
      var block := GetBlock(inode, offset);
      if block.Some? {
        var start := offset % dataCache.blockSize;
        if start < |block.value| {
          r := Ok(block.value[start..Min(start + size, |block.value|)]);
          return;
        }
      }
      ViewPositive();
      r, request := FetchObject(inode, path.value, offset, size, reachable);
    }

    method FetchObject(inode: nat, path: string, offset: nat, size: nat, reachable: bool)
      returns (r: Result<Bytes, Error>, request: Option<Readahead.Request>)
      requires Valid()
      modifies readahead, dataCache, dataCache.diskCache
      ensures Valid()
      ensures old(View()).data.blockSize > 0
      ensures (View(), r, request) == Fetch(old(View()), Cfg(), inode, path, offset, size, reachable)
    {
      hide Valid, View, BlockCache.Put, Readahead.RecordRead, Stores.ReadRange;
      ViewPositive();
      request := None;
      var obs := ObsPathOf(path);
      var fetched := ReadObject(obs, offset, size, reachable);
      if fetched.None? { r := Err(IoError); return; }
      PutBlock(inode, offset, fetched.value);
      request := RecordRead(inode, offset, size);
      r := Ok(fetched.value);
    }

    /** The prefetch a read spawns. */
    method Prefetch(path: string, request: Readahead.Request, reachable: bool)
      requires Valid()
      modifies readahead
      ensures Valid()
      ensures View() == CompletePrefetch(old(View()), path, request, reachable)
    {
      hide Valid, View, Readahead.StorePrefetched;
      var fetched := ReadObject(path, request.offset, request.size, reachable);
      if fetched.Some? { StorePrefetched(request.inode, request.offset, fetched.value); }
    }

    method DoWrite(inode: nat, offset: nat, data: Bytes) returns (r: Result<nat, Error>)
      requires Valid()
      modifies inodeMgr, metadataCache, dataCache, writeBuffer, writeBuffer.Repr, obsClient
      ensures Valid()
      ensures old(View()).data.blockSize > 0 && Cfg().writes.partSize > 0
      ensures (View(), r) == Write(old(View()), Cfg(), inode, offset, data)
    {
      hide Valid, View, BlockCache.InvalidateRange, Metadata.GetAttr, Metadata.GrowAttr,
           WriteBuffers.WriteAt, Inodes.UpdateSize;
      ViewPositive();
      var path := PathOf(inode);
      if path.None? { return Err(NotFound); }
      var obs := ObsPathOf(path.value);
      var attr := GetAttr(inode);
      var fileSize := if attr.Some? then attr.value.size else 0;
      var ok := BufferWrite(inode, obs, offset, data, fileSize);
      if !ok { return Err(IoError); }
      GrowAttr(inode, offset + |data|);
      SetInodeSize(inode, offset + |data|);
      InvalidateWritten(inode, offset, |data|);
      return Ok(|data|);
    }

    method DoCreate(parent: nat, name: string) returns (r: Result<(nat, Metadata.FileAttr), Error>)
      requires Valid()
      modifies inodeMgr, metadataCache, obsClient
      ensures Valid()
      ensures (View(), r) == Create(old(View()), Cfg(), parent, name)
    {
      hide Valid, View, Register, Stores.Put, Metadata.RemoveNegative;
      var parentPath := PathOf(parent);
      if parentPath.None? { return Err(NotFound); }
      var path := Paths.JoinPath(parentPath.value, name);
      var obs := ObsPathOf(path);
      var ok := PutObject(obs, []);
      if !ok { return Err(IoError); }
      var inode := RegisterPath(path, false, 0, NewFile);
      DropNegative(path);
      return Ok((inode, MakeAttr(NewFile, inode)));
    }

    method DoUnlink(parent: nat, name: string) returns (r: Result<(), Error>)
      requires Valid()
      modifies inodeMgr, metadataCache, dataCache, dataCache.diskCache, readahead, obsClient
      ensures Valid()
      ensures (View(), r) == Unlink(old(View()), Cfg(), parent, name)
    {
      hide Valid, View, Forget, Stores.Delete, Inodes.GetInode;
      var parentPath := PathOf(parent);
      if parentPath.None? { return Err(NotFound); }
      var path := Paths.JoinPath(parentPath.value, name);
      var obs := ObsPathOf(path);
      var ok := DeleteObject(obs);
      if !ok { return Err(IoError); }
      var inode := InodeOf(path);
      if inode.Some? { ForgetInode(inode.value); }
      return Ok(());
    }

    method ForgetInode(inode: nat)
      requires Valid()
      modifies inodeMgr, metadataCache, dataCache, dataCache.diskCache, readahead
      ensures Valid()
      ensures View() == Forget(old(View()), inode)
    {
      hide Valid, View, BlockCache.Invalidate, Readahead.Invalidate, Inodes.Remove, Metadata.InvalidateAttr;
      InvalidateAttr(inode);
      InvalidateBlocks(inode);
      InvalidateReads(inode);
      RemoveInode(inode);
    }

    method DoRelease(inode: nat) returns (r: Result<(), Error>)
      requires Valid()
      modifies metadataCache, writeBuffer, writeBuffer.Repr, obsClient
      ensures Valid()
      ensures (View(), r) == Release(old(View()), inode)
    {
      hide Valid, View, WriteBuffers.ReleaseAt, Metadata.InvalidateAttr;
      var ok := BufferRelease(inode);
      if !ok { return Err(IoError); }
      InvalidateAttr(inode);
      return Ok(());
    }

    method DoFlush(inode: nat) returns (r: Result<(), Error>)
      requires Valid()
      modifies writeBuffer.Repr, obsClient
      ensures Valid()
      ensures (View(), r) == Flush(old(View()), inode)
    {
      hide Valid, View, WriteBuffers.FlushAt;
      var ok := BufferFlush(inode);
      return if ok then Ok(()) else Err(IoError);
    }

    method DoTruncate(inode: nat, size: nat) returns (r: Result<(), Error>)
      requires Valid()
      modifies dataCache, dataCache.diskCache, readahead, writeBuffer, writeBuffer.Repr, obsClient
      ensures Valid()
      ensures (View(), r) == Truncate(old(View()), Cfg(), inode, size)
    {
      hide Valid, View, WriteBuffers.TruncateAt, BlockCache.Invalidate, Readahead.Invalidate;
      var path := PathOf(inode);
      if path.None? { return Err(NotFound); }
      var obs := ObsPathOf(path.value);
      var ok := BufferTruncate(inode, obs, size);
      if !ok { return Err(IoError); }
      InvalidateBlocks(inode);
      InvalidateReads(inode);
      return Ok(());
    }
  }
}
