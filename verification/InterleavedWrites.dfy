/** Durability in company: the contiguous writes of one file are interleaved with reads, lookups, listings
    and prefetches of any file, and with writes, flushes, releases, truncations, creates and unlinks of
    others. What the file's object ends up holding still depends on the sizes of its own writes alone. */
module InterleavedWrites {
  import opened Base
  import opened FileSystem
  import opened Stores
  import Paths
  import Inodes
  import Metadata
  import BlockCache
  import Uploads
  import WriteBuffers
  import DurableWrites
  import DurableFiles
  import ReadTransparency
  import Namespaces
  import Paging

  // ---------------------------------------------------------------- runs

  /** The payloads of the PUTs to one object, in order. */
  function PutsTo(puts: seq<(string, Bytes)>, obs: string): seq<Bytes> {
    if puts == [] then [] else
      var n := |puts| - 1;
      PutsTo(puts[..n], obs) + if puts[n].0 == obs then [puts[n].1] else []
  }

  function ObjectAt(st: Store, obs: string): Option<Bytes> {
    if obs in st.objects then Some(st.objects[obs]) else None
  }

  /** The operation concerns another file: neither the inode's write buffer nor the object `obs`. */
  ghost predicate Elsewhere(fs: Fs, cfg: Config, op: Op, inode: nat, obs: string) {
    match op
    case OpWrite(i, _, _) => i != inode && OtherObject(fs, cfg, i, obs)
    case OpTruncate(i, _) => i != inode && OtherObject(fs, cfg, i, obs)
    case OpFlush(i) => i != inode && OtherObject(fs, cfg, i, obs)
    case OpRelease(i) => i != inode && OtherObject(fs, cfg, i, obs)
    case OpCreate(parent, name) => OtherChild(fs, cfg, parent, name, obs)
    case OpUnlink(parent, name) => OtherChild(fs, cfg, parent, name, obs) && !Unlinks(fs, parent, name, inode)
    case _ => true
  }

  /** Neither the path of inode `i` nor its write buffer, if any, is for the object `obs`. */
  ghost predicate OtherObject(fs: Fs, cfg: Config, i: nat, obs: string) {
    && (i in fs.inodes.entries ==> ObsPath(cfg, fs.inodes.entries[i].path) != obs)
    && (i in fs.writes ==> fs.writes[i].path != obs)
  }

  predicate OtherChild(fs: Fs, cfg: Config, parent: nat, name: string, obs: string) {
    parent in fs.inodes.entries ==> ObsPath(cfg, Paths.JoinPath(fs.inodes.entries[parent].path, name)) != obs
  }

  predicate Unlinks(fs: Fs, parent: nat, name: string, inode: nat) {
    && parent in fs.inodes.entries
    && Inodes.GetInode(fs.inodes, Paths.JoinPath(fs.inodes.entries[parent].path, name)) == Some(inode)
  }

  /** The bytes of the inode's own writes. */
  function Chunks(ops: seq<Op>, inode: nat): seq<Bytes> {
    if ops == [] then [] else
      var op := ops[|ops| - 1];
      Chunks(ops[..|ops| - 1], inode) + if op.OpWrite? && op.inode == inode then [op.data] else []
  }

  /** The inode's own operations are contiguous writes from offset 0, all successful; the others are
      elsewhere. */
  ghost predicate Streams(fs: Fs, cfg: Config, inode: nat, obs: string, ops: seq<Op>)
    requires Valid(fs) && cfg.writes.partSize > 0
  {
    ops == [] ||
      var front, op := ops[..|ops| - 1], ops[|ops| - 1];
      var before := Exec(fs, cfg, front);
      ReadTransparency.BlockSizePositive(before.data);
      && Streams(fs, cfg, inode, obs, front)
      && if op.OpWrite? && op.inode == inode then
           && op.at == DurableWrites.Length(Chunks(front, inode))
           && FileSystem.Write(before, cfg, inode, op.at, op.data).1.Ok?
         else Elsewhere(before, cfg, op, inode, obs)
  }

  // ---------------------------------------------------------------- operations elsewhere

  /** The file keeps its path, its write buffer, its object, and the PUTs made to it. */
  ghost predicate SameFile(fs: Fs, fs': Fs, inode: nat, obs: string) {
    && inode in fs.inodes.entries && inode in fs'.inodes.entries
    && fs'.inodes.entries[inode].path == fs.inodes.entries[inode].path
    && (inode in fs'.writes <==> inode in fs.writes)
    && (inode in fs.writes ==> fs'.writes[inode] == fs.writes[inode])
    && SameObject(fs.store, fs'.store, obs)
  }

  predicate SameObject(st: Store, st': Store, obs: string) {
    ObjectAt(st', obs) == ObjectAt(st, obs) && PutsTo(st'.puts, obs) == PutsTo(st.puts, obs)
  }

  lemma PutElsewhere(st: Store, path: string, data: Bytes, obs: string)
    requires path != obs
    ensures SameObject(st, Put(st, path, data).0, obs)
  {
    assert (st.puts + [(path, data)])[..|st.puts|] == st.puts;
  }

  lemma BufferElsewhere(b: WriteBuffers.Buf, st: Store, path: string, at: nat, data: Bytes, size: nat,
                        cfg: WriteBuffers.Config, obs: string)
    requires cfg.partSize > 0 && b.path != obs && path != obs
    ensures SameObject(st, WriteBuffers.Flush(b, st).1, obs)
    ensures SameObject(st, WriteBuffers.Write(b, st, path, at, data, cfg).1, obs)
    ensures SameObject(st, WriteBuffers.Truncate(b, st, path, size).1, obs)
  {
    hide PutsTo, WriteBuffers.CutParts;
    forall s: Store, p: string, d: Bytes | p != obs ensures SameObject(s, Put(s, p, d).0, obs) {
      PutElsewhere(s, p, d, obs);
    }
  }

  lemma SameObjectSelf(st: Store, obs: string)
    ensures SameObject(st, st, obs)
  {
  }

  lemma LookupLeaves(fs: Fs, cfg: Config, parent: nat, name: string, stat: Option<ObjectMeta>,
                     dirStat: Option<ObjectMeta>, children: bool, inode: nat, obs: string)
    requires Inodes.Valid(fs.inodes) && inode in fs.inodes.entries
    ensures SameFile(fs, Lookup(fs, cfg, parent, name, stat, dirStat, children).0, inode, obs)
  {
    hide Metadata.PutAttr, SameObject, Probe;
    SameObjectSelf(fs.store, obs);
    if parent in fs.inodes.entries {
      var path := Paths.JoinPath(fs.inodes.entries[parent].path, name);
      var m1 := Metadata.IsNegative(fs.meta, cfg.meta, path).0;
      var n := Inodes.GetInode(fs.inodes, path);
      var m2 := if n.Some? then Metadata.GetAttr(m1, cfg.meta, n.value).0 else m1;
      ProbeLeaves(fs.(meta := m2), cfg, path, stat, dirStat, children, inode, obs);
    }
  }

  lemma ProbeLeaves(fs: Fs, cfg: Config, path: string, stat: Option<ObjectMeta>,
                    dirStat: Option<ObjectMeta>, children: bool, inode: nat, obs: string)
    requires Inodes.Valid(fs.inodes) && inode in fs.inodes.entries
    ensures SameFile(fs, Probe(fs, cfg, path, stat, dirStat, children).0, inode, obs)
  {
    hide Metadata.PutAttr, SameObject;
    SameObjectSelf(fs.store, obs);
  }

  lemma GetattrLeaves(fs: Fs, cfg: Config, i: nat, answer: Result<ObjectMeta, Error>, inode: nat, obs: string)
    requires inode in fs.inodes.entries
    ensures SameFile(fs, Getattr(fs, cfg, i, answer).0, inode, obs)
  {
    hide Metadata.PutAttr;
  }

  lemma ReaddirLeaves(fs: Fs, cfg: Config, i: nat, offset: int, listing: Option<seq<ObjectMeta>>,
                      inode: nat, obs: string)
    requires Inodes.Valid(fs.inodes) && inode in fs.inodes.entries
    ensures SameFile(fs, Readdir(fs, cfg, i, offset, listing).0, inode, obs)
  {
    hide ListEntries, SameObject;
    SameObjectSelf(fs.store, obs);
    if i in fs.inodes.entries && listing.Some? {
      var dir := fs.inodes.entries[i].path;
      Paging.LoopKeepsEntry(fs, cfg, dir, listing.value, offset, 3, inode);
      ReadTransparency.ListingTouchesNoData(fs, cfg, dir, listing.value, offset, 3);
    }
  }

  lemma ReadLeaves(fs: Fs, cfg: Config, i: nat, at: nat, size: nat, reachable: bool, inode: nat, obs: string)
    requires fs.data.blockSize > 0 && inode in fs.inodes.entries
    ensures SameFile(fs, Read(fs, cfg, i, at, size, reachable).0, inode, obs)
  {
    hide BlockCache.Get, BlockCache.Put;
  }

  lemma CachesLeave(fs: Fs, cfg: Config, op: Op, inode: nat, obs: string)
    requires fs.data.blockSize > 0 && cfg.writes.partSize > 0
    requires inode in fs.inodes.entries && (op.OpPrefetched? || op.OpWait?)
    ensures SameFile(fs, Step(fs, cfg, op), inode, obs)
  {
  }

  lemma CreateLeaves(fs: Fs, cfg: Config, parent: nat, name: string, inode: nat, obs: string)
    requires Inodes.Valid(fs.inodes) && inode in fs.inodes.entries && OtherChild(fs, cfg, parent, name, obs)
    ensures SameFile(fs, Create(fs, cfg, parent, name).0, inode, obs)
  {
    hide SameObject, Metadata.PutAttr;
    SameObjectSelf(fs.store, obs);
    if parent in fs.inodes.entries {
      var path := Paths.JoinPath(fs.inodes.entries[parent].path, name);
      PutElsewhere(fs.store, ObsPath(cfg, path), [], obs);
      var fs1 := fs.(store := Put(fs.store, ObsPath(cfg, path), []).0);
      Namespaces.RegisterKeepsEntry(fs1, cfg, path, false, 0, NewFile, inode);
    }
  }

  lemma UnlinkLeaves(fs: Fs, cfg: Config, parent: nat, name: string, inode: nat, obs: string)
    requires Inodes.Valid(fs.inodes) && inode in fs.inodes.entries && OtherChild(fs, cfg, parent, name, obs)
    requires !Unlinks(fs, parent, name, inode)
    ensures SameFile(fs, Unlink(fs, cfg, parent, name).0, inode, obs)
  {
    hide BlockCache.Invalidate;
  }

  lemma WriteLeaves(fs: Fs, cfg: Config, i: nat, at: nat, data: Bytes, inode: nat, obs: string)
    requires fs.data.blockSize > 0 && cfg.writes.partSize > 0
    requires inode in fs.inodes.entries && i != inode && OtherObject(fs, cfg, i, obs)
    ensures SameFile(fs, FileSystem.Write(fs, cfg, i, at, data).0, inode, obs)
  {
    hide SameObject, WriteBuffers.Write, BlockCache.InvalidateRange;
    SameObjectSelf(fs.store, obs);
    if i in fs.inodes.entries {
      var path := ObsPath(cfg, fs.inodes.entries[i].path);
      var attr := Metadata.GetAttr(fs.meta, cfg.meta, i).1;
      var b := WriteBuffers.BufferOf(fs.writes, i, path, if attr.Some? then attr.value.size else 0);
      BufferElsewhere(b, fs.store, path, at, data, 0, cfg.writes, obs);
    }
  }

  lemma TruncateLeaves(fs: Fs, cfg: Config, i: nat, size: nat, inode: nat, obs: string)
    requires cfg.writes.partSize > 0
    requires inode in fs.inodes.entries && i != inode && OtherObject(fs, cfg, i, obs)
    ensures SameFile(fs, Truncate(fs, cfg, i, size).0, inode, obs)
  {
    hide SameObject, WriteBuffers.Truncate, BlockCache.Invalidate;
    SameObjectSelf(fs.store, obs);
    if i in fs.inodes.entries {
      var path := ObsPath(cfg, fs.inodes.entries[i].path);
      BufferElsewhere(WriteBuffers.BufferOf(fs.writes, i, path, size), fs.store, path, 0, [], size, cfg.writes, obs);
    }
  }

  lemma FlushLeaves(fs: Fs, cfg: Config, i: nat, inode: nat, obs: string)
    requires cfg.writes.partSize > 0
    requires inode in fs.inodes.entries && i != inode && OtherObject(fs, cfg, i, obs)
    ensures SameFile(fs, Flush(fs, i).0, inode, obs) && SameFile(fs, Release(fs, i).0, inode, obs)
  {
    hide SameObject, WriteBuffers.Flush;
    SameObjectSelf(fs.store, obs);
    if i in fs.writes { BufferElsewhere(fs.writes[i], fs.store, fs.writes[i].path, 0, [], 0, cfg.writes, obs); }
  }

  /** An operation elsewhere leaves the file alone. */
  lemma ElsewhereLeaves(fs: Fs, cfg: Config, op: Op, inode: nat, obs: string)
    requires Inodes.Valid(fs.inodes) && fs.data.blockSize > 0 && cfg.writes.partSize > 0
    requires inode in fs.inodes.entries && Elsewhere(fs, cfg, op, inode, obs)
    ensures SameFile(fs, Step(fs, cfg, op), inode, obs)
  {
    hide SameFile, Lookup, Getattr, Readdir, Create, Unlink, Truncate, Flush, Release, FileSystem.Write, OtherObject;
    match op
    case OpLookup(parent, name, stat, dirStat, children) =>
      LookupLeaves(fs, cfg, parent, name, stat, dirStat, children, inode, obs);
    case OpGetattr(i, answer) => GetattrLeaves(fs, cfg, i, answer, inode, obs);
    case OpReaddir(i, offset, listing) => ReaddirLeaves(fs, cfg, i, offset, listing, inode, obs);
    case OpRead(i, at, size, reachable) => ReadLeaves(fs, cfg, i, at, size, reachable, inode, obs);
    case OpPrefetched(path, request, reachable) => CachesLeave(fs, cfg, op, inode, obs);
    case OpWrite(i, at, data) => WriteLeaves(fs, cfg, i, at, data, inode, obs);
    case OpCreate(parent, name) => CreateLeaves(fs, cfg, parent, name, inode, obs);
    case OpUnlink(parent, name) => UnlinkLeaves(fs, cfg, parent, name, inode, obs);
    case OpRelease(i) => FlushLeaves(fs, cfg, i, inode, obs);
    case OpFlush(i) => FlushLeaves(fs, cfg, i, inode, obs);
    case OpTruncate(i, size) => TruncateLeaves(fs, cfg, i, size, inode, obs);
    case OpWait(time) => CachesLeave(fs, cfg, op, inode, obs);
  }

  // ---------------------------------------------------------------- the file's writes on their own

  /** Equal but for the two file sizes, which sequential writes never consult. */
  predicate Alike(a: WriteBuffers.Buf, b: WriteBuffers.Buf) {
    a == b.(size := a.size, originalSize := a.originalSize)
  }

  lemma {:induction false} CutAlike(a: WriteBuffers.Buf, b: WriteBuffers.Buf, partSize: nat)
    requires partSize > 0 && a.upload.Some? && Alike(a, b)
    ensures Alike(WriteBuffers.CutParts(a, partSize), WriteBuffers.CutParts(b, partSize))
    ensures var c := WriteBuffers.CutParts(a, partSize); c == a.(data := c.data, upload := c.upload)
    decreases |a.data|
  {
    if |a.data| >= partSize {
      var u := Some(Uploads.Write(a.upload.value, a.data[..partSize], partSize));
      CutAlike(a.(data := a.data[partSize..], upload := u), b.(data := a.data[partSize..], upload := u), partSize);
    }
  }

  /** The buffer on its own, with a store that holds the one object and never fails, against the buffer in
      company. `base` are the PUTs to the object before the run. */
  ghost predicate InStep(
    a: WriteBuffers.Buf, sa: Store, b: WriteBuffers.Buf, sb: Store, obs: string, base: seq<Bytes>)
  {
    && Alike(a, b) && a.path == obs && a.sequential
    && sb.outages == {}
    && ObjectAt(sa, obs) == ObjectAt(sb, obs)
    && PutsTo(sa.puts, obs) == base + PutsTo(sb.puts, obs)
  }

  lemma PutInStep(sa: Store, sb: Store, obs: string, data: Bytes, base: seq<Bytes>)
    requires sb.outages == {} && Put(sa, obs, data).1
    requires PutsTo(sa.puts, obs) == base + PutsTo(sb.puts, obs)
    ensures var sa', (sb', ok) := Put(sa, obs, data).0, Put(sb, obs, data);
            && ok && sb'.outages == {}
            && ObjectAt(sa', obs) == ObjectAt(sb', obs)
            && PutsTo(sa'.puts, obs) == base + PutsTo(sb'.puts, obs)
  {
    PutsToSnoc(sa.puts, obs, data);
    PutsToSnoc(sb.puts, obs, data);
    hide PutsTo;
    assert (base + PutsTo(sb.puts, obs)) + [data] == base + (PutsTo(sb.puts, obs) + [data]);
  }

  lemma PutsToSnoc(puts: seq<(string, Bytes)>, obs: string, data: Bytes)
    ensures PutsTo(puts + [(obs, data)], obs) == PutsTo(puts, obs) + [data]
  {
    assert (puts + [(obs, data)])[..|puts|] == puts;
  }

  lemma FlushInStep(a: WriteBuffers.Buf, sa: Store, b: WriteBuffers.Buf, sb: Store, obs: string, base: seq<Bytes>)
    requires InStep(a, sa, b, sb, obs, base) && WriteBuffers.Flush(a, sa).2
    ensures var (a', sa', _) := WriteBuffers.Flush(a, sa);
            var (b', sb', ok) := WriteBuffers.Flush(b, sb);
            ok && InStep(a', sa', b', sb', obs, base) && a'.nextOffset == a.nextOffset
  {
    hide PutsTo, Put;
    if WriteBuffers.FlushTakes(a) && a.upload.None? { PutInStep(sa, sb, obs, a.data, base); }
  }

  /** A sequential write that succeeds in company does the same to the buffer on its own. */
  lemma WriteInStep(a: WriteBuffers.Buf, sa: Store, b: WriteBuffers.Buf, sb: Store, obs: string, base: seq<Bytes>,
                    data: Bytes, cfg: WriteBuffers.Config)
    requires InStep(a, sa, b, sb, obs, base) && cfg.partSize > 0
    requires WriteBuffers.Write(a, sa, obs, a.nextOffset, data, cfg).2
    ensures var (a', sa', _) := WriteBuffers.Write(a, sa, obs, a.nextOffset, data, cfg);
            var (b', sb', ok) := WriteBuffers.Write(b, sb, obs, a.nextOffset, data, cfg);
            ok && InStep(a', sa', b', sb', obs, base) && a'.nextOffset == a.nextOffset + |data|
  {
    hide PutsTo, WriteBuffers.Flush, WriteBuffers.CutParts;
    var a2 := WriteBuffers.Append(WriteBuffers.Noted(a, a.nextOffset, data), obs, a.nextOffset, data, cfg);
    var b2 := WriteBuffers.Append(WriteBuffers.Noted(b, a.nextOffset, data), obs, a.nextOffset, data, cfg);
    if a2.upload.Some? {
      CutAlike(a2, b2, cfg.partSize);
    } else if |a2.data| >= cfg.bufferSize {
      FlushInStep(a2, sa, b2, sb, obs, base);
    }
  }

  lemma {:induction false} WriteChunksSnoc(
    b: WriteBuffers.Buf, st: Store, obs: string, offset: nat, chunks: seq<Bytes>, last: Bytes, cfg: WriteBuffers.Config)
    requires cfg.partSize > 0 && DurableWrites.WriteChunks(b, st, obs, offset, chunks, cfg).2
    ensures var (b1, st1, _) := DurableWrites.WriteChunks(b, st, obs, offset, chunks, cfg);
            DurableWrites.WriteChunks(b, st, obs, offset, chunks + [last], cfg)
            == WriteBuffers.Write(b1, st1, obs, offset + DurableWrites.Length(chunks), last, cfg)
    decreases |chunks|
  {
    hide WriteBuffers.Write;
    if chunks != [] {
      assert (chunks + [last])[1..] == chunks[1..] + [last];
      var (b1, st1, ok) := WriteBuffers.Write(b, st, obs, offset, chunks[0], cfg);
      WriteChunksSnoc(b1, st1, obs, offset + |chunks[0]|, chunks[1..], last, cfg);
    }
  }

  lemma {:induction false} LengthSnoc(chunks: seq<Bytes>, last: Bytes)
    ensures DurableWrites.Length(chunks + [last]) == DurableWrites.Length(chunks) + |last|
  {
    if chunks != [] {
      assert (chunks + [last])[1..] == chunks[1..] + [last];
      LengthSnoc(chunks[1..], last);
    }
  }

  /** A file without data and without buffered data, ready to be written from the start. */
  ghost predicate Ready(fs: Fs, cfg: Config, inode: nat, obs: string) {
    && inode in fs.inodes.entries && ObsPath(cfg, fs.inodes.entries[inode].path) == obs
    && DurableFiles.NextBuffer(fs, inode, obs) == WriteBuffers.NewBuf(obs, 0)
    && ObjectAt(fs.store, obs) == Some([])
  }

  /** The store of the run on its own. */
  function Alone(obs: string): Store { Store(map[obs := []], [], 0, {}) }

  /** After a run in company the file's buffer and object are those of its own writes on their own. */
  ghost predicate Follows(fs: Fs, cfg: Config, inode: nat, obs: string, base: seq<Bytes>, chunks: seq<Bytes>)
    requires cfg.writes.partSize > 0
  {
    var (b, st, ok) := DurableWrites.WriteChunks(WriteBuffers.NewBuf(obs, 0), Alone(obs), obs, 0, chunks, cfg.writes);
    && ok && inode in fs.inodes.entries && ObsPath(cfg, fs.inodes.entries[inode].path) == obs
    && InStep(DurableFiles.NextBuffer(fs, inode, obs), fs.store, b, st, obs, base)
    && DurableFiles.NextBuffer(fs, inode, obs).nextOffset == DurableWrites.Length(chunks)
  }

  lemma OwnWriteFollows(fs: Fs, cfg: Config, inode: nat, obs: string, base: seq<Bytes>, chunks: seq<Bytes>, data: Bytes)
    requires fs.data.blockSize > 0 && cfg.writes.partSize > 0 && Follows(fs, cfg, inode, obs, base, chunks)
    requires FileSystem.Write(fs, cfg, inode, DurableWrites.Length(chunks), data).1.Ok?
    ensures var fs' := FileSystem.Write(fs, cfg, inode, DurableWrites.Length(chunks), data).0;
            Follows(fs', cfg, inode, obs, base, chunks + [data])
  {
    hide InStep, WriteBuffers.Write, BlockCache.InvalidateRange;
    var at := DurableWrites.Length(chunks);
    var (b, st, _) := DurableWrites.WriteChunks(WriteBuffers.NewBuf(obs, 0), Alone(obs), obs, 0, chunks, cfg.writes);
    var attr := Metadata.GetAttr(fs.meta, cfg.meta, inode).1;
    var a := WriteBuffers.BufferOf(fs.writes, inode, obs, if attr.Some? then attr.value.size else 0);
    SizesDoNotMatter(DurableFiles.NextBuffer(fs, inode, obs), a, fs.store, b, st, obs, base);
    WriteInStep(a, fs.store, b, st, obs, base, data, cfg.writes);
    WriteChunksSnoc(WriteBuffers.NewBuf(obs, 0), Alone(obs), obs, 0, chunks, data, cfg.writes);
    LengthSnoc(chunks, data);
  }

  lemma SizesDoNotMatter(a: WriteBuffers.Buf, a': WriteBuffers.Buf, sa: Store, b: WriteBuffers.Buf, sb: Store,
                         obs: string, base: seq<Bytes>)
    requires InStep(a, sa, b, sb, obs, base) && Alike(a', a)
    ensures InStep(a', sa, b, sb, obs, base)
  {
  }

  lemma OtherFollows(fs: Fs, fs': Fs, cfg: Config, inode: nat, obs: string, base: seq<Bytes>, chunks: seq<Bytes>)
    requires cfg.writes.partSize > 0 && Follows(fs, cfg, inode, obs, base, chunks)
    requires SameFile(fs, fs', inode, obs)
    ensures Follows(fs', cfg, inode, obs, base, chunks)
  {
    hide PutsTo;
  }

  lemma {:induction false} RunFollows(fs: Fs, cfg: Config, inode: nat, obs: string, ops: seq<Op>)
    requires Valid(fs) && cfg.writes.partSize > 0
    requires Ready(fs, cfg, inode, obs) && Streams(fs, cfg, inode, obs, ops)
    ensures Follows(Exec(fs, cfg, ops), cfg, inode, obs, PutsTo(fs.store.puts, obs), Chunks(ops, inode))
  {
    hide Inodes.Valid, Metadata.Valid, BlockCache.Valid, Follows, FileSystem.Write, Elsewhere, SameFile, Step;
    var base := PutsTo(fs.store.puts, obs);
    if ops == [] {
      StartFollows(fs, cfg, inode, obs);
    } else {
      var front, op := ops[..|ops| - 1], ops[|ops| - 1];
      RunFollows(fs, cfg, inode, obs, front);
      var before := Exec(fs, cfg, front);
      ReadTransparency.BlockSizePositive(before.data);
      if op.OpWrite? && op.inode == inode {
        OwnWriteFollows(before, cfg, inode, obs, base, Chunks(front, inode), op.data);
        StepWrites(before, cfg, inode, op.at, op.data);
      } else {
        FollowsNames(before, cfg, inode, obs, base, Chunks(front, inode));
        ElsewhereLeaves(before, cfg, op, inode, obs);
        OtherFollows(before, Step(before, cfg, op), cfg, inode, obs, base, Chunks(front, inode));
        assert Chunks(front, inode) + [] == Chunks(front, inode);
      }
    }
  }

  lemma StepWrites(fs: Fs, cfg: Config, inode: nat, at: nat, data: Bytes)
    requires fs.data.blockSize > 0 && cfg.writes.partSize > 0
    ensures Step(fs, cfg, OpWrite(inode, at, data)) == FileSystem.Write(fs, cfg, inode, at, data).0
  {
  }

  lemma StartFollows(fs: Fs, cfg: Config, inode: nat, obs: string)
    requires cfg.writes.partSize > 0 && Ready(fs, cfg, inode, obs)
    ensures Follows(fs, cfg, inode, obs, PutsTo(fs.store.puts, obs), [])
  {
    assert PutsTo(Alone(obs).puts, obs) == [];
  }

  lemma FollowsNames(fs: Fs, cfg: Config, inode: nat, obs: string, base: seq<Bytes>, chunks: seq<Bytes>)
    requires cfg.writes.partSize > 0 && Follows(fs, cfg, inode, obs, base, chunks)
    ensures inode in fs.inodes.entries
  {
  }

  // ---------------------------------------------------------------- what the object holds

  /** The object holds the bytes written if and only if the sizes are durable; then they took one PUT to it,
      or none when there were no bytes. */
  ghost predicate StoredIff(before: Store, after: Store, obs: string, chunks: seq<Bytes>, cfg: WriteBuffers.Config) {
    && obs in after.objects
    && (after.objects[obs] == DurableWrites.Concat(chunks) <==> DurableWrites.Durable(chunks, 0, cfg))
    && (DurableWrites.Durable(chunks, 0, cfg) ==>
          PutsTo(after.puts, obs) == PutsTo(before.puts, obs)
            + if DurableWrites.Concat(chunks) == [] then [] else [DurableWrites.Concat(chunks)])
  }

  lemma AloneStored(
    before: Store, after: Store, alone: Store, obs: string, chunks: seq<Bytes>, cfg: WriteBuffers.Config)
    requires ObjectAt(after, obs) == ObjectAt(alone, obs)
    requires PutsTo(after.puts, obs) == PutsTo(before.puts, obs) + PutsTo(alone.puts, obs)
    requires obs in alone.objects
    requires alone.objects[obs] == DurableWrites.Concat(chunks) <==> DurableWrites.Durable(chunks, 0, cfg)
    requires DurableWrites.Durable(chunks, 0, cfg) ==>
      alone.puts == if DurableWrites.Concat(chunks) == [] then [] else [(obs, DurableWrites.Concat(chunks))]
    ensures StoredIff(before, after, obs, chunks, cfg)
  {
    assert PutsTo([], obs) == [];
    assert PutsTo([(obs, DurableWrites.Concat(chunks))], obs) == [DurableWrites.Concat(chunks)];
  }

  /** From a file ready to be written: any run in which its own operations are successful contiguous writes
      from the start, whatever happens elsewhere in between, then its release. */
  lemma RunStoredIff(fs: Fs, cfg: Config, inode: nat, obs: string, ops: seq<Op>)
    requires Valid(fs) && WriteBuffers.GoodConfig(cfg.writes)
    requires Ready(fs, cfg, inode, obs) && Streams(fs, cfg, inode, obs, ops)
    requires Release(Exec(fs, cfg, ops), inode).1.Ok?
    ensures StoredIff(fs.store, Release(Exec(fs, cfg, ops), inode).0.store, obs, Chunks(ops, inode), cfg.writes)
  {
    hide Valid, Ready, Streams, Exec, Release, PutsTo,
         WriteBuffers.Flush, DurableWrites.WriteChunks, DurableWrites.Durable;
    RunFollows(fs, cfg, inode, obs, ops);
    var fs1, chunks := Exec(fs, cfg, ops), Chunks(ops, inode);
    var (b, st, _) := DurableWrites.WriteChunks(WriteBuffers.NewBuf(obs, 0), Alone(obs), obs, 0, chunks, cfg.writes);
    DurableFiles.ReleaseFollowsBuffer(fs1, inode, obs);
    FlushInStep(DurableFiles.NextBuffer(fs1, inode, obs), fs1.store, b, st, obs, PutsTo(fs.store.puts, obs));
    DurableWrites.DurableIff(Alone(obs), obs, chunks, cfg.writes);
    AloneStored(fs.store, Release(fs1, inode).0.store, WriteBuffers.Flush(b, st).1, obs, chunks, cfg.writes);
  }

  /** Durability in company, from a create of a file with no write buffer. */
  lemma CreatedRunStoredIff(fs: Fs, cfg: Config, parent: nat, name: string, ops: seq<Op>)
    requires Valid(fs) && WriteBuffers.GoodConfig(cfg.writes)
    requires parent in fs.inodes.entries && Paths.Normal(fs.inodes.entries[parent].path)
    requires name != "" && '/' !in name
    requires Create(fs, cfg, parent, name).1.Ok?
    requires Create(fs, cfg, parent, name).1.value.0 !in fs.writes
    ensures Valid(Create(fs, cfg, parent, name).0)
    ensures var (fs1, r) := Create(fs, cfg, parent, name);
            var n, obs := r.value.0, ObsPath(cfg, Paths.JoinPath(fs.inodes.entries[parent].path, name));
            Streams(fs1, cfg, n, obs, ops) && Release(Exec(fs1, cfg, ops), n).1.Ok? ==>
              StoredIff(fs1.store, Release(Exec(fs1, cfg, ops), n).0.store, obs, Chunks(ops, n), cfg.writes)
  {
    hide Inodes.Valid, Metadata.Valid, BlockCache.Valid, Streams, Exec, Release, StoredIff;
    CreateKeeps(fs, cfg, parent, name);
    CreatedReady(fs, cfg, parent, name);
    var (fs1, r) := Create(fs, cfg, parent, name);
    var n, obs := r.value.0, ObsPath(cfg, Paths.JoinPath(fs.inodes.entries[parent].path, name));
    if Streams(fs1, cfg, n, obs, ops) && Release(Exec(fs1, cfg, ops), n).1.Ok? { RunStoredIff(fs1, cfg, n, obs, ops); }
  }

  lemma CreatedReady(fs: Fs, cfg: Config, parent: nat, name: string)
    requires Inodes.Valid(fs.inodes)
    requires parent in fs.inodes.entries && Paths.Normal(fs.inodes.entries[parent].path)
    requires name != "" && '/' !in name
    requires Create(fs, cfg, parent, name).1.Ok? && Create(fs, cfg, parent, name).1.value.0 !in fs.writes
    ensures var (fs1, r) := Create(fs, cfg, parent, name);
            Ready(fs1, cfg, r.value.0, ObsPath(cfg, Paths.JoinPath(fs.inodes.entries[parent].path, name)))
  {
    hide Metadata.PutAttr;
    var path := Paths.JoinPath(fs.inodes.entries[parent].path, name);
    DurableFiles.ChildIsNormal(fs.inodes.entries[parent].path, name);
    DurableFiles.CreatedAttr(fs.(store := Put(fs.store, ObsPath(cfg, path), []).0), cfg, path);
  }

  /** The same from a truncation to zero of a file with no write buffer. */
  lemma TruncatedRunStoredIff(fs: Fs, cfg: Config, inode: nat, ops: seq<Op>)
    requires Valid(fs) && WriteBuffers.GoodConfig(cfg.writes)
    requires inode in fs.inodes.entries && inode !in fs.writes
    requires Truncate(fs, cfg, inode, 0).1.Ok?
    ensures Valid(Truncate(fs, cfg, inode, 0).0)
    ensures var fs1, obs := Truncate(fs, cfg, inode, 0).0, ObsPath(cfg, fs.inodes.entries[inode].path);
            Streams(fs1, cfg, inode, obs, ops) && Release(Exec(fs1, cfg, ops), inode).1.Ok? ==>
              StoredIff(fs1.store, Release(Exec(fs1, cfg, ops), inode).0.store, obs, Chunks(ops, inode), cfg.writes)
  {
    hide Valid, Streams, Exec, Release, StoredIff, BlockCache.Invalidate;
    TruncateKeeps(fs, cfg, inode, 0);
    var fs1, obs := Truncate(fs, cfg, inode, 0).0, ObsPath(cfg, fs.inodes.entries[inode].path);
    if Streams(fs1, cfg, inode, obs, ops) && Release(Exec(fs1, cfg, ops), inode).1.Ok? {
      RunStoredIff(fs1, cfg, inode, obs, ops);
    }
  }
}
