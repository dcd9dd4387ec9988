/** Durability through the file system operations: create, or truncate to zero, then contiguous writes,
    then release. */
module DurableFiles {
  import opened Base
  import opened FileSystem
  import opened Stores
  import Paths
  import Inodes
  import Metadata
  import BlockCache
  import WriteBuffers
  import DurableWrites

  /** Write the chunks one after the other through the file system; stop at the first failure. */
  ghost function Writes(fs: Fs, cfg: Config, inode: nat, offset: nat, chunks: seq<Bytes>): (Fs, bool)
    requires fs.data.blockSize > 0 && cfg.writes.partSize > 0
    decreases |chunks|
  {
    if chunks == [] then (fs, true) else
      var (fs1, r) := FileSystem.Write(fs, cfg, inode, offset, chunks[0]);
      if r.Err? then (fs1, false) else Writes(fs1, cfg, inode, offset + |chunks[0]|, chunks[1..])
  }

  ghost function WritesAndRelease(fs: Fs, cfg: Config, inode: nat, chunks: seq<Bytes>): (Fs, bool)
    requires fs.data.blockSize > 0 && cfg.writes.partSize > 0
  {
    var (fs1, ok) := Writes(fs, cfg, inode, 0, chunks);
    if !ok then (fs1, false)
    else
      var (fs2, r) := Release(fs1, inode);
      (fs2, r.Ok?)
  }

  /** The buffer the next write to `inode` will use, if the file has no data yet. */
  function NextBuffer(fs: Fs, inode: nat, obs: string): WriteBuffers.Buf {
    WriteBuffers.BufferOf(fs.writes, inode, obs, 0)
  }

  ghost predicate Writable(fs: Fs, cfg: Config, inode: nat, obs: string) {
    && inode in fs.inodes.entries && ObsPath(cfg, fs.inodes.entries[inode].path) == obs
    && (inode in fs.writes || (inode in fs.meta.attrs ==> fs.meta.attrs[inode].attr.size == 0))
  }

  lemma WriteUsesBuffer(fs: Fs, cfg: Config, inode: nat, obs: string, offset: nat, chunk: Bytes)
    requires Writable(fs, cfg, inode, obs) && fs.data.blockSize > 0 && cfg.writes.partSize > 0
    ensures var (fs', r) := FileSystem.Write(fs, cfg, inode, offset, chunk);
            var (b, st, ok) := WriteBuffers.Write(NextBuffer(fs, inode, obs), fs.store, obs, offset, chunk, cfg.writes);
            && fs'.store == st && r.Ok? == ok
            && (ok ==> Writable(fs', cfg, inode, obs) && inode in fs'.writes && fs'.writes[inode] == b
                       && fs'.data.blockSize == fs.data.blockSize)
  {
  }

  /** Writes through the file system are the same writes on the one buffer. */
  lemma {:induction false} WritesFollowBuffer(
    fs: Fs, cfg: Config, inode: nat, obs: string, offset: nat, chunks: seq<Bytes>)
    requires Writable(fs, cfg, inode, obs) && fs.data.blockSize > 0 && cfg.writes.partSize > 0
    ensures var (fs', ok) := Writes(fs, cfg, inode, offset, chunks);
            var (b, st, good) := DurableWrites.WriteChunks(
              NextBuffer(fs, inode, obs), fs.store, obs, offset, chunks, cfg.writes);
            fs'.store == st && ok == good && (ok ==> NextBuffer(fs', inode, obs) == b)
    decreases |chunks|
  {
    hide FileSystem.Write, WriteBuffers.Write;
    if chunks != [] {
      WriteUsesBuffer(fs, cfg, inode, obs, offset, chunks[0]);
      var (fs1, r) := FileSystem.Write(fs, cfg, inode, offset, chunks[0]);
      if r.Ok? { WritesFollowBuffer(fs1, cfg, inode, obs, offset + |chunks[0]|, chunks[1..]); }
    }
  }

  lemma ReleaseFollowsBuffer(fs: Fs, inode: nat, obs: string)
    ensures var (fs', r) := Release(fs, inode);
            var (_, st, ok) := WriteBuffers.Flush(NextBuffer(fs, inode, obs), fs.store);
            fs'.store == st && r.Ok? == ok
  {
  }

  lemma RunFollowsBuffer(fs: Fs, cfg: Config, inode: nat, obs: string, chunks: seq<Bytes>)
    requires Writable(fs, cfg, inode, obs) && fs.data.blockSize > 0 && cfg.writes.partSize > 0
    ensures var (fs', ok) := WritesAndRelease(fs, cfg, inode, chunks);
            (fs'.store, ok)
              == DurableWrites.WriteAndRelease(NextBuffer(fs, inode, obs), fs.store, obs, 0, chunks, cfg.writes)
  {
    hide Release, WriteBuffers.Flush;
    WritesFollowBuffer(fs, cfg, inode, obs, 0, chunks);
    ReleaseFollowsBuffer(Writes(fs, cfg, inode, 0, chunks).0, inode, obs);
  }

  /** What the object holds, and the PUTs made, when every operation reports success. */
  ghost predicate StoredIff(before: Store, after: Store, obs: string, chunks: seq<Bytes>, cfg: WriteBuffers.Config) {
    && obs in after.objects
    && (after.objects[obs] == DurableWrites.Concat(chunks) <==> DurableWrites.Durable(chunks, 0, cfg))
    && (DurableWrites.Durable(chunks, 0, cfg) ==>
          after.puts == before.puts
            + if DurableWrites.Concat(chunks) == [] then [] else [(obs, DurableWrites.Concat(chunks))])
  }

  lemma FromFreshBuffer(fs: Fs, cfg: Config, inode: nat, obs: string, chunks: seq<Bytes>)
    requires GoodConfig(cfg) && fs.data.blockSize > 0
    requires Writable(fs, cfg, inode, obs) && NextBuffer(fs, inode, obs) == WriteBuffers.NewBuf(obs, 0)
    requires obs in fs.store.objects && fs.store.objects[obs] == []
    requires WritesAndRelease(fs, cfg, inode, chunks).1
    ensures StoredIff(fs.store, WritesAndRelease(fs, cfg, inode, chunks).0.store, obs, chunks, cfg.writes)
  {
    hide WritesAndRelease, DurableWrites.WriteAndRelease, DurableWrites.Durable;
    RunFollowsBuffer(fs, cfg, inode, obs, chunks);
    DurableWrites.DurableIff(fs.store, obs, chunks, cfg.writes);
  }

  /** Create a file with no write buffer of its own, write it contiguously from the start, release it,
      all successfully: its object holds what was written if and only if the sizes are durable, and
      then it took one PUT beyond the one of the create (none when nothing was written). */
  lemma CreatedFileStoredIff(fs: Fs, cfg: Config, parent: nat, name: string, chunks: seq<Bytes>)
    requires GoodConfig(cfg) && fs.data.blockSize > 0 && Inodes.Valid(fs.inodes)
    requires parent in fs.inodes.entries && Paths.Normal(fs.inodes.entries[parent].path)
    requires name != "" && '/' !in name
    requires Create(fs, cfg, parent, name).1.Ok?
    requires Create(fs, cfg, parent, name).1.value.0 !in fs.writes
    requires var (fs1, r) := Create(fs, cfg, parent, name); WritesAndRelease(fs1, cfg, r.value.0, chunks).1
    ensures var (fs1, r) := Create(fs, cfg, parent, name);
            var obs := ObsPath(cfg, Paths.JoinPath(fs.inodes.entries[parent].path, name));
            StoredIff(fs1.store, WritesAndRelease(fs1, cfg, r.value.0, chunks).0.store, obs, chunks, cfg.writes)
  {
    hide WritesAndRelease, StoredIff, Metadata.PutAttr;
    var path := Paths.JoinPath(fs.inodes.entries[parent].path, name);
    ChildIsNormal(fs.inodes.entries[parent].path, name);
    var (fs1, r) := Create(fs, cfg, parent, name);
    var st := Stores.Put(fs.store, ObsPath(cfg, path), []).0;
    CreatedAttr(fs.(store := st), cfg, path);
    FromFreshBuffer(fs1, cfg, r.value.0, ObsPath(cfg, path), chunks);
  }

  lemma ChildIsNormal(parent: string, name: string)
    requires Paths.Normal(parent) && name != "" && '/' !in name
    ensures Paths.Normalize(Paths.JoinPath(parent, name)) == Paths.JoinPath(parent, name)
  {
  }

  lemma CreatedAttr(fs: Fs, cfg: Config, path: string)
    requires Inodes.Valid(fs.inodes)
    ensures var (fs1, n) := Register(fs, cfg, path, false, 0, NewFile);
            && n in fs1.inodes.entries && fs1.inodes.entries[n].path == Paths.Normalize(path)
            && n in fs1.meta.attrs && fs1.meta.attrs[n].attr.size == 0
  {
  }

  /** The same from a truncation to zero of a file with no write buffer: the truncation makes one. */
  lemma TruncatedFileStoredIff(fs: Fs, cfg: Config, inode: nat, chunks: seq<Bytes>)
    requires GoodConfig(cfg) && fs.data.blockSize > 0
    requires inode in fs.inodes.entries && inode !in fs.writes
    requires Truncate(fs, cfg, inode, 0).1.Ok?
    requires var fs1 := Truncate(fs, cfg, inode, 0).0; WritesAndRelease(fs1, cfg, inode, chunks).1
    ensures var fs1 := Truncate(fs, cfg, inode, 0).0;
            var obs := ObsPath(cfg, fs.inodes.entries[inode].path);
            StoredIff(fs1.store, WritesAndRelease(fs1, cfg, inode, chunks).0.store, obs, chunks, cfg.writes)
  {
    hide WritesAndRelease, StoredIff, BlockCache.Invalidate;
    FromFreshBuffer(Truncate(fs, cfg, inode, 0).0, cfg, inode, ObsPath(cfg, fs.inodes.entries[inode].path), chunks);
  }

  /** Truncating to a non-zero size leaves the store as it was: the object keeps its old bytes. */
  lemma TruncateNonZeroStoresNothing(fs: Fs, cfg: Config, inode: nat, size: nat)
    requires size > 0
    ensures Truncate(fs, cfg, inode, size).0.store == fs.store
    ensures inode in fs.inodes.entries ==>
      var fs1 := Truncate(fs, cfg, inode, size).0; Release(fs1, inode).0.store == fs.store
  {
    hide BlockCache.Invalidate;
  }

  predicate HasSize(st: Store, obs: string, size: nat) { obs in st.objects && |st.objects[obs]| == size }

  /** After a truncation the object has the requested size exactly when that size is 0 and the PUT of the
      empty object goes through, or the object had the size before; a release after it changes nothing. */
  lemma TruncateSetsSizeIff(fs: Fs, cfg: Config, inode: nat, size: nat)
    requires inode in fs.inodes.entries
    ensures var fs1 := Truncate(fs, cfg, inode, size).0;
            var obs := ObsPath(cfg, fs.inodes.entries[inode].path);
            && (HasSize(fs1.store, obs, size)
                <==> (size == 0 && fs.store.requests !in fs.store.outages) || HasSize(fs.store, obs, size))
            && Release(fs1, inode).0.store == fs1.store
  {
    hide BlockCache.Invalidate;
  }
}
