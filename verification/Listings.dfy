/** What a directory listing contains, in terms of the names under the directory's object path, and what it
    leaves in the inode table and the attribute cache. */
module Listings {
  import opened Base
  import opened FileSystem
  import opened Paths
  import Inodes
  import Metadata
  import DurableFiles
  import Namespaces
  import Paging

  predicate ChildName(name: string) { name != "" && '/' !in name && name != "." && name != ".." }

  /** The objects of the listing are the children `names` of the directory, directories possibly with a
      slash at the end. */
  predicate Lists(listing: seq<ObjectMeta>, obsDir: string, names: seq<string>) {
    && |listing| == |names|
    && forall i :: 0 <= i < |names| ==>
         && ChildName(names[i])
         && (listing[i].path == JoinPath(obsDir, names[i]) || listing[i].path == JoinPath(obsDir, names[i]) + "/")
  }

  /** The last component of a joined path is the name, with or without a slash after it. */
  lemma NameOfChild(parent: string, name: string)
    requires name != "" && '/' !in name
    ensures FileName(JoinPath(parent, name)) == name
    ensures FileName(JoinPath(parent, name) + "/") == name
  {
    var path := JoinPath(parent, name);
    assert name[|name| - 1] in name && path[|path| - 1] == name[|name| - 1];
    assert TrimEnd(path) == path;
    assert (path + "/")[..|path|] == path && TrimEnd(path + "/") == TrimEnd(path);
    SplitWhole(name);
    if parent != "" { SplitAround(TrimEnd(parent), name); }
  }

  /** Entry `i` has the `i`-th name, kind and offset, and its number and the child's path are each other's. */
  predicate Listed(t: Inodes.Table, dir: string, listing: seq<ObjectMeta>, names: seq<string>,
                   entries: seq<DirEntry>, next: int)
    requires |listing| == |names|
  {
    && |entries| == |names|
    && forall i :: 0 <= i < |names| ==>
         && entries[i].name == names[i] && entries[i].isDir == listing[i].isDir && entries[i].offset == next + i
         && Resolves(t, JoinPath(dir, names[i]), entries[i].inode)
  }

  predicate Resolves(t: Inodes.Table, path: string, n: nat) {
    Inodes.GetPath(t, n) == Some(path) && path in t.paths && t.paths[path] == n
  }

  lemma {:induction false} LoopLists(fs: Fs, cfg: Config, dir: string, listing: seq<ObjectMeta>, obsDir: string,
                                     names: seq<string>, next: int)
    requires Inodes.Valid(fs.inodes) && Normal(dir) && Lists(listing, obsDir, names) && next > 0
    ensures var (fs1, entries) := ListEntries(fs, cfg, dir, listing, 0, next);
            Listed(fs1.inodes, dir, listing, names, entries, next)
    decreases |listing|
  {
    hide JoinPath, Register, Normal, FileName;
    if listing != [] {
      var m, path := listing[0], JoinPath(dir, names[0]);
      NameOfChild(obsDir, names[0]);
      RegisterResolves(fs, cfg, dir, names[0], m.isDir, m.size, FromMeta(m));
      var (fs1, n) := Register(fs, cfg, path, m.isDir, m.size, FromMeta(m));
      LoopLists(fs1, cfg, dir, listing[1..], obsDir, names[1..], next + 1);
      Paging.LoopKeepsEntry(fs1, cfg, dir, listing[1..], 0, next + 1, n);
      Paging.LoopExtends(fs1, cfg, dir, listing[1..], 0, next + 1);
    }
  }

  lemma RegisterResolves(fs: Fs, cfg: Config, dir: string, name: string, isDir: bool, size: nat, origin: Origin)
    requires Inodes.Valid(fs.inodes) && Normal(dir) && name != "" && '/' !in name
    ensures var (fs1, n) := Register(fs, cfg, JoinPath(dir, name), isDir, size, origin);
            Inodes.Valid(fs1.inodes) && Resolves(fs1.inodes, JoinPath(dir, name), n)
  {
    hide Metadata.PutAttr;
    DurableFiles.ChildIsNormal(dir, name);
    RegisterInodes(fs.inodes, JoinPath(dir, name), isDir, size);
  }

  /** Listing a directory whose objects are the children `names` yields exactly those names in order, after
      the two dots, with consecutive offsets and the reported kinds. Each number and child path resolve to
      each other, so numbers are equal exactly for equal names. */
  lemma ListingNames(fs: Fs, cfg: Config, inode: nat, listing: seq<ObjectMeta>, names: seq<string>)
    requires Inodes.Valid(fs.inodes) && inode in fs.inodes.entries && Normal(fs.inodes.entries[inode].path)
    requires Lists(listing, ObsPath(cfg, fs.inodes.entries[inode].path), names)
    ensures var (fs1, r) := Readdir(fs, cfg, inode, 0, Some(listing));
            && r.Ok? && |r.value| == |names| + 2
            && Listed(fs1.inodes, fs.inodes.entries[inode].path, listing, names, r.value[2..], 3)
            && forall i, j :: 0 <= i < |names| && 0 <= j < |names| ==>
                 (r.value[i + 2].inode == r.value[j + 2].inode <==> names[i] == names[j])
  {
    hide ListEntries, ParentInode, JoinPath, Inodes.Valid;
    var dir := fs.inodes.entries[inode].path;
    LoopLists(fs, cfg, dir, listing, ObsPath(cfg, dir), names, 3);
    var r := Readdir(fs, cfg, inode, 0, Some(listing)).1;
    forall i, j | 0 <= i < |names| && 0 <= j < |names|
      ensures r.value[i + 2].inode == r.value[j + 2].inode <==> names[i] == names[j]
    {
      assert r.value[2..][i] == r.value[i + 2] && r.value[2..][j] == r.value[j + 2];
      NameOfChild(dir, names[i]);
      NameOfChild(dir, names[j]);
    }
  }

  /** "." is the directory itself; ".." is its parent's number if the parent is mapped and the root
      otherwise, the root being its own parent. */
  lemma DotNumbers(fs: Fs, cfg: Config, inode: nat, listing: seq<ObjectMeta>, parent: string, name: string)
    requires inode in fs.inodes.entries
    requires inode != 1 ==>
      Normal(parent) && name != "" && '/' !in name && fs.inodes.entries[inode].path == JoinPath(parent, name)
    ensures var r := Readdir(fs, cfg, inode, 0, Some(listing)).1;
            && r.Ok? && |r.value| >= 2
            && r.value[0] == DirEntry(inode, ".", true, 1)
            && r.value[1] == DirEntry(if inode != 1 && parent in fs.inodes.paths then fs.inodes.paths[parent] else 1,
                                      "..", true, 2)
  {
    hide ListEntries;
    if inode != 1 {
      JoinThenSplit(parent, name);
      NormalizeIsNormal(parent);
    }
  }

  /** Listing fails exactly when the directory is unknown or the store does not answer, and then changes
      nothing. */
  lemma ListingFailsIff(fs: Fs, cfg: Config, inode: nat, offset: int, listing: Option<seq<ObjectMeta>>)
    ensures var (fs1, r) := Readdir(fs, cfg, inode, offset, listing);
            && (r.Err? <==> inode !in fs.inodes.entries || listing.None?)
            && (r.Err? ==> fs1 == fs && r.error == if inode in fs.inodes.entries then IoError else NotFound)
  {
    hide ListEntries;
  }

  // ---------------------------------------------------------------- attributes

  /** The attribute of `n` is cached since time `stamp`. */
  predicate CachedAs(fs: Fs, n: nat, attr: Metadata.FileAttr, stamp: nat) {
    n in fs.meta.attrs && fs.meta.attrs[n] == Metadata.CachedAttr(attr, stamp)
  }

  /** With room for the listing, caching it keeps the attribute of every other inode. */
  lemma {:induction false} LoopKeepsAttr(
    fs: Fs, cfg: Config, dir: string, listing: seq<ObjectMeta>, obsDir: string, names: seq<string>, next: int,
    path: string, n: nat, attr: Metadata.FileAttr, stamp: nat)
    requires Inodes.Valid(fs.inodes) && Normal(dir) && Lists(listing, obsDir, names) && next > 0
    requires |fs.meta.attrs| + |listing| <= cfg.meta.maxEntries
    requires Resolves(fs.inodes, path, n) && CachedAs(fs, n, attr, stamp)
    requires forall i :: 0 <= i < |names| ==> JoinPath(dir, names[i]) != path
    ensures var fs1 := ListEntries(fs, cfg, dir, listing, 0, next).0;
            CachedAs(fs1, n, attr, stamp) && fs1.meta.now == fs.meta.now + |listing|
    decreases |listing|
  {
    hide JoinPath, Register, Normal, FileName;
    if listing != [] {
      var m := listing[0];
      NameOfChild(obsDir, names[0]);
      RegisterResolves(fs, cfg, dir, names[0], m.isDir, m.size, FromMeta(m));
      var (fs1, k) := Register(fs, cfg, JoinPath(dir, names[0]), m.isDir, m.size, FromMeta(m));
      Namespaces.RegisterKeepsEntry(fs, cfg, JoinPath(dir, names[0]), m.isDir, m.size, FromMeta(m), n);
      assert Resolves(fs1.inodes, path, n) && k != n by { RegisterExtends(fs, cfg, JoinPath(dir, names[0]), m, path); }
      RegisterCaches(fs, cfg, JoinPath(dir, names[0]), m);
      LoopKeepsAttr(fs1, cfg, dir, listing[1..], obsDir, names[1..], next + 1, path, n, attr, stamp);
    }
  }

  lemma RegisterExtends(fs: Fs, cfg: Config, path: string, m: ObjectMeta, other: string)
    requires other in fs.inodes.paths
    ensures var t := Register(fs, cfg, path, m.isDir, m.size, FromMeta(m)).0.inodes;
            other in t.paths && t.paths[other] == fs.inodes.paths[other]
  {
  }

  /** Below the limit, registering an object caches its attribute and evicts nobody. */
  lemma RegisterCaches(fs: Fs, cfg: Config, path: string, m: ObjectMeta)
    requires |fs.meta.attrs| < cfg.meta.maxEntries
    ensures var (fs1, n) := Register(fs, cfg, path, m.isDir, m.size, FromMeta(m));
            var attr := Metadata.FileAttr(n, if m.isDir then 4096 else m.size, m.isDir);
            && fs1.meta.attrs == fs.meta.attrs[n := Metadata.CachedAttr(attr, fs.meta.now)]
            && |fs1.meta.attrs| <= |fs.meta.attrs| + 1 && fs1.meta.now == fs.meta.now + 1
  {
    var n := Inodes.GetOrCreate(fs.inodes, path, m.isDir, m.size).1;
    Metadata.LargerMap(fs.meta.attrs, n, Metadata.CachedAttr(MakeAttr(FromMeta(m), n), fs.meta.now));
  }

  lemma {:induction false} LoopCaches(
    fs: Fs, cfg: Config, dir: string, listing: seq<ObjectMeta>, obsDir: string, names: seq<string>, next: int, i: nat)
    requires Inodes.Valid(fs.inodes) && Normal(dir) && Lists(listing, obsDir, names) && next > 0 && i < |names|
    requires forall j, k :: 0 <= j < k < |names| ==> names[j] != names[k]
    requires |fs.meta.attrs| + |listing| <= cfg.meta.maxEntries
    ensures var (fs1, entries) := ListEntries(fs, cfg, dir, listing, 0, next);
            && |entries| == |names|
            && CachedAs(fs1, entries[i].inode,
                 Metadata.FileAttr(entries[i].inode, if listing[i].isDir then 4096 else listing[i].size,
                                   listing[i].isDir),
                 fs.meta.now + i)
            && fs1.meta.now == fs.meta.now + |listing|
    decreases |listing|
  {
    hide JoinPath, Register, Normal, FileName;
    var m, path := listing[0], JoinPath(dir, names[0]);
    NameOfChild(obsDir, names[0]);
    RegisterResolves(fs, cfg, dir, names[0], m.isDir, m.size, FromMeta(m));
    RegisterCaches(fs, cfg, path, m);
    var (fs1, n) := Register(fs, cfg, path, m.isDir, m.size, FromMeta(m));
    LoopLists(fs, cfg, dir, listing, obsDir, names, next);
    if i > 0 {
      LoopCaches(fs1, cfg, dir, listing[1..], obsDir, names[1..], next + 1, i - 1);
    } else {
      forall j | 0 <= j < |names[1..]| ensures JoinPath(dir, names[1..][j]) != path {
        NameOfChild(dir, names[j + 1]);
        NameOfChild(dir, names[0]);
      }
      var attr := Metadata.FileAttr(n, if m.isDir then 4096 else m.size, m.isDir);
      LoopKeepsAttr(fs1, cfg, dir, listing[1..], obsDir, names[1..], next + 1, path, n, attr, fs.meta.now);
    }
  }

  /** After listing distinct names, with room in the attribute cache and a time to live as long as the
      listing, getattr of every listed number answers what the listing reported, whatever the store says. */
  lemma ListingThenGetattr(fs: Fs, cfg: Config, inode: nat, listing: seq<ObjectMeta>, names: seq<string>,
                           i: nat, later: Result<ObjectMeta, Error>)
    requires Inodes.Valid(fs.inodes) && inode in fs.inodes.entries && Normal(fs.inodes.entries[inode].path)
    requires Lists(listing, ObsPath(cfg, fs.inodes.entries[inode].path), names) && i < |names|
    requires forall j, k :: 0 <= j < k < |names| ==> names[j] != names[k]
    requires |fs.meta.attrs| + |listing| <= cfg.meta.maxEntries && |listing| <= cfg.meta.attrTtl
    ensures var (fs1, r) := Readdir(fs, cfg, inode, 0, Some(listing));
            && r.Ok? && |r.value| == |names| + 2
            && var n := r.value[i + 2].inode;
               Getattr(fs1, cfg, n, later).1
               == Ok(Metadata.FileAttr(n, if listing[i].isDir then 4096 else listing[i].size, listing[i].isDir))
  {
    hide ListEntries, ParentInode, JoinPath, Inodes.Valid;
    var dir := fs.inodes.entries[inode].path;
    LoopCaches(fs, cfg, dir, listing, ObsPath(cfg, dir), names, 3, i);
    var (fs1, entries) := ListEntries(fs, cfg, dir, listing, 0, 3);
    assert Readdir(fs, cfg, inode, 0, Some(listing)).1.value[i + 2] == entries[i];
  }
}
