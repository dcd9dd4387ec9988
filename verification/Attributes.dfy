/** What getattr, lookup and create answer and record, in terms of what the store reports. */
module Attributes {
  import opened Base
  import opened FileSystem
  import Paths
  import Inodes
  import Metadata

  /** The attribute of the inode is cached and no older than the time to live. */
  predicate Fresh(fs: Fs, cfg: Config, inode: nat) {
    inode in fs.meta.attrs && fs.meta.now <= fs.meta.attrs[inode].cachedAt + cfg.meta.attrTtl
  }

  /** The path was remembered as absent no longer ago than the time to live. */
  predicate KnownAbsent(fs: Fs, cfg: Config, path: string) {
    path in fs.meta.negative && fs.meta.now <= fs.meta.negative[path] + cfg.meta.negativeTtl
  }

  /** The number of the path, or the one a new path would get. */
  function NumberFor(t: Inodes.Table, path: string): nat {
    if Paths.Normalize(path) in t.paths then t.paths[Paths.Normalize(path)] else t.next
  }

  /** getattr answers the cached attribute while it is fresh; otherwise not-found for an unknown number, the
      store's error, or the reported size and kind, directories counting 4096 bytes. */
  lemma GetattrAnswers(fs: Fs, cfg: Config, inode: nat, answer: Result<ObjectMeta, Error>)
    ensures Getattr(fs, cfg, inode, answer).1
         == if Fresh(fs, cfg, inode) then Ok(fs.meta.attrs[inode].attr)
            else if inode !in fs.inodes.entries then Err(NotFound)
            else if answer.Err? then Err(answer.error)
            else if answer.value.isDir then Ok(Metadata.FileAttr(inode, 4096, true))
            else Ok(Metadata.FileAttr(inode, answer.value.size, false))
  {
  }

  /** What getattr answered it answers again, whatever the store says by then. */
  lemma GetattrRepeats(fs: Fs, cfg: Config, inode: nat,
                       answer: Result<ObjectMeta, Error>, later: Result<ObjectMeta, Error>)
    requires cfg.meta.attrTtl > 0 && Getattr(fs, cfg, inode, answer).1.Ok?
    ensures Getattr(Getattr(fs, cfg, inode, answer).0, cfg, inode, later).1 == Getattr(fs, cfg, inode, answer).1
  {
  }

  /** The path is found with this size and kind, and a new path's entry records its kind as `entryDir`. */
  ghost predicate FoundAs(fs: Fs, fs': Fs, path: string, answer: Result<(nat, Metadata.FileAttr), Error>,
                          size: nat, isDir: bool, entryDir: bool)
  {
    var n := NumberFor(fs.inodes, path);
    && answer == Ok((n, Metadata.FileAttr(n, size, isDir)))
    && Inodes.GetInode(fs'.inodes, path) == Some(n)
    && (Paths.Normalize(path) !in fs.inodes.paths ==>
          n in fs'.inodes.entries
          && fs'.inodes.entries[n]
             == Inodes.InodeEntry(Paths.Normalize(path), entryDir, if entryDir then 4096 else size))
  }

  /** What asking the store finds: an object, else a directory marker, else anything below, else nothing. */
  ghost predicate AnswersFromStore(fs: Fs, fs': Fs, path: string, r: Result<(nat, Metadata.FileAttr), Error>,
                                   stat: Option<ObjectMeta>, dirStat: Option<ObjectMeta>, children: bool)
  {
    if stat.Some? then
      FoundAs(fs, fs', path, r, if stat.value.isDir then 4096 else stat.value.size, stat.value.isDir, stat.value.isDir)
    else if dirStat.Some? then
      FoundAs(fs, fs', path, r, if dirStat.value.isDir then 4096 else dirStat.value.size, dirStat.value.isDir, true)
    else if children then FoundAs(fs, fs', path, r, 4096, true, true)
    else r == Err(NotFound) && path in fs'.meta.negative
  }

  lemma ProbeAnswers(fs: Fs, cfg: Config, path: string,
                     stat: Option<ObjectMeta>, dirStat: Option<ObjectMeta>, children: bool)
    ensures var (fs', r) := Probe(fs, cfg, path, stat, dirStat, children);
            AnswersFromStore(fs, fs', path, r, stat, dirStat, children)
  {
    hide Metadata.PutAttr, Paths.Normalize;
  }

  /** A lookup of a path neither remembered as absent nor with a fresh attribute asks the store: for an
      object, then for a directory marker, then for anything below. It answers from the first that is there
      and fails exactly when none is. */
  lemma LookupAnswers(fs: Fs, cfg: Config, parent: nat, name: string,
                      stat: Option<ObjectMeta>, dirStat: Option<ObjectMeta>, children: bool)
    requires parent in fs.inodes.entries
    requires var path := Paths.JoinPath(fs.inodes.entries[parent].path, name);
             && !KnownAbsent(fs, cfg, path)
             && (Inodes.GetInode(fs.inodes, path).Some? ==> !Fresh(fs, cfg, NumberFor(fs.inodes, path)))
    ensures var path := Paths.JoinPath(fs.inodes.entries[parent].path, name);
            var (fs', r) := Lookup(fs, cfg, parent, name, stat, dirStat, children);
            && AnswersFromStore(fs, fs', path, r, stat, dirStat, children)
            && (r.Ok? <==> stat.Some? || dirStat.Some? || children)
  {
    hide Probe, Paths.JoinPath, Paths.Normalize;
    var path := Paths.JoinPath(fs.inodes.entries[parent].path, name);
    var m1 := Metadata.IsNegative(fs.meta, cfg.meta, path).0;
    var inode := Inodes.GetInode(fs.inodes, path);
    var m2 := if inode.Some? then Metadata.GetAttr(m1, cfg.meta, inode.value).0 else m1;
    ProbeAnswers(fs.(meta := m2), cfg, path, stat, dirStat, children);
  }

  /** With an unknown parent or a remembered absence a lookup fails; with a fresh attribute it answers that. */
  lemma LookupWithoutAsking(fs: Fs, cfg: Config, parent: nat, name: string,
                            stat: Option<ObjectMeta>, dirStat: Option<ObjectMeta>, children: bool)
    ensures var r := Lookup(fs, cfg, parent, name, stat, dirStat, children).1;
            if parent !in fs.inodes.entries then r == Err(NotFound) else
              var path := Paths.JoinPath(fs.inodes.entries[parent].path, name);
              var n := NumberFor(fs.inodes, path);
              if KnownAbsent(fs, cfg, path) then r == Err(NotFound)
              else Inodes.GetInode(fs.inodes, path).Some? && Fresh(fs, cfg, n) ==> r == Ok((n, fs.meta.attrs[n].attr))
  {
    hide Probe, Paths.JoinPath, Paths.Normalize;
  }

  /** A create succeeds exactly when the parent is known and its PUT goes through. It leaves an empty object,
      all others as they were, and the path mapped to a file of size 0; a failed one leaves everything but
      the request count. */
  lemma CreateSucceedsIff(fs: Fs, cfg: Config, parent: nat, name: string)
    ensures var (fs', r) := Create(fs, cfg, parent, name);
            && (r.Ok? <==> parent in fs.inodes.entries && fs.store.requests !in fs.store.outages)
            && (r.Err? ==> r.error == (if parent in fs.inodes.entries then IoError else NotFound)
                           && fs' == fs.(store := fs.store.(requests := fs'.store.requests)))
            && (r.Ok? ==>
                  var path := Paths.JoinPath(fs.inodes.entries[parent].path, name);
                  && fs'.store.objects == fs.store.objects[ObsPath(cfg, path) := []]
                  && FoundAs(fs, fs', path, r, 0, false, false)
                  && path !in fs'.meta.negative)
  {
    hide Metadata.PutAttr, Paths.JoinPath, Paths.Normalize, ObsPath;
  }
}
