/** Object keys: every path of the mount has its own key below the configured prefix. */
module ObjectPaths {
  import opened FileSystem
  import opened Paths
  import Inodes

  /** Without a prefix the key is the path. With one, its components are the prefix's and then the path's;
      the root's key is the prefix itself. */
  lemma KeyUnderPrefix(cfg: Config, path: string)
    ensures var key := ObsPath(cfg, path);
            if cfg.prefix.None? then key == path
            else if path == "" then key == cfg.prefix.value
            else Split(key) == Split(TrimEnd(cfg.prefix.value)) + Split(path)
  {
    if cfg.prefix.Some? { SplitAround(TrimEnd(cfg.prefix.value), path); }
  }

  /** Distinct paths have distinct keys. */
  lemma KeysDistinct(cfg: Config, p: string, q: string)
    requires Normal(p) && Normal(q)
    ensures ObsPath(cfg, p) == ObsPath(cfg, q) <==> p == q
  {
    if cfg.prefix.Some? && ObsPath(cfg, p) == ObsPath(cfg, q) {
      var front := TrimEnd(cfg.prefix.value) + "/";
      if p != "" && q != "" {
        assert p == (front + p)[|front|..] && q == (front + q)[|front|..];
      } else if p != "" {
        RootKeyIsShort(cfg.prefix.value, p);
      } else if q != "" {
        RootKeyIsShort(cfg.prefix.value, q);
      }
    }
  }

  lemma RootKeyIsShort(prefix: string, path: string)
    requires path != "" && Normal(path)
    ensures TrimEnd(prefix) + "/" + path != prefix
  {
    var key := TrimEnd(prefix) + "/" + path;
    assert key[|key| - 1] == path[|path| - 1];
    assert TrimEnd(key) == key;
  }

  /** So along every run of the inode table two mapped paths never share an object. */
  lemma MappedPathsHaveOwnObjects(cfg: Config, ops: seq<Inodes.Op>, p: string, q: string)
    requires var t := Inodes.Exec(Inodes.New(), ops); p in t.paths && q in t.paths && p != q
    ensures ObsPath(cfg, p) != ObsPath(cfg, q)
  {
    Inodes.RunKeepsNormal(ops);
    KeysDistinct(cfg, p, q);
  }
}
