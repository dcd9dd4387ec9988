/** Directory paging: resuming a listing from an offset gives the rest of the full listing, and pages
    of any sizes enumerate every entry once, exactly when no skipped name is empty or a dot name. */
module Paging {
  import opened Base
  import opened FileSystem
  import opened Paths
  import Inodes

  /** The simple form of paging: the entries beyond an offset. */
  function FromOffset(entries: seq<DirEntry>, offset: int): seq<DirEntry> {
    if entries == [] then []
    else (if entries[0].offset > offset then [entries[0]] else []) + FromOffset(entries[1..], offset)
  }

  function Child(dir: string, m: ObjectMeta): string { Normalize(JoinPath(dir, Name(m))) }

  predicate Good(m: ObjectMeta) { !BadName(Name(m)) }

  /** Every child that would be listed already has a number. */
  ghost predicate Registered(t: Inodes.Table, dir: string, listing: seq<ObjectMeta>) {
    forall i :: 0 <= i < |listing| && Good(listing[i]) ==> Child(dir, listing[i]) in t.paths
  }

  /** The entries of the good names of a registered listing, offsets from `next` on. */
  function Entries(t: Inodes.Table, dir: string, listing: seq<ObjectMeta>, next: int): seq<DirEntry>
  {
    if listing == [] then []
    else if !Good(listing[0]) then Entries(t, dir, listing[1..], next)
    else
      var c := Child(dir, listing[0]);
      [DirEntry(if c in t.paths then t.paths[c] else 0, Name(listing[0]), listing[0].isDir, next)]
      + Entries(t, dir, listing[1..], next + 1)
  }

  // ---------------------------------------------------------------- the loop and the table

  /** `t'` keeps every mapping of `t`. */
  ghost predicate Extends(t: Inodes.Table, t': Inodes.Table) {
    forall p :: p in t.paths ==> p in t'.paths && t'.paths[p] == t.paths[p]
  }

  lemma {:induction false} LoopExtends(
    fs: Fs, cfg: Config, dir: string, listing: seq<ObjectMeta>, offset: int, next: int)
    ensures Extends(fs.inodes, ListEntries(fs, cfg, dir, listing, offset, next).0.inodes)
    decreases |listing|
  {
    if listing != [] {
      var m := listing[0];
      if next <= offset {
        LoopExtends(fs, cfg, dir, listing[1..], offset, next + 1);
      } else if BadName(Name(m)) {
        LoopExtends(fs, cfg, dir, listing[1..], offset, next);
      } else {
        LoopExtends(Register(fs, cfg, JoinPath(dir, Name(m)), m.isDir, m.size, FromMeta(m)).0,
                    cfg, dir, listing[1..], offset, next + 1);
      }
    }
  }

  /** Past the skipped part the loop registers every good name and lists it with its number. */
  lemma {:induction false} LoopLists(fs: Fs, cfg: Config, dir: string, listing: seq<ObjectMeta>, offset: int, next: int)
    requires next > offset
    ensures var (fs', entries) := ListEntries(fs, cfg, dir, listing, offset, next);
            Registered(fs'.inodes, dir, listing) && entries == Entries(fs'.inodes, dir, listing, next)
    decreases |listing|
  {
    if listing != [] {
      var m := listing[0];
      if BadName(Name(m)) {
        LoopLists(fs, cfg, dir, listing[1..], offset, next);
      } else {
        var fs1 := Register(fs, cfg, JoinPath(dir, Name(m)), m.isDir, m.size, FromMeta(m)).0;
        LoopLists(fs1, cfg, dir, listing[1..], offset, next + 1);
        LoopExtends(fs1, cfg, dir, listing[1..], offset, next + 1);
        assert Child(dir, m) in fs1.inodes.paths;
      }
    }
  }

  /** On a registered listing the loop changes no inode. */
  lemma {:induction false} LoopStable(
    fs: Fs, cfg: Config, dir: string, listing: seq<ObjectMeta>, offset: int, next: int)
    requires Registered(fs.inodes, dir, listing)
    ensures ListEntries(fs, cfg, dir, listing, offset, next).0.inodes == fs.inodes
    decreases |listing|
  {
    if listing != [] {
      var m := listing[0];
      assert forall i :: 0 <= i < |listing[1..]| ==> listing[1..][i] == listing[i + 1];
      if next <= offset {
        LoopStable(fs, cfg, dir, listing[1..], offset, next + 1);
      } else if BadName(Name(m)) {
        LoopStable(fs, cfg, dir, listing[1..], offset, next);
      } else {
        LoopStable(Register(fs, cfg, JoinPath(dir, Name(m)), m.isDir, m.size, FromMeta(m)).0,
                   cfg, dir, listing[1..], offset, next + 1);
      }
    }
  }

  /** The loop skips by position: it lists the good names after the first `offset - next + 1` objects. */
  lemma {:induction false} LoopSkips(fs: Fs, cfg: Config, dir: string, listing: seq<ObjectMeta>, offset: int, next: int)
    requires Registered(fs.inodes, dir, listing)
    ensures var m := if next > offset then 0 else Min(offset - next + 1, |listing|);
            ListEntries(fs, cfg, dir, listing, offset, next).1 == Entries(fs.inodes, dir, listing[m..], next + m)
    decreases |listing|
  {
    hide Registered, Register, Entries, BadName, Name;
    if next > offset {
      assert listing[0..] == listing;
      LoopLists(fs, cfg, dir, listing, offset, next);
      LoopStable(fs, cfg, dir, listing, offset, next);
    } else if listing == [] {
      NoEntries(fs.inodes, dir, next);
    } else {
      RegisteredTail(fs.inodes, dir, listing);
      LoopSkips(fs, cfg, dir, listing[1..], offset, next + 1);
      var m := Min(offset - next + 1, |listing|);
      assert listing[1..][m - 1..] == listing[m..];
    }
  }

  lemma NoEntries(t: Inodes.Table, dir: string, next: int)
    ensures Entries(t, dir, [], next) == []
  {
  }

  lemma RegisteredTail(t: Inodes.Table, dir: string, listing: seq<ObjectMeta>)
    requires listing != [] && Registered(t, dir, listing)
    ensures Registered(t, dir, listing[1..])
  {
  }

  // ---------------------------------------------------------------- entries and offsets

  function CountGood(listing: seq<ObjectMeta>): nat {
    if listing == [] then 0 else (if Good(listing[0]) then 1 else 0) + CountGood(listing[1..])
  }

  lemma {:induction false} EntriesOffsets(t: Inodes.Table, dir: string, listing: seq<ObjectMeta>, next: int)
    ensures var es := Entries(t, dir, listing, next);
            |es| == CountGood(listing) && forall i :: 0 <= i < |es| ==> es[i].offset == next + i
    decreases |listing|
  {
    if listing != [] {
      EntriesOffsets(t, dir, listing[1..], if Good(listing[0]) then next + 1 else next);
    }
  }

  lemma {:induction false} FilterAll(es: seq<DirEntry>, offset: int)
    requires forall i :: 0 <= i < |es| ==> es[i].offset > offset
    ensures FromOffset(es, offset) == es
    decreases |es|
  {
    if es != [] {
      FilterAll(es[1..], offset);
      assert es == [es[0]] + es[1..];
    }
  }

  /** Consecutive offsets make the filter a suffix. */
  lemma {:induction false} FilterIsSuffix(es: seq<DirEntry>, next: int, offset: int)
    requires forall i :: 0 <= i < |es| ==> es[i].offset == next + i
    ensures FromOffset(es, offset) == if offset < next then es else es[Min(offset - next + 1, |es|)..]
    decreases |es|
  {
    if offset < next {
      FilterAll(es, offset);
    } else if es != [] {
      FilterIsSuffix(es[1..], next + 1, offset);
      assert es[1..][Min(offset - next, |es| - 1)..] == es[Min(offset - next + 1, |es|)..];
    }
  }

  lemma {:induction false} FilterAppend(a: seq<DirEntry>, b: seq<DirEntry>, offset: int)
    ensures FromOffset(a + b, offset) == FromOffset(a, offset) + FromOffset(b, offset)
    decreases |a|
  {
    if a == [] {
      assert a + b == b;
    } else {
      assert (a + b)[1..] == a[1..] + b;
      FilterAppend(a[1..], b, offset);
    }
  }

  lemma {:induction false} CountSplit(listing: seq<ObjectMeta>, m: nat)
    requires m <= |listing|
    ensures CountGood(listing[..m]) + CountGood(listing[m..]) == CountGood(listing)
    ensures CountGood(listing[..m]) <= m
    ensures CountGood(listing[..m]) == m <==> forall i :: 0 <= i < m ==> Good(listing[i])
    decreases m
  {
    hide Good;
    if m == 0 {
      assert listing[0..] == listing;
    } else {
      CountSplit(listing[1..], m - 1);
      assert listing[..m][1..] == listing[1..][..m - 1] && listing[1..][m - 1..] == listing[m..];
      assert forall i :: 0 <= i < m - 1 ==> listing[1..][i] == listing[i + 1];
    }
  }

  /** A good first object gives one entry. */
  lemma GoodHead(t: Inodes.Table, dir: string, listing: seq<ObjectMeta>, next: int) returns (head: DirEntry)
    requires listing != [] && Good(listing[0])
    ensures Entries(t, dir, listing, next) == [head] + Entries(t, dir, listing[1..], next + 1)
  {
    hide Child, Good;
    head := Entries(t, dir, listing, next)[0];
  }

  /** Skipping `m` objects without a bad name among them skips `m` entries. */
  lemma {:induction false} EntriesSkip(t: Inodes.Table, dir: string, listing: seq<ObjectMeta>, next: int, m: nat)
    requires m <= |listing| && forall i :: 0 <= i < m ==> Good(listing[i])
    ensures m <= |Entries(t, dir, listing, next)|
    ensures Entries(t, dir, listing, next)[m..] == Entries(t, dir, listing[m..], next + m)
    decreases m
  {
    hide Entries, Good;
    if m == 0 {
      assert listing[0..] == listing;
    } else {
      assert listing[1..][m - 1..] == listing[m..];
      EntriesSkip(t, dir, listing[1..], next + 1, m - 1);
      var head := GoodHead(t, dir, listing, next);
      var tail := Entries(t, dir, listing[1..], next + 1);
      assert ([head] + tail)[m..] == tail[m - 1..];
    }
  }

  /** Positions and entries agree at `m`: no bad name is skipped, or no good name is left. */
  predicate SkipsNoBadName(listing: seq<ObjectMeta>, m: nat)
    requires m <= |listing|
  {
    (forall i :: 0 <= i < m ==> Good(listing[i])) || CountGood(listing[m..]) == 0
  }

  lemma SuffixAgreesIff(t: Inodes.Table, dir: string, listing: seq<ObjectMeta>, m: nat)
    requires m <= |listing|
    ensures var es := Entries(t, dir, listing, 3);
            Entries(t, dir, listing[m..], 3 + m) == es[Min(m, |es|)..] <==> SkipsNoBadName(listing, m)
  {
    var es, rest := Entries(t, dir, listing, 3), Entries(t, dir, listing[m..], 3 + m);
    EntriesOffsets(t, dir, listing, 3);
    EntriesOffsets(t, dir, listing[m..], 3 + m);
    CountSplit(listing, m);
    if forall i :: 0 <= i < m ==> Good(listing[i]) {
      EntriesSkip(t, dir, listing, 3, m);
    } else {
      assert |es[Min(m, |es|)..]| == |es| - Min(m, |es|);
    }
  }

  // ---------------------------------------------------------------- paging

  /** How many objects a resumption from `offset` skips. */
  function Skipped(listing: seq<ObjectMeta>, offset: int): nat {
    if offset < 3 then 0 else Min(offset - 2, |listing|)
  }

  lemma {:induction false} LoopLeavesOthers(
    fs: Fs, cfg: Config, dir: string, listing: seq<ObjectMeta>, offset: int, next: int, p: string)
    requires p !in fs.inodes.paths
    requires forall i :: 0 <= i < |listing| && Good(listing[i]) ==> Child(dir, listing[i]) != p
    ensures p !in ListEntries(fs, cfg, dir, listing, offset, next).0.inodes.paths
    decreases |listing|
  {
    if listing != [] {
      var m := listing[0];
      assert forall i :: 0 <= i < |listing[1..]| ==> listing[1..][i] == listing[i + 1];
      if next <= offset {
        LoopLeavesOthers(fs, cfg, dir, listing[1..], offset, next + 1, p);
      } else if BadName(Name(m)) {
        LoopLeavesOthers(fs, cfg, dir, listing[1..], offset, next, p);
      } else {
        assert Child(dir, m) != p;
        LoopLeavesOthers(Register(fs, cfg, JoinPath(dir, Name(m)), m.isDir, m.size, FromMeta(m)).0,
                         cfg, dir, listing[1..], offset, next + 1, p);
      }
    }
  }

  /** A child's path is longer than the path of the directory it is listed in. */
  lemma ChildIsLonger(dir: string, m: ObjectMeta)
    requires Normal(dir) && Good(m)
    ensures |Child(dir, m)| > |dir|
  {
    var name := Name(m);
    var whole := TrimEnd(m.path);
    SplitSlashFree(whole);
    assert '/' !in name;
    JoinThenSplit(dir, name);
    var path := JoinPath(dir, name);
    assert name[0] in name && name[|name| - 1] in name;
    TrimEndKeeps(dir);
    NormalizeIsNormal(dir);
    assert Normal(path);
    NormalizeIsNormal(path);
  }

  lemma ParentStays(fs: Fs, cfg: Config, inode: nat, dir: string, listing: seq<ObjectMeta>)
    requires Normal(dir)
    ensures ParentInode(ListEntries(fs, cfg, dir, listing, 0, 3).0.inodes, inode, dir)
         == ParentInode(fs.inodes, inode, dir)
  {
    hide ListEntries, Child;
    LoopExtends(fs, cfg, dir, listing, 0, 3);
    var parent := ParentPath(dir);
    if parent.Some? {
      NormalizeIsNormal(dir);
      var p := Normalize(parent.value);
      ParentDropsOne(dir);
      forall i | 0 <= i < |listing| && Good(listing[i]) ensures Child(dir, listing[i]) != p {
        ChildIsLonger(dir, listing[i]);
      }
      if p !in fs.inodes.paths { LoopLeavesOthers(fs, cfg, dir, listing, 0, 3, p); }
    }
  }

  /** The state and the entries of the full listing. */
  ghost function Full(fs: Fs, cfg: Config, inode: nat, listing: seq<ObjectMeta>): (Fs, seq<DirEntry>)
    requires inode in fs.inodes.entries
  {
    var (fs1, r) := Readdir(fs, cfg, inode, 0, Some(listing));
    (fs1, r.value)
  }

  /** The full listing: dots, then the good names with consecutive offsets and their numbers. */
  lemma FullListing(fs: Fs, cfg: Config, inode: nat, listing: seq<ObjectMeta>)
    requires inode in fs.inodes.entries && Normal(fs.inodes.entries[inode].path)
    ensures var (fs1, all) := Full(fs, cfg, inode, listing);
            var dir := fs.inodes.entries[inode].path;
            && Registered(fs1.inodes, dir, listing)
            && all == Dots(fs1.inodes, inode, dir, 0) + Entries(fs1.inodes, dir, listing, 3)
            && |all| == CountGood(listing) + 2
            && forall i :: 0 <= i < |all| ==> all[i].offset == i + 1
  {
    var dir := fs.inodes.entries[inode].path;
    LoopLists(fs, cfg, dir, listing, 0, 3);
    ParentStays(fs, cfg, inode, dir, listing);
    EntriesOffsets(Full(fs, cfg, inode, listing).0.inodes, dir, listing, 3);
  }

  /** Resuming on a registered table gives the dots and objects beyond the offset, by position. */
  lemma PageFrom(fs: Fs, cfg: Config, inode: nat, listing: seq<ObjectMeta>, offset: int)
    requires inode in fs.inodes.entries && Registered(fs.inodes, fs.inodes.entries[inode].path, listing)
    ensures var (fs', page) := Readdir(fs, cfg, inode, offset, Some(listing));
            var dir, m := fs.inodes.entries[inode].path, Skipped(listing, offset);
            && fs'.inodes == fs.inodes
            && page == Ok(Dots(fs.inodes, inode, dir, offset) + Entries(fs.inodes, dir, listing[m..], 3 + m))
  {
    var dir := fs.inodes.entries[inode].path;
    LoopStable(fs, cfg, dir, listing, offset, 3);
    LoopSkips(fs, cfg, dir, listing, offset, 3);
  }

  lemma EntryKept(fs: Fs, cfg: Config, inode: nat, listing: seq<ObjectMeta>)
    requires inode in fs.inodes.entries && Inodes.Valid(fs.inodes)
    ensures var fs1 := Full(fs, cfg, inode, listing).0;
            inode in fs1.inodes.entries && fs1.inodes.entries[inode] == fs.inodes.entries[inode]
  {
    LoopKeepsEntry(fs, cfg, fs.inodes.entries[inode].path, listing, 0, 3, inode);
  }

  lemma {:induction false} LoopKeepsEntry(
    fs: Fs, cfg: Config, dir: string, listing: seq<ObjectMeta>, offset: int, next: int, inode: nat)
    requires inode in fs.inodes.entries && Inodes.Valid(fs.inodes)
    ensures var t := ListEntries(fs, cfg, dir, listing, offset, next).0.inodes;
            inode in t.entries && t.entries[inode] == fs.inodes.entries[inode]
    decreases |listing|
  {
    if listing != [] {
      var m := listing[0];
      if next <= offset {
        LoopKeepsEntry(fs, cfg, dir, listing[1..], offset, next + 1, inode);
      } else if BadName(Name(m)) {
        LoopKeepsEntry(fs, cfg, dir, listing[1..], offset, next, inode);
      } else {
        RegisterInodes(fs.inodes, JoinPath(dir, Name(m)), m.isDir, m.size);
        LoopKeepsEntry(Register(fs, cfg, JoinPath(dir, Name(m)), m.isDir, m.size, FromMeta(m)).0,
                       cfg, dir, listing[1..], offset, next + 1, inode);
      }
    }
  }

  lemma DotsFilter(t: Inodes.Table, inode: nat, dir: string, offset: int)
    ensures FromOffset(Dots(t, inode, dir, 0), offset) == Dots(t, inode, dir, offset)
  {
    hide ParentInode;
    var dot, dotdot := DirEntry(inode, ".", true, 1), DirEntry(ParentInode(t, inode, dir), "..", true, 2);
    assert Dots(t, inode, dir, 0) == [dot] + [dotdot];
    FilterAppend([dot], [dotdot], offset);
    assert [dot][1..] == [] && [dotdot][1..] == [];
  }

  lemma SameFront<T>(a: seq<T>, b: seq<T>, c: seq<T>)
    ensures a + b == a + c <==> b == c
  {
    assert b == (a + b)[|a|..] && c == (a + c)[|a|..];
  }

  /** The page by position equals the filtered full listing exactly when it skips no bad name. */
  lemma PageAgreesIff(t: Inodes.Table, inode: nat, dir: string, listing: seq<ObjectMeta>, offset: int)
    ensures var m := Skipped(listing, offset);
            Dots(t, inode, dir, offset) + Entries(t, dir, listing[m..], 3 + m)
              == FromOffset(Dots(t, inode, dir, 0) + Entries(t, dir, listing, 3), offset)
            <==> SkipsNoBadName(listing, m)
  {
    hide Entries, Dots, FromOffset, SkipsNoBadName;
    var m, es := Skipped(listing, offset), Entries(t, dir, listing, 3);
    EntriesOffsets(t, dir, listing, 3);
    FilterAppend(Dots(t, inode, dir, 0), es, offset);
    DotsFilter(t, inode, dir, offset);
    FilterIsSuffix(es, 3, offset);
    SkippedSuffix(es, listing, offset);
    SuffixAgreesIff(t, dir, listing, m);
    SameFront(Dots(t, inode, dir, offset), Entries(t, dir, listing[m..], 3 + m), FromOffset(es, offset));
  }

  /** After a full listing of a stable directory, resuming from any offset gives exactly the entries of
      the full listing beyond it, inode numbers included, if and only if the resumption skips no bad
      name (or nothing is left after what it skips). */
  lemma ResumeIff(fs: Fs, cfg: Config, inode: nat, listing: seq<ObjectMeta>, offset: int)
    requires Inodes.Valid(fs.inodes) && inode in fs.inodes.entries && Normal(fs.inodes.entries[inode].path)
    ensures var (fs1, all) := Full(fs, cfg, inode, listing);
            Readdir(fs1, cfg, inode, offset, Some(listing)).1 == Ok(FromOffset(all, offset))
            <==> SkipsNoBadName(listing, Skipped(listing, offset))
  {
    hide Inodes.Valid, Full, Readdir, Entries, Registered, Dots, FromOffset, SkipsNoBadName;
    FullListing(fs, cfg, inode, listing);
    EntryKept(fs, cfg, inode, listing);
    var fs1 := Full(fs, cfg, inode, listing).0;
    PageFrom(fs1, cfg, inode, listing, offset);
    PageAgreesIff(fs1.inodes, inode, fs.inodes.entries[inode].path, listing, offset);
  }

  lemma SkippedSuffix(es: seq<DirEntry>, listing: seq<ObjectMeta>, offset: int)
    requires |es| == CountGood(listing)
    ensures (if offset < 3 then es else es[Min(offset - 2, |es|)..]) == es[Min(Skipped(listing, offset), |es|)..]
  {
    CountSplit(listing, |listing|);
    assert listing[..|listing|] == listing;
    assert es[0..] == es;
  }

  // ---------------------------------------------------------------- enumeration

  /** A reader takes the first `sizes[i]` entries of page `i` and resumes from the last one it took. */
  ghost function Enumerate(fs: Fs, cfg: Config, inode: nat, listing: seq<ObjectMeta>, from: nat, sizes: seq<nat>)
    : seq<DirEntry>
    decreases |sizes|
  {
    if sizes == [] then [] else
      var (fs', page) := Readdir(fs, cfg, inode, from, Some(listing));
      if page.Err? then [] else
        var taken := page.value[..Min(sizes[0], |page.value|)];
        var last := if taken == [] || taken[|taken| - 1].offset < 0 then from else taken[|taken| - 1].offset;
        taken + Enumerate(fs', cfg, inode, listing, last, sizes[1..])
  }

  function Sum(sizes: seq<nat>): nat { if sizes == [] then 0 else sizes[0] + Sum(sizes[1..]) }

  ghost predicate IsFull(fs: Fs, inode: nat, listing: seq<ObjectMeta>, all: seq<DirEntry>)
    requires inode in fs.inodes.entries
  {
    var dir := fs.inodes.entries[inode].path;
    && Registered(fs.inodes, dir, listing)
    && all == Dots(fs.inodes, inode, dir, 0) + Entries(fs.inodes, dir, listing, 3)
  }

  /** With good names only, the page from an offset is the rest of the full listing. */
  lemma PageIsSuffix(fs: Fs, cfg: Config, inode: nat, listing: seq<ObjectMeta>, all: seq<DirEntry>, from: nat)
    requires inode in fs.inodes.entries && IsFull(fs, inode, listing, all)
    requires forall i :: 0 <= i < |listing| ==> Good(listing[i])
    requires from <= |all|
    ensures var (fs', page) := Readdir(fs, cfg, inode, from, Some(listing));
            && page == Ok(all[from..])
            && fs'.inodes == fs.inodes && IsFull(fs', inode, listing, all)
    ensures FromOffset(all, from) == all[from..]
    ensures forall i :: 0 <= i < |all| ==> all[i].offset == i + 1
  {
    hide Readdir, Entries, Registered, FromOffset, Dots;
    var t, dir := fs.inodes, fs.inodes.entries[inode].path;
    PageFrom(fs, cfg, inode, listing, from);
    PageAgreesIff(t, inode, dir, listing, from);
    FullOffsets(t, inode, dir, listing);
    FilterIsSuffix(all, 1, from);
    assert from == 0 ==> all[0..] == all;
  }

  lemma FullOffsets(t: Inodes.Table, inode: nat, dir: string, listing: seq<ObjectMeta>)
    ensures var all := Dots(t, inode, dir, 0) + Entries(t, dir, listing, 3);
            forall i :: 0 <= i < |all| ==> all[i].offset == i + 1
  {
    hide Entries, ParentInode;
    EntriesOffsets(t, dir, listing, 3);
  }

  /** Taking `n` entries of the rest of the full listing resumes the reader `n` entries further on. */
  lemma EnumerateStep(fs: Fs, cfg: Config, inode: nat, listing: seq<ObjectMeta>,
                      all: seq<DirEntry>, from: nat, sizes: seq<nat>)
    requires sizes != [] && from <= |all|
    requires Readdir(fs, cfg, inode, from, Some(listing)).1 == Ok(all[from..])
    requires forall i :: 0 <= i < |all| ==> all[i].offset == i + 1
    ensures var n, fs' := Min(sizes[0], |all| - from), Readdir(fs, cfg, inode, from, Some(listing)).0;
            Enumerate(fs, cfg, inode, listing, from, sizes)
            == all[from..from + n] + Enumerate(fs', cfg, inode, listing, from + n, sizes[1..])
  {
    hide Readdir;
    var n := Min(sizes[0], |all| - from);
    assert all[from..][..n] == all[from..from + n];
    if n > 0 { assert all[from..from + n][n - 1] == all[from + n - 1]; }
  }

  /** With good names only, pages of any sizes enumerate the full listing in order, each entry once. */
  lemma {:induction false} PagesEnumerate(fs: Fs, cfg: Config, inode: nat, listing: seq<ObjectMeta>,
                                          all: seq<DirEntry>, from: nat, sizes: seq<nat>)
    requires inode in fs.inodes.entries && IsFull(fs, inode, listing, all)
    requires forall i :: 0 <= i < |listing| ==> Good(listing[i])
    requires from <= |all|
    ensures Enumerate(fs, cfg, inode, listing, from, sizes) == all[from..Min(from + Sum(sizes), |all|)]
    decreases |sizes|
  {
    hide Readdir, IsFull, FromOffset, Good;
    if sizes != [] {
      var fs' := Readdir(fs, cfg, inode, from, Some(listing)).0;
      PageIsSuffix(fs, cfg, inode, listing, all, from);
      EnumerateStep(fs, cfg, inode, listing, all, from, sizes);
      hide Enumerate;
      var n := Min(sizes[0], |all| - from);
      PagesEnumerate(fs', cfg, inode, listing, all, from + n, sizes[1..]);
      SliceJoin(all, from, n, Min(from + Sum(sizes), |all|));
    }
  }

  lemma SliceJoin<T>(all: seq<T>, from: nat, n: nat, to: nat)
    requires from + n <= to <= |all|
    ensures all[from..from + n] + all[from + n..to] == all[from..to]
  {
  }

  /** Starting from a directory as it is: list it once, then page through it from the beginning. */
  lemma PagesEnumerateDirectory(fs: Fs, cfg: Config, inode: nat, listing: seq<ObjectMeta>, sizes: seq<nat>)
    requires Inodes.Valid(fs.inodes) && inode in fs.inodes.entries && Normal(fs.inodes.entries[inode].path)
    requires forall i :: 0 <= i < |listing| ==> Good(listing[i])
    ensures var (fs1, all) := Full(fs, cfg, inode, listing);
            && |all| == |listing| + 2
            && Enumerate(fs1, cfg, inode, listing, 0, sizes) == all[..Min(Sum(sizes), |all|)]
  {
    hide Inodes.Valid, Full, Readdir, Entries, Registered, Dots;
    var (fs1, all) := Full(fs, cfg, inode, listing);
    FullListing(fs, cfg, inode, listing);
    EntryKept(fs, cfg, inode, listing);
    PagesEnumerate(fs1, cfg, inode, listing, all, 0, sizes);
    CountSplit(listing, |listing|);
    assert listing[..|listing|] == listing;
  }
}
