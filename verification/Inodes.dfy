/** The inode table: paths to numbers and numbers to entries, kept inverse to each other. */
module Inodes {
  import opened Base
  import opened Paths

  const ROOT_INODE: nat := 1

  datatype InodeEntry = InodeEntry(path: string, isDir: bool, size: nat)

  datatype Table = Table(paths: map<string, nat>, entries: map<nat, InodeEntry>, next: nat)

  function NewEntry(path: string, isDir: bool, size: nat): InodeEntry {
    InodeEntry(path, isDir, if isDir then 4096 else size)
  }

  function New(): Table {
    Table(map["" := ROOT_INODE], map[ROOT_INODE := NewEntry("", true, 0)], ROOT_INODE + 1)
  }

  function GetInode(t: Table, path: string): Option<nat> {
    var p := Normalize(path);
    if p in t.paths then Some(t.paths[p]) else None
  }

  function GetPath(t: Table, inode: nat): Option<string> {
    if inode in t.entries then Some(t.entries[inode].path) else None
  }

  function GetOrCreate(t: Table, path: string, isDir: bool, size: nat): (Table, nat) {
    var p := Normalize(path);
    if p in t.paths then (t, t.paths[p])
    else
      (Table(t.paths[p := t.next], t.entries[t.next := NewEntry(p, isDir, size)], t.next + 1), t.next)
  }

  function UpdateSize(t: Table, inode: nat, size: nat): Table {
    if inode in t.entries then t.(entries := t.entries[inode := t.entries[inode].(size := size)]) else t
  }

  function Remove(t: Table, inode: nat): Table {
    if inode in t.entries then
      t.(entries := t.entries - {inode}, paths := t.paths - {t.entries[inode].path})
    else t
  }

  function RemoveByPath(t: Table, path: string): Table {
    var p := Normalize(path);
    if p in t.paths then t.(paths := t.paths - {p}, entries := t.entries - {t.paths[p]}) else t
  }

  /** The target's old mapping, if any, is overwritten; its entry stays. */
  function Rename(t: Table, oldPath: string, newPath: string): Table {
    var o, n := Normalize(oldPath), Normalize(newPath);
    if o in t.paths then
      var inode := t.paths[o];
      t.(paths := (t.paths - {o})[n := inode],
         entries := if inode in t.entries then t.entries[inode := t.entries[inode].(path := n)] else t.entries)
    else t
  }

  // ---------------------------------------------------------------- invariants over whole runs

  /** Every mapped path's number has an entry with that same path. */
  ghost predicate PathsResolve(t: Table) {
    forall p :: p in t.paths ==> t.paths[p] in t.entries && t.entries[t.paths[p]].path == p
  }

  /** Every entry's path is mapped to its number. */
  ghost predicate EntriesMapped(t: Table) {
    forall n :: n in t.entries ==> t.entries[n].path in t.paths && t.paths[t.entries[n].path] == n
  }

  ghost predicate Issued(t: Table) {
    forall n :: n in t.entries ==> n < t.next
  }

  ghost predicate Valid(t: Table) {
    PathsResolve(t) && Issued(t)
  }

  lemma NoSharedInodes(t: Table, p: string, q: string)
    requires PathsResolve(t) && p in t.paths && q in t.paths && t.paths[p] == t.paths[q]
    ensures p == q
  {
  }

  datatype Op =
    | OpCreate(path: string, isDir: bool, size: nat)
    | OpUpdateSize(inode: nat, size: nat)
    | OpRemove(inode: nat)
    | OpRemoveByPath(path: string)
    | OpRename(oldPath: string, newPath: string)

  function Step(t: Table, op: Op): Table {
    match op
    case OpCreate(path, isDir, size) => GetOrCreate(t, path, isDir, size).0
    case OpUpdateSize(inode, size) => UpdateSize(t, inode, size)
    case OpRemove(inode) => Remove(t, inode)
    case OpRemoveByPath(path) => RemoveByPath(t, path)
    case OpRename(o, n) => Rename(t, o, n)
  }

  function Exec(t: Table, ops: seq<Op>): Table {
    if ops == [] then t else Step(Exec(t, ops[..|ops| - 1]), ops[|ops| - 1])
  }

  lemma StepKeepsValid(t: Table, op: Op)
    requires Valid(t)
    ensures Valid(Step(t, op)) && t.next <= Step(t, op).next
  {
  }

  /** The rename leaves the target's entry orphaned unless the target is free or is the source. */
  predicate FreeTarget(t: Table, op: Op) {
    op.OpRename? ==>
      || Normalize(op.oldPath) !in t.paths
      || Normalize(op.newPath) !in t.paths
      || Normalize(op.newPath) == Normalize(op.oldPath)
  }

  /** A step keeps the two maps inverse exactly when it is not a rename onto another mapped path. */
  lemma StepKeepsInverseIff(t: Table, op: Op)
    requires Valid(t) && EntriesMapped(t)
    ensures EntriesMapped(Step(t, op)) <==> FreeTarget(t, op)
  {
    if !FreeTarget(t, op) {
      var target := t.paths[Normalize(op.newPath)];
      assert target in Step(t, op).entries;
    }
  }

  ghost predicate FreeTargets(t: Table, ops: seq<Op>) {
    forall i :: 0 <= i < |ops| ==> FreeTarget(Exec(t, ops[..i]), ops[i])
  }

  /** Over every run each mapped path resolves to an entry with that path; on runs whose renames only
      target free paths, the two maps are inverse throughout. */
  lemma {:induction false} RunKeepsMaps(ops: seq<Op>)
    ensures Valid(Exec(New(), ops))
    ensures FreeTargets(New(), ops) ==> EntriesMapped(Exec(New(), ops))
  {
    if ops != [] {
      var front := ops[..|ops| - 1];
      RunKeepsMaps(front);
      StepKeepsValid(Exec(New(), front), ops[|ops| - 1]);
      if FreeTargets(New(), ops) {
        assert forall i :: 0 <= i < |front| ==> front[i] == ops[i] && front[..i] == ops[..i];
        StepKeepsInverseIff(Exec(New(), front), ops[|ops| - 1]);
      }
    }
  }

  /** Stored paths are normal on both sides of the table, over every run. */
  ghost predicate PathsNormal(t: Table) {
    (forall p :: p in t.paths ==> Normal(p)) && forall n :: n in t.entries ==> Normal(t.entries[n].path)
  }

  lemma {:induction false} RunKeepsNormal(ops: seq<Op>)
    ensures PathsNormal(Exec(New(), ops))
  {
    if ops != [] {
      RunKeepsNormal(ops[..|ops| - 1]);
      match ops[|ops| - 1]
      case OpCreate(path, isDir, size) => NormalizeIsNormal(path);
      case OpRename(o, n) => NormalizeIsNormal(n);
      case _ =>
    }
  }

  /** The numbers handed to new paths along a run, in order. */
  function NewNumbers(t: Table, ops: seq<Op>): seq<nat> {
    if ops == [] then [] else
      var before := Exec(t, ops[..|ops| - 1]);
      var op := ops[|ops| - 1];
      NewNumbers(t, ops[..|ops| - 1])
      + if op.OpCreate? && Normalize(op.path) !in before.paths then [before.next] else []
  }

  /** Strictly increasing numbers in [lo, hi). */
  ghost predicate Increasing(ns: seq<nat>, lo: nat, hi: nat) {
    && lo <= hi
    && (forall i :: 0 <= i < |ns| ==> lo <= ns[i] < hi)
    && (forall i, j :: 0 <= i < j < |ns| ==> ns[i] < ns[j])
  }

  /** No number is ever issued twice, removals and renames notwithstanding. */
  lemma {:induction false} NumbersNeverReused(t: Table, ops: seq<Op>)
    requires Valid(t)
    ensures Valid(Exec(t, ops)) && Increasing(NewNumbers(t, ops), t.next, Exec(t, ops).next)
  {
    if ops != [] {
      var front := ops[..|ops| - 1];
      NumbersNeverReused(t, front);
      StepKeepsValid(Exec(t, front), ops[|ops| - 1]);
    }
  }

  /** A mapped path keeps its number and nothing changes; a new path gets the next number, both ways, with
      the given kind and size (a directory counting 4096 bytes), and nothing else changes. */
  lemma GetOrCreateAnswers(t: Table, path: string, isDir: bool, size: nat)
    requires Valid(t)
    ensures var p, (t', n) := Normalize(path), GetOrCreate(t, path, isDir, size);
            && GetInode(t', path) == Some(n) && GetPath(t', n) == Some(p)
            && (p in t.paths ==> t' == t)
            && (p !in t.paths ==>
                  && n == t.next && n !in t.entries
                  && t'.entries[n] == InodeEntry(p, isDir, if isDir then 4096 else size)
                  && t'.paths - {p} == t.paths && t'.entries - {n} == t.entries && t'.next == t.next + 1)
  {
  }

  /** Removing by path unmaps exactly that path and drops exactly its number's entry. */
  lemma RemoveByPathExact(t: Table, path: string)
    requires Valid(t)
    ensures var p, t' := Normalize(path), RemoveByPath(t, path);
            && GetInode(t', path) == None
            && t'.paths == t.paths - {p} && t'.next == t.next
            && t'.entries == (if p in t.paths then t.entries - {t.paths[p]} else t.entries)
  {
  }

  /** Removing by number drops exactly that entry and unmaps exactly the path it names. */
  lemma RemoveExact(t: Table, inode: nat)
    ensures var t' := Remove(t, inode);
            && GetPath(t', inode) == None && t'.entries == t.entries - {inode} && t'.next == t.next
            && t'.paths == (if inode in t.entries then t.paths - {t.entries[inode].path} else t.paths)
  {
  }

  /** A rename changes the path map at the two paths only, and the number moves with the file. */
  lemma RenameMovesNumber(t: Table, oldPath: string, newPath: string)
    requires Valid(t) && Normalize(oldPath) in t.paths
    ensures var o, n, t' := Normalize(oldPath), Normalize(newPath), Rename(t, oldPath, newPath);
            && GetInode(t', newPath) == GetInode(t, oldPath)
            && GetPath(t', t.paths[o]) == Some(n)
            && (o != n ==> GetInode(t', oldPath) == None)
            && (forall p :: p != o && p != n ==> (p in t'.paths <==> p in t.paths))
            && (forall p :: p in t.paths && p != o && p != n ==> t'.paths[p] == t.paths[p])
            && t'.entries == t.entries[t.paths[o] := t.entries[t.paths[o]].(path := n)]
            && t'.next == t.next
  {
  }

  /** After a rename onto a mapped path, removing the overwritten inode unmaps the renamed file: its
      entry still names the path, and the next lookup issues the path a new number. */
  lemma OverwrittenInodeUnmapsSurvivor(t: Table, oldPath: string, newPath: string)
    requires Valid(t) && EntriesMapped(t)
    requires Normalize(oldPath) in t.paths && Normalize(newPath) in t.paths
    requires Normalize(oldPath) != Normalize(newPath)
    ensures var survivor := t.paths[Normalize(oldPath)];
            var overwritten := t.paths[Normalize(newPath)];
            var t' := Remove(Rename(t, oldPath, newPath), overwritten);
            && GetPath(t', survivor) == Some(Normalize(newPath))
            && GetInode(t', newPath) == None
            && GetOrCreate(t', newPath, false, 0).1 == t.next != survivor
  {
  }

  // ---------------------------------------------------------------- the program

  class InodeManager {
    var pathToInode: map<string, nat>
    var inodeToEntry: map<nat, InodeEntry>
    var nextInode: nat

    ghost function State(): Table
      reads this
    {
      Table(pathToInode, inodeToEntry, nextInode)
    }

    constructor ()
      ensures State() == New()
    {
      nextInode := ROOT_INODE + 1;
      pathToInode := map["" := ROOT_INODE];
      inodeToEntry := map[ROOT_INODE := NewEntry("", true, 0)];
    }

    method GetOrCreateInode(path: string, isDir: bool, size: nat) returns (inode: nat)
      modifies this
      ensures (State(), inode) == GetOrCreate(old(State()), path, isDir, size)
    {
      var normalized := Normalize(path);
      if normalized in pathToInode { return pathToInode[normalized]; }
      inode := nextInode;
      nextInode := nextInode + 1;
      pathToInode := pathToInode[normalized := inode];
      inodeToEntry := inodeToEntry[inode := NewEntry(normalized, isDir, size)];
    }

    method SetSize(inode: nat, size: nat)
      modifies this`inodeToEntry
      ensures State() == UpdateSize(old(State()), inode, size)
    {
      if inode in inodeToEntry {
        inodeToEntry := inodeToEntry[inode := inodeToEntry[inode].(size := size)];
      }
    }

    method RemoveInode(inode: nat)
      modifies this
      ensures State() == Remove(old(State()), inode)
    {
      if inode in inodeToEntry {
        var path := inodeToEntry[inode].path;
        inodeToEntry := inodeToEntry - {inode};
        pathToInode := pathToInode - {path};
      }
    }

    method RemovePath(path: string)
      modifies this
      ensures State() == RemoveByPath(old(State()), path)
    {
      var normalized := Normalize(path);
      if normalized in pathToInode {
        var inode := pathToInode[normalized];
        pathToInode := pathToInode - {normalized};
        inodeToEntry := inodeToEntry - {inode};
      }
    }

    method RenamePath(oldPath: string, newPath: string)
      modifies this
      ensures State() == Rename(old(State()), oldPath, newPath)
    {
      var oldNormalized, newNormalized := Normalize(oldPath), Normalize(newPath);
      if oldNormalized in pathToInode {
        var inode := pathToInode[oldNormalized];
        pathToInode := pathToInode - {oldNormalized};
        pathToInode := pathToInode[newNormalized := inode];
        if inode in inodeToEntry {
          inodeToEntry := inodeToEntry[inode := inodeToEntry[inode].(path := newNormalized)];
        }
      }
    }
  }
}
