/** Concurrent inode allocation: any number of callers of `get_or_create_inode`, interleaved at its
    four atomic steps. */
module InodeRaces {
  import opened Base
  import opened Paths
  import opened Inodes

  /** Where a caller is: before the lookup, before `fetch_add`, before either insert, or finished with
      a number it looked up or allocated. */
  datatype Pc =
    | Lookup
    | Fetch
    | InsertPath(n: nat)
    | InsertEntry(n: nat)
    | Done(n: nat, missed: bool)

  datatype Caller = Caller(path: string, isDir: bool, size: nat, pc: Pc)

  datatype System = System(t: Table, callers: seq<Caller>)

  function Key(c: Caller): string { Normalize(c.path) }

  function CallerStep(t: Table, c: Caller): (Table, Pc) {
    var p := Key(c);
    match c.pc
    case Lookup => (t, if p in t.paths then Done(t.paths[p], false) else Fetch)
    case Fetch => (t.(next := t.next + 1), InsertPath(t.next))
    case InsertPath(n) => (t.(paths := t.paths[p := n]), InsertEntry(n))
    case InsertEntry(n) => (t.(entries := t.entries[n := NewEntry(p, c.isDir, c.size)]), Done(n, true))
    case Done(n, missed) => (t, c.pc)
  }

  /** Caller `i` takes its next step. */
  function Step(s: System, i: nat): System {
    if i < |s.callers| then
      var (t, pc) := CallerStep(s.t, s.callers[i]);
      System(t, s.callers[i := s.callers[i].(pc := pc)])
    else s
  }

  function Exec(s: System, schedule: seq<nat>): System {
    if schedule == [] then s else Step(Exec(s, schedule[..|schedule| - 1]), schedule[|schedule| - 1])
  }

  predicate Start(s: System) {
    forall c :: c in s.callers ==> c.pc == Lookup
  }

  predicate AllDone(s: System) {
    forall i :: 0 <= i < |s.callers| ==> s.callers[i].pc.Done?
  }

  /** The number a caller took from the counter, if it has. */
  function Allocated(c: Caller): Option<nat> {
    match c.pc
    case InsertPath(n) => Some(n)
    case InsertEntry(n) => Some(n)
    case Done(n, true) => Some(n)
    case _ => None
  }

  predicate Missed(c: Caller) {
    c.pc.Fetch? || Allocated(c).Some?
  }

  /** Caller `j` has mapped path `p` to `n` and has yet to insert the entry. */
  ghost predicate Announces(s: System, j: int, p: string, n: nat) {
    0 <= j < |s.callers| && s.callers[j].pc == InsertEntry(n) && Key(s.callers[j]) == p
  }

  /** `n` is the number of path `p`, by its entry or by an entry about to be inserted. */
  ghost predicate Names(s: System, n: nat, p: string) {
    (n in s.t.entries && s.t.entries[n].path == p) || exists j :: Announces(s, j, p, n)
  }

  ghost predicate Distinct(s: System) {
    forall i, j :: 0 <= i < j < |s.callers| && Allocated(s.callers[i]).Some? ==>
      Allocated(s.callers[i]) != Allocated(s.callers[j])
  }

  ghost predicate Counted(s: System) {
    && (forall n :: n in s.t.entries ==> n < s.t.next)
    && (forall i :: 0 <= i < |s.callers| && Allocated(s.callers[i]).Some? ==>
          Allocated(s.callers[i]).value < s.t.next)
    && (forall i :: 0 <= i < |s.callers| && (s.callers[i].pc.InsertPath? || s.callers[i].pc.InsertEntry?) ==>
          s.callers[i].pc.n !in s.t.entries)
  }

  ghost predicate Mapped(s: System) {
    && (forall p :: p in s.t.paths ==> Names(s, s.t.paths[p], p))
    && (forall i :: 0 <= i < |s.callers| && s.callers[i].pc.Done? ==>
          Names(s, s.callers[i].pc.n, Key(s.callers[i])))
  }

  ghost predicate Inv(s: System) { Distinct(s) && Counted(s) && Mapped(s) }

  lemma NamesKept(s: System, i: nat, n: nat, p: string)
    requires i < |s.callers| && Counted(s) && Distinct(s) && Names(s, n, p)
    ensures Names(Step(s, i), n, p)
  {
    var s' := Step(s, i);
    if !(n in s.t.entries && s.t.entries[n].path == p) {
      var j :| Announces(s, j, p, n);
      if j != i { assert Announces(s', j, p, n); }
    }
  }

  lemma StepDistinct(s: System, i: nat)
    requires Distinct(s) && Counted(s)
    ensures Distinct(Step(s, i)) && Counted(Step(s, i))
  {
  }

  lemma StepMapped(s: System, i: nat)
    requires Inv(s) && i < |s.callers|
    ensures Mapped(Step(s, i))
  {
    var s', c := Step(s, i), s.callers[i];
    forall n, p | Names(s, n, p) ensures Names(s', n, p) { NamesKept(s, i, n, p); }
    if c.pc.InsertPath? { assert Announces(s', i, Key(c), c.pc.n); }
  }

  lemma {:induction false} RunInv(s: System, schedule: seq<nat>)
    requires Inv(s)
    ensures Inv(Exec(s, schedule)) && |Exec(s, schedule).callers| == |s.callers|
    ensures forall i :: 0 <= i < |s.callers| ==> Key(Exec(s, schedule).callers[i]) == Key(s.callers[i])
  {
    if schedule != [] {
      var front := Exec(s, schedule[..|schedule| - 1]);
      RunInv(s, schedule[..|schedule| - 1]);
      StepDistinct(front, schedule[|schedule| - 1]);
      if schedule[|schedule| - 1] < |front.callers| { StepMapped(front, schedule[|schedule| - 1]); }
    }
  }

  lemma StartInv(s: System)
    requires Start(s) && Valid(s.t)
    ensures Inv(s)
  {
  }

  /** In every interleaving, no two callers ever hold the same allocated number. */
  lemma AllocationsNeverCollide(s: System, schedule: seq<nat>, i: nat, j: nat)
    requires Start(s) && Valid(s.t) && i < j < |s.callers|
    ensures var s' := Exec(s, schedule);
            && |s'.callers| == |s.callers|
            && (Allocated(s'.callers[i]).Some? ==> Allocated(s'.callers[i]) != Allocated(s'.callers[j]))
  {
    StartInv(s);
    RunInv(s, schedule);
  }

  /** Once every call has returned, each number handed out resolves to the normalised path its caller
      asked for, and every mapped path resolves. */
  lemma HandedOutNumbersResolve(s: System, schedule: seq<nat>, i: nat)
    requires Start(s) && Valid(s.t) && i < |s.callers|
    requires AllDone(Exec(s, schedule))
    ensures var s' := Exec(s, schedule);
            && |s'.callers| == |s.callers|
            && GetPath(s'.t, s'.callers[i].pc.n) == Some(Key(s.callers[i]))
            && Valid(s'.t)
  {
    StartInv(s);
    RunInv(s, schedule);
  }

  // ---------------------------------------------------------------- stability of a mapping

  /** No caller for `p` is between its missed lookup and its path insert. */
  ghost predicate Settled(s: System, p: string) {
    && p in s.t.paths
    && forall i :: 0 <= i < |s.callers| && Key(s.callers[i]) == p ==>
         !s.callers[i].pc.Fetch? && !s.callers[i].pc.InsertPath?
  }

  /** A settled mapping never changes again, whatever calls follow and however they interleave. */
  lemma {:induction false} SettledForever(s: System, schedule: seq<nat>, p: string)
    requires Settled(s, p)
    ensures Settled(Exec(s, schedule), p)
    ensures Exec(s, schedule).t.paths[p] == s.t.paths[p]
  {
    if schedule != [] {
      SettledForever(s, schedule[..|schedule| - 1], p);
    }
  }

  /** After all calls have returned, later create calls leave every mapping in place. */
  lemma QuiescentMappingsStay(s: System, schedule: seq<nat>, later: seq<Caller>, more: seq<nat>, p: string)
    requires AllDone(Exec(s, schedule)) && p in Exec(s, schedule).t.paths
    requires forall c :: c in later ==> c.pc == Lookup
    ensures var s1 := Exec(s, schedule);
            var s2 := Exec(System(s1.t, s1.callers + later), more);
            p in s2.t.paths && s2.t.paths[p] == s1.t.paths[p]
  {
    var s1 := Exec(s, schedule);
    var all := s1.callers + later;
    assert forall i :: |s1.callers| <= i < |all| ==> all[i] == later[i - |s1.callers|] && all[i] in later;
    SettledForever(System(s1.t, all), more, p);
  }

  // ---------------------------------------------------------------- racing callers

  ghost predicate AtMostOneMiss(s: System, p: string) {
    forall i, j | 0 <= i < |s.callers| && 0 <= j < |s.callers|
                  && Key(s.callers[i]) == p && Key(s.callers[j]) == p
                  && Missed(s.callers[i]) && Missed(s.callers[j]) :: i == j
  }

  /** While at most one caller for `p` has missed, everybody who has a number for `p` has the mapped one. */
  ghost predicate Agreed(s: System, p: string) {
    && (forall i | 0 <= i < |s.callers| && Key(s.callers[i]) == p
                   && (s.callers[i].pc.Fetch? || s.callers[i].pc.InsertPath?) :: p !in s.t.paths)
    && (forall i | 0 <= i < |s.callers| && Key(s.callers[i]) == p
                   && (s.callers[i].pc.InsertEntry? || s.callers[i].pc.Done?) ::
          p in s.t.paths && s.t.paths[p] == s.callers[i].pc.n)
  }

  /** Missing is for good, so the step before had no more missers. */
  lemma MissesGrow(s: System, i: nat, p: string)
    requires AtMostOneMiss(Step(s, i), p)
    ensures AtMostOneMiss(s, p)
  {
    var s' := Step(s, i);
    forall j | 0 <= j < |s.callers|
      ensures Key(s'.callers[j]) == Key(s.callers[j]) && (Missed(s.callers[j]) ==> Missed(s'.callers[j]))
    {
    }
  }

  lemma StepAgreed(s: System, i: nat, p: string)
    requires AtMostOneMiss(s, p) && AtMostOneMiss(Step(s, i), p)
    requires Agreed(s, p)
    ensures Agreed(Step(s, i), p)
  {
  }

  lemma {:induction false} RunAgreed(s: System, schedule: seq<nat>, p: string)
    requires Start(s)
    ensures AtMostOneMiss(Exec(s, schedule), p) ==> Agreed(Exec(s, schedule), p)
  {
    if schedule != [] {
      RunAgreed(s, schedule[..|schedule| - 1], p);
      if AtMostOneMiss(Exec(s, schedule), p) {
        MissesGrow(Exec(s, schedule[..|schedule| - 1]), schedule[|schedule| - 1], p);
        StepAgreed(Exec(s, schedule[..|schedule| - 1]), schedule[|schedule| - 1], p);
      }
    }
  }

  ghost predicate SameNumber(s: System, p: string)
    requires AllDone(s)
  {
    forall i, j | 0 <= i < |s.callers| && 0 <= j < |s.callers|
                  && Key(s.callers[i]) == p && Key(s.callers[j]) == p ::
      s.callers[i].pc.n == s.callers[j].pc.n
  }

  /** All callers for a path get the same number if and only if at most one of them missed its lookup. */
  lemma SameNumberIff(s: System, schedule: seq<nat>, p: string)
    requires Start(s) && Valid(s.t) && AllDone(Exec(s, schedule))
    ensures SameNumber(Exec(s, schedule), p) <==> AtMostOneMiss(Exec(s, schedule), p)
  {
    var s' := Exec(s, schedule);
    StartInv(s);
    RunInv(s, schedule);
    RunAgreed(s, schedule, p);
    if !AtMostOneMiss(s', p) { TwoMissesDiffer(s', p); }
  }

  lemma TwoMissesDiffer(s: System, p: string)
    requires Distinct(s) && AllDone(s) && !AtMostOneMiss(s, p)
    ensures !SameNumber(s, p)
  {
  }

  /** Two callers that both look up before either inserts get different numbers for one path; the
      later insert wins the mapping and the earlier number keeps an entry nothing maps to. */
  lemma RaceGivesTwoNumbers(path: string, isDir: bool, size: nat)
    requires Normalize(path) != ""
    ensures var c, p := Caller(path, isDir, size, Lookup), Normalize(path);
            var entry := NewEntry(p, isDir, size);
            Exec(System(New(), [c, c]), [0, 1, 0, 1, 0, 1, 0, 1])
            == System(Table(New().paths[p := 3], New().entries[2 := entry][3 := entry], 4),
                      [c.(pc := Done(2, true)), c.(pc := Done(3, true))])
  {
    hide Exec;
    var c, p, t := Caller(path, isDir, size, Lookup), Normalize(path), New();
    var s := System(t, [c, c]);
    ExecNone(s);
    OneRound(s, []);
    BothStep(t, c, c);
    OneRound(s, [0, 1]);
    BothStep(t, c.(pc := Fetch), c.(pc := Fetch));
    OneRound(s, [0, 1, 0, 1]);
    BothStep(t.(next := 4), c.(pc := InsertPath(2)), c.(pc := InsertPath(3)));
    assert t.paths[p := 2][p := 3] == t.paths[p := 3];
    OneRound(s, [0, 1, 0, 1, 0, 1]);
    BothStep(t.(next := 4, paths := t.paths[p := 3]), c.(pc := InsertEntry(2)), c.(pc := InsertEntry(3)));
    assert [] + [0, 1] == [0, 1] && [0, 1] + [0, 1] == [0, 1, 0, 1];
    assert [0, 1, 0, 1] + [0, 1] == [0, 1, 0, 1, 0, 1];
    assert [0, 1, 0, 1, 0, 1] + [0, 1] == [0, 1, 0, 1, 0, 1, 0, 1];
  }

  lemma ExecNone(s: System)
    ensures Exec(s, []) == s
  {
  }

  lemma BothStep(t: Table, a: Caller, b: Caller)
    ensures var (t1, pa) := CallerStep(t, a);
            var (t2, pb) := CallerStep(t1, b);
            Step(Step(System(t, [a, b]), 0), 1) == System(t2, [a.(pc := pa), b.(pc := pb)])
  {
  }

  lemma OneRound(s: System, schedule: seq<nat>)
    ensures Exec(s, schedule + [0, 1]) == Step(Step(Exec(s, schedule), 0), 1)
  {
    ExecSnoc(s, schedule, 0);
    ExecSnoc(s, schedule + [0], 1);
    assert schedule + [0] + [1] == schedule + [0, 1];
  }

  lemma ExecSnoc(s: System, schedule: seq<nat>, i: nat)
    ensures Exec(s, schedule + [i]) == Step(Exec(s, schedule), i)
  {
  }
}
