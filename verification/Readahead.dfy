/** Read-ahead: sequential detection per inode, prefetch windows, and the prefetch buffer. */
module Readahead {
  import opened Base

  datatype Config = Config(enable: bool, window: nat, threshold: nat, ttl: nat)

  datatype ReadState = ReadState(lastOffset: nat, lastSize: nat, seqCount: nat, prefetchOffset: nat)

  datatype PrefetchKey = PrefetchKey(inode: nat, offset: nat)

  datatype Prefetched = Prefetched(data: Bytes, fetchedAt: nat)

  datatype Request = Request(inode: nat, offset: nat, size: nat)

  datatype State = State(files: map<nat, ReadState>, buffer: map<PrefetchKey, Prefetched>, now: nat)

  function NewReadState(): ReadState { ReadState(0, 0, 0, 0) }

  function New(): State { State(map[], map[], 0) }

  function IsNext(r: ReadState, offset: nat): bool { offset == r.lastOffset + r.lastSize }

  function Update(r: ReadState, offset: nat, size: nat): ReadState {
    r.(lastOffset := offset, lastSize := size, seqCount := if IsNext(r, offset) then r.seqCount + 1 else 1)
  }

  /** A sequential read past everything prefetched so far opens a new window at its end. */
  function Record(r: ReadState, cfg: Config, offset: nat, size: nat): (ReadState, Option<nat>) {
    var r' := Update(r, offset, size);
    var start := offset + size;
    if IsNext(r, offset) && r'.seqCount >= cfg.threshold && start > r'.prefetchOffset then
      (r'.(prefetchOffset := start + cfg.window), Some(start))
    else (r', None)
  }

  function StateOf(s: State, inode: nat): ReadState {
    if inode in s.files then s.files[inode] else NewReadState()
  }

  function RecordRead(s: State, cfg: Config, inode: nat, offset: nat, size: nat): (State, Option<Request>) {
    if !cfg.enable then (s, None) else
      var (r, start) := Record(StateOf(s, inode), cfg, offset, size);
      (s.(files := s.files[inode := r]),
       if start.Some? then Some(Request(inode, start.value, cfg.window)) else None)
  }

  predicate Expired(s: State, cfg: Config, p: Prefetched) { SatSub(s.now, p.fetchedAt) > cfg.ttl }

  function GetPrefetched(s: State, cfg: Config, inode: nat, offset: nat): (State, Option<Bytes>) {
    var key := PrefetchKey(inode, offset);
    if key !in s.buffer then (s, None)
    else if Expired(s, cfg, s.buffer[key]) then (s.(buffer := s.buffer - {key}), None)
    else (s, Some(s.buffer[key].data))
  }

  function StorePrefetched(s: State, inode: nat, offset: nat, data: Bytes): State {
    s.(buffer := s.buffer[PrefetchKey(inode, offset) := Prefetched(data, s.now)])
  }

  function Invalidate(s: State, inode: nat): State {
    s.(files := s.files - {inode},
       buffer := map k | k in s.buffer && k.inode != inode :: s.buffer[k])
  }

  function Clear(s: State): State { s.(files := map[], buffer := map[]) }

  // ---------------------------------------------------------------- runs

  datatype Op =
    | OpRead(inode: nat, offset: nat, size: nat)
    | OpGet(inode: nat, offset: nat)
    | OpStore(inode: nat, offset: nat, data: Bytes)
    | OpInvalidate(inode: nat)
    | OpClear
    | OpWait(time: nat)

  function Step(s: State, cfg: Config, op: Op): (State, Option<Request>) {
    match op
    case OpRead(i, o, size) => RecordRead(s, cfg, i, o, size)
    case OpGet(i, o) => (GetPrefetched(s, cfg, i, o).0, None)
    case OpStore(i, o, data) => (StorePrefetched(s, i, o, data), None)
    case OpInvalidate(i) => (Invalidate(s, i), None)
    case OpClear => (Clear(s), None)
    case OpWait(time) => (s.(now := s.now + time), None)
  }

  function Exec(cfg: Config, ops: seq<Op>): State {
    if ops == [] then New() else Step(Exec(cfg, ops[..|ops| - 1]), cfg, ops[|ops| - 1]).0
  }

  datatype Read = Read(offset: nat, size: nat)

  /** The inode's recorded reads since it was last invalidated, oldest first. */
  function Reads(ops: seq<Op>, inode: nat): seq<Read> {
    if ops == [] then [] else
      var before := Reads(ops[..|ops| - 1], inode);
      match ops[|ops| - 1]
      case OpRead(i, o, size) => if i == inode then before + [Read(o, size)] else before
      case OpInvalidate(i) => if i == inode then [] else before
      case OpClear => []
      case _ => before
  }

  /** The prefetches issued for the inode since it was last invalidated, oldest first. */
  function Requests(cfg: Config, ops: seq<Op>, inode: nat): seq<Request> {
    if ops == [] then [] else
      var before := Requests(cfg, ops[..|ops| - 1], inode);
      match ops[|ops| - 1]
      case OpRead(i, o, size) =>
        var r := Step(Exec(cfg, ops[..|ops| - 1]), cfg, ops[|ops| - 1]).1;
        if i == inode && r.Some? then before + [r.value] else before
      case OpInvalidate(i) => if i == inode then [] else before
      case OpClear => []
      case _ => before
  }

  // ---------------------------------------------------------------- sequential detection

  function End(r: Read): nat { r.offset + r.size }

  /** The last `n` reads are contiguous: each but the first starts where its predecessor ended. */
  ghost predicate ContiguousSuffix(history: seq<Read>, n: nat) {
    && n <= |history|
    && forall k :: |history| - n < k < |history| ==> history[k].offset == End(history[k - 1])
  }

  ghost predicate LongestSuffix(history: seq<Read>, n: nat) {
    && ContiguousSuffix(history, n)
    && (history != [] ==> n > 0)
    && !ContiguousSuffix(history, n + 1)
  }

  lemma SuffixSnoc(history: seq<Read>, r: Read, n: nat)
    requires n > 0
    ensures ContiguousSuffix(history + [r], n + 1)
            <==> ContiguousSuffix(history, n) && r.offset == End(history[|history| - 1])
    ensures ContiguousSuffix(history + [r], 1)
  {
    var all := history + [r];
    if ContiguousSuffix(all, n + 1) {
      assert all[|history|].offset == End(all[|history| - 1]);
      forall k | |history| - n < k < |history| ensures history[k].offset == End(history[k - 1]) {
        assert all[k].offset == End(all[k - 1]);
      }
    }
  }

  /** What the read state of an inode says about its history. */
  ghost predicate Reflects(s: State, cfg: Config, inode: nat, history: seq<Read>, requests: seq<Request>) {
    var r := StateOf(s, inode);
    && (history == [] ==> r == NewReadState())
    && (history != [] ==> r.lastOffset == history[|history| - 1].offset && r.lastSize == history[|history| - 1].size)
    && LongestSuffix(history, r.seqCount)
    && (requests == [] ==> r.prefetchOffset == 0)
    && (requests != [] ==> r.prefetchOffset == requests[|requests| - 1].offset + cfg.window)
  }

  lemma RecordReflects(s: State, cfg: Config, inode: nat, offset: nat, size: nat,
                       history: seq<Read>, requests: seq<Request>)
    requires cfg.enable && Reflects(s, cfg, inode, history, requests)
    ensures var (s', r) := RecordRead(s, cfg, inode, offset, size);
            Reflects(s', cfg, inode, history + [Read(offset, size)], if r.Some? then requests + [r.value] else requests)
  {
    var now := Read(offset, size);
    var r := StateOf(s, inode);
    SuffixSnoc(history, now, 1);
    if history != [] {
      SuffixSnoc(history, now, r.seqCount);
      SuffixSnoc(history, now, r.seqCount + 1);
    }
  }

  lemma ReflectsSame(s: State, s': State, cfg: Config, inode: nat, history: seq<Read>, requests: seq<Request>)
    requires Reflects(s, cfg, inode, history, requests) && StateOf(s', inode) == StateOf(s, inode)
    ensures Reflects(s', cfg, inode, history, requests)
  {
  }

  lemma ReflectsNothing(s: State, cfg: Config, inode: nat)
    requires inode !in s.files
    ensures Reflects(s, cfg, inode, [], [])
  {
  }

  /** Sequential detection refines the history: over every run the counter of each inode is the length
      of the longest contiguous suffix of its recorded reads. */
  lemma {:induction false} SeqCountIsLongestSuffix(cfg: Config, ops: seq<Op>, inode: nat)
    requires cfg.enable
    ensures Reflects(Exec(cfg, ops), cfg, inode, Reads(ops, inode), Requests(cfg, ops, inode))
  {
    hide Reflects;
    if ops == [] {
      ReflectsNothing(New(), cfg, inode);
    } else {
      var front, op := ops[..|ops| - 1], ops[|ops| - 1];
      SeqCountIsLongestSuffix(cfg, front, inode);
      if op.OpRead? && op.inode == inode {
        RecordReflects(Exec(cfg, front), cfg, inode, op.offset, op.size,
                       Reads(front, inode), Requests(cfg, front, inode));
      } else if op.OpClear? || (op.OpInvalidate? && op.inode == inode) {
        ReflectsNothing(Exec(cfg, ops), cfg, inode);
      } else {
        ReflectsSame(Exec(cfg, front), Exec(cfg, ops), cfg, inode, Reads(front, inode), Requests(cfg, front, inode));
      }
    }
  }

  /** With a threshold of at least 2, a read issues a prefetch exactly when the last `threshold` reads,
      itself included, are contiguous and it ends beyond every window issued so far. */
  lemma PrefetchIssuedIff(cfg: Config, ops: seq<Op>, inode: nat, offset: nat, size: nat)
    requires cfg.enable && cfg.threshold >= 2
    ensures var requests := Requests(cfg, ops, inode);
            RecordRead(Exec(cfg, ops), cfg, inode, offset, size).1.Some?
            <==>
              && ContiguousSuffix(Reads(ops, inode) + [Read(offset, size)], cfg.threshold)
              && offset + size > (if requests == [] then 0 else requests[|requests| - 1].offset + cfg.window)
  {
    SeqCountIsLongestSuffix(cfg, ops, inode);
    var history, r := Reads(ops, inode), StateOf(Exec(cfg, ops), inode);
    SuffixSnoc(history, Read(offset, size), cfg.threshold - 1);
    assert r.seqCount >= cfg.threshold - 1 <==> ContiguousSuffix(history, cfg.threshold - 1);
  }

  // ---------------------------------------------------------------- windows

  /** Windows in issue order, each starting strictly beyond the end of the one before. */
  ghost predicate Disjoint(requests: seq<Request>, window: nat) {
    && (forall i :: 0 <= i < |requests| ==> requests[i].size == window && requests[i].offset > 0)
    && (forall i, j :: 0 <= i < j < |requests| ==> requests[i].offset + window < requests[j].offset)
  }

  function MaxEnd(history: seq<Read>): nat {
    if history == [] then 0 else Max(MaxEnd(history[..|history| - 1]), End(history[|history| - 1]))
  }

  ghost predicate WindowsOk(s: State, cfg: Config, inode: nat, history: seq<Read>, requests: seq<Request>) {
    && Disjoint(requests, cfg.window)
    && (forall i :: 0 <= i < |requests| ==> requests[i].offset <= MaxEnd(history))
    && (requests != [] ==> StateOf(s, inode).prefetchOffset == requests[|requests| - 1].offset + cfg.window)
  }

  /** A window beyond the last one keeps the windows disjoint. */
  lemma DisjointSnoc(requests: seq<Request>, r: Request, window: nat)
    requires Disjoint(requests, window) && r.size == window && r.offset > 0
    requires requests != [] ==> requests[|requests| - 1].offset + window < r.offset
    ensures Disjoint(requests + [r], window)
  {
  }

  lemma MaxEndSnoc(history: seq<Read>, r: Read)
    ensures MaxEnd(history + [r]) == Max(MaxEnd(history), End(r))
  {
    assert (history + [r])[..|history|] == history;
  }

  lemma RecordWindows(s: State, cfg: Config, inode: nat, offset: nat, size: nat,
                      history: seq<Read>, requests: seq<Request>)
    requires WindowsOk(s, cfg, inode, history, requests)
    ensures var (s', r) := RecordRead(s, cfg, inode, offset, size);
            WindowsOk(s', cfg, inode, history + [Read(offset, size)],
                      if r.Some? then requests + [r.value] else requests)
  {
    hide Disjoint, MaxEnd;
    MaxEndSnoc(history, Read(offset, size));
    var r := RecordRead(s, cfg, inode, offset, size).1;
    if r.Some? { DisjointSnoc(requests, r.value, cfg.window); }
  }

  /** Between invalidations of an inode its prefetch windows are strictly increasing and pairwise
      disjoint, under any reads of any inodes, backward seeks included. */
  lemma {:induction false} WindowsDisjoint(cfg: Config, ops: seq<Op>, inode: nat)
    ensures WindowsOk(Exec(cfg, ops), cfg, inode, Reads(ops, inode), Requests(cfg, ops, inode))
  {
    if ops != [] {
      var front, op := ops[..|ops| - 1], ops[|ops| - 1];
      WindowsDisjoint(cfg, front, inode);
      if op.OpRead? && op.inode == inode {
        RecordWindows(Exec(cfg, front), cfg, inode, op.offset, op.size,
                       Reads(front, inode), Requests(cfg, front, inode));
      } else if !op.OpClear? && !(op.OpInvalidate? && op.inode == inode) {
        assert StateOf(Exec(cfg, ops), inode) == StateOf(Exec(cfg, front), inode);
      }
    }
  }

  lemma {:induction false} DisjointSpan(requests: seq<Request>, window: nat)
    requires requests != [] && Disjoint(requests, window)
    ensures (|requests| - 1) * (window + 1) < requests[|requests| - 1].offset
  {
    if |requests| > 1 {
      var front := requests[..|requests| - 1];
      DisjointSpan(front, window);
      assert (|requests| - 1) * (window + 1) == (|front| - 1) * (window + 1) + (window + 1);
    }
  }

  /** So n prefetches need reads reaching beyond (n - 1) windows. */
  lemma PrefetchesBounded(cfg: Config, ops: seq<Op>, inode: nat)
    ensures var n := |Requests(cfg, ops, inode)|;
            n > 0 ==> (n - 1) * (cfg.window + 1) < MaxEnd(Reads(ops, inode))
  {
    WindowsDisjoint(cfg, ops, inode);
    if Requests(cfg, ops, inode) != [] { DisjointSpan(Requests(cfg, ops, inode), cfg.window); }
  }

  // ---------------------------------------------------------------- the program

  /** Switched off, it records nothing and never asks for a prefetch. */
  lemma {:induction false} DisabledIsSilent(cfg: Config, ops: seq<Op>, inode: nat)
    requires !cfg.enable
    ensures Exec(cfg, ops).files == map[] && Requests(cfg, ops, inode) == []
  {
    if ops != [] { DisabledIsSilent(cfg, ops[..|ops| - 1], inode); }
  }

  /** Invalidating an inode takes its read state and all its windows, and nothing of any other inode. */
  lemma InvalidateTakesOne(s: State, cfg: Config, inode: nat, i: nat, offset: nat)
    ensures var s' := Invalidate(s, inode);
            && GetPrefetched(s', cfg, i, offset).1 == (if i == inode then None else GetPrefetched(s, cfg, i, offset).1)
            && (i in s'.files <==> i in s.files && i != inode)
            && (i in s'.files ==> s'.files[i] == s.files[i])
  {
  }

  /** Clearing takes everything. */
  lemma ClearTakesAll(s: State, cfg: Config, i: nat, offset: nat)
    ensures GetPrefetched(Clear(s), cfg, i, offset).1 == None && i !in Clear(s).files
  {
  }

  /** A window is served at its own start, to its own inode, exactly while its time to live lasts, and
      storing it changes what no other start answers. */
  lemma ServedIff(s: State, cfg: Config, inode: nat, offset: nat, data: Bytes, time: nat, i: nat, o: nat)
    ensures var stored := StorePrefetched(s, inode, offset, data);
            var s' := stored.(now := stored.now + time);
            && GetPrefetched(s', cfg, inode, offset).1 == (if time <= cfg.ttl then Some(data) else None)
            && ((i, o) != (inode, offset) ==>
                  GetPrefetched(stored, cfg, i, o).1 == GetPrefetched(s, cfg, i, o).1)
  {
  }

  class ReadaheadManager {
    var fileStates: map<nat, ReadState>
    var prefetchBuffer: map<PrefetchKey, Prefetched>
    var now: nat
    const config: Config

    ghost function View(): State
      reads this
    {
      State(fileStates, prefetchBuffer, now)
    }

    constructor (config: Config)
      ensures View() == New() && this.config == config
    {
      fileStates, prefetchBuffer, now := map[], map[], 0;
      this.config := config;
    }

    method Wait(time: nat)
      modifies this`now
      ensures View() == old(View()).(now := old(now) + time)
    {
      now := now + time;
    }

    method Record(inode: nat, offset: nat, size: nat) returns (request: Option<Request>)
      modifies this
      ensures (View(), request) == RecordRead(old(View()), config, inode, offset, size)
    {
      if !config.enable { return None; }
      var state := if inode in fileStates then fileStates[inode] else NewReadState();
      var isSequential := offset == state.lastOffset + state.lastSize;
      state := state.(seqCount := if isSequential then state.seqCount + 1 else 1);
      state := state.(lastOffset := offset, lastSize := size);
      request := None;
      if isSequential && state.seqCount >= config.threshold {
        var start := offset + size;
        if start > state.prefetchOffset {
          state := state.(prefetchOffset := start + config.window);
          request := Some(Request(inode, start, config.window));
        }
      }
      fileStates := fileStates[inode := state];
    }

    method TakePrefetched(inode: nat, offset: nat) returns (data: Option<Bytes>)
      modifies this
      ensures (View(), data) == GetPrefetched(old(View()), config, inode, offset)
    {
      var key := PrefetchKey(inode, offset);
      if key in prefetchBuffer {
        var entry := prefetchBuffer[key];
        if SatSub(now, entry.fetchedAt) <= config.ttl { return Some(entry.data); }
        prefetchBuffer := prefetchBuffer - {key};
      }
      return None;
    }

    method Store(inode: nat, offset: nat, data: Bytes)
      modifies this
      ensures View() == StorePrefetched(old(View()), inode, offset, data)
    {
      prefetchBuffer := prefetchBuffer[PrefetchKey(inode, offset) := Prefetched(data, now)];
    }

    method ClearAll()
      modifies this
      ensures View() == Clear(old(View()))
    {
      fileStates := map[];
      prefetchBuffer := map[];
    }

    method InvalidateInode(inode: nat)
      modifies this
      ensures View() == Invalidate(old(View()), inode)
    {
      fileStates := fileStates - {inode};
      ghost var before := prefetchBuffer;
      var rest := set k | k in prefetchBuffer && k.inode == inode;
      ghost var gone := rest;
      while rest != {}
        invariant rest <= gone
        invariant prefetchBuffer == before - (gone - rest)
        modifies this`prefetchBuffer
        decreases rest
      {
        var k :| k in rest;
        prefetchBuffer := prefetchBuffer - {k};
        rest := rest - {k};
      }
    }
  }
}
