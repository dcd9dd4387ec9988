/** The attribute cache with expiry and bounded size, and the cache of paths known to be absent. */
module Metadata {
  import opened Base
  import opened Lru

  datatype Config = Config(attrTtl: nat, negativeTtl: nat, maxEntries: nat)

  datatype FileAttr = FileAttr(ino: nat, size: nat, isDir: bool)

  datatype CachedAttr = CachedAttr(attr: FileAttr, cachedAt: nat)

  datatype State = State(attrs: map<nat, CachedAttr>, negative: map<string, nat>, now: nat)

  function New(): State { State(map[], map[], 0) }

  predicate Expired(s: State, stamp: nat, ttl: nat) { SatSub(s.now, stamp) > ttl }

  /** An expired entry is removed by the lookup that finds it. */
  function GetAttr(s: State, cfg: Config, inode: nat): (State, Option<FileAttr>) {
    if inode !in s.attrs then (s, None)
    else if Expired(s, s.attrs[inode].cachedAt, cfg.attrTtl) then (s.(attrs := s.attrs - {inode}), None)
    else (s, Some(s.attrs[inode].attr))
  }

  ghost function Stamps(s: State): map<nat, nat> {
    map i | i in s.attrs :: s.attrs[i].cachedAt
  }

  function Elements(s: seq<nat>): set<nat> { set i | i in s }

  /** The `count` entries cached longest ago. */
  ghost function OldestEntries(s: State, count: nat): set<nat> {
    var order := Recency(Stamps(s));
    Elements(order[..Min(count, |order|)])
  }

  ghost function Evict(s: State, count: nat): State {
    s.(attrs := s.attrs - OldestEntries(s, count))
  }

  function Insert(s: State, inode: nat, attr: FileAttr): State {
    s.(attrs := s.attrs[inode := CachedAttr(attr, s.now)], now := s.now + 1)
  }

  /** At the size limit a tenth of the limit is evicted first. */
  ghost function PutAttr(s: State, cfg: Config, inode: nat, attr: FileAttr): State {
    Insert(if |s.attrs| >= cfg.maxEntries then Evict(s, cfg.maxEntries / 10) else s, inode, attr)
  }

  /** The update its caller makes: the size grows to at least `size`. It also restamps the entry. */
  function GrowAttr(s: State, inode: nat, size: nat): State {
    if inode in s.attrs then
      var attr := s.attrs[inode].attr;
      Insert(s, inode, attr.(size := Max(attr.size, size)))
    else s
  }

  function InvalidateAttr(s: State, inode: nat): State { s.(attrs := s.attrs - {inode}) }

  function IsNegative(s: State, cfg: Config, path: string): (State, bool) {
    if path !in s.negative then (s, false)
    else if Expired(s, s.negative[path], cfg.negativeTtl) then (s.(negative := s.negative - {path}), false)
    else (s, true)
  }

  function PutNegative(s: State, path: string): State {
    s.(negative := s.negative[path := s.now], now := s.now + 1)
  }

  function Clear(s: State): State { s.(attrs := map[], negative := map[]) }

  function RemoveNegative(s: State, path: string): State { s.(negative := s.negative - {path}) }

  // ---------------------------------------------------------------- invariant and runs

  ghost predicate Valid(s: State) {
    Distinct(Stamps(s)) && Before(Stamps(s), s.now)
  }

  datatype Op =
    | OpGet(inode: nat)
    | OpPut(inode: nat, attr: FileAttr)
    | OpGrow(inode: nat, size: nat)
    | OpInvalidate(inode: nat)
    | OpClear
    | OpWait(time: nat)

  ghost function Step(s: State, cfg: Config, op: Op): State {
    match op
    case OpGet(i) => GetAttr(s, cfg, i).0
    case OpPut(i, attr) => PutAttr(s, cfg, i, attr)
    case OpGrow(i, size) => GrowAttr(s, i, size)
    case OpInvalidate(i) => InvalidateAttr(s, i)
    case OpClear => Clear(s)
    case OpWait(time) => s.(now := s.now + time)
  }

  ghost function Exec(cfg: Config, ops: seq<Op>): State {
    if ops == [] then New() else Step(Exec(cfg, ops[..|ops| - 1]), cfg, ops[|ops| - 1])
  }

  lemma RemoveKeeps(s: State, gone: set<nat>)
    requires Valid(s)
    ensures Valid(s.(attrs := s.attrs - gone))
  {
    assert Stamps(s.(attrs := s.attrs - gone)) == Stamps(s) - gone;
  }

  lemma InsertKeeps(s: State, inode: nat, attr: FileAttr)
    requires Valid(s)
    ensures Valid(Insert(s, inode, attr))
  {
    assert Stamps(Insert(s, inode, attr)) == Stamps(s)[inode := s.now];
  }

  lemma StepKeepsValid(s: State, cfg: Config, op: Op)
    requires Valid(s)
    ensures Valid(Step(s, cfg, op))
  {
    hide Recency, Elements;
    match op
    case OpGet(i) => RemoveKeeps(s, {i});
    case OpPut(i, attr) =>
      RemoveKeeps(s, OldestEntries(s, cfg.maxEntries / 10));
      InsertKeeps(s, i, attr);
      InsertKeeps(Evict(s, cfg.maxEntries / 10), i, attr);
    case OpGrow(i, size) =>
      if i in s.attrs { InsertKeeps(s, i, s.attrs[i].attr.(size := Max(s.attrs[i].attr.size, size))); }
    case OpInvalidate(i) => RemoveKeeps(s, {i});
    case OpClear => assert Stamps(Step(s, cfg, op)) == map[];
    case OpWait(time) => assert Stamps(Step(s, cfg, op)) == Stamps(s);
  }

  lemma {:induction false} RunValid(cfg: Config, ops: seq<Op>)
    ensures Valid(Exec(cfg, ops))
  {
    if ops == [] {
      assert Stamps(New()) == map[];
    } else {
      RunValid(cfg, ops[..|ops| - 1]);
      StepKeepsValid(Exec(cfg, ops[..|ops| - 1]), cfg, ops[|ops| - 1]);
    }
  }

  // ---------------------------------------------------------------- what a lookup may return

  /** The specification: for each inode the value last put or updated and not invalidated since, with
      the time of that put or update. Nothing is ever evicted or expires here. */
  function LatestStep(latest: map<nat, CachedAttr>, now: nat, op: Op): map<nat, CachedAttr> {
    match op
    case OpPut(i, attr) => latest[i := CachedAttr(attr, now)]
    case OpGrow(i, size) =>
      if i in latest then
        latest[i := CachedAttr(latest[i].attr.(size := Max(latest[i].attr.size, size)), now)]
      else latest
    case OpInvalidate(i) => latest - {i}
    case OpClear => map[]
    case _ => latest
  }

  ghost function Latest(cfg: Config, ops: seq<Op>): map<nat, CachedAttr> {
    if ops == [] then map[] else
      var front := ops[..|ops| - 1];
      LatestStep(Latest(cfg, front), Exec(cfg, front).now, ops[|ops| - 1])
  }

  ghost predicate Within(s: State, latest: map<nat, CachedAttr>) {
    forall i :: i in s.attrs ==> i in latest && s.attrs[i] == latest[i]
  }

  lemma StepWithin(s: State, cfg: Config, op: Op, latest: map<nat, CachedAttr>)
    requires Within(s, latest)
    ensures Within(Step(s, cfg, op), LatestStep(latest, s.now, op))
  {
  }

  lemma {:induction false} RunWithinLatest(cfg: Config, ops: seq<Op>)
    ensures Within(Exec(cfg, ops), Latest(cfg, ops))
  {
    if ops != [] {
      var front := ops[..|ops| - 1];
      RunWithinLatest(cfg, front);
      StepWithin(Exec(cfg, front), cfg, ops[|ops| - 1], Latest(cfg, front));
    }
  }

  /** Over every run a lookup returns nothing, or the last value put or updated for the inode and not
      invalidated since, set no longer ago than the time to live. */
  lemma LookupIsLatestAndFresh(cfg: Config, ops: seq<Op>, inode: nat)
    ensures var s, r := Exec(cfg, ops), GetAttr(Exec(cfg, ops), cfg, inode).1;
            r.Some? ==>
              && inode in Latest(cfg, ops)
              && r.value == Latest(cfg, ops)[inode].attr
              && SatSub(s.now, Latest(cfg, ops)[inode].cachedAt) <= cfg.attrTtl
  {
    RunWithinLatest(cfg, ops);
  }

  /** An update revives an entry however long it has been expired: right after it, a lookup answers
      exactly when the entry is still in the map, expired or not. */
  lemma UpdateRevivesIff(s: State, cfg: Config, inode: nat, size: nat)
    requires Valid(s) && cfg.attrTtl > 0
    ensures GetAttr(GrowAttr(s, inode, size), cfg, inode).1.Some? <==> inode in s.attrs
  {
  }

  // ---------------------------------------------------------------- eviction and size

  /** A put leaves every other entry as it was and makes the new one the youngest, except that at the limit
      the oldest tenth of the limit goes first: below the limit, or with a limit below ten, nobody does. */
  lemma PutSurvivors(s: State, cfg: Config, inode: nat, attr: FileAttr)
    requires Valid(s)
    ensures var s' := PutAttr(s, cfg, inode, attr);
            var gone := s.attrs.Keys - s'.attrs.Keys;
            && inode in s'.attrs && s'.attrs[inode] == CachedAttr(attr, s.now)
            && (forall i :: i in s'.attrs && i != inode ==> i in s.attrs && s'.attrs[i] == s.attrs[i])
            && (|s.attrs| < cfg.maxEntries || cfg.maxEntries < 10 ==> gone == {})
            && |gone| <= cfg.maxEntries / 10
            && (forall i, j :: i in gone && j in s.attrs && j in s'.attrs && j != inode ==>
                  s.attrs[i].cachedAt < s.attrs[j].cachedAt)
  {
    hide OldestEntries;
    var n := cfg.maxEntries / 10;
    EvictsOldest(s, n);
    var oldest, gone := OldestEntries(s, n), s.attrs.Keys - PutAttr(s, cfg, inode, attr).attrs.Keys;
    assert gone <= oldest;
    SubsetCount(gone, oldest);
  }

  lemma SubsetCount(a: set<nat>, b: set<nat>)
    requires a <= b
    ensures |a| <= |b|
    ensures |b| == 0 ==> a == {}
  {
    assert b == a + (b - a);
  }

  /** The operation neither sets nor drops the attribute of `inode`, and does not meet the limit. */
  predicate Spares(s: State, cfg: Config, inode: nat, op: Op) {
    match op
    case OpPut(i, _) => i != inode && |s.attrs| < cfg.maxEntries
    case OpGrow(i, _) => i != inode
    case OpInvalidate(i) => i != inode
    case OpClear => false
    case OpGet(i) => true
    case OpWait(time) => true
  }

  /** The state after more operations. */
  ghost function After(s: State, cfg: Config, ops: seq<Op>): State {
    if ops == [] then s else Step(After(s, cfg, ops[..|ops| - 1]), cfg, ops[|ops| - 1])
  }

  ghost predicate AllSpare(s: State, cfg: Config, inode: nat, ops: seq<Op>) {
    forall k :: 0 <= k < |ops| ==> Spares(After(s, cfg, ops[..k]), cfg, inode, ops[k])
  }

  /** The attribute put at `stamp`: present while fresh, and unchanged while present. */
  ghost predicate Keeps(s: State, cfg: Config, inode: nat, attr: FileAttr, stamp: nat) {
    && stamp < s.now
    && (s.now - stamp <= cfg.attrTtl ==> inode in s.attrs)
    && (inode in s.attrs ==> s.attrs[inode] == CachedAttr(attr, stamp))
  }

  lemma StepSpares(s: State, cfg: Config, inode: nat, attr: FileAttr, stamp: nat, op: Op)
    requires Keeps(s, cfg, inode, attr, stamp) && Spares(s, cfg, inode, op)
    ensures Keeps(Step(s, cfg, op), cfg, inode, attr, stamp)
  {
    hide Evict;
  }

  /** After a put, through any operations that spare it, a lookup answers the value put if and only if it was
      put no longer ago than the time to live. */
  lemma {:induction false} PutAnswersIff(s: State, cfg: Config, inode: nat, attr: FileAttr, ops: seq<Op>)
    requires AllSpare(PutAttr(s, cfg, inode, attr), cfg, inode, ops)
    ensures var s' := After(PutAttr(s, cfg, inode, attr), cfg, ops);
            && Keeps(s', cfg, inode, attr, s.now)
            && GetAttr(s', cfg, inode).1 == if s'.now - s.now <= cfg.attrTtl then Some(attr) else None
    decreases |ops|
  {
    if ops != [] {
      hide Step, Spares;
      var front, s1 := ops[..|ops| - 1], PutAttr(s, cfg, inode, attr);
      assert forall k :: 0 <= k < |front| ==> front[k] == ops[k] && front[..k] == ops[..k];
      PutAnswersIff(s, cfg, inode, attr, front);
      StepSpares(After(s1, cfg, front), cfg, inode, attr, s.now, ops[|ops| - 1]);
    }
  }

  /** Clearing forgets every attribute and every absent path. */
  lemma ClearForgets(s: State, cfg: Config, inode: nat, path: string)
    ensures GetAttr(Clear(s), cfg, inode).1 == None && !IsNegative(Clear(s), cfg, path).1
  {
  }

  /** Invalidating drops one attribute and leaves the others, and the absent paths, as they were. */
  lemma InvalidateDropsOne(s: State, cfg: Config, inode: nat, other: nat)
    ensures var s' := InvalidateAttr(s, inode);
            && GetAttr(s', cfg, other).1 == (if other == inode then None else GetAttr(s, cfg, other).1)
            && s'.negative == s.negative && s'.now == s.now
  {
  }

  /** A path remembered as absent, or no longer, is so for no other path. */
  lemma NegativeConcernsOne(s: State, cfg: Config, path: string, other: string)
    requires cfg.negativeTtl > 0
    ensures IsNegative(PutNegative(s, path), cfg, path).1 && !IsNegative(RemoveNegative(s, path), cfg, path).1
    ensures other != path ==> IsNegative(RemoveNegative(s, path), cfg, other).1 == IsNegative(s, cfg, other).1
    ensures PutNegative(s, path).negative - {path} == s.negative - {path}
  {
  }

  lemma {:induction false} FrontIsSet(order: seq<nat>, t: map<nat, nat>, n: nat)
    requires IsRecency(order, t) && n <= |order|
    ensures Elements(order[..n]) <= t.Keys && |Elements(order[..n])| == n
    decreases n
  {
    if n > 0 {
      FrontIsSet(order[1..], t - {order[0]}, n - 1);
      assert order[..n] == [order[0]] + order[1..][..n - 1];
      assert Elements(order[..n]) == {order[0]} + Elements(order[1..][..n - 1]);
    }
  }

  /** An eviction pass removes exactly `count` entries (or all), and every entry it removes was cached
      before every entry that survives. */
  lemma EvictsOldest(s: State, count: nat)
    requires Valid(s)
    ensures var gone := OldestEntries(s, count);
      && gone <= s.attrs.Keys && |gone| == Min(count, |s.attrs|)
      && |Evict(s, count).attrs| == |s.attrs| - |gone|
      && forall i, j :: i in gone && j in Evict(s, count).attrs ==> s.attrs[i].cachedAt < s.attrs[j].cachedAt
  {
    var t := Stamps(s);
    var order := Recency(t);
    RecencyOrders(t);
    RecencyNames(order, t);
    assert t.Keys == s.attrs.Keys;
    FrontIsSet(order, t, Min(count, |order|));
    assert Evict(s, count).attrs.Keys == s.attrs.Keys - OldestEntries(s, count);
    forall i, j | i in OldestEntries(s, count) && j in Evict(s, count).attrs ensures t[i] < t[j] {
      FrontIsOlder(order, t, Min(count, |order|), i, j);
    }
  }

  lemma FrontIsOlder(order: seq<nat>, t: map<nat, nat>, n: nat, i: nat, j: nat)
    requires IsRecency(order, t) && n <= |order|
    requires i in order[..n] && j in t && j !in order[..n]
    ensures i in t && t[i] < t[j]
  {
    RecencyNames(order, t);
    var a :| 0 <= a < n && order[a] == i;
    var b :| 0 <= b < |order| && order[b] == j;
    assert forall c :: 0 <= c < n ==> order[c] in order[..n];
    RecencySplit(order, t, a, b);
  }

  lemma {:induction false} RunBounded(cfg: Config, ops: seq<Op>)
    requires cfg.maxEntries >= 10
    ensures |Exec(cfg, ops).attrs| <= cfg.maxEntries
  {
    if ops != [] {
      RunBounded(cfg, ops[..|ops| - 1]);
      RunValid(cfg, ops[..|ops| - 1]);
      var s, op := Exec(cfg, ops[..|ops| - 1]), ops[|ops| - 1];
      StepBounded(s, cfg, op);
    }
  }

  lemma SmallerMap(m: map<nat, CachedAttr>, gone: set<nat>)
    ensures |m - gone| <= |m|
  {
  }

  lemma LargerMap(m: map<nat, CachedAttr>, i: nat, c: CachedAttr)
    ensures |m[i := c]| == if i in m then |m| else |m| + 1
  {
  }

  lemma StepBounded(s: State, cfg: Config, op: Op)
    requires Valid(s) && cfg.maxEntries >= 10 && |s.attrs| <= cfg.maxEntries
    ensures |Step(s, cfg, op).attrs| <= cfg.maxEntries
  {
    match op
    case OpGet(i) => SmallerMap(s.attrs, {i});
    case OpPut(i, attr) =>
      EvictsOldest(s, cfg.maxEntries / 10);
      LargerMap(s.attrs, i, CachedAttr(attr, s.now));
      LargerMap(Evict(s, cfg.maxEntries / 10).attrs, i, CachedAttr(attr, s.now));
    case OpGrow(i, size) =>
      if i in s.attrs { LargerMap(s.attrs, i, GrowAttr(s, i, size).attrs[i]); }
    case OpInvalidate(i) => SmallerMap(s.attrs, {i});
    case OpClear =>
    case OpWait(time) =>
  }

  function Puts(n: nat): seq<Op> {
    if n == 0 then [] else Puts(n - 1) + [OpPut(n - 1, FileAttr(n - 1, 0, false))]
  }

  ghost predicate HoldsFirst(s: State, n: nat) { |s.attrs| == n && forall i :: i in s.attrs ==> i < n }

  /** Below ten entries a tenth rounds to none, so nothing is ever evicted. */
  lemma {:induction false} SmallCachesGrow(cfg: Config, n: nat)
    requires cfg.maxEntries < 10
    ensures HoldsFirst(Exec(cfg, Puts(n)), n)
  {
    if n == 0 {
      assert Exec(cfg, []) == New();
    } else {
      hide PutAttr, Exec, HoldsFirst;
      SmallCachesGrow(cfg, n - 1);
      OneMore(cfg, Puts(n - 1), n - 1);
    }
  }

  lemma OneMore(cfg: Config, ops: seq<Op>, n: nat)
    requires cfg.maxEntries < 10 && HoldsFirst(Exec(cfg, ops), n)
    ensures HoldsFirst(Exec(cfg, ops + [OpPut(n, FileAttr(n, 0, false))]), n + 1)
  {
    hide PutAttr, Exec, Step;
    var s, attr := Exec(cfg, ops), FileAttr(n, 0, false);
    ExecSnoc(cfg, ops, OpPut(n, attr));
    StepPut(s, cfg, n, attr);
    PutNeverEvicts(s, cfg, n, attr);
  }

  lemma StepPut(s: State, cfg: Config, inode: nat, attr: FileAttr)
    ensures Step(s, cfg, OpPut(inode, attr)) == PutAttr(s, cfg, inode, attr)
  {
  }

  lemma ExecSnoc(cfg: Config, ops: seq<Op>, op: Op)
    ensures Exec(cfg, ops + [op]) == Step(Exec(cfg, ops), cfg, op)
  {
  }

  lemma PutNeverEvicts(s: State, cfg: Config, inode: nat, attr: FileAttr)
    requires cfg.maxEntries < 10 && inode !in s.attrs
    ensures var s' := PutAttr(s, cfg, inode, attr);
            s'.attrs == s.attrs[inode := CachedAttr(attr, s.now)] && |s'.attrs| == |s.attrs| + 1
  {
    assert OldestEntries(s, 0) == {};
    assert Evict(s, 0).attrs == s.attrs;
    LargerMap(s.attrs, inode, CachedAttr(attr, s.now));
  }

  /** The size limit holds on every run if and only if it is at least ten. */
  lemma BoundHoldsIff(cfg: Config)
    ensures (forall ops :: |Exec(cfg, ops).attrs| <= cfg.maxEntries) <==> cfg.maxEntries >= 10
  {
    if cfg.maxEntries >= 10 {
      forall ops ensures |Exec(cfg, ops).attrs| <= cfg.maxEntries { RunBounded(cfg, ops); }
    } else {
      SmallCachesGrow(cfg, cfg.maxEntries + 1);
    }
  }

  // ---------------------------------------------------------------- the program

  /** Insert `k` into a list ordered by `stamps`. */
  function InsertByTime(order: seq<nat>, stamps: map<nat, nat>, k: nat): seq<nat>
    requires k in stamps && forall i :: i in order ==> i in stamps
  {
    if order == [] || stamps[k] < stamps[order[0]] then [k] + order
    else [order[0]] + InsertByTime(order[1..], stamps, k)
  }

  ghost predicate Restricts(t: map<nat, nat>, stamps: map<nat, nat>) {
    forall i :: i in t ==> i in stamps && stamps[i] == t[i]
  }

  lemma {:induction false} InsertOrders(order: seq<nat>, t: map<nat, nat>, stamps: map<nat, nat>, k: nat)
    requires IsRecency(order, t) && Restricts(t, stamps) && Distinct(stamps)
    requires k in stamps && k !in t
    ensures forall i :: i in order ==> i in stamps
    ensures IsRecency(InsertByTime(order, stamps, k), t[k := stamps[k]])
    decreases |order|
  {
    RecencyNames(order, t);
    if order == [] || stamps[k] < stamps[order[0]] {
      ConsOrders(k, order, t, stamps[k]);
    } else {
      var h: nat := order[0];
      InsertOrders(order[1..], t - {h}, stamps, k);
      assert (t - {h})[k := stamps[k]] == t[k := stamps[k]] - {h};
      assert t[k := stamps[k]] == (t[k := stamps[k]] - {h})[h := stamps[h]];
      assert stamps[h] < stamps[k];
      ConsOrders(h, InsertByTime(order[1..], stamps, k), t[k := stamps[k]] - {h}, stamps[h]);
    }
  }

  lemma ConsOrders(k: nat, order: seq<nat>, t: map<nat, nat>, stamp: nat)
    requires IsRecency(order, t) && k !in t
    requires forall j :: j in t ==> stamp < t[j]
    ensures IsRecency([k] + order, t[k := stamp])
  {
    assert ([k] + order)[1..] == order;
    assert t[k := stamp] - {k} == t;
  }

  class MetadataCache {
    var attrCache: map<nat, CachedAttr>
    var negativeCache: map<string, nat>
    var now: nat
    const config: Config

    ghost function View(): State
      reads this
    {
      State(attrCache, negativeCache, now)
    }

    constructor (config: Config)
      ensures View() == New() && this.config == config && Valid(View())
    {
      attrCache, negativeCache, now := map[], map[], 0;
      this.config := config;
      new;
      assert Stamps(View()) == map[];
    }

    method Wait(time: nat)
      modifies this`now
      ensures View() == old(View()).(now := old(now) + time)
    {
      now := now + time;
    }

    method Get(inode: nat) returns (attr: Option<FileAttr>)
      modifies this
      ensures (View(), attr) == GetAttr(old(View()), config, inode)
    {
      if inode in attrCache {
        var cached := attrCache[inode];
        if SatSub(now, cached.cachedAt) <= config.attrTtl { return Some(cached.attr); }
        attrCache := attrCache - {inode};
      }
      return None;
    }

    /** Collect the entries and sort them by the time they were cached. */
    method SortedByTime() returns (order: seq<nat>)
      requires Valid(View())
      ensures order == Recency(Stamps(View()))
    {
      var stamps := map i | i in attrCache :: attrCache[i].cachedAt;
      assert stamps == Stamps(View());
      order := [];
      var rest := attrCache.Keys;
      ghost var done: map<nat, nat> := map[];
      while rest != {}
        invariant rest <= attrCache.Keys && done == stamps - rest
        invariant IsRecency(order, done)
        decreases rest
      {
        var k :| k in rest;
        InsertOrders(order, done, stamps, k);
        order := InsertByTime(order, stamps, k);
        rest := rest - {k};
        done := done[k := stamps[k]];
      }
      assert done == stamps;
      RecencyUnique(order, stamps);
    }

    method EvictOldest(count: nat)
      requires Valid(View())
      modifies this`attrCache
      ensures View() == Evict(old(View()), count)
    {
      ghost var before := attrCache;
      var order := SortedByTime();
      ghost var gone: set<nat> := {};
      for i := 0 to Min(count, |order|)
        invariant gone == Elements(order[..i])
        invariant attrCache == before - gone
      {
        assert order[..i + 1] == order[..i] + [order[i]];
        attrCache := attrCache - {order[i]};
        gone := gone + {order[i]};
      }
    }

    method Put(inode: nat, attr: FileAttr)
      requires Valid(View())
      modifies this
      ensures View() == PutAttr(old(View()), config, inode, attr)
      ensures Valid(View())
    {
      StepKeepsValid(View(), config, OpPut(inode, attr));
      if |attrCache| >= config.maxEntries { EvictOldest(config.maxEntries / 10); }
      attrCache := attrCache[inode := CachedAttr(attr, now)];
      now := now + 1;
    }

    method Grow(inode: nat, size: nat)
      modifies this
      ensures View() == GrowAttr(old(View()), inode, size)
    {
      if inode in attrCache {
        var attr := attrCache[inode].attr;
        attrCache := attrCache[inode := CachedAttr(attr.(size := Max(attr.size, size)), now)];
        now := now + 1;
      }
    }

    method InvalidateInode(inode: nat)
      modifies this
      ensures View() == InvalidateAttr(old(View()), inode)
    {
      attrCache := attrCache - {inode};
    }

    method ClearAll()
      modifies this
      ensures View() == Clear(old(View()))
    {
      attrCache := map[];
      negativeCache := map[];
    }

    method CheckNegative(path: string) returns (absent: bool)
      modifies this
      ensures (View(), absent) == IsNegative(old(View()), config, path)
    {
      if path in negativeCache {
        if SatSub(now, negativeCache[path]) <= config.negativeTtl { return true; }
        negativeCache := negativeCache - {path};
      }
      return false;
    }

    method AddNegative(path: string)
      modifies this
      ensures View() == PutNegative(old(View()), path)
    {
      negativeCache := negativeCache[path := now];
      now := now + 1;
    }

    method DropNegative(path: string)
      modifies this
      ensures View() == RemoveNegative(old(View()), path)
    {
      negativeCache := negativeCache - {path};
    }
  }
}
