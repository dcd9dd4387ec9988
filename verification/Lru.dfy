/** Recency order of a timestamped map: the simple list that least-recently-used eviction works on.
    Keys are ordered by stamp, oldest first. */
module Lru {

  ghost predicate Distinct<K(!new)>(t: map<K, nat>) {
    forall a, b :: a in t && b in t && t[a] == t[b] ==> a == b
  }

  ghost predicate Before<K(!new)>(t: map<K, nat>, now: nat) {
    forall k :: k in t ==> t[k] < now
  }

  ghost predicate IsOldest<K(!new)>(t: map<K, nat>, k: K) {
    k in t && forall j :: j in t ==> t[k] <= t[j]
  }

  lemma {:induction false} OldestExists<K(!new)>(t: map<K, nat>)
    requires t != map[]
    ensures exists k :: IsOldest(t, k)
    decreases t.Keys
  {
    var k :| k in t;
    var rest := t - {k};
    if rest == map[] {
      assert forall j :: j in t && j != k ==> j in rest;
      assert IsOldest(t, k);
    } else {
      OldestExists(rest);
      var j :| IsOldest(rest, j);
      assert forall i :: i in t && i != k ==> i in rest;
      assert IsOldest(t, if t[k] <= t[j] then k else j);
    }
  }

  ghost function Oldest<K(!new)>(t: map<K, nat>): (k: K)
    requires t != map[]
    ensures IsOldest(t, k)
  {
    OldestExists(t);
    var k :| IsOldest(t, k); k
  }

  ghost function Recency<K(!new)>(t: map<K, nat>): seq<K>
    decreases t.Keys
  {
    if t == map[] then [] else
      var k := Oldest(t);
      [k] + Recency(t - {k})
  }

  /** `s` lists the keys of `t` once each, in increasing stamp order. */
  ghost predicate IsRecency<K(!new)>(s: seq<K>, t: map<K, nat>) {
    if s == [] then t == map[] else
      && s[0] in t
      && (forall j :: j in t && j != s[0] ==> t[s[0]] < t[j])
      && IsRecency(s[1..], t - {s[0]})
  }

  lemma {:induction false} RecencyOrders<K(!new)>(t: map<K, nat>)
    requires Distinct(t)
    ensures IsRecency(Recency(t), t)
    decreases t.Keys
  {
    if t != map[] {
      var k := Oldest(t);
      RecencyOrders(t - {k});
      assert ([k] + Recency(t - {k}))[1..] == Recency(t - {k});
    }
  }

  /** The recency order is unique, so any list with the three properties is the recency order. */
  lemma {:induction false} RecencyUnique<K(!new)>(s: seq<K>, t: map<K, nat>)
    requires IsRecency(s, t)
    ensures Recency(t) == s
    ensures Distinct(t)
    decreases |s|
  {
    if s != [] {
      var k := s[0];
      assert Oldest(t) == k by { assert IsOldest(t, Oldest(t)); }
      RecencyUnique(s[1..], t - {k});
      assert s == [k] + s[1..];
      forall a, b | a in t && b in t && t[a] == t[b] ensures a == b {
        if a != k && b != k { assert a in t - {k} && b in t - {k}; }
      }
    }
  }

  /** The list names every key of the map, each exactly once. */
  lemma {:induction false} RecencyNames<K(!new)>(s: seq<K>, t: map<K, nat>)
    requires IsRecency(s, t)
    ensures forall k :: k in s <==> k in t
    ensures |s| == |t|
    decreases |s|
  {
    if s != [] {
      var rest := t - {s[0]};
      RecencyNames(s[1..], rest);
      assert t.Keys == rest.Keys + {s[0]};
      forall k ensures k in s <==> k in t {
        assert k in s <==> k == s[0] || k in s[1..];
      }
    }
  }

  /** Everything in a front part of the list is older than everything after it. */
  lemma {:induction false} RecencySplit<K(!new)>(s: seq<K>, t: map<K, nat>, i: nat, j: nat)
    requires IsRecency(s, t)
    requires i < j < |s|
    ensures s[i] in t && s[j] in t && t[s[i]] < t[s[j]]
    decreases i
  {
    RecencyNames(s, t);
    assert s[i] in s && s[j] in s;
    var rest := t - {s[0]};
    if i > 0 {
      RecencySplit(s[1..], rest, i - 1, j - 1);
    } else {
      RecencyNames(s[1..], rest);
      assert s[1..][j - 1] in rest;
    }
  }

  /** `s` without the keys in `gone`, order kept. */
  ghost function Without<K(!new)>(s: seq<K>, gone: set<K>): (r: seq<K>)
    ensures forall k :: k in r <==> k in s && k !in gone
  {
    if s == [] then [] else
    if s[0] in gone then Without(s[1..], gone) else [s[0]] + Without(s[1..], gone)
  }

  lemma {:induction false} WithoutOrders<K(!new)>(s: seq<K>, t: map<K, nat>, gone: set<K>)
    requires IsRecency(s, t)
    ensures IsRecency(Without(s, gone), t - gone)
    decreases |s|
  {
    if s == [] {
      assert t - gone == map[];
    } else {
      var rest := t - {s[0]};
      WithoutOrders(s[1..], rest, gone);
      var r := Without(s[1..], gone);
      if s[0] in gone {
        assert rest - gone == t - gone;
      } else {
        assert rest - gone == t - gone - {s[0]};
        assert ([s[0]] + r)[1..] == r;
      }
    }
  }

  /** Removing keys from the map removes them from the list and keeps the order of the rest. */
  lemma RecencyRemove<K(!new)>(t: map<K, nat>, gone: set<K>)
    requires Distinct(t)
    ensures Distinct(t - gone)
    ensures Recency(t - gone) == Without(Recency(t), gone)
  {
    RecencyOrders(t);
    WithoutOrders(Recency(t), t, gone);
    RecencyUnique(Without(Recency(t), gone), t - gone);
  }

  lemma {:induction false} AppendOrders<K(!new)>(s: seq<K>, t: map<K, nat>, k: K, now: nat)
    requires IsRecency(s, t) && Before(t, now) && k !in t
    ensures IsRecency(s + [k], t[k := now])
    decreases |s|
  {
    if s == [] {
      assert (s + [k])[1..] == [];
      assert t[k := now] - {k} == map[];
    } else {
      AppendOrders(s[1..], t - {s[0]}, k, now);
      assert (s + [k])[1..] == s[1..] + [k];
      assert t[k := now] - {s[0]} == (t - {s[0]})[k := now];
    }
  }

  /** Stamping a key with a later time moves it to the back (or appends it). */
  lemma RecencyTouch<K(!new)>(t: map<K, nat>, k: K, now: nat)
    requires Distinct(t) && Before(t, now)
    ensures Distinct(t[k := now])
    ensures Recency(t[k := now]) == Without(Recency(t), {k}) + [k]
  {
    hide Distinct, IsRecency, Recency, Without;
    var rest := t - {k};
    RecencyRemove(t, {k});
    RecencyOrders(rest);
    AppendOrders(Recency(rest), rest, k, now);
    assert rest[k := now] == t[k := now];
    RecencyUnique(Recency(rest) + [k], t[k := now]);
  }

  lemma OldestUnique<K(!new)>(t: map<K, nat>, k: K)
    requires Distinct(t) && IsOldest(t, k)
    ensures Oldest(t) == k
  {
  }
}
