/** The object store: a map from object path to bytes, with a log of the uploads that arrived.
    Any set of requests may fail: `outages` holds the numbers of the requests that do. */
module Stores {
  import opened Base

  datatype Store = Store(
    objects: map<string, Bytes>,
    puts: seq<(string, Bytes)>,
    requests: nat,
    outages: set<nat>)

  /** A PUT replaces the whole object. */
  function Put(s: Store, path: string, data: Bytes): (Store, bool) {
    var s' := s.(requests := s.requests + 1);
    if s.requests in s.outages then (s', false)
    else (s'.(objects := s.objects[path := data], puts := s.puts + [(path, data)]), true)
  }

  function Delete(s: Store, path: string): (Store, bool) {
    var s' := s.(requests := s.requests + 1);
    if s.requests in s.outages then (s', false)
    else (s'.(objects := s.objects - {path}), true)
  }

  /** The bytes of [offset, offset + size) that the object has. */
  function ReadRange(s: Store, path: string, offset: nat, size: nat): Option<Bytes> {
    if path in s.objects then Some(Slice(s.objects[path], offset, size)) else None
  }

  class ObsClient {
    var objects: map<string, Bytes>
    var puts: seq<(string, Bytes)>
    var requests: nat
    const outages: set<nat>

    ghost function State(): Store
      reads this
    {
      Store(objects, puts, requests, outages)
    }

    constructor (objects: map<string, Bytes>, outages: set<nat>)
      ensures State() == Store(objects, [], 0, outages)
    {
      this.objects, puts, requests, this.outages := objects, [], 0, outages;
    }

    method PutObject(path: string, data: Bytes) returns (ok: bool)
      modifies this
      ensures (State(), ok) == Put(old(State()), path, data)
    {
      ok := requests !in outages;
      requests := requests + 1;
      if ok {
        objects := objects[path := data];
        puts := puts + [(path, data)];
      }
    }

    method DeleteObject(path: string) returns (ok: bool)
      modifies this
      ensures (State(), ok) == Delete(old(State()), path)
    {
      ok := requests !in outages;
      requests := requests + 1;
      if ok { objects := objects - {path}; }
    }

    method ReadObject(path: string, offset: nat, size: nat) returns (r: Option<Bytes>)
      ensures r == ReadRange(State(), path, offset, size)
    {
      if path in objects {
        r := Some(Slice(objects[path], offset, size));
      } else {
        r := None;
      }
    }
  }
}
