/** The write buffers as the program runs them: buffer objects updated in place under the manager,
    proved to take the steps of `WriteBuffers`. */
module WriteBufferManagers {
  import opened Base
  import opened Stores
  import opened Uploads
  import Spec = WriteBuffers

  class FileWriteBuffer {
    const path: string
    var data: Bytes
    var dirty: bool
    var size: nat
    var originalSize: nat
    var multipart: MultipartUploadState?
    var sequentialWrite: bool
    var nextOffset: nat

    ghost function State(): Spec.Buf
      reads this, multipart
    {
      Spec.Buf(path, data, dirty, size, originalSize,
               if multipart == null then None else Some(multipart.State()), sequentialWrite, nextOffset)
    }

    constructor (path: string, originalSize: nat)
      ensures State() == Spec.NewBuf(path, originalSize)
      ensures multipart == null
    {
      this.path, data, dirty, size := path, [], false, originalSize;
      this.originalSize, multipart, sequentialWrite, nextOffset := originalSize, null, true, 0;
    }

    predicate NeedsFlush(threshold: nat)
      reads this
    {
      |data| >= threshold
    }
  }

  lemma SetTwice(t: Spec.Table, inode: nat, a: Spec.Buf, b: Spec.Buf)
    ensures t[inode := a][inode := b] == t[inode := b]
  {
  }

  lemma SetThenForget(t: Spec.Table, inode: nat, a: Spec.Buf)
    ensures t[inode := a] - {inode} == t - {inode}
    ensures inode !in t ==> t - {inode} == t
  {
  }

  ghost predicate Apart(a: FileWriteBuffer, b: FileWriteBuffer)
    reads a, b
  {
    a != b && (a.multipart != null ==> a.multipart != b.multipart)
  }

  ghost predicate Within(b: FileWriteBuffer, repr: set<object>)
    reads b
  {
    b in repr && (b.multipart != null ==> b.multipart in repr)
  }

  class WriteBuffer {
    var buffers: map<nat, FileWriteBuffer>
    const client: ObsClient
    const multipart: MultipartUploader
    const config: Spec.Config
    ghost var Repr: set<object>

    /** Buffers and uploads belong to one inode each. */
    ghost predicate Valid()
      reads this, Repr
    {
      && this !in Repr && client !in Repr
      && Spec.GoodConfig(config)
      && multipart.partSize == config.partSize
      && (forall i :: i in buffers ==> buffers[i] in Repr && Within(buffers[i], Repr))
      && (forall i, j :: i in buffers && j in buffers && i != j ==> Apart(buffers[i], buffers[j]))
    }

    ghost function State(): Spec.Table
      requires Valid()
      reads this, Repr
    {
      map i | i in buffers :: buffers[i].State()
    }

    constructor (client: ObsClient, config: Spec.Config)
      requires Spec.GoodConfig(config)
      ensures Valid() && State() == map[] && Repr == {}
      ensures this.client == client && this.config == config
    {
      this.client, this.config := client, config;
      buffers, Repr := map[], {};
      multipart := new MultipartUploader(config.partSize, 10000);
    }

    method GetOrCreate(inode: nat, path: string, size: nat) returns (b: FileWriteBuffer)
      requires Valid()
      modifies this
      ensures Valid() && fresh(Repr - old(Repr)) && old(Repr) <= Repr
      ensures inode in buffers && buffers[inode] == b
      ensures inode in old(buffers) ==> b == old(buffers[inode])
      ensures b.State() == Spec.BufferOf(old(State()), inode, path, size)
      ensures State() == old(State())[inode := b.State()]
    {
      if inode in buffers {
        b := buffers[inode];
        assert State() == State()[inode := b.State()];
      } else {
        b := new FileWriteBuffer(path, size);
        buffers, Repr := buffers[inode := b], Repr + {b};
        NewBuffer(inode);
      }
    }

    /** A fresh buffer is apart from the others, which stay as they were. */
    twostate lemma NewBuffer(inode: nat)
      requires old(Valid()) && inode !in old(buffers)
      requires inode in buffers && buffers == old(buffers)[inode := buffers[inode]]
      requires fresh(buffers[inode]) && buffers[inode].multipart == null
      requires Repr == old(Repr) + {buffers[inode]}
      requires forall o: object :: o in old(Repr) ==> unchanged(o)
      ensures Valid()
      ensures State() == old(State())[inode := buffers[inode].State()]
    {
      hide FileWriteBuffer.State;
      OldBuffersApart(inode);
      forall i | i in old(buffers) ensures buffers[i].State() == old(buffers[i].State()) {
        assert old(Within(buffers[i], Repr));
      }
    }

    twostate lemma OldBuffersApart(inode: nat)
      requires old(Valid()) && inode !in old(buffers)
      requires inode in buffers && buffers == old(buffers)[inode := buffers[inode]]
      requires fresh(buffers[inode]) && buffers[inode].multipart == null
      requires Repr == old(Repr) + {buffers[inode]}
      requires forall o: object :: o in old(Repr) ==> unchanged(o)
      ensures Valid()
    {
      forall i | i in old(buffers) ensures Within(buffers[i], Repr) && Apart(buffers[i], buffers[inode]) {
        assert old(Within(buffers[i], Repr));
      }
      forall i, j | i in old(buffers) && j in old(buffers) && i != j ensures Apart(buffers[i], buffers[j]) {
        assert old(Apart(buffers[i], buffers[j]));
      }
    }

    /** `flush_buffer`: false when the PUT fails. An upload it takes data into is completed, then dropped. */
    method FlushBuffer(buf: FileWriteBuffer) returns (ok: bool)
      requires Spec.GoodConfig(config) && multipart.partSize == config.partSize
      modifies buf, buf.multipart, client
      ensures (buf.State(), client.State(), ok) == Spec.Flush(old(buf.State()), old(client.State()))
      ensures buf.multipart == old(buf.multipart) || buf.multipart == null
      ensures var u := old(buf.multipart);
        u != null && old(Spec.FlushTakes(buf.State())) ==> u.State() == Spec.Completed(old(buf.State()), config)
    {
      if !buf.dirty || buf.data == [] { return true; }
      if buf.multipart != null {
        var remaining := buf.data;
        buf.data := [];
        multipart.WriteTo(buf.multipart, remaining);
        multipart.CompleteUpload(buf.multipart);
        buf.multipart := null;
      } else {
        var data := buf.data;
        buf.data := [];
        ok := client.PutObject(buf.path, data);
        if !ok { return; }
      }
      buf.dirty := false;
      buf.originalSize := buf.size;
      return true;
    }

    /** Move full parts from the buffer to its upload. */
    method CutBuffer(buf: FileWriteBuffer)
      requires config.partSize > 0 && multipart.partSize == config.partSize && buf.multipart != null
      modifies buf`data, buf.multipart
      ensures buf.State() == Spec.CutParts(old(buf.State()), config.partSize)
    {
      while |buf.data| >= config.partSize
        invariant Spec.CutParts(buf.State(), config.partSize) == old(Spec.CutParts(buf.State(), config.partSize))
        decreases |buf.data|
      {
        var part := buf.data[..config.partSize];
        buf.data := buf.data[config.partSize..];
        multipart.WriteTo(buf.multipart, part);
      }
    }

    method WriteBufferData(buf: FileWriteBuffer, path: string, offset: nat, data: Bytes) returns (ok: bool)
      requires Spec.GoodConfig(config) && multipart.partSize == config.partSize
      modifies buf, buf.multipart, client
      ensures (buf.State(), client.State(), ok)
           == Spec.Write(old(buf.State()), old(client.State()), path, offset, data, config)
      ensures buf.multipart != null ==> buf.multipart == old(buf.multipart) || fresh(buf.multipart)
      ensures var u := old(buf.multipart);
        u != null && old(Spec.Direct(buf.State(), offset) && Spec.FlushTakes(buf.State())) ==>
          u.State() == Spec.Completed(old(buf.State()), config)
    {
      hide Spec.CutParts, Spec.Flush;
      if offset != buf.nextOffset { buf.sequentialWrite := false; }
      buf.nextOffset := offset + |data|;
      if !buf.sequentialWrite && buf.originalSize > 0 {
        ok := FlushBuffer(buf);
        if !ok { return; }
        ok := client.PutObject(path, data);
        if !ok { return; }
        buf.size := Max(buf.size, offset + |data|);
        return;
      }
      ok := AppendData(buf, path, offset, data);
    }

    /** The buffered path of a write: append, open an upload at the threshold, cut parts or flush. */
    method AppendData(buf: FileWriteBuffer, path: string, offset: nat, data: Bytes) returns (ok: bool)
      requires Spec.GoodConfig(config) && multipart.partSize == config.partSize
      modifies buf, buf.multipart, client
      ensures var b2 := Spec.Append(old(buf.State()), path, offset, data, config);
        (buf.State(), client.State(), ok) ==
          if b2.upload.Some? then (Spec.CutParts(b2, config.partSize), old(client.State()), true)
          else if |b2.data| >= config.bufferSize then Spec.Flush(b2, old(client.State()))
          else (b2, old(client.State()), true)
      ensures buf.multipart != null ==> buf.multipart == old(buf.multipart) || fresh(buf.multipart)
    {
      buf.data := buf.data + data;
      buf.dirty := true;
      buf.size := Max(buf.size, offset + |data|);
      if |buf.data| >= config.threshold && buf.multipart == null {
        buf.multipart := new MultipartUploadState(path);
      }
      if buf.multipart != null { CutBuffer(buf); }
      if buf.NeedsFlush(config.bufferSize) && buf.multipart == null {
        ok := FlushBuffer(buf);
        return;
      }
      return true;
    }

    /** Updating one buffer, with its own or a new upload, is an update of one entry of the table. */
    twostate lemma OneBuffer(inode: nat)
      requires old(Valid()) && inode in buffers && old(buffers) == buffers
      requires this !in Repr && client !in Repr && old(Repr) <= Repr && Within(buffers[inode], Repr)
      requires forall o: object ::
        o in old(Repr) && o != buffers[inode] && o != old(buffers[inode].multipart) ==> unchanged(o)
      requires var u := buffers[inode].multipart; u == null || u == old(buffers[inode].multipart) || fresh(u)
      ensures Valid()
      ensures State() == old(State())[inode := buffers[inode].State()]
    {
      hide FileWriteBuffer.State;
      forall i | i in buffers && i != inode
        ensures buffers[i].State() == old(buffers[i].State()) && Within(buffers[i], Repr)
        ensures Apart(buffers[i], buffers[inode]) && Apart(buffers[inode], buffers[i])
      {
        assert old(Apart(buffers[i], buffers[inode])) && old(Within(buffers[i], Repr));
      }
      forall i, j | i in buffers && j in buffers && i != j
        ensures Apart(buffers[i], buffers[j])
      {
        assert old(Apart(buffers[i], buffers[j]));
      }
    }

    method WriteExisting(inode: nat, path: string, offset: nat, data: Bytes) returns (ok: bool)
      requires Valid() && inode in buffers
      modifies this`Repr, Repr, client
      ensures Valid() && fresh(Repr - old(Repr))
      ensures var (b, st, done) := Spec.Write(old(State())[inode], old(client.State()), path, offset, data, config);
        State() == old(State())[inode := b] && client.State() == st && ok == done
      ensures var u := old(buffers[inode].multipart);
        u != null && old(Spec.Direct(buffers[inode].State(), offset) && Spec.FlushTakes(buffers[inode].State())) ==>
          u.State() == Spec.Completed(old(buffers[inode].State()), config)
    {
      var buf := buffers[inode];
      assert Within(buf, Repr);
      ok := WriteBufferData(buf, path, offset, data);
      if buf.multipart != null { Repr := Repr + {buf.multipart}; }
      OneBuffer(inode);
    }

    method Write(inode: nat, path: string, offset: nat, data: Bytes, fileSize: nat) returns (ok: bool)
      requires Valid()
      modifies this, Repr, client
      ensures Valid() && fresh(Repr - old(Repr))
      ensures (State(), client.State(), ok)
           == Spec.WriteAt(old(State()), old(client.State()), inode, path, offset, data, fileSize, config)
      ensures inode in old(buffers) ==>
        var u := old(buffers[inode].multipart);
        u != null && old(Spec.Direct(buffers[inode].State(), offset) && Spec.FlushTakes(buffers[inode].State())) ==>
          u.State() == Spec.Completed(old(buffers[inode].State()), config)
    {
      hide Spec.Write, Spec.Direct, Spec.FlushTakes, Spec.Completed;
      var buf := GetOrCreate(inode, path, fileSize);
      ghost var created := buf.State();
      ok := WriteExisting(inode, path, offset, data);
      SetTwice(old(State()), inode, created, State()[inode]);
    }

    method FlushFile(inode: nat) returns (ok: bool)
      requires Valid()
      modifies Repr, client
      ensures Valid()
      ensures (State(), client.State(), ok) == Spec.FlushAt(old(State()), old(client.State()), inode)
      ensures inode in old(buffers) ==>
        var u := old(buffers[inode].multipart);
        u != null && old(Spec.FlushTakes(buffers[inode].State())) ==>
          u.State() == Spec.Completed(old(buffers[inode].State()), config)
    {
      if inode !in buffers { return true; }
      ok := FlushBuffer(buffers[inode]);
      OneBuffer(inode);
    }

    method Release(inode: nat) returns (ok: bool)
      requires Valid()
      modifies this, Repr, client
      ensures Valid() && Repr == old(Repr)
      ensures (State(), client.State(), ok) == Spec.ReleaseAt(old(State()), old(client.State()), inode)
      ensures inode in old(buffers) ==>
        var u := old(buffers[inode].multipart);
        u != null && old(Spec.FlushTakes(buffers[inode].State())) ==>
          u.State() == Spec.Completed(old(buffers[inode].State()), config)
    {
      if inode !in buffers { return true; }
      ok := FlushFile(inode);
      SetThenForget(old(State()), inode, State()[inode]);
      Forget(inode);
    }

    method Forget(inode: nat)
      requires Valid()
      modifies this`buffers
      ensures Valid() && State() == old(State()) - {inode}
    {
      buffers := buffers - {inode};
    }

    method TruncateExisting(inode: nat, path: string, size: nat) returns (ok: bool)
      requires Valid() && inode in buffers
      modifies Repr, client
      ensures Valid()
      ensures var (b, st, done) := Spec.Truncate(old(State())[inode], old(client.State()), path, size);
        State() == old(State())[inode := b] && client.State() == st && ok == done
      ensures var u := old(buffers[inode].multipart); u != null ==> u.State() == Abort(old(u.State()))
    {
      assert Within(buffers[inode], Repr);
      ok := TruncateBuffer(buffers[inode], path, size);
      OneBuffer(inode);
    }

    method Truncate(inode: nat, path: string, size: nat) returns (ok: bool)
      requires Valid()
      modifies this, Repr, client
      ensures Valid() && fresh(Repr - old(Repr))
      ensures (State(), client.State(), ok)
           == Spec.TruncateAt(old(State()), old(client.State()), inode, path, size)
      ensures inode in old(buffers) ==>
        var u := old(buffers[inode].multipart); u != null ==> u.State() == Abort(old(u.State()))
    {
      hide Spec.Truncate, Abort;
      var buf := GetOrCreate(inode, path, size);
      ghost var created := buf.State();
      ok := TruncateExisting(inode, path, size);
      SetTwice(old(State()), inode, created, State()[inode]);
    }

    method TruncateBuffer(buf: FileWriteBuffer, path: string, size: nat) returns (ok: bool)
      modifies buf, buf.multipart, client
      ensures (buf.State(), client.State(), ok) == Spec.Truncate(old(buf.State()), old(client.State()), path, size)
      ensures buf.multipart == null
      ensures var u := old(buf.multipart); u != null ==> u.State() == Abort(old(u.State()))
    {
      if buf.multipart != null {
        multipart.AbortUpload(buf.multipart);
        buf.multipart := null;
      }
      buf.data := [];
      buf.size := size;
      buf.dirty := true;
      ok := true;
      if size == 0 {
        ok := client.PutObject(path, []);
        if ok { buf.dirty := false; }
      }
    }
  }
}
