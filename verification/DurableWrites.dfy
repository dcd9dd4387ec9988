/** When sequential writing is durable: create (or truncate to zero), write contiguously from offset
    zero, release. The object ends up equal to the bytes written exactly on the runs described by
    `Durable`, a condition on the write sizes alone. */
module DurableWrites {
  import opened Base
  import opened Stores
  import opened WriteBuffers
  import Uploads

  function Concat(chunks: seq<Bytes>): Bytes {
    if chunks == [] then [] else chunks[0] + Concat(chunks[1..])
  }

  function Length(chunks: seq<Bytes>): nat {
    if chunks == [] then 0 else |chunks[0]| + Length(chunks[1..])
  }

  lemma {:induction false} ConcatLength(chunks: seq<Bytes>)
    ensures |Concat(chunks)| == Length(chunks)
  {
    if chunks != [] { ConcatLength(chunks[1..]); }
  }

  /** Write the chunks one after the other, starting at `offset`; all requests must succeed. */
  function WriteChunks(b: Buf, st: Store, path: string, offset: nat, chunks: seq<Bytes>, cfg: Config)
    : (Buf, Store, bool)
    requires cfg.partSize > 0
    decreases |chunks|
  {
    if chunks == [] then (b, st, true) else
      var (b1, st1, ok) := Write(b, st, path, offset, chunks[0], cfg);
      if !ok then (b1, st1, false)
      else WriteChunks(b1, st1, path, offset + |chunks[0]|, chunks[1..], cfg)
  }

  /** Contiguous writes, then the flush of the release. */
  function WriteAndRelease(b: Buf, st: Store, path: string, offset: nat, chunks: seq<Bytes>, cfg: Config)
    : (Store, bool)
    requires cfg.partSize > 0
  {
    var (b1, st1, ok) := WriteChunks(b, st, path, offset, chunks, cfg);
    if !ok then (st1, false)
    else
      var (_, st2, flushed) := Flush(b1, st1);
      (st2, flushed)
  }

  /** The first write to bring the total to the smaller of the two sizes must be the last one with any
      bytes in it, and must not reach the multipart threshold. `buffered` bytes are already buffered. */
  predicate Durable(chunks: seq<Bytes>, buffered: nat, cfg: Config) {
    if chunks == [] then true
    else
      var total := buffered + |chunks[0]|;
      if total >= cfg.threshold then total + Length(chunks[1..]) == 0
      else if total >= cfg.bufferSize then Length(chunks[1..]) == 0
      else Durable(chunks[1..], total, cfg)
  }

  /** A buffer in the middle of a sequential run without an upload. */
  ghost predicate Streaming(b: Buf, path: string, offset: nat, cfg: Config) {
    && b.path == path && b.upload.None? && b.sequential && b.nextOffset == offset
    && (b.data != [] ==> b.dirty) && |b.data| < cfg.bufferSize
  }

  ghost predicate Uploading(b: Buf, offset: nat, cfg: Config) {
    b.upload.Some? && b.sequential && b.nextOffset == offset && b.dirty
  }

  lemma {:induction false} CutKeepsUploading(b: Buf, partSize: nat)
    requires partSize > 0 && b.upload.Some?
    ensures var c := CutParts(b, partSize); c.upload.Some? && c == b.(data := c.data, upload := c.upload)
    decreases |b.data|
  {
    if |b.data| >= partSize {
      CutKeepsUploading(b.(data := b.data[partSize..],
                           upload := Some(Uploads.Write(b.upload.value, b.data[..partSize], partSize))), partSize);
    }
  }

  /** Once an upload is open, nothing more reaches the store. */
  lemma {:induction false} UploadStoresNothing(
    b: Buf, st: Store, path: string, offset: nat, chunks: seq<Bytes>, cfg: Config)
    requires GoodConfig(cfg) && Uploading(b, offset, cfg)
    ensures WriteAndRelease(b, st, path, offset, chunks, cfg) == (st, true)
    decreases |chunks|
  {
    if chunks != [] {
      CutKeepsUploading(Append(Noted(b, offset, chunks[0]), path, offset, chunks[0], cfg), cfg.partSize);
      var b1 := Write(b, st, path, offset, chunks[0], cfg).0;
      UploadStoresNothing(b1, st, path, offset + |chunks[0]|, chunks[1..], cfg);
    }
  }

  /** What one step of a streaming run does: open an upload, PUT everything buffered, or buffer. */
  lemma StreamingStep(b: Buf, st: Store, path: string, offset: nat, chunk: Bytes, cfg: Config)
    requires GoodConfig(cfg) && Streaming(b, path, offset, cfg)
    ensures var (b1, st1, ok) := Write(b, st, path, offset, chunk, cfg);
            var total := |b.data| + |chunk|;
            if total >= cfg.threshold then
              ok && st1 == st && Uploading(b1, offset + |chunk|, cfg)
            else if total >= cfg.bufferSize then
              && (st1, ok) == Put(st, path, b.data + chunk)
              && (ok ==> Streaming(b1, path, offset + |chunk|, cfg) && b1.data == [])
            else
              ok && st1 == st && Streaming(b1, path, offset + |chunk|, cfg) && b1.data == b.data + chunk
  {
    var b2 := Append(Noted(b, offset, chunk), path, offset, chunk, cfg);
    if b2.upload.Some? { CutKeepsUploading(b2, cfg.partSize); }
  }

  /** With nothing left to write, the release only PUTs what is buffered. */
  lemma {:induction false} EmptyWrites(
    b: Buf, st: Store, path: string, offset: nat, chunks: seq<Bytes>, cfg: Config)
    requires GoodConfig(cfg) && Streaming(b, path, offset, cfg)
    requires Length(chunks) == 0 && |b.data| < cfg.threshold
    ensures WriteAndRelease(b, st, path, offset, chunks, cfg)
         == if b.data == [] then (st, true) else Put(st, path, b.data)
    decreases |chunks|
  {
    if chunks != [] {
      StreamingStep(b, st, path, offset, chunks[0], cfg);
      assert b.data + chunks[0] == b.data;
      var b1 := Write(b, st, path, offset, chunks[0], cfg).0;
      EmptyWrites(b1, st, path, offset + |chunks[0]|, chunks[1..], cfg);
    }
  }

  /** A run leaves the object alone or ends with one no longer than what it had still to store. */
  lemma {:induction false} FinalObjectShort(
    b: Buf, st: Store, path: string, offset: nat, chunks: seq<Bytes>, cfg: Config)
    requires GoodConfig(cfg) && Streaming(b, path, offset, cfg) && path in st.objects
    ensures var (st', ok) := WriteAndRelease(b, st, path, offset, chunks, cfg);
            && path in st'.objects
            && (ok ==> st'.objects[path] == st.objects[path]
                       || |st'.objects[path]| <= |b.data| + Length(chunks))
    decreases |chunks|
  {
    if chunks != [] {
      StreamingStep(b, st, path, offset, chunks[0], cfg);
      var (b1, st1, ok) := Write(b, st, path, offset, chunks[0], cfg);
      if b1.upload.Some? {
        UploadStoresNothing(b1, st1, path, offset + |chunks[0]|, chunks[1..], cfg);
      } else if ok {
        FinalObjectShort(b1, st1, path, offset + |chunks[0]|, chunks[1..], cfg);
      }
    }
  }

  /** On a durable run the release PUTs everything in one piece. */
  lemma {:induction false} DurableRunStores(
    b: Buf, st: Store, path: string, offset: nat, chunks: seq<Bytes>, cfg: Config)
    requires GoodConfig(cfg) && Streaming(b, path, offset, cfg) && |b.data| < cfg.threshold
    requires Durable(chunks, |b.data|, cfg)
    ensures WriteAndRelease(b, st, path, offset, chunks, cfg)
         == if b.data + Concat(chunks) == [] then (st, true) else Put(st, path, b.data + Concat(chunks))
    decreases |chunks|
  {
    if chunks == [] {
      assert b.data + Concat(chunks) == b.data;
    } else {
      var rest := chunks[1..];
      ConcatLength(rest);
      assert b.data + Concat(chunks) == b.data + chunks[0] + Concat(rest);
      StreamingStep(b, st, path, offset, chunks[0], cfg);
      var (b1, st1, ok) := Write(b, st, path, offset, chunks[0], cfg);
      if |b.data| + |chunks[0]| >= cfg.bufferSize {
        assert b.data + chunks[0] + Concat(rest) == b.data + chunks[0];
        if ok { EmptyWrites(b1, st1, path, offset + |chunks[0]|, rest, cfg); }
      } else {
        DurableRunStores(b1, st1, path, offset + |chunks[0]|, rest, cfg);
      }
    }
  }

  /** On any other run that reports success, the object differs from what was written. */
  lemma {:induction false} OtherRunsDoNot(
    b: Buf, st: Store, path: string, offset: nat, chunks: seq<Bytes>, cfg: Config)
    requires GoodConfig(cfg) && Streaming(b, path, offset, cfg) && path in st.objects
    requires st.objects[path] == []
    requires !Durable(chunks, |b.data|, cfg)
    ensures var (st', ok) := WriteAndRelease(b, st, path, offset, chunks, cfg);
            ok ==> path in st'.objects && |st'.objects[path]| < |b.data + Concat(chunks)|
    decreases |chunks|
  {
    var rest := chunks[1..];
    ConcatLength(chunks);
    StreamingStep(b, st, path, offset, chunks[0], cfg);
    var (b1, st1, ok) := Write(b, st, path, offset, chunks[0], cfg);
    if |b.data| + |chunks[0]| >= cfg.threshold {
      UploadStoresNothing(b1, st1, path, offset + |chunks[0]|, rest, cfg);
    } else if |b.data| + |chunks[0]| >= cfg.bufferSize {
      if ok { FinalObjectShort(b1, st1, path, offset + |chunks[0]|, rest, cfg); }
    } else {
      ConcatLength(rest);
      OtherRunsDoNot(b1, st1, path, offset + |chunks[0]|, rest, cfg);
    }
  }

  /** Sequential writing from an empty object and a fresh buffer, when every request succeeds: the
      object ends up equal to the concatenation of the writes if and only if the sizes are durable;
      then there is exactly one PUT, or none when nothing was written. */
  lemma DurableIff(st: Store, path: string, chunks: seq<Bytes>, cfg: Config)
    requires GoodConfig(cfg) && path in st.objects && st.objects[path] == []
    requires WriteAndRelease(NewBuf(path, 0), st, path, 0, chunks, cfg).1
    ensures var st' := WriteAndRelease(NewBuf(path, 0), st, path, 0, chunks, cfg).0;
            && path in st'.objects
            && (st'.objects[path] == Concat(chunks) <==> Durable(chunks, 0, cfg))
            && (Durable(chunks, 0, cfg) ==>
                  st'.puts == st.puts + if Concat(chunks) == [] then [] else [(path, Concat(chunks))])
  {
    var b := NewBuf(path, 0);
    assert b.data + Concat(chunks) == Concat(chunks);
    if Durable(chunks, 0, cfg) {
      if cfg.threshold == 0 {
        ThresholdZero(chunks, cfg);
        if chunks != [] {
          StreamingStep(b, st, path, 0, chunks[0], cfg);
          UploadStoresNothing(Write(b, st, path, 0, chunks[0], cfg).0, st, path, |chunks[0]|, chunks[1..], cfg);
        }
      } else {
        DurableRunStores(b, st, path, 0, chunks, cfg);
      }
    } else {
      OtherRunsDoNot(b, st, path, 0, chunks, cfg);
    }
  }

  lemma ThresholdZero(chunks: seq<Bytes>, cfg: Config)
    requires cfg.threshold == 0 && Durable(chunks, 0, cfg)
    ensures Concat(chunks) == []
  {
  }

  /** Below both sizes every run is durable. */
  lemma {:induction false} SmallRunsDurable(chunks: seq<Bytes>, buffered: nat, cfg: Config)
    requires buffered + Length(chunks) < Min(cfg.bufferSize, cfg.threshold)
    ensures Durable(chunks, buffered, cfg)
  {
    if chunks != [] { SmallRunsDurable(chunks[1..], buffered + |chunks[0]|, cfg); }
  }

  /** At or above the threshold no run with bytes in it is durable, however it is split. */
  lemma {:induction false} LargeRunsNotDurable(chunks: seq<Bytes>, buffered: nat, cfg: Config)
    requires buffered < Min(cfg.bufferSize, cfg.threshold) <= cfg.threshold <= buffered + Length(chunks)
    ensures !Durable(chunks, buffered, cfg)
  {
    if |chunks[0]| + buffered < Min(cfg.bufferSize, cfg.threshold) {
      LargeRunsNotDurable(chunks[1..], buffered + |chunks[0]|, cfg);
    }
  }
}
