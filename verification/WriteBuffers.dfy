/** Per-file write buffers as values: one buffer's state machine, its history, and the table of
    buffers by inode. */
module WriteBuffers {
  import opened Base
  import opened Stores
  import Uploads

  datatype Config = Config(bufferSize: nat, threshold: nat, partSize: nat)

  ghost predicate GoodConfig(cfg: Config) { cfg.bufferSize > 0 && cfg.partSize > 0 }

  datatype Buf = Buf(
    path: string,
    data: Bytes,
    dirty: bool,
    size: nat,
    originalSize: nat,
    upload: Option<Uploads.Upload>,
    sequential: bool,
    nextOffset: nat)

  function NewBuf(path: string, originalSize: nat): Buf {
    Buf(path, [], false, originalSize, originalSize, None, true, 0)
  }

  /** A flush does something only for a dirty buffer with data in it. */
  predicate FlushTakes(b: Buf) { b.dirty && b.data != [] }

  /** The upload as the flush completes it; the program then drops it. */
  function Completed(b: Buf, cfg: Config): Uploads.Upload
    requires b.upload.Some? && cfg.partSize > 0
  {
    Uploads.Complete(Uploads.Write(b.upload.value, b.data, cfg.partSize))
  }

  /** Flush one buffer. With an upload open the data becomes its last parts and nothing is PUT;
      otherwise the data is PUT as the whole object. A failed PUT has already emptied the buffer. */
  function Flush(b: Buf, st: Store): (Buf, Store, bool) {
    if !FlushTakes(b) then (b, st, true)
    else if b.upload.Some? then
      (b.(data := [], upload := None, dirty := false, originalSize := b.size), st, true)
    else
      var (st', ok) := Put(st, b.path, b.data);
      if ok then (b.(data := [], dirty := false, originalSize := b.size), st', true)
      else (b.(data := []), st', false)
  }

  /** Move full parts from the buffer into the upload. */
  function CutParts(b: Buf, partSize: nat): Buf
    requires b.upload.Some? && partSize > 0
    decreases |b.data|
  {
    if |b.data| < partSize then b
    else CutParts(b.(data := b.data[partSize..],
                     upload := Some(Uploads.Write(b.upload.value, b.data[..partSize], partSize))), partSize)
  }

  /** `write` takes the direct path: the buffer is not sequential and the file had data. */
  predicate Direct(b: Buf, offset: nat) {
    !(b.sequential && offset == b.nextOffset) && b.originalSize > 0
  }

  function Noted(b: Buf, offset: nat, data: Bytes): Buf {
    b.(sequential := b.sequential && offset == b.nextOffset, nextOffset := offset + |data|)
  }

  /** Replace the whole object with the bytes of this one write. */
  function WriteDirect(b: Buf, st: Store, path: string, offset: nat, data: Bytes): (Buf, Store, bool) {
    var (b1, st1, flushed) := Flush(b, st);
    if !flushed then (b1, st1, false)
    else
      var (st2, ok) := Put(st1, path, data);
      (if ok then b1.(size := Max(b1.size, offset + |data|)) else b1, st2, ok)
  }

  /** Append, then open an upload at the threshold. */
  function Append(b: Buf, path: string, offset: nat, data: Bytes, cfg: Config): Buf {
    var b1 := b.(data := b.data + data, dirty := true, size := Max(b.size, offset + |data|));
    if |b1.data| >= cfg.threshold && b1.upload.None? then b1.(upload := Some(Uploads.NewUpload(path))) else b1
  }

  function Write(b: Buf, st: Store, path: string, offset: nat, data: Bytes, cfg: Config): (Buf, Store, bool)
    requires cfg.partSize > 0
  {
    var b1 := Noted(b, offset, data);
    if Direct(b, offset) then WriteDirect(b1, st, path, offset, data)
    else
      var b2 := Append(b1, path, offset, data, cfg);
      if b2.upload.Some? then (CutParts(b2, cfg.partSize), st, true)
      else if |b2.data| >= cfg.bufferSize then Flush(b2, st)
      else (b2, st, true)
  }

  /** Truncation to a non-zero size touches the buffer only. */
  function Truncate(b: Buf, st: Store, path: string, size: nat): (Buf, Store, bool) {
    var b1 := b.(upload := None, data := [], size := size, dirty := true);
    if size == 0 then
      var (st', ok) := Put(st, path, []);
      (if ok then b1.(dirty := false) else b1, st', ok)
    else (b1, st, true)
  }

  // ---------------------------------------------------------------- invariant

  /** Buffered data is dirty and below the size at which the next step would take it; an open upload is
      well cut and buffers nothing of its own between operations. */
  ghost predicate BufOk(b: Buf, cfg: Config)
    requires cfg.partSize > 0
  {
    && (b.data != [] ==> b.dirty)
    && (b.upload.None? ==> |b.data| < cfg.bufferSize)
    && (b.upload.Some? ==> |b.data| < cfg.partSize && b.upload.value.buffer == []
                           && Uploads.Open(b.upload.value, cfg.partSize))
  }

  /** A flush always leaves the buffer empty, whether or not it had anything to do or succeeded. */
  lemma FlushEmpties(b: Buf, st: Store, cfg: Config)
    requires GoodConfig(cfg) && BufOk(b, cfg)
    ensures Flush(b, st).0.data == [] && BufOk(Flush(b, st).0, cfg)
  {
  }

  /** A flush cleans the buffer exactly when it has data to take and its PUT, if it makes one, goes through: a
      dirty buffer without data stays dirty, and an upload it has open stays open. */
  lemma FlushCleansIff(b: Buf, st: Store)
    ensures var (b', _, ok) := Flush(b, st);
            && (b'.dirty <==> b.dirty && (b.data == [] || !ok))
            && (b.dirty && b.data == [] ==> b' == b && ok)
  {
  }

  /** A truncation leaves the buffer clean exactly when it stored the empty object, and no upload. */
  lemma TruncateCleansIff(b: Buf, st: Store, path: string, size: nat)
    ensures var (b', st', _) := Truncate(b, st, path, size);
            && b'.upload == None && b'.data == [] && b'.size == size
            && (b'.dirty <==> !(size == 0 && st.requests !in st.outages))
  {
  }

  /** Cutting whole parts leaves the upload's own buffer empty. */
  lemma WriteFullPart(u: Uploads.Upload, data: Bytes, partSize: nat)
    requires partSize > 0 && Uploads.Open(u, partSize) && u.buffer == [] && |data| == partSize
    ensures var v := Uploads.Write(u, data, partSize);
            Uploads.Open(v, partSize) && v.buffer == [] && Uploads.Stream(v) == Uploads.Stream(u) + data
  {
    Uploads.WriteExtends(u, data, partSize);
    FullPartEmpties(u, data, partSize);
  }

  lemma FullPartEmpties(u: Uploads.Upload, data: Bytes, partSize: nat)
    requires partSize > 0 && u.buffer == [] && |data| == partSize
    ensures Uploads.Write(u, data, partSize).buffer == []
  {
    assert u.buffer + data == data && data[partSize..] == [];
    var u1 := u.(buffer := data, totalBytes := u.totalBytes + |data|);
    var u2 := Uploads.UploadPart(u1.(buffer := data[partSize..]), data[..partSize]);
    assert Uploads.Drain(u1, partSize) == Uploads.Drain(u2, partSize) == u2;
  }

  lemma {:induction false} CutPartsKeeps(b: Buf, partSize: nat)
    requires partSize > 0 && b.upload.Some?
    requires Uploads.Open(b.upload.value, partSize) && b.upload.value.buffer == []
    ensures var c := CutParts(b, partSize);
            && c == b.(data := c.data, upload := c.upload)
            && c.upload.Some? && |c.data| < partSize
            && Uploads.Open(c.upload.value, partSize) && c.upload.value.buffer == []
            && Uploads.Stream(c.upload.value) + c.data == Uploads.Stream(b.upload.value) + b.data
    decreases |b.data|
  {
    hide Uploads.Write, Uploads.Open, Uploads.Stream;
    if |b.data| >= partSize {
      var head, rest := b.data[..partSize], b.data[partSize..];
      var u, v := b.upload.value, Uploads.Write(b.upload.value, head, partSize);
      WriteFullPart(u, head, partSize);
      assert (Uploads.Stream(u) + head) + rest == Uploads.Stream(u) + (head + rest) && head + rest == b.data;
      CutPartsKeeps(b.(data := rest, upload := Some(v)), partSize);
    }
  }

  lemma WriteKeeps(b: Buf, st: Store, path: string, offset: nat, data: Bytes, cfg: Config)
    requires GoodConfig(cfg) && BufOk(b, cfg)
    ensures BufOk(Write(b, st, path, offset, data, cfg).0, cfg)
  {
    var b1 := Noted(b, offset, data);
    if Direct(b, offset) {
      FlushEmpties(b1, st, cfg);
    } else {
      var b2 := Append(b1, path, offset, data, cfg);
      if b2.upload.Some? {
        Uploads.NewIsOpen(path, cfg.partSize);
        CutPartsKeeps(b2, cfg.partSize);
      }
    }
  }

  // ---------------------------------------------------------------- runs of one buffer

  datatype Op =
    | OpWrite(path: string, offset: nat, data: Bytes)
    | OpFlush
    | OpTruncate(path: string, size: nat)

  function Step(b: Buf, st: Store, op: Op, cfg: Config): (Buf, Store, bool)
    requires cfg.partSize > 0
  {
    match op
    case OpWrite(path, offset, data) => Write(b, st, path, offset, data, cfg)
    case OpFlush => Flush(b, st)
    case OpTruncate(path, size) => Truncate(b, st, path, size)
  }

  function Exec(b: Buf, st: Store, ops: seq<Op>, cfg: Config): (Buf, Store)
    requires cfg.partSize > 0
  {
    if ops == [] then (b, st) else
      var (b1, st1) := Exec(b, st, ops[..|ops| - 1], cfg);
      var (b2, st2, _) := Step(b1, st1, ops[|ops| - 1], cfg);
      (b2, st2)
  }

  /** The write fills the buffer without opening an upload, so it ends in a flush. */
  predicate FillsBuffer(b: Buf, data: Bytes, cfg: Config) {
    b.upload.None? && cfg.bufferSize <= |b.data| + |data| < cfg.threshold
  }

  /** The bytes appended since a flush or truncate last took the buffer's contents, as one operation
      changes them. */
  function AppendedStep(appended: Bytes, b: Buf, op: Op, cfg: Config): Bytes {
    match op
    case OpWrite(path, offset, data) =>
      if Direct(b, offset) then (if FlushTakes(b) then [] else appended)
      else if FillsBuffer(b, data, cfg) then [] else appended + data
    case OpFlush => if FlushTakes(b) then [] else appended
    case OpTruncate(path, size) => []
  }

  function Appended(b: Buf, st: Store, ops: seq<Op>, cfg: Config): Bytes
    requires cfg.partSize > 0
  {
    if ops == [] then [] else
      var front := ops[..|ops| - 1];
      AppendedStep(Appended(b, st, front, cfg), Exec(b, st, front, cfg).0, ops[|ops| - 1], cfg)
  }

  /** Uploaded parts, then the upload's buffer, then the file's buffer. */
  function Pending(b: Buf): Bytes {
    (if b.upload.Some? then Uploads.Stream(b.upload.value) else []) + b.data
  }

  lemma WritePending(b: Buf, st: Store, path: string, offset: nat, data: Bytes, cfg: Config)
    requires GoodConfig(cfg) && BufOk(b, cfg)
    ensures Pending(Write(b, st, path, offset, data, cfg).0)
         == AppendedStep(Pending(b), b, OpWrite(path, offset, data), cfg)
  {
    if !Direct(b, offset) {
      var b2 := Append(Noted(b, offset, data), path, offset, data, cfg);
      assert Pending(b) + data == (if b.upload.Some? then Uploads.Stream(b.upload.value) else []) + (b.data + data);
      if b2.upload.Some? {
        Uploads.NewIsOpen(path, cfg.partSize);
        CutPartsKeeps(b2, cfg.partSize);
      }
    }
  }

  lemma StepKeeps(b: Buf, st: Store, op: Op, cfg: Config)
    requires GoodConfig(cfg) && BufOk(b, cfg)
    ensures BufOk(Step(b, st, op, cfg).0, cfg)
    ensures Pending(Step(b, st, op, cfg).0) == AppendedStep(Pending(b), b, op, cfg)
  {
    match op
    case OpWrite(path, offset, data) =>
      WriteKeeps(b, st, path, offset, data, cfg);
      WritePending(b, st, path, offset, data, cfg);
    case OpFlush =>
    case OpTruncate(path, size) =>
  }

  /** At every moment of every run, whichever requests fail: the buffer invariant holds, and parts,
      upload buffer and file buffer together are exactly the bytes appended since the last flush or
      truncate that took them. */
  lemma {:induction false} StreamExact(path: string, size: nat, st: Store, ops: seq<Op>, cfg: Config)
    requires GoodConfig(cfg)
    ensures var b := Exec(NewBuf(path, size), st, ops, cfg).0;
            BufOk(b, cfg) && Pending(b) == Appended(NewBuf(path, size), st, ops, cfg)
  {
    if ops != [] {
      var front := ops[..|ops| - 1];
      StreamExact(path, size, st, front, cfg);
      var (b, st1) := Exec(NewBuf(path, size), st, front, cfg);
      StepKeeps(b, st1, ops[|ops| - 1], cfg);
    }
  }

  /** When a flush completes an upload, its parts are the appended bytes cut at multiples of the part
      size, and the store is left alone: nothing of the upload is ever written to an object. */
  lemma UploadedExactly(path: string, size: nat, st: Store, ops: seq<Op>, cfg: Config)
    requires GoodConfig(cfg)
    ensures var (b, st1) := Exec(NewBuf(path, size), st, ops, cfg);
            b.upload.Some? && FlushTakes(b) ==>
              && Uploads.Cut(Completed(b, cfg), Appended(NewBuf(path, size), st, ops, cfg), cfg.partSize)
              && Flush(b, st1).0.upload == None
              && Flush(b, st1).1 == st1
  {
    StreamExact(path, size, st, ops, cfg);
    var b := Exec(NewBuf(path, size), st, ops, cfg).0;
    if b.upload.Some? {
      Uploads.WriteExtends(b.upload.value, b.data, cfg.partSize);
      Uploads.CompleteCuts(Uploads.Write(b.upload.value, b.data, cfg.partSize), cfg.partSize);
    }
  }

  /** The object of the buffer holds exactly the bytes `data`. */
  predicate ObjectHas(st: Store, path: string, data: Bytes) { path in st.objects && st.objects[path] == data }

  predicate WritesTo(ops: seq<Op>, path: string) { forall op :: op in ops && op.OpWrite? ==> op.path == path }

  /** An upload is for the object the writes name. */
  lemma {:induction false} UploadNamesObject(path: string, size: nat, st: Store, ops: seq<Op>, cfg: Config)
    requires GoodConfig(cfg) && WritesTo(ops, path)
    ensures var b := Exec(NewBuf(path, size), st, ops, cfg).0;
            b.path == path && (b.upload.Some? ==> b.upload.value.path == path)
  {
    if ops != [] {
      var front, op := ops[..|ops| - 1], ops[|ops| - 1];
      assert op in ops && forall o :: o in front ==> o in ops;
      UploadNamesObject(path, size, st, front, cfg);
      var (b, st1) := Exec(NewBuf(path, size), st, front, cfg);
      StepKeepsName(b, st1, op, path, cfg);
    }
  }

  lemma StepKeepsName(b: Buf, st: Store, op: Op, path: string, cfg: Config)
    requires GoodConfig(cfg) && b.path == path && (b.upload.Some? ==> b.upload.value.path == path)
    requires op.OpWrite? ==> op.path == path
    ensures var b' := Step(b, st, op, cfg).0;
            b'.path == path && (b'.upload.Some? ==> b'.upload.value.path == path)
  {
    if op.OpWrite? {
      var b2 := Append(Noted(b, op.offset, op.data), op.path, op.offset, op.data, cfg);
      if b2.upload.Some? { CutKeepsName(b2, cfg.partSize); }
    }
  }

  lemma {:induction false} CutKeepsName(b: Buf, partSize: nat)
    requires partSize > 0 && b.upload.Some?
    ensures var c := CutParts(b, partSize);
            c.path == b.path && c.upload.Some? && c.upload.value.path == b.upload.value.path
    decreases |b.data|
  {
    if |b.data| >= partSize {
      var u := Uploads.Write(b.upload.value, b.data[..partSize], partSize);
      Uploads.DrainKeepsName(b.upload.value.(buffer := b.upload.value.buffer + b.data[..partSize],
                                             totalBytes := b.upload.value.totalBytes + partSize), partSize);
      CutKeepsName(b.(data := b.data[partSize..], upload := Some(u)), partSize);
    }
  }

  /** Without an upload, a flush keeps the buffered bytes (in the object, the buffer being empty) exactly
      when its PUT goes through or the object already held them: a failed PUT loses them. */
  lemma FlushKeepsBytesIff(b: Buf, st: Store, cfg: Config)
    requires GoodConfig(cfg) && BufOk(b, cfg) && b.upload.None? && b.data != []
    ensures var (b', st', ok) := Flush(b, st);
            && (b'.data == b.data || ObjectHas(st', b.path, b.data)
                <==> st.requests !in st.outages || ObjectHas(st, b.path, b.data))
            && (ok <==> st.requests !in st.outages)
  {
  }

  // ---------------------------------------------------------------- the table of buffers

  type Table = map<nat, Buf>

  function BufferOf(t: Table, inode: nat, path: string, size: nat): Buf {
    if inode in t then t[inode] else NewBuf(path, size)
  }

  function WriteAt(t: Table, st: Store, inode: nat, path: string, offset: nat, data: Bytes, fileSize: nat, cfg: Config)
    : (Table, Store, bool)
    requires cfg.partSize > 0
  {
    var (b, st', ok) := Write(BufferOf(t, inode, path, fileSize), st, path, offset, data, cfg);
    (t[inode := b], st', ok)
  }

  function FlushAt(t: Table, st: Store, inode: nat): (Table, Store, bool) {
    if inode in t then
      var (b, st', ok) := Flush(t[inode], st);
      (t[inode := b], st', ok)
    else (t, st, true)
  }

  /** Release forgets the buffer even when its last flush fails. */
  function ReleaseAt(t: Table, st: Store, inode: nat): (Table, Store, bool) {
    if inode in t then
      var (b, st', ok) := Flush(t[inode], st);
      (t - {inode}, st', ok)
    else (t, st, true)
  }

  function TruncateAt(t: Table, st: Store, inode: nat, path: string, size: nat): (Table, Store, bool) {
    var (b, st', ok) := Truncate(BufferOf(t, inode, path, size), st, path, size);
    (t[inode := b], st', ok)
  }

  /** Release forgets the buffer, so the bytes in it survive only in the object: exactly when no upload is
      open and the PUT goes through, or the object already held them. */
  lemma ReleaseKeepsBytesIff(t: Table, st: Store, inode: nat, cfg: Config)
    requires GoodConfig(cfg) && inode in t && BufOk(t[inode], cfg) && t[inode].data != []
    ensures var b, (t', st', _) := t[inode], ReleaseAt(t, st, inode);
            && t' == t - {inode}
            && (ObjectHas(st', b.path, b.data)
                <==> (b.upload.None? && st.requests !in st.outages) || ObjectHas(st, b.path, b.data))
  {
  }
}
