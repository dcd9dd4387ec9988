/** Writes that are not contiguous: to a file without data they are appended in the order they arrive,
    whatever their offsets; to a file with data each one replaces the whole object. */
module RandomWrites {
  import opened Base
  import opened Stores
  import opened WriteBuffers
  import DurableWrites

  datatype Piece = Piece(offset: nat, data: Bytes)

  /** What the pieces should make of `file`, the last one winning; a gap reads as zeros. */
  function Patched(file: Bytes, p: Piece): Bytes {
    var padded := file + seq(SatSub(p.offset, |file|), _ => 0 as byte);
    padded[..p.offset] + p.data + padded[Min(p.offset + |p.data|, |padded|)..]
  }

  function Arrivals(pieces: seq<Piece>): seq<Bytes> {
    if pieces == [] then [] else [pieces[0].data] + Arrivals(pieces[1..])
  }

  function WritePieces(b: Buf, st: Store, path: string, pieces: seq<Piece>, cfg: Config): (Buf, Store, bool)
    requires cfg.partSize > 0
    decreases |pieces|
  {
    if pieces == [] then (b, st, true) else
      var (b1, st1, ok) := Write(b, st, path, pieces[0].offset, pieces[0].data, cfg);
      if !ok then (b1, st1, false) else WritePieces(b1, st1, path, pieces[1..], cfg)
  }

  /** Into a buffer of a file without data, less than a flush in all: the buffer holds the pieces in the order
      they arrived, at whatever offsets, and the store is left alone. */
  lemma {:induction false} OffsetsIgnored(b: Buf, st: Store, path: string, pieces: seq<Piece>, cfg: Config)
    requires cfg.partSize > 0 && b.originalSize == 0 && b.upload.None? && (b.data != [] ==> b.dirty)
    requires |b.data| + DurableWrites.Length(Arrivals(pieces)) < Min(cfg.bufferSize, cfg.threshold)
    ensures var (b1, st1, ok) := WritePieces(b, st, path, pieces, cfg);
            && ok && st1 == st && b1.path == b.path && b1.upload.None? && (b1.data != [] ==> b1.dirty)
            && b1.data == b.data + DurableWrites.Concat(Arrivals(pieces))
    decreases |pieces|
  {
    if pieces != [] {
      assert Arrivals(pieces)[1..] == Arrivals(pieces[1..]);
      var (b1, st1, ok) := Write(b, st, path, pieces[0].offset, pieces[0].data, cfg);
      OffsetsIgnored(b1, st1, path, pieces[1..], cfg);
    }
  }

  /** So a released new file holds the pieces in order of arrival. */
  lemma NewFileHoldsArrivals(st: Store, path: string, pieces: seq<Piece>, cfg: Config)
    requires GoodConfig(cfg)
    requires 0 < DurableWrites.Length(Arrivals(pieces)) < Min(cfg.bufferSize, cfg.threshold)
    ensures var (b, st1, ok) := WritePieces(NewBuf(path, 0), st, path, pieces, cfg);
            ok && Flush(b, st1).1 == Put(st, path, DurableWrites.Concat(Arrivals(pieces))).0
  {
    OffsetsIgnored(NewBuf(path, 0), st, path, pieces, cfg);
    DurableWrites.ConcatLength(Arrivals(pieces));
    var stored := DurableWrites.Concat(Arrivals(pieces));
    assert [] + stored == stored;
  }

  /** One piece written to a new file ends up where it was meant to be if and only if its offset is 0. */
  lemma OnePieceRightIff(p: Piece)
    requires p.data != []
    ensures DurableWrites.Concat(Arrivals([p])) == Patched([], p) <==> p.offset == 0
  {
    assert [p][1..] == [] && Arrivals([p]) == [p.data] && [p.data][1..] == [];
    assert DurableWrites.Concat(Arrivals([p])) == p.data;
    assert |Patched([], p)| == p.offset + |p.data|;
    if p.offset == 0 { assert Patched([], p) == p.data; }
  }

  /** A write to a file with data, at an offset other than the expected one, first flushes what is buffered
      (completing an upload, else one PUT) and then replaces the whole object by its own bytes. */
  lemma RandomWriteReplaces(b: Buf, st: Store, path: string, offset: nat, data: Bytes, cfg: Config)
    requires cfg.partSize > 0 && BufOk(b, cfg)
    requires b.originalSize > 0 && (offset != b.nextOffset || !b.sequential)
    requires Write(b, st, path, offset, data, cfg).2
    ensures var (b1, st1, _) := Write(b, st, path, offset, data, cfg);
            && ObjectHas(st1, path, data)
            && st1.puts
               == st.puts + (if b.data != [] && b.upload.None? then [(b.path, b.data)] else []) + [(path, data)]
            && b1.data == [] && !b1.sequential && b1.nextOffset == offset + |data|
            && b1.size == Max(b.size, offset + |data|)
  {
  }

  /** That is what the write should have made of the object if and only if it covers the whole of it. */
  lemma ReplacementRightIff(file: Bytes, p: Piece)
    requires p.data != []
    ensures p.data == Patched(file, p) <==> p.offset == 0 && |file| <= |p.data|
  {
    assert |Patched(file, p)| == Max(|file|, p.offset + |p.data|);
    if p.offset == 0 && |file| <= |p.data| { assert Patched(file, p) == p.data; }
  }

  /** Once a flush has stored some bytes, the file has data: from then on a write elsewhere than the expected
      offset replaces the object it just stored. */
  lemma FlushedThenElsewhere(b: Buf, st: Store, path: string, offset: nat, data: Bytes, cfg: Config)
    requires GoodConfig(cfg) && BufOk(b, cfg) && b.data != [] && b.size > 0
    requires Flush(b, st).2 && offset != b.nextOffset
    requires var (b1, st1, _) := Flush(b, st); Write(b1, st1, path, offset, data, cfg).2
    ensures var (b1, st1, _) := Flush(b, st);
            ObjectHas(Write(b1, st1, path, offset, data, cfg).1, path, data)
  {
    var (b1, st1, _) := Flush(b, st);
    RandomWriteReplaces(b1, st1, path, offset, data, cfg);
  }

  // ---------------------------------------------------------------- what the buffer remembers of a run

  /** Where the last write of the run ended. */
  function LastEnd(ops: seq<Op>): nat {
    if ops == [] then 0 else
      match ops[|ops| - 1]
      case OpWrite(_, offset, data) => offset + |data|
      case _ => LastEnd(ops[..|ops| - 1])
  }

  /** Each write starts where the one before it ended, the first at 0. */
  predicate Contiguous(ops: seq<Op>) {
    ops == [] ||
      (Contiguous(ops[..|ops| - 1]) && (ops[|ops| - 1].OpWrite? ==> ops[|ops| - 1].offset == LastEnd(ops[..|ops| - 1])))
  }

  /** Over every run, whatever fails, the buffer counts as sequential exactly when all its writes so far were
      contiguous from 0, flushes and truncations notwithstanding. */
  lemma {:induction false} SequentialIff(path: string, size: nat, st: Store, ops: seq<Op>, cfg: Config)
    requires cfg.partSize > 0
    ensures var b := Exec(NewBuf(path, size), st, ops, cfg).0;
            (b.sequential <==> Contiguous(ops)) && b.nextOffset == LastEnd(ops)
  {
    if ops != [] {
      var front, op := ops[..|ops| - 1], ops[|ops| - 1];
      SequentialIff(path, size, st, front, cfg);
      var (b, st1) := Exec(NewBuf(path, size), st, front, cfg);
      StepRemembers(b, st1, op, cfg);
    }
  }

  lemma StepRemembers(b: Buf, st: Store, op: Op, cfg: Config)
    requires cfg.partSize > 0
    ensures var b1 := Step(b, st, op, cfg).0;
            if op.OpWrite? then
              (b1.sequential <==> b.sequential && op.offset == b.nextOffset) && b1.nextOffset == op.offset + |op.data|
            else b1.sequential == b.sequential && b1.nextOffset == b.nextOffset
  {
    if op.OpWrite? { StepSize(b, st, op, cfg); }
  }

  /** The size of the file as the operations make it: the furthest end, or the last truncation. */
  function Extent(size: nat, ops: seq<Op>): nat {
    if ops == [] then size else
      match ops[|ops| - 1]
      case OpWrite(_, offset, data) => Max(Extent(size, ops[..|ops| - 1]), offset + |data|)
      case OpFlush => Extent(size, ops[..|ops| - 1])
      case OpTruncate(_, to) => to
  }

  /** Over every run without outages the buffer knows that size. */
  lemma {:induction false} SizeIsExtent(path: string, size: nat, st: Store, ops: seq<Op>, cfg: Config)
    requires cfg.partSize > 0 && st.outages == {}
    ensures var (b, st1) := Exec(NewBuf(path, size), st, ops, cfg);
            b.size == Extent(size, ops) && st1.outages == {}
  {
    if ops != [] {
      SizeIsExtent(path, size, st, ops[..|ops| - 1], cfg);
      var (b, st1) := Exec(NewBuf(path, size), st, ops[..|ops| - 1], cfg);
      StepSize(b, st1, ops[|ops| - 1], cfg);
    }
  }

  lemma StepSize(b: Buf, st: Store, op: Op, cfg: Config)
    requires cfg.partSize > 0
    ensures var (b1, st1, _) := Step(b, st, op, cfg);
            && st1.outages == st.outages
            && (st.outages == {} ==>
                  b1.size == match op
                             case OpWrite(_, offset, data) => Max(b.size, offset + |data|)
                             case OpFlush => b.size
                             case OpTruncate(_, to) => to)
    ensures op.OpWrite? ==> var b2 := Append(Noted(b, op.offset, op.data), op.path, op.offset, op.data, cfg);
              b2.upload.Some? ==>
                CutParts(b2, cfg.partSize) == b2.(data := CutParts(b2, cfg.partSize).data,
                                                  upload := CutParts(b2, cfg.partSize).upload)
  {
    if op.OpWrite? {
      var b2 := Append(Noted(b, op.offset, op.data), op.path, op.offset, op.data, cfg);
      if b2.upload.Some? { DurableWrites.CutKeepsUploading(b2, cfg.partSize); }
    }
  }
}
