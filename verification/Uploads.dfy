/** Multipart uploads: a byte stream cut into numbered parts. */
module Uploads {
  import opened Base
  import opened FileNames

  /** One uploaded part. The program records number, tag and size; `payload` is the byte string it
      handed to `upload_part`. */
  datatype Part = Part(partNumber: nat, etag: string, size: nat, payload: Bytes)

  datatype Upload = Upload(path: string, parts: seq<Part>, currentPart: nat, buffer: Bytes, totalBytes: nat)

  function NewUpload(path: string): Upload { Upload(path, [], 1, [], 0) }

  function UploadPart(u: Upload, data: Bytes): Upload {
    u.(parts := u.parts + [Part(u.currentPart, "part-" + Decimal(u.currentPart), |data|, data)],
       currentPart := u.currentPart + 1)
  }

  /** The part-cutting loop. */
  function Drain(u: Upload, partSize: nat): Upload
    requires partSize > 0
    decreases |u.buffer|
  {
    if |u.buffer| < partSize then u
    else Drain(UploadPart(u.(buffer := u.buffer[partSize..]), u.buffer[..partSize]), partSize)
  }

  function Write(u: Upload, data: Bytes, partSize: nat): Upload
    requires partSize > 0
  {
    Drain(u.(buffer := u.buffer + data, totalBytes := u.totalBytes + |data|), partSize)
  }

  function Complete(u: Upload): Upload {
    if u.buffer == [] then u else UploadPart(u.(buffer := []), u.buffer)
  }

  /** `abort` leaves the byte counter alone. */
  function Abort(u: Upload): Upload {
    u.(parts := [], buffer := [], currentPart := 1)
  }

  function MaxFileSize(maxParts: nat, partSize: nat): nat { maxParts * partSize }

  // ---------------------------------------------------------------- the specification: cutting a stream

  function Payloads(parts: seq<Part>): Bytes {
    if parts == [] then [] else parts[0].payload + Payloads(parts[1..])
  }

  /** Every byte the upload has been given, in order. */
  function Stream(u: Upload): Bytes { Payloads(u.parts) + u.buffer }

  /** Part `i` (counting from 0) of `stream`: number, tag, size and bytes. */
  predicate IsPart(p: Part, i: nat, stream: Bytes, partSize: nat) {
    && p.partNumber == i + 1
    && p.etag == "part-" + Decimal(i + 1)
    && p.size == |p.payload|
    && i * partSize <= |stream|
    && p.payload == stream[i * partSize..Min((i + 1) * partSize, |stream|)]
  }

  /** An open upload: full parts numbered from 1, less than one part buffered, nothing lost. */
  ghost predicate Open(u: Upload, partSize: nat) {
    && |u.buffer| < partSize
    && Numbered(u, partSize)
  }

  ghost predicate Numbered(u: Upload, partSize: nat) {
    && u.currentPart == |u.parts| + 1
    && u.totalBytes == |Stream(u)|
    && |u.parts| * partSize == |Payloads(u.parts)|
    && (forall i :: 0 <= i < |u.parts| ==>
          IsPart(u.parts[i], i, Stream(u), partSize) && |u.parts[i].payload| == partSize)
  }

  /** A completed upload: the stream cut at multiples of the part size, only the last part short. */
  ghost predicate Cut(u: Upload, stream: Bytes, partSize: nat)
    requires partSize > 0
  {
    && u.buffer == [] && Stream(u) == stream
    && |u.parts| == (|stream| + partSize - 1) / partSize
    && (forall i :: 0 <= i < |u.parts| ==> IsPart(u.parts[i], i, stream, partSize) && u.parts[i].payload != [])
  }

  // ---------------------------------------------------------------- lemmas

  lemma {:induction false} PayloadsAppend(parts: seq<Part>, p: Part)
    ensures Payloads(parts + [p]) == Payloads(parts) + p.payload
  {
    if parts == [] {
      assert parts + [p] == [p];
    } else {
      assert (parts + [p])[1..] == parts[1..] + [p];
      PayloadsAppend(parts[1..], p);
      assert parts[0].payload + (Payloads(parts[1..]) + p.payload)
          == parts[0].payload + Payloads(parts[1..]) + p.payload;
    }
  }

  /** A longer stream leaves the parts already cut as they are. */
  lemma PartsExtend(u: Upload, v: Upload, partSize: nat)
    requires Numbered(u, partSize)
    requires v.parts == u.parts && Stream(u) <= Stream(v)
    ensures forall i :: 0 <= i < |v.parts| ==>
      IsPart(v.parts[i], i, Stream(v), partSize) && |v.parts[i].payload| == partSize
  {
  }

  /** The next part carries the bytes after those already cut. */
  lemma NextPart(cut: Bytes, payload: Bytes, rest: Bytes, n: nat, partSize: nat)
    requires |cut| == n * partSize
    requires |payload| == partSize || (|payload| <= partSize && rest == [])
    ensures IsPart(Part(n + 1, "part-" + Decimal(n + 1), |payload|, payload), n, cut + (payload + rest), partSize)
  {
  }

  /** Cutting one full part off the front of the buffer keeps the stream. */
  lemma CutOnePart(u: Upload, partSize: nat)
    requires partSize > 0 && Numbered(u, partSize) && |u.buffer| >= partSize
    ensures var v := UploadPart(u.(buffer := u.buffer[partSize..]), u.buffer[..partSize]);
            Numbered(v, partSize) && Stream(v) == Stream(u)
  {
    var payload, rest := u.buffer[..partSize], u.buffer[partSize..];
    var v := UploadPart(u.(buffer := rest), payload);
    var n := |u.parts|;
    PayloadsAppend(u.parts, v.parts[n]);
    assert payload + rest == u.buffer;
    assert Payloads(u.parts) + payload + rest == Payloads(u.parts) + (payload + rest);
    NextPart(Payloads(u.parts), payload, rest, n, partSize);
    PartsGrow(u, v, partSize);
  }

  lemma PartsGrow(u: Upload, v: Upload, partSize: nat)
    requires Numbered(u, partSize) && Stream(v) == Stream(u)
    requires |v.parts| == |u.parts| + 1 && v.parts[..|u.parts|] == u.parts
    requires v.currentPart == u.currentPart + 1 && v.totalBytes == u.totalBytes
    requires var p := v.parts[|u.parts|]; |p.payload| == partSize && IsPart(p, |u.parts|, Stream(v), partSize)
    requires |Payloads(v.parts)| == |Payloads(u.parts)| + partSize
    ensures Numbered(v, partSize)
  {
    assert |v.parts| * partSize == |u.parts| * partSize + partSize;
    forall i | 0 <= i < |v.parts|
      ensures IsPart(v.parts[i], i, Stream(v), partSize) && |v.parts[i].payload| == partSize
    {
      if i < |u.parts| { assert v.parts[i] == u.parts[i]; }
    }
  }

  lemma {:induction false} DrainCuts(u: Upload, partSize: nat)
    requires partSize > 0 && Numbered(u, partSize)
    ensures Open(Drain(u, partSize), partSize) && Stream(Drain(u, partSize)) == Stream(u)
    ensures Drain(u, partSize).path == u.path
    decreases |u.buffer|
  {
    if |u.buffer| >= partSize {
      CutOnePart(u, partSize);
      DrainCuts(UploadPart(u.(buffer := u.buffer[partSize..]), u.buffer[..partSize]), partSize);
    }
  }

  /** Writing extends the stream by exactly the bytes written, however they fall across parts. */
  lemma WriteExtends(u: Upload, data: Bytes, partSize: nat)
    requires partSize > 0 && Open(u, partSize)
    ensures Open(Write(u, data, partSize), partSize)
    ensures Stream(Write(u, data, partSize)) == Stream(u) + data
    ensures Write(u, data, partSize).path == u.path
  {
    var v := u.(buffer := u.buffer + data, totalBytes := u.totalBytes + |data|);
    assert Stream(v) == Stream(u) + data;
    PartsExtend(u, v, partSize);
    DrainCuts(v, partSize);
  }

  lemma NewIsOpen(path: string, partSize: nat)
    requires partSize > 0
    ensures Open(NewUpload(path), partSize) && Stream(NewUpload(path)) == []
  {
  }

  lemma {:induction false} DrainKeepsName(u: Upload, partSize: nat)
    requires partSize > 0
    ensures Drain(u, partSize).path == u.path
    decreases |u.buffer|
  {
    if |u.buffer| >= partSize {
      DrainKeepsName(UploadPart(u.(buffer := u.buffer[partSize..]), u.buffer[..partSize]), partSize);
    }
  }

  /** After any writes, completion has cut their concatenation at multiples of the part size: the parts
      depend on the bytes alone, not on how the writes were split. */
  lemma CompleteCuts(u: Upload, partSize: nat)
    requires partSize > 0 && Open(u, partSize)
    ensures Cut(Complete(u), Stream(u), partSize)
  {
    var s, n := Stream(u), |u.parts|;
    assert |s| == n * partSize + |u.buffer|;
    if u.buffer == [] {
      DivUnique(|s| + partSize - 1, partSize, n);
    } else {
      assert (n + 1) * partSize == n * partSize + partSize;
      DivUnique(|s| + partSize - 1, partSize, n + 1);
      PayloadsAppend(u.parts, Complete(u).parts[n]);
      assert u.buffer + [] == u.buffer;
      NextPart(Payloads(u.parts), u.buffer, [], n, partSize);
    }
  }

  /** The part count stays within the service's limit exactly for streams up to the maximum size. */
  lemma WithinMaxPartsIff(u: Upload, partSize: nat, maxParts: nat)
    requires partSize > 0 && Open(u, partSize)
    ensures |Complete(u).parts| <= maxParts <==> u.totalBytes <= MaxFileSize(maxParts, partSize)
  {
    CompleteCuts(u, partSize);
    FloorBelow(|Stream(u)| + partSize - 1, partSize, maxParts);
  }

  // ---------------------------------------------------------------- the program

  /** An aborted upload restarts numbering with nothing pending, but keeps its byte count: it is an upload
      again exactly when it never had a byte, and from then on the count is off by the bytes aborted. */
  lemma AbortedIsOpenIff(u: Upload, partSize: nat)
    requires partSize > 0
    ensures Stream(Abort(u)) == [] && Abort(u).currentPart == 1 && Abort(u).path == u.path
    ensures Open(Abort(u), partSize) <==> u.totalBytes == 0
  {
  }

  class MultipartUploadState {
    const path: string
    var parts: seq<Part>
    var currentPart: nat
    var buffer: Bytes
    var totalBytes: nat

    ghost function State(): Upload
      reads this
    {
      Upload(path, parts, currentPart, buffer, totalBytes)
    }

    constructor (path: string)
      ensures State() == NewUpload(path)
    {
      this.path, parts, currentPart, buffer, totalBytes := path, [], 1, [], 0;
    }

    predicate BufferReady(partSize: nat)
      reads this
    {
      |buffer| >= partSize
    }

    method TakeBuffer(partSize: nat) returns (data: Option<Bytes>)
      modifies this`buffer
      ensures old(BufferReady(partSize)) ==>
        data == Some(old(buffer)[..partSize]) && buffer == old(buffer)[partSize..]
      ensures !old(BufferReady(partSize)) ==> data == None && buffer == old(buffer)
    {
      if |buffer| >= partSize {
        data := Some(buffer[..partSize]);
        buffer := buffer[partSize..];
      } else {
        data := None;
      }
    }

    method TakeRemaining() returns (data: Bytes)
      modifies this`buffer
      ensures data == old(buffer) && buffer == []
    {
      data := buffer;
      buffer := [];
    }

    method UploadOne(data: Bytes)
      modifies this
      ensures State() == UploadPart(old(State()), data)
    {
      var partNumber := currentPart;
      currentPart := currentPart + 1;
      parts := parts + [Part(partNumber, "part-" + Decimal(partNumber), |data|, data)];
    }
  }

  class MultipartUploader {
    const partSize: nat
    const maxParts: nat

    constructor (partSize: nat, maxParts: nat)
      ensures this.partSize == partSize && this.maxParts == maxParts
    {
      this.partSize, this.maxParts := partSize, maxParts;
    }

    method WriteTo(state: MultipartUploadState, data: Bytes)
      requires partSize > 0
      modifies state
      ensures state.State() == Write(old(state.State()), data, partSize)
    {
      state.buffer := state.buffer + data;
      state.totalBytes := state.totalBytes + |data|;
      while state.BufferReady(partSize)
        invariant Drain(state.State(), partSize) == Write(old(state.State()), data, partSize)
        decreases |state.buffer|
      {
        var part := state.TakeBuffer(partSize);
        state.UploadOne(part.value);
      }
    }

    method CompleteUpload(state: MultipartUploadState)
      modifies state
      ensures state.State() == Complete(old(state.State()))
    {
      var remaining := state.TakeRemaining();
      if remaining != [] { state.UploadOne(remaining); }
    }

    method AbortUpload(state: MultipartUploadState)
      modifies state
      ensures state.State() == Abort(old(state.State()))
    {
      state.parts := [];
      state.buffer := [];
      state.currentPart := 1;
    }
  }
}
