/** Types shared by every component: bytes, optional values, results, and block arithmetic. */
module Base {

  newtype byte = x: int | 0 <= x < 256

  type Bytes = seq<byte>

  datatype Option<+T> = None | Some(value: T)

  datatype Result<+T, +E> = Ok(value: T) | Err(error: E)

  function Min(a: nat, b: nat): nat { if a <= b then a else b }

  function Max(a: nat, b: nat): nat { if a <= b then b else a }

  /** `u64::saturating_sub`. */
  function SatSub(a: nat, b: nat): nat { if b <= a then a - b else 0 }

  /** The bytes of `file` in [from, from + len), clipped at the end of the file. */
  function Slice(file: Bytes, from: nat, len: nat): Bytes {
    file[Min(from, |file|)..Min(from + len, |file|)]
  }

  /** `offset` rounded down to a multiple of `blockSize`. */
  function Align(offset: nat, blockSize: nat): (k: nat)
    requires blockSize > 0
    ensures k <= offset < k + blockSize
    ensures k == offset - offset % blockSize
  {
    assert offset == offset / blockSize * blockSize + offset % blockSize;
    offset / blockSize * blockSize
  }

  lemma {:induction false} MultipleIsAligned(n: nat, blockSize: nat)
    requires blockSize > 0
    ensures (n * blockSize) % blockSize == 0
    ensures (n * blockSize) / blockSize == n
  {
    DivUnique(n * blockSize, blockSize, n);
  }

  lemma {:induction false} DivUnique(a: nat, d: nat, q: nat)
    requires d > 0
    requires q * d <= a < q * d + d
    ensures a / d == q
  {
    var p := a / d;
    assert a == p * d + a % d;
    assert p < q ==> (p + 1) * d <= q * d;
    assert q < p ==> (q + 1) * d <= p * d;
  }

  /** Aligned keys are the fixed points of rounding down. */
  lemma AlignIdempotent(offset: nat, blockSize: nat)
    requires blockSize > 0
    ensures Align(Align(offset, blockSize), blockSize) == Align(offset, blockSize)
    ensures Align(offset, blockSize) % blockSize == 0
  {
    MultipleIsAligned(offset / blockSize, blockSize);
  }

  /** A block number lies in the rounded-out range exactly when its block meets the byte range. */
  lemma BlockMeetsRange(b: nat, offset: nat, len: nat, blockSize: nat)
    requires blockSize > 0 && len > 0
    ensures offset / blockSize <= b < (offset + len + blockSize - 1) / blockSize
            <==> b * blockSize < offset + len && offset < b * blockSize + blockSize
  {
    FloorBelow(offset, blockSize, b);
    FloorBelow(offset + len + blockSize - 1, blockSize, b);
  }

  /** The quotient is at most `b` exactly when the dividend is below the end of block `b`. */
  lemma FloorBelow(a: nat, d: nat, b: nat)
    requires d > 0
    ensures a / d <= b <==> a < b * d + d
  {
    var q := a / d;
    assert q * d <= a < q * d + d;
    if q <= b { assert q * d <= b * d; } else { assert (b + 1) * d <= q * d; }
  }
}
