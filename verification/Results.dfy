/** Failure-compatible results, the error cases of the engine, and the machine integer ranges. */
module Results {

  datatype Option<+T> = None | Some(value: T)

  datatype Result<+T> = Ok(value: T) | Err(error: Error) {
    predicate IsFailure() {
      Err?
    }

    function PropagateFailure<U>(): Result<U>
      requires Err?
    {
      Err(error)
    }

    function Extract(): T
      requires Ok?
    {
      value
    }
  }

  /** One constructor for each message an `L5mError::Format` carries. */
  datatype Error =
    | ShortHeader | BadMagic | BadVersion | BadHeaderLength
    | SegmentHashMismatch | MetadataOverflow | BadSectionOffsets | OutOfBounds | SectionOutOfBounds
    | BadIndexMarker | BadIndexCount | OffsetOverflow
    | InvalidUtf8 | TruncatedList | TrailingBytes
    | ContentHashMismatch | SourceHashMismatch
    | BadRelationKind | ForeignRelation
    | InconsistentEmbedding | DuplicateIds
    | InvalidNumber
    | IoFailure
    | BadAuditLine | BadWalLine | BrokenChain | ModifiedRecord

  type byte = x: int | 0 <= x < 0x100
  type u32 = x: int | 0 <= x < 0x1_0000_0000
  type u64 = x: int | 0 <= x < 0x1_0000_0000_0000_0000
  type u128 = x: int | 0 <= x < 0x1_0000_0000_0000_0000_0000_0000_0000_0000
  type i8 = x: int | -0x80 <= x < 0x80
  type i16 = x: int | -0x8000 <= x < 0x8000
  type i64 = x: int | -0x8000_0000_0000_0000 <= x < 0x8000_0000_0000_0000

  /** `usize` on a 64-bit target: every unchecked sum the code writes must stay in this range. */
  type usize = u64

  /** Byte strings. A Rust slice or vector never exceeds `isize::MAX` bytes. */
  type Bytes = seq<byte>

  const ISIZE_LIMIT: nat := 0x8000_0000_0000_0000

  type Digest = b: Bytes | |b| == 32 witness seq(32, _ => 0)

  /** `usize::checked_add` and `usize::checked_mul`. */
  function CheckedAdd(a: usize, b: usize): (r: Option<usize>)
    ensures r.Some? <==> a + b < 0x1_0000_0000_0000_0000
    ensures r.Some? ==> r.value == a + b
  {
    if a + b < 0x1_0000_0000_0000_0000 then Some(a + b) else None
  }

  function CheckedMul(a: usize, b: nat): (r: Option<usize>)
    ensures r.Some? <==> a * b < 0x1_0000_0000_0000_0000
    ensures r.Some? ==> r.value == a * b
  {
    if a * b < 0x1_0000_0000_0000_0000 then Some(a * b) else None
  }
}
