/** 64-bit machine words, the status codes and the option type every component shares. */
module Machine {
  const WORD: int := 0x1_0000_0000_0000_0000
  const MAX64: int := 0xFFFF_FFFF_FFFF_FFFF

  /** uint64_t, size_t and uintptr_t of the source. */
  type u64 = x: int | 0 <= x < 0x1_0000_0000_0000_0000
  type byte = x: int | 0 <= x < 256

  /** uint32_t. */
  type u32 = x: int | 0 <= x < 0x1_0000_0000

  /** Unsigned addition, subtraction and multiplication wrap around at 2^64. */
  function Add64(a: u64, b: u64): u64 {
    if a + b < WORD then a + b else a + b - WORD
  }

  function Sub64(a: u64, b: u64): u64 {
    if b <= a then a - b else a - b + WORD
  }

  function Mul64(a: u64, b: u64): u64 {
    (a * b) % WORD
  }

  datatype Status =
    | Success
    | ErrInvalidMagic
    | ErrUnsupportedVersion
    | ErrMalformedHeader
    | ErrOutOfBoundsRead
    | ErrIntegerOverflow
    | ErrCUDAAllocation
    | ErrCUDABoundaryViolation
    | ErrSanitizerViolation

  datatype Option<+T> = None | Some(value: T)

  /** A buffer the machine can hold: its size is below 2^63, so a cursor into it never wraps. */
  predicate Addressable(buffer: seq<byte>) {
    |buffer| < 0x8000_0000_0000_0000
  }

  lemma Assoc(a: seq<byte>, b: seq<byte>, c: seq<byte>)
    ensures (a + b) + c == a + (b + c)
  {
  }
}
