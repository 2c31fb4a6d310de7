/** Small vocabulary shared by every module of the model: Rust's `Option`,
    the outcome of a computation that may panic, and the fixed-width unsigned
    integer types the program uses for ids. */
module Prelude {

  /** Rust's `Option<T>`. */
  datatype Option<+T> = None | Some(value: T)

  /** The places where the program panics instead of returning an error.
      Each one is a distinct panic site of the Rust code:
      - UnwrapOnNone: `Option::unwrap` on `None` (a `find` that found nothing);
      - SliceStartAfterEnd: `&s[i..j]` with `i > j`;
      - AddrParse: `Result::unwrap` on an `AddrParseError`;
      - DivideByZero: integer division of `usize` by zero;
      - ZeroChunkSize: `slice::chunks(0)`, which asserts a non-zero size. */
  datatype Panic = UnwrapOnNone | SliceStartAfterEnd | AddrParse | DivideByZero | ZeroChunkSize

  /** Either a value or the panic that ended the computation. */
  datatype Result<+T> = Ok(value: T) | Panicked(cause: Panic)

  /** Rust's `u32` and `u64`, as ranges of mathematical naturals. */
  type U32 = x: nat | x < 0x1_0000_0000
  type U64 = x: nat | x < 0x1_0000_0000_0000_0000
}
