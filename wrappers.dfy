/** Helpers shared by every module of the model: the outcome of an operation
    that may panic, and the fixed-width integers of the Rust source. */
module Wrappers {

  datatype Option<+T> = None | Some(value: T)

  /** The outcome of a Rust operation that either returns a value or panics.
      A panic aborts the current run, so the model promises nothing about the
      state an operation leaves behind when it returns `Panic`. */
  datatype Result<+T> = Ok(value: T) | Panic(msg: string) {
    predicate IsFailure() { Panic? }

    function PropagateFailure<U>(): Result<U>
      requires Panic?
    {
      Panic(msg)
    }

    function Extract(): T
      requires Ok?
    {
      value
    }
  }

  /** `u32`, `u64` and `i32` of the source. */
  newtype u32 = x: int | 0 <= x < 0x1_0000_0000
  newtype u64 = x: int | 0 <= x < 0x1_0000_0000_0000_0000
  newtype i32 = x: int | -0x8000_0000 <= x < 0x8000_0000

  const U32_LIMIT: int := 0x1_0000_0000

  /** Rust's `x as u32` on a `usize`: keeps the low 32 bits. */
  function AsU32(x: nat): (r: u32)
    ensures x < U32_LIMIT ==> r as int == x
    ensures (r as int - x) % U32_LIMIT == 0
  {
    (x % U32_LIMIT) as u32
  }

  /** Rust's `x as i32` on a `usize`: keeps the low 32 bits, read as two's complement. */
  function AsI32(x: nat): (r: i32)
    ensures x < 0x8000_0000 ==> r as int == x
    ensures (r as int - x) % U32_LIMIT == 0
  {
    var low := x % U32_LIMIT;
    if low < 0x8000_0000 then low as i32 else (low - U32_LIMIT) as i32
  }

  /** Rust's wrapping `i32` subtraction. */
  function WrappingSubI32(a: i32, b: i32): (r: i32)
    ensures -0x8000_0000 <= a as int - b as int < 0x8000_0000 ==> r as int == a as int - b as int
    ensures (r as int - (a as int - b as int)) % U32_LIMIT == 0
  {
    var d := (a as int - b as int) % U32_LIMIT;
    if d < 0x8000_0000 then d as i32 else (d - U32_LIMIT) as i32
  }
}
