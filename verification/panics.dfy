/**
 * The ways the code can panic. Every `unwrap()` of a failed conversion and the
 * explicit `panic!` of `new_reference` end the current call; a function that
 * can panic returns a `Result` whose `Panicked` case names the reason.
 */
module Panics {
  import opened Bits

  datatype Panic =
    | SizeExceeds28Bits(size: u32)  // the explicit panic of new_reference
    | OffsetNotU32                  // usize -> u32 conversion of the offset
    | LengthNotU32                  // usize -> u32 conversion of the length
    | ReferenceNotI64               // u64 -> i64 conversion of the reference

  datatype Result<T> = Ok(value: T) | Panicked(panic: Panic) {
    predicate IsFailure() {
      Panicked?
    }

    function PropagateFailure<U>(): Result<U>
      requires Panicked?
    {
      Panicked(panic)
    }

    function Extract(): T
      requires Ok?
    {
      value
    }
  }

  /** `i64::try_from(word).unwrap()`: a u64 converts only if bit 63 is clear. */
  function ToI64(word: u64): (r: Result<i64>)
    ensures r.Ok? <==> word < I64_LIMIT
    ensures r.Ok? ==> r.value == word
    ensures r.Panicked? ==> r.panic == ReferenceNotI64
  {
    if word < I64_LIMIT then Ok(word) else Panicked(ReferenceNotI64)
  }
}
