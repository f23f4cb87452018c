/** Failure-compatible results and the machine integers the services count with. */
module Wrappers {

  datatype Option<+T> = None | Some(value: T)

  datatype Result<+T, +E> = Success(value: T) | Failure(error: E) {
    predicate IsFailure() {
      Failure?
    }

    function PropagateFailure<U>(): Result<U, E>
      requires Failure?
    {
      Failure(error)
    }

    function Extract(): T
      requires Success?
    {
      value
    }
  }

  const U64_MAX: nat := 0xFFFF_FFFF_FFFF_FFFF

  /** Revisions, versions and times are unsigned 64-bit. */
  type U64 = n: nat | n <= U64_MAX

  /** `checked_add`: None when the sum does not fit. */
  function CheckedAdd(a: U64, b: U64): Option<U64> {
    if a + b <= U64_MAX then Some(a + b) else None
  }

  function CheckedNext(n: U64): Option<U64> {
    CheckedAdd(n, 1)
  }
}
