/** Values that stand for a Rust call that either returns or panics. */
module Outcomes {

  datatype Option<+T> = None | Some(value: T)

  /** Why a Rust call panicked. */
  datatype PanicReason =
    | IndexOutOfBounds   // a `v[i]` with `i >= v.len()`
    | AssertionFailed    // an `assert_eq!` whose two sides differ

  /** The outcome of a call that may panic. */
  datatype Result<+T> = Ok(value: T) | Panic(reason: PanicReason)
}
