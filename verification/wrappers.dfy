/** Failure-carrying datatypes shared by the whole model.

    The source is Rust: a call either returns `Ok`, returns an `Err` that the
    caller propagates with `?`, or panics (an `unwrap` on `None`, an index past
    the end of a slice, ...).  `Outcome` keeps the three apart so that the
    model can say which inputs make the program abort.
 */
module Wrappers {

  datatype Option<+T> = None | Some(value: T)

  /** The kinds of Rust panic the modelled code can raise. */
  datatype Abort =
    | IndexOutOfBounds   // indexing a slice or a fixed array past its end
    | UnwrapOnNone       // `Option::unwrap` or `Option::expect` on `None`
    | UnwrapOnErr        // `Result::unwrap` on an `Err`
    | IntConversion      // `try_into().unwrap()` on a value that does not fit
    | LengthMismatch     // `copy_from_slice` between slices of different lengths

  /** What a Rust call ends with: a value, a propagated error, or a panic. */
  datatype Outcome<+T, +E> = Ok(value: T) | Err(error: E) | Panic(abort: Abort)
}
