/** Failure-carrying values shared by the correspondence and tag-lookup code. */
module Outcomes {

  /** The two failures the modelled functions can raise:
      - CardinalityError: the `len(X) <= len(Y)` assertion of the correspondence step fails;
      - IndexError: numpy's fancy indexing of the moving points fails. */
  datatype Error = CardinalityError | IndexError

  /** Python's `None`-or-value return. */
  datatype Option<+T> = None | Some(value: T)

  /** A value, or the exception that would have been raised instead. */
  datatype Result<+T> = Ok(value: T) | Err(error: Error)
}
