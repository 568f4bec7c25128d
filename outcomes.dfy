/** The two ways an operation on sparse matrices can fail. The Python
    source raises ValueError in both cases; the model keeps the two kinds
    apart and drops the message text. */
module Outcomes {

  datatype Error =
    | FormatError        // the matrix text could not be read
    | DimensionMismatch  // the operands' dimensions do not fit the operation

  datatype Option<+T> = None | Some(value: T)

  datatype Result<+T> = Ok(value: T) | Err(error: Error)
}
