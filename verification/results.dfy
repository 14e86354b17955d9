/** Optional values, failure-compatible results and the errors the segment
    reduction raises. A `TORCH_CHECK` that fails becomes an `Err`; an access
    outside a buffer, which is undefined behaviour in the C++ kernel, is
    reported as `OutOfBoundsAccess` instead of being given a meaning. */
module Results {

  datatype Option<+T> = None | Some(value: T)

  datatype Error =
    | UnsupportedReduction(name: string)  // reduction name outside the five kinds
    | DimOutOfRange                       // axis outside [-ndim, ndim)
    | EmptyData                           // data.numel() == 0
    | LengthsOnly                         // lengths absent, or indices given
    | RankMismatch                        // data.dim() < lengths.dim()
    | AxisMismatch                        // axis != lengths.dim() - 1
    | EmptyLengths                        // lengths.min() of an empty tensor
    | NegativeLength                      // a negative segment length
    | LengthsSumMismatch                  // a row of lengths does not sum to data.size(axis)
    | LengthsShapeMismatch                // lengths' leading sizes differ from data's
    | OutOfBoundsAccess                   // the kernel would read outside a buffer

  datatype Result<+T> = Ok(value: T) | Err(error: Error) {

    predicate IsFailure() {
      Err?
    }

    function PropagateFailure<U>(): Result<U>
      requires Err?
    {
      Err(error)
    }

    function Extract(): T
      requires Ok?
    {
      value
    }
  }
}
