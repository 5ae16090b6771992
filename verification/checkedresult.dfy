/** The result every checked operation returns: a value, or the kind of error
    that prevented computing it. The diagnostic message the library carries
    with an error is not modelled. */
module CheckedResult {
  import opened IntTypes

  /** Why no valid result exists. */
  datatype ErrorKind =
    | PositiveOverflowError          // the true result is above the type's maximum
    | NegativeOverflowError          // the true result is below the type's minimum
    | RangeError                     // the result is not representable for another reason
    | DomainError                    // the operation is undefined for these operands
    | UndefinedBehavior              // the language leaves the result undefined
    | ImplementationDefinedBehavior  // the result depends on the platform

  datatype Checked<+V> = Value(v: V) | Error(kind: ErrorKind)

  /** The outcome the true mathematical result x deserves in type R: the value
      itself when R holds it, otherwise an overflow in the direction x lies. */
  function Exact(R: IntType, x: int): Checked<int>
  {
    if x > R.Max() then Error(PositiveOverflowError)
    else if x < R.Min() then Error(NegativeOverflowError)
    else Value(x)
  }
}
