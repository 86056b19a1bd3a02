/** Failure-carrying results for the operations of the model.
    A Java method that throws becomes a function or method returning Err(fault);
    the faults name the exception the source throws. */
module Outcomes {

  /** The exceptions the modelled code raises. */
  datatype Fault =
    | IllegalArgument      // IllegalArgumentException
    | IndexOutOfBounds     // ArrayIndexOutOfBoundsException / IndexOutOfBoundsException
    | NullPointer          // dereferencing an absent value (a missing input, the root's parent)
    | NegativeArraySize    // NegativeArraySizeException
    | ProgrammerError      // RuntimeException("Programmer error ...")
    | NotImplemented       // RuntimeException("Not implemented yet")

  datatype Result<T> = Ok(value: T) | Err(fault: Fault)

  datatype Option<T> = None | Some(value: T)
}
