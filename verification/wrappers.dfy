/** Failure values shared by every component of the Huffman core.
    Each constructor of `Error` stands for one Java exception class that
    the core throws; `Result` replaces the exception with a return value. */
module Wrappers {

  /** The exceptions the core raises. */
  datatype Error =
    | IllegalState        // IllegalStateException
    | IndexOutOfBounds    // IndexOutOfBoundsException
    | IllegalArgument     // IllegalArgumentException
    | NegativeArraySize   // NegativeArraySizeException
    | NullPointer         // NullPointerException
    | InvalidFileFormat   // InvalidFileFormatException

  /** Either a value or the exception that replaced it. */
  datatype Result<+T> = Ok(value: T) | Err(error: Error) {

    predicate IsFailure() {
      Err?
    }

    function PropagateFailure<U>(): Result<U>
      requires Err?
    {
      Err(error)
    }

    function Extract(): T
      requires Ok?
    {
      value
    }
  }
}
