/** Option and Result, plus the failure kinds the engine raises. */
module Wrappers {

  datatype Option<+T> = None | Some(value: T)

  /** The ways an operation of the engine fails (Java exceptions and failed `assert`s). */
  datatype Error =
    | NullBuffer          // IOException "buffer is null" / "bytes is null"
    | InvalidLen          // IOException "Invalid len"
    | InvalidOffsetLen    // IOException "Invalid offset/len"
    | IndexOutOfBounds    // ArrayIndexOutOfBoundsException
    | UnknownCode         // IllegalArgumentException "unknown code"
    | AssertionFailed     // a Java `assert` that does not hold (assertions enabled)
    | RefCountNotZero     // IOException "Cannot close. RefCount: n"
    | MemStoreFull        // IOException "MemStore is full, now is flushing, wait and retry"
    | RenameFailed        // IOException "Rename fail"
    | NumberFormat        // NumberFormatException from Long.parseLong
    | DivideByZero        // ArithmeticException "/ by zero"
    | NegativeArraySize   // NegativeArraySizeException
    | NegativeSeek        // IOException from seeking a file to a negative position
    | NotOpen             // NullPointerException: the file was never opened
    | StreamClosed        // IOException "Stream Closed": reading a file after close()
    | NoCurrentBlock      // NullPointerException: next() before any block was loaded
    | NullPointer         // NullPointerException: a null iterator, entry or record dereferenced
    | BufferOverflow      // BufferOverflowException: a put past the buffer's limit
    | NegativeCapacity    // IllegalArgumentException from allocating a negative capacity
    | NegativePosition    // IllegalArgumentException from reading a channel at a negative position

  datatype Result<+T> = Ok(value: T) | Err(error: Error) {
    predicate IsFailure() { Err? }
    function PropagateFailure<U>(): Result<U>
      requires Err?
    {
      Err(error)
    }
    function Extract(): T
      requires Ok?
    {
      value
    }
  }
}
