/** The closed set of error kinds the decoder reports, and the result type
    every decoding step returns instead of raising. */
module Outcomes {

  /** Error kinds of the tag decoder. `EOF` is the expected end of a frame
      enumeration (the padding region was reached), not a fault. */
  datatype Error = EOF | InvalidHeader | ReadError | NoTag

  datatype Option<+T> = None | Some(value: T)

  datatype Result<+T> = Ok(value: T) | Err(error: Error) {

    predicate IsFailure() {
      Err?
    }

    function PropagateFailure<U>(): Result<U>
      requires Err?
    {
      Err(error)
    }

    function Extract(): T
      requires Ok?
    {
      value
    }
  }
}
