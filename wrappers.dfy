/** Option and Result values used throughout the model in place of null and exceptions. */
module Wrappers {

  datatype Option<T> = None | Some(value: T)

  /** The exceptions the modelled C# code can throw, by kind. */
  datatype Error =
    | ValueTooBig              // ArgumentException("Value too big") raised by the checked casts of a part locator
    | ArgumentError            // ArgumentException
    | ArgumentOutOfRange       // ArgumentOutOfRangeException raised by a collection or an index check
    | IndexOutOfRange          // IndexOutOfRangeException raised by an array or string index
    | NotImplemented           // NotImplementedException
    | InvalidData              // InvalidDataException
    | EndOfStream              // EndOfStreamException
    | FormatError              // FormatException raised by a number parser
    | OverflowError            // OverflowException raised by a number parser
    | IOFailure                // IOException
    | InvalidOperation         // InvalidOperationException, such as Last() of an empty list

  datatype Result<T> = Ok(value: T) | Err(error: Error)
  {
    predicate IsFailure() { Err? }

    function PropagateFailure<U>(): Result<U>
      requires Err?
    {
      Err(error)
    }

    function Extract(): T
      requires Ok?
    {
      value
    }
  }
}
