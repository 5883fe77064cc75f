/** Failure-carrying result types shared by the parsers, the trie loader and the UTF-8 codec. */
module Results {

  /** A value that may be absent. */
  datatype Option<T> = None | Some(value: T)

  /** The exceptions the modelled Java code can throw, as values. */
  datatype Error =
    | UnknownHost       // java.net.UnknownHostException from the IPv4 text parsers
    | MalformedInput    // the RuntimeException wrapping MalformedInputException in the encoder

  /** Either a value or the exception that replaced it. */
  datatype Result<T> = Ok(value: T) | Err(error: Error) {
    predicate IsFailure() { Err? }
    function PropagateFailure<U>(): Result<U>
      requires Err?
    {
      Err(error)
    }
    function Extract(): T
      requires Ok?
    {
      value
    }
  }
}
