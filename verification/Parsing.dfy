/** Results of reading. */
module Parsing {
  import opened Words

  datatype Option<+T> = None | Some(value: T)

  /** Outcome of reading from the front of a byte string. */
  datatype Parse<+T> = Fail | Ok(value: T, rest: seq<byte>) {
    predicate IsFailure() { Fail? }
    function PropagateFailure<U>(): Parse<U> requires Fail? { Fail }
    function Extract(): (T, seq<byte>) requires Ok? { (value, rest) }
  }
}
