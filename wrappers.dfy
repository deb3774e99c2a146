/** Option and Result, the library's stand-ins for Java's null references and thrown exceptions. */
module Wrappers {

  /** A reference that may be null. */
  datatype Option<+T> = None | Some(value: T)

  /** Either a value or the failure that was raised instead. */
  datatype Result<+R, +E> = Success(value: R) | Failure(error: E)

  /** Java's string concatenation of a possibly-null string: null is spelled "null". */
  function Text(s: Option<string>): (r: string)
    ensures s.Some? ==> r == s.value
    ensures s.None? ==> r == "null"
  {
    match s
    case Some(v) => v
    case None => "null"
  }
}
