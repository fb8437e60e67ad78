/** Optional values and results with an error text, standing for Java's
    null returns and thrown exceptions. */
module Wrappers {
  datatype Option<T> = None | Some(value: T)

  datatype Result<T> = Ok(value: T) | Err(error: string)

  /** The text Java's string concatenation produces for a possibly-null string. */
  function TextOf(s: Option<string>): string
  {
    match s
    case None => "null"
    case Some(t) => t
  }
}
