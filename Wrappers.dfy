/** Failure-carrying values shared by the other modules. */
module Wrappers {

  datatype Option<+T> = None | Some(value: T)

  datatype Result<+T, +E> = Ok(value: T) | Err(error: E)

  /** The message of a Kotlin exception, which may be null. */
  type Message = Option<string>

  /** How a string template renders a possibly-null message. */
  function Text(m: Message): string
  {
    match m
    case Some(s) => s
    case None => "null"
  }
}
