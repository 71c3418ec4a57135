/** Absent values and failures, as the conversion meets them: a regex match that finds nothing
    and a missing CSV cell are JavaScript's `undefined`; a thrown TypeError is an `Err`. */
module Wrappers {

  datatype Option<+T> = None | Some(value: T)

  datatype Result<+T, +E> = Ok(value: T) | Err(error: E)

  /** How a template literal shows a possibly-undefined string: the text itself, or "undefined". */
  function Show(o: Option<string>): string
  {
    match o
    case Some(s) => s
    case None => "undefined"
  }
}
