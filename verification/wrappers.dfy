/** Option and Result values standing for Java's null and for the exceptions the core throws. */
module Wrappers {

  /** A reference that may be null. */
  datatype Option<T> = None | Some(value: T)

  /** `a` when it is present, otherwise `b`: how a newer source shadows an older one. */
  function OrElse<T>(a: Option<T>, b: Option<T>): Option<T>
  {
    if a.Some? then a else b
  }

  /** The one exception a well-typed call in the core can raise on a malformed file: reading
      `parts[1]` of a line that has no comma. */
  datatype Error = IndexOutOfBounds

  datatype Result<T> = Ok(value: T) | Err(error: Error)
}
