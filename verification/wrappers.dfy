/** Result types shared by the modules. */
module Wrappers {
  datatype Option<+T> = None | Some(value: T)

  /** The error kinds of `dllb_core::Error` that the modelled code returns. */
  datatype Error =
    | Storage    // malformed key
    | Index      // value or definition not indexable
    | Schema     // unique constraint violated
    | NotFound   // record or edge missing
    | Query      // statement not allowed
    | Other      // record already exists
    | Corrupt    // snapshot bytes that cannot be decoded

  datatype Result<+T> = Ok(value: T) | Err(error: Error) {
    predicate IsFailure() { Err? }
    function PropagateFailure<U>(): Result<U> requires Err? { Err(error) }
    function Extract(): T requires Ok? { value }
  }
}
