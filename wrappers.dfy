/** Option and Result, the two failure-carrying values the model uses:
    a C string that may be NULL, and a parse that may be rejected; and the
    byte. */
module Wrappers {

  datatype Option<+T> = None | Some(value: T)

  datatype Result<+T, +E> = Ok(value: T) | Err(error: E)

  function Min(a: nat, b: nat): nat { if a <= b then a else b }

  /** An unsigned char: the unit of file contents and of digests. */
  newtype byte = x: int | 0 <= x < 256
}
