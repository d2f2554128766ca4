/** Values shared by every module: JavaScript's `null`/`undefined` as `None`,
    a thrown error or rejected promise as `Err`, and the browser's byte and file types. */
module Wrappers {

  datatype Option<+T> = None | Some(value: T)

  datatype Result<+T, +E> = Ok(value: T) | Err(error: E)

  /** An element of a `Uint8Array`. */
  newtype byte = x: int | 0 <= x < 256

  /** A browser `File`: its bytes, its name and its declared MIME type. */
  datatype File = File(bytes: seq<byte>, name: string, mimeType: string)

  /** JavaScript truthiness of a string that may be null or undefined. */
  predicate TruthyString(s: Option<string>)
  {
    s.Some? && s.value != ""
  }

  /** JavaScript truthiness of a number that may be null or undefined
      (NaN is not modelled, see README). */
  predicate TruthyNumber(x: Option<real>)
  {
    x.Some? && x.value != 0.0
  }
}
