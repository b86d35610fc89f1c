/** Small value wrappers shared by the modules of this model. */
module Wrappers {

  /** A value that may be absent: PHP's `null` result or a missing POST field, JavaScript's `null`. */
  datatype Option<+T> = None | Some(value: T)

  /** The outcome of a request handler: `Ok` is a "success" envelope, `Err` an "error" envelope. */
  datatype Result<+T> = Ok(value: T) | Err(message: string)

  /** A username, as the session and the stores hold it. */
  type User = string

  /**
   * PHP truthiness of a request parameter: a missing parameter, the empty
   * string and the string "0" are all false in `if (!$x)`.
   */
  predicate Truthy(v: Option<string>): (b: bool)
    ensures b ==> v.Some? && |v.value| >= 1
    ensures v.Some? && |v.value| >= 2 ==> b
  {
    v.Some? && v.value != "" && v.value != "0"
  }
}
