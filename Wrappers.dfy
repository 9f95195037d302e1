/** Option and Result, the two failure-carrying types the client model uses. */
module Wrappers {

  /** `None` stands for JavaScript's `undefined` (an omitted argument) or, for
      numbers, for `NaN`. */
  datatype Option<+T> = None | Some(value: T)

  /** `Err` carries a transport error; `Ok` a value delivered to the caller. */
  datatype Result<+T> = Ok(value: T) | Err(error: string)
}
