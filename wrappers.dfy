/** Option and Result values used where the editor code has null or throws. */
module Wrappers {
  datatype Option<+T> = None | Some(value: T)

  /** The only exception the modelled code can raise: int.Parse on a digit run above int.MaxValue. */
  datatype Error = Overflow

  datatype Result<+T> = Ok(value: T) | Err(error: Error)
}
