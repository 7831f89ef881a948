/** Option and Result values used across the model. Every failure of the
    record store is reported as the single error outcome `Failed`: the
    source throws an `Error` whose message only names the operation. */
module Wrappers {

  datatype Option<+T> = None | Some(value: T)

  datatype Result<+T> = Ok(value: T) | Failed
}
