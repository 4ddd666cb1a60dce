/** Failure-carrying results. A `Err` stands for a call that the original
    program ends with a runtime error (or an `exit`): the message is the one
    the program prints. */
module Wrappers {

  datatype Option<+T> = None | Some(value: T)

  datatype Result<+T> = Ok(value: T) | Err(error: string)
}
