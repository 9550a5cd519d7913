/** Option and Result, the two failure-carrying wrappers the rest of the model uses.
    `Err` stands for a Python exception that ends the current operation (or, where
    nothing catches it, the process), carrying a human-readable message. */
module Wrappers {

  datatype Option<+T> = None | Some(value: T)

  datatype Result<+T> = Ok(value: T) | Err(msg: string)
}
