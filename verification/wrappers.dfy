/** Option and Result types shared by the whole model.
    A `Result` stands for the outcome of a call whose work is done outside the
    model (the hosted language model, the browser's file and PDF readers): it
    either carries a value or the message of the error the call threw. */
module Wrappers {

  datatype Option<+T> = None | Some(value: T)

  datatype Result<+T> = Ok(value: T) | Err(msg: string)
}
