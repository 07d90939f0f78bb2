/** Failure-compatible optional values and results, used where the scripts
    return `None` or stop with an error. */
module Options {

  datatype Option<+T> = None | Some(value: T)

  datatype Result<+R, +E> = Ok(value: R) | Err(error: E)
}
