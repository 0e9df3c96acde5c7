/** Option and Result values, used for the absent kmsg parser, the absent
    output stream and the fallible startup steps of the watcher. */
module Results {

  datatype Option<+T> = None | Some(value: T)

  datatype Result<+T, +E> = Ok(value: T) | Err(error: E)
}
