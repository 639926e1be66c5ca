/** Option and Result types shared by the solver and the problem plug-ins. */
module Wrappers {

  datatype Option<+T> = None | Some(value: T)

  /** The Python exceptions the modelled code can raise. */
  datatype PyError =
    | IndexError  // indexing or random.choice on an empty list
    | ValueError  // random.randrange on an empty range

  datatype Result<+T> = Ok(value: T) | Err(error: PyError)
}
