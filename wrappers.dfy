/** Option and Result, for the values the sampler may lack and the assertions it may fail. */
module Wrappers {

  datatype Option<+T> = None | Some(value: T)

  datatype Result<+T> = Ok(value: T) | Err(message: string)
}
