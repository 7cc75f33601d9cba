/** Option and Result, the shapes every component uses for absent values and raised exceptions. */
module Results {

  datatype Option<+T> = None | Some(value: T)

  /** `Raised` stands for an exception leaving the modelled call; `error` names which one. */
  datatype Result<+T, +E> = Ok(value: T) | Raised(error: E)
}
