/** Outcomes shared by the components. */
module Results {
  datatype Option<+T> = None | Some(value: T)

  /** The library's error codes that the modelled functions can return. */
  datatype Status = Ok | Error | InvalidArg | Memory | NotFound
}
