/** Option and result types shared by the allocator modules. */
module Wrappers {

  /** A nullable pointer: None stands for nullptr. */
  datatype Option<+T> = None | Some(value: T)

  /** Why an allocation request did not produce a payload pointer. */
  datatype AllocError =
    | InvalidSearchMode   // find_chunk's `std::invalid_argument`: no search mode selected
    | OutOfMemory         // the memory mapping failed

  datatype Result<+T> = Ok(value: T) | Err(error: AllocError)
}
