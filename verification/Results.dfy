/** Results of operations, and the ways they fail. */
module Results {

  /** The codes of the source, then two outcomes its codes do not cover: `Thrown` is the exception
      of `unwrap` on an error, `Fault` an access outside the memory the code owns. */
  datatype Error =
    | Finished
    | InvalidArg
    | OutOfResource
    | Invalid
    | NotExist
    | AlreadyExist
    | NotEmpty
    | Thrown
    | Fault

  datatype Result<+T> = Ok(value: T) | Err(error: Error)
}
